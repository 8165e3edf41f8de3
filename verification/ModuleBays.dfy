/**
 `has_empty_module_bays`, a filter method that joins a to-many relation and never calls `.distinct()`:
 what it selects, and how often it returns each row.
*/
module ModuleBays {
  import opened Collections
  import opened Joins
  import opened Querysets

  const MODULE_BAYS := Field("Device", "module_bays", false, true, false)
  const INSTALLED_MODULE := Field("ModuleBay", "installed_module", false, false, false)

  predicate IsEmptyBay(db: Database, bay: Row) {
    db(INSTALLED_MODULE, bay) == []
  }

  function CountEmpty(db: Database, bays: seq<Row>): (n: nat)
    ensures n > 0 <==> exists bay :: bay in bays && IsEmptyBay(db, bay)
  {
    if bays == [] then 0 else (if IsEmptyBay(db, bays[0]) then 1 else 0) + CountEmpty(db, bays[1..])
  }

  /** Some bay of the row holds no module. */
  predicate HasEmptyBay(db: Database, row: Row) {
    exists bay :: bay in db(MODULE_BAYS, row) && IsEmptyBay(db, bay)
  }

  function BayJoin(): (plan: Plan)
    ensures WellFormed(plan)
  {
    [Alias(0, MODULE_BAYS)]
  }

  function BayAndModuleJoin(): (plan: Plan)
    ensures WellFormed(plan)
  {
    [Alias(0, MODULE_BAYS), Alias(1, INSTALLED_MODULE)]
  }

  /** `module_bays__isnull=False, module_bays__installed_module__isnull=True`: both on the same joined row. */
  predicate EmptyBayRow(t: Tuple) {
    |t| == 3 && t[1].Some? && t[2].None?
  }

  /** `module_bays__isnull=True | ~(module_bays__installed_module__isnull=True)`: the negated part is a subquery. */
  function NoEmptyBayRow(db: Database): (where: Where) {
    (t: Tuple) => |t| == 2 && (t[1].None? || (t[0].Some? && !HasEmptyBay(db, t[0].value)))
  }

  function FilterHasEmptyModuleBays(db: Database, qs: seq<Row>, value: bool): (r: seq<Row>) {
    if value then FilterRows(db, qs, BayAndModuleJoin(), EmptyBayRow)
      else FilterRows(db, qs, BayJoin(), NoEmptyBayRow(db))
  }

  lemma BayRows(db: Database, row: Row)
    ensures JoinRows(db, BayJoin(), row) == ExtendOne([Some(row)], Next(db, Some(row), MODULE_BAYS))
  {
    var root: seq<Tuple> := [[Some(row)]];
    assert JoinRows(db, [], row) == root;
    assert BayJoin()[..0] == [];
    assert root[1..] == [];
    assert Expand(db, [], BayJoin()[0], 1) == [];
  }

  /** Joining the installed module, a to-one relation, changes no count: it decides which bays are empty. */
  lemma {:induction false} EmptyRowsAmong(db: Database, row: Row, bays: seq<Row>, tuples: seq<Tuple>)
    requires Conforms(db) && |tuples| == |bays|
    requires forall i :: 0 <= i < |bays| ==> tuples[i] == [Some(row), Some(bays[i])]
    ensures MatchCount(Expand(db, tuples, Alias(1, INSTALLED_MODULE), 2), EmptyBayRow) == CountEmpty(db, bays)
  {
    if bays != [] {
      var a := Alias(1, INSTALLED_MODULE);
      var next := Next(db, Some(bays[0]), INSTALLED_MODULE);
      assert |db(INSTALLED_MODULE, bays[0])| <= 1 && |next| == 1;
      var first := tuples[0] + [next[0]];
      assert ExtendOne(tuples[0], next) == [first];
      var rest := Expand(db, tuples[1..], a, 2);
      assert Expand(db, tuples, a, 2) == [first] + rest && ([first] + rest)[1..] == rest;
      EmptyRowsAmong(db, row, bays[1..], tuples[1..]);
      assert EmptyBayRow(first) <==> IsEmptyBay(db, bays[0]);
    }
  }

  /** `True` returns a row once for every empty bay it has. */
  lemma CopiesOfEmpty(db: Database, row: Row)
    requires Conforms(db)
    ensures Copies(db, BayAndModuleJoin(), EmptyBayRow, row) == CountEmpty(db, db(MODULE_BAYS, row))
  {
    BayRows(db, row);
    assert BayAndModuleJoin()[..1] == BayJoin();
    var bays := db(MODULE_BAYS, row);
    var tuples := JoinRows(db, BayJoin(), row);
    if bays == [] {
      var t: Tuple := [Some(row), None];
      assert |tuples| == 1 && tuples[0] == t;
      var a, none: seq<Tuple> := Alias(1, INSTALLED_MODULE), [];
      assert tuples[1..] == none && Expand(db, none, a, 2) == none;
      assert Next(db, t[a.parent], a.field) == [None];
      var joined := ExtendOne(t, [None]);
      assert Expand(db, tuples, a, 2) == joined + none == joined;
      assert joined[1..] == none;
    } else {
      EmptyRowsAmong(db, row, bays, tuples);
    }
  }

  /** `False` returns a row once for every (occupied) bay it has, or once if it has none. */
  lemma CopiesOfNonEmpty(db: Database, row: Row)
    ensures Copies(db, BayJoin(), NoEmptyBayRow(db), row) ==
      if HasEmptyBay(db, row) then 0 else if db(MODULE_BAYS, row) == [] then 1 else |db(MODULE_BAYS, row)|
  {
    BayRows(db, row);
    var rows := JoinRows(db, BayJoin(), row);
    if HasEmptyBay(db, row) {
      assert forall i :: 0 <= i < |rows| ==> !NoEmptyBayRow(db)(rows[i]);
    } else {
      MatchAll(rows, NoEmptyBayRow(db));
    }
  }

  /** The two answers are the rows with, and the rows without, an empty bay ... */
  lemma HasEmptyModuleBaysSelects(db: Database, qs: seq<Row>, value: bool, r: Row)
    requires Conforms(db)
    ensures r in FilterHasEmptyModuleBays(db, qs, value) <==> r in qs && HasEmptyBay(db, r) == value
  {
    CopiesOfEmpty(db, r);
    CopiesOfNonEmpty(db, r);
  }

  /** ... and free of duplicates exactly when no row has two empty bays ... */
  lemma WithEmptyBaysRepeatsExactly(db: Database, qs: seq<Row>)
    requires Conforms(db) && NoDuplicates(qs)
    ensures NoDuplicates(FilterHasEmptyModuleBays(db, qs, true)) <==>
      forall r :: r in qs ==> CountEmpty(db, db(MODULE_BAYS, r)) <= 1
  {
    FilterRepeatsAtMost(db, qs, BayAndModuleJoin(), EmptyBayRow);
    forall r | r in qs
      ensures Copies(db, BayAndModuleJoin(), EmptyBayRow, r) == CountEmpty(db, db(MODULE_BAYS, r))
    {
      CopiesOfEmpty(db, r);
    }
  }

  /** ... or, for the answer `False`, exactly when no row has two bays, all of them occupied. */
  lemma WithoutEmptyBaysRepeatsExactly(db: Database, qs: seq<Row>)
    requires Conforms(db) && NoDuplicates(qs)
    ensures NoDuplicates(FilterHasEmptyModuleBays(db, qs, false)) <==>
      forall r :: r in qs ==> HasEmptyBay(db, r) || |db(MODULE_BAYS, r)| <= 1
  {
    FilterRepeatsAtMost(db, qs, BayJoin(), NoEmptyBayRow(db));
    forall r | r in qs
      ensures Copies(db, BayJoin(), NoEmptyBayRow(db), r) <= 1 <==> HasEmptyBay(db, r) || |db(MODULE_BAYS, r)| <= 1
    {
      CopiesOfNonEmpty(db, r);
    }
  }

  // ----- devices that are returned twice

  /** Device 0 has bays 1 and 2, both with a module or both without. */
  function TwoBays(occupied: bool): (db: Database)
    ensures Conforms(db)
  {
    (f: Field, r: Row) =>
      if f == MODULE_BAYS then (if r == 0 then [1, 2] else [])
      else if f == INSTALLED_MODULE then (if occupied then [r] else [])
      else if f.ToMany() then [] else [r]
  }

  lemma TwoEmptyBaysRepeat()
    ensures FilterHasEmptyModuleBays(TwoBays(false), [0], true) == [0, 0]
  {
    var db := TwoBays(false);
    assert IsEmptyBay(db, 1) && IsEmptyBay(db, 2);
    assert [1, 2][1..] == [2] && [2][1..] == [];
    CopiesOfEmpty(db, 0);
    OneRowTwice(db, BayAndModuleJoin(), EmptyBayRow);
  }

  lemma TwoOccupiedBaysRepeat()
    ensures FilterHasEmptyModuleBays(TwoBays(true), [0], false) == [0, 0]
  {
    var db := TwoBays(true);
    assert !IsEmptyBay(db, 1) && !IsEmptyBay(db, 2);
    CopiesOfNonEmpty(db, 0);
    OneRowTwice(db, BayJoin(), NoEmptyBayRow(db));
  }

  lemma OneRowTwice(db: Database, plan: Plan, where: Where)
    requires WellFormed(plan) && Copies(db, plan, where, 0) == 2
    ensures FilterRows(db, [0], plan, where) == [0, 0]
  {
    var qs: seq<Row> := [0];
    assert qs[..0] == [] && FilterRows(db, [], plan, where) == [];
    assert seq(2, _ => 0) == [0, 0];
  }
}
