/**
 The boolean filters, which skip `.distinct()` for `isnull=True` on the ground that an outer join finds
 a missing relation once.  That holds for some paths only; here are exactly those paths.
*/
module BooleanFilters {
  import opened Collections
  import opened Joins
  import opened Querysets
  import opened Filters

  function NullLeaf(path: seq<Field>, isNull: bool): (leaf: Leaf) {
    Leaf(path, (c: Cell) => c.None? == isNull)
  }

  /** After the first to-many relation of the path, every further step always finds a row. */
  predicate NullOnce(path: seq<Field>) {
    forall i, j :: 0 <= i < j < |path| && path[i].ToMany() ==> path[j].required && !path[j].ToMany()
  }

  // ----- a single lookup is a chain of joins

  function Chain(path: seq<Field>): (plan: Plan)
    ensures |plan| == |path| && WellFormed(plan)
    ensures forall k :: 0 <= k < |plan| ==> plan[k] == Alias(k, path[k])
  {
    seq(|path|, k requires 0 <= k < |path| => Alias(k, path[k]))
  }

  lemma {:induction false} AddPathChains(path: seq<Field>, k: nat)
    requires k <= |path|
    ensures AddPath(Chain(path[..k]), k, path[k..]) == (Chain(path), |path|)
    decreases |path| - k
  {
    if k == |path| {
      assert path[..k] == path && path[k..] == [];
    } else {
      AddPathChains(path, k + 1);
      ChainLink(path, k);
    }
  }

  lemma ChainLink(path: seq<Field>, k: nat)
    requires k < |path|
    ensures AddPath(Chain(path[..k]), k, path[k..]) == AddPath(Chain(path[..k + 1]), k + 1, path[k + 1..])
  {
    var plan, step := Chain(path[..k]), Alias(k, path[k]);
    assert step !in plan;
    assert Chain(path[..k + 1]) == plan + [step];
    assert path[k..][0] == path[k] && path[k..][1..] == path[k + 1..];
  }

  lemma SingleLookupChains(leaf: Leaf)
    ensures Compile([leaf]) == (Chain(leaf.path), [|leaf.path|])
  {
    AddPathChains(leaf.path, 0);
    var plan := AddPath([], 0, leaf.path);
    assert leaf.path[0..] == leaf.path && leaf.path[..0] == [] && Chain([]) == [];
    assert Compile([]) == ([], []);
    assert [leaf][..0] == [] && [leaf][0] == leaf;
    assert [] + [plan.1] == [plan.1];
  }

  lemma {:induction false} ChainPath(path: seq<Field>, k: nat)
    requires k <= |path|
    ensures PathTo(Chain(path), k) == path[..k]
  {
    if k > 0 {
      ChainPath(path, k - 1);
      assert path[..k] == path[..k - 1] + [path[k - 1]];
    }
  }

  /** The last column of a chain holds exactly the cells at which the path arrives. */
  lemma ChainEnds(db: Database, path: seq<Field>, root: Row, c: Cell)
    ensures c in Arrivals(db, path, root) <==> exists t: Tuple :: t in JoinRows(db, Chain(path), root) && t[|path|] == c
  {
    ChainPath(path, |path|);
    assert path[..|path|] == path;
    if c in Arrivals(db, path, root) {
      var t := EndFound(db, path, root, c);
    }
    if t: Tuple :| t in JoinRows(db, Chain(path), root) && t[|path|] == c {
      JoinRowsMembers(db, Chain(path), root, t);
      JoinIsSound(db, Chain(path), root, t, |path|);
    }
  }

  lemma ChainGrows(db: Database, front: seq<Field>, f: Field, root: Row)
    ensures |JoinRows(db, Chain(front + [f]), root)| >= |JoinRows(db, Chain(front), root)|
    ensures |JoinRows(db, Chain(front), root)| == 1 ==>
      |JoinRows(db, Chain(front + [f]), root)| == |Next(db, JoinRows(db, Chain(front), root)[0][|front|], f)|
  {
    var plan := Chain(front + [f]);
    assert plan[..|front|] == Chain(front);
    var rows := JoinRows(db, Chain(front), root);
    if |rows| == 1 {
      assert rows[1..] == [] && Expand(db, rows[1..], plan[|front|], |plan|) == [];
    }
  }

  lemma ChainToOne(path: seq<Field>)
    requires AllToOne(path)
    ensures PlanToOne(Chain(path))
  {
    forall a | a in Chain(path) ensures !a.field.ToMany() {
      var k :| 0 <= k < |path| && Chain(path)[k] == a;
      assert path[k] in path;
    }
  }

  // ----- the safe paths: at most one row of the join ends in NULL

  lemma {:induction false} SafeChainEnds(db: Database, path: seq<Field>, root: Row)
    requires Conforms(db) && NullOnce(path)
    ensures |JoinRows(db, Chain(path), root)| == 1 || None !in Arrivals(db, path, root)
    decreases |path|
  {
    if path != [] {
      var front, f := path[..|path| - 1], path[|path| - 1];
      assert path == front + [f];
      SafeChainEnds(db, front, root);
      SafeChainStep(db, front, f, root);
    } else {
      assert Chain(path) == [];
    }
  }

  lemma SafeChainStep(db: Database, front: seq<Field>, f: Field, root: Row)
    requires Conforms(db) && NullOnce(front + [f])
    requires |JoinRows(db, Chain(front), root)| == 1 || None !in Arrivals(db, front, root)
    ensures |JoinRows(db, Chain(front + [f]), root)| == 1 || None !in Arrivals(db, front + [f], root)
  {
    if None in Arrivals(db, front + [f], root) {
      if AllToOne(front) {
        ChainToOne(front);
        ToOneJoinsOnce(db, Chain(front), root);
        NullAfterOneRow(db, front, f, root);
      } else {
        LaterIsRequired(front, f);
        NullThroughRequired(db, front, f, root);
      }
    }
  }

  /** The only joined row ends in a row without links, or in NULL: one more join does not multiply it. */
  lemma NullAfterOneRow(db: Database, front: seq<Field>, f: Field, root: Row)
    requires |JoinRows(db, Chain(front), root)| == 1 && None in Arrivals(db, front + [f], root)
    ensures |JoinRows(db, Chain(front + [f]), root)| == 1
  {
    var b := LastLink(db, front, f, root, None);
    ChainGrows(db, front, f, root);
    OnlyEnd(db, front, root, b);
  }

  lemma OnlyEnd(db: Database, path: seq<Field>, root: Row, c: Cell)
    requires |JoinRows(db, Chain(path), root)| == 1 && c in Arrivals(db, path, root)
    ensures JoinRows(db, Chain(path), root)[0][|path|] == c
  {
    var t := EndFound(db, path, root, c);
    assert t == JoinRows(db, Chain(path), root)[0];
  }

  lemma EndFound(db: Database, path: seq<Field>, root: Row, c: Cell) returns (t: Tuple)
    requires c in Arrivals(db, path, root)
    ensures t in JoinRows(db, Chain(path), root) && t[|path|] == c
  {
    ChainPath(path, |path|);
    assert path[..|path|] == path;
    t := JoinIsComplete(db, Chain(path), root, |path|, c);
    JoinRowsMembers(db, Chain(path), root, t);
  }

  /** A required relation finds NULL behind NULL only. */
  lemma NullThroughRequired(db: Database, front: seq<Field>, f: Field, root: Row)
    requires Conforms(db) && f.required && !f.ToMany() && None in Arrivals(db, front + [f], root)
    requires |JoinRows(db, Chain(front), root)| == 1 || None !in Arrivals(db, front, root)
    ensures |JoinRows(db, Chain(front + [f]), root)| == 1
  {
    var b := LastLink(db, front, f, root, None);
    assert b.None?;
    NullAfterOneRow(db, front, f, root);
  }

  lemma LaterIsRequired(front: seq<Field>, f: Field)
    requires NullOnce(front + [f]) && !AllToOne(front)
    ensures f.required && !f.ToMany()
  {
    var g :| g in front && g.ToMany();
    var i :| 0 <= i < |front| && front[i] == g;
    assert (front + [f])[i] == g && (front + [f])[|front|] == f;
  }

  // ----- the unsafe paths: a database in which two rows of the join end in NULL

  /** Row 0 has two related rows behind every to-many relation; rows 1 and 2 have only what is required. */
  function SparseDatabase(): (db: Database)
    ensures Conforms(db)
  {
    (f: Field, r: Row) =>
      if f.ToMany() then (if r == 0 then [1, 2] else [])
      else if f.required || r == 0 then [r] else []
  }

  lemma SparseNext(c: Cell, f: Field)
    ensures c == Some(0) && !f.ToMany() ==> forall d :: d in Next(SparseDatabase(), c, f) ==> d == Some(0)
    ensures c == Some(0) && f.ToMany() ==> Some(0) !in Next(SparseDatabase(), c, f)
    ensures c != Some(0) ==> Some(0) !in Next(SparseDatabase(), c, f)
    ensures c != Some(0) && !(f.required && !f.ToMany()) ==> forall d :: d in Next(SparseDatabase(), c, f) ==> d == None
  {
  }

  lemma {:induction false} SparseArrivals(path: seq<Field>, d: Cell)
    requires d in Arrivals(SparseDatabase(), path, 0)
    ensures d == Some(0) <==> AllToOne(path)
    decreases |path|
  {
    if path != [] {
      var front, f := path[..|path| - 1], path[|path| - 1];
      assert path == front + [f];
      AllToOneConcat(front, [f]);
      var c := LastLink(SparseDatabase(), front, f, 0, d);
      SparseArrivals(front, c);
      SparseNext(c, f);
    }
  }

  lemma {:induction false} SparseUnsafeArrivals(path: seq<Field>, d: Cell)
    requires !NullOnce(path) && d in Arrivals(SparseDatabase(), path, 0)
    ensures d == None
    decreases |path|
  {
    var front, f := path[..|path| - 1], path[|path| - 1];
    assert path == front + [f];
    var c := LastLink(SparseDatabase(), front, f, 0, d);
    SparseNext(c, f);
    if NullOnce(front) {
      UnsafeStep(front, f);
      SparseArrivals(front, c);
    } else {
      SparseUnsafeArrivals(front, c);
    }
  }

  lemma {:induction false} SparseChainForks(path: seq<Field>)
    requires !AllToOne(path)
    ensures |JoinRows(SparseDatabase(), Chain(path), 0)| >= 2
    decreases |path|
  {
    var front, f := path[..|path| - 1], path[|path| - 1];
    assert path == front + [f];
    ChainGrows(SparseDatabase(), front, f, 0);
    if !AllToOne(front) {
      SparseChainForks(front);
    } else {
      assert f.ToMany();
      ChainToOne(front);
      ToOneJoinsOnce(SparseDatabase(), Chain(front), 0);
      var t := JoinRows(SparseDatabase(), Chain(front), 0)[0];
      ChainEnds(SparseDatabase(), front, 0, t[|front|]);
      SparseArrivals(front, t[|front|]);
    }
  }

  /** A path first becomes unsafe by a step, behind a to-many relation, that may find nothing. */
  lemma UnsafeStep(front: seq<Field>, f: Field)
    requires NullOnce(front) && !NullOnce(front + [f])
    ensures !AllToOne(front) && !(f.required && !f.ToMany())
  {
    var path := front + [f];
    var i, j :| 0 <= i < j < |path| && path[i].ToMany() && !(path[j].required && !path[j].ToMany());
    assert path[i] == front[i];
    assert j < |front| ==> path[j] == front[j];
  }

  // ----- isnull=True

  /** Filtering by `isnull=True` without `.distinct()` repeats no row, whatever the database. */
  ghost predicate NullNeverRepeats(path: seq<Field>) {
    forall db: Database, qs: seq<Row> :: Conforms(db) && NoDuplicates(qs) ==>
      NoDuplicates(Apply(db, qs, [NullLeaf(path, true)], false))
  }

  /** The number of joined rows of a single lookup that pass its test. */
  function Endings(db: Database, leaf: Leaf, row: Row): (n: nat) {
    MatchCount(JoinRows(db, Chain(leaf.path), row), AnyLeaf([leaf], [|leaf.path|]))
  }

  lemma SingleLookupRepeats(db: Database, qs: seq<Row>, leaf: Leaf)
    requires NoDuplicates(qs)
    ensures NoDuplicates(Apply(db, qs, [leaf], false)) <==> forall x :: x in qs ==> Endings(db, leaf, x) <= 1
  {
    SingleLookupChains(leaf);
    var where := AnyLeaf([leaf], [|leaf.path|]);
    FilterRepeatsAtMost(db, qs, Chain(leaf.path), where);
    assert forall x :: x in qs ==> Copies(db, Chain(leaf.path), where, x) == Endings(db, leaf, x);
  }

  lemma SafePathEndings(db: Database, path: seq<Field>, row: Row)
    requires Conforms(db) && NullOnce(path)
    ensures Endings(db, NullLeaf(path, true), row) <= 1
  {
    SafeChainEnds(db, path, row);
    var rows := JoinRows(db, Chain(path), row);
    if i :| 0 <= i < |rows| && AnyLeaf([NullLeaf(path, true)], [|path|])(rows[i]) {
      assert rows[i] in rows;
      ChainEnds(db, path, row, rows[i][|path|]);
    }
  }

  lemma SafePathNeverRepeats(path: seq<Field>)
    requires NullOnce(path)
    ensures NullNeverRepeats(path)
  {
    forall db: Database, qs: seq<Row> | Conforms(db) && NoDuplicates(qs)
      ensures NoDuplicates(Apply(db, qs, [NullLeaf(path, true)], false))
    {
      forall x | x in qs { SafePathEndings(db, path, x); }
      SingleLookupRepeats(db, qs, NullLeaf(path, true));
    }
  }

  lemma UnsafePathEndings(path: seq<Field>)
    requires !NullOnce(path)
    ensures Endings(SparseDatabase(), NullLeaf(path, true), 0) >= 2
  {
    var rows := JoinRows(SparseDatabase(), Chain(path), 0);
    var where := AnyLeaf([NullLeaf(path, true)], [|path|]);
    assert !AllToOne(path) by {
      var i, j :| 0 <= i < j < |path| && path[i].ToMany() && !(path[j].required && !path[j].ToMany());
      assert path[i] in path;
    }
    SparseChainForks(path);
    forall i | 0 <= i < |rows| ensures where(rows[i]) {
      assert rows[i] in rows;
      ChainEnds(SparseDatabase(), path, 0, rows[i][|path|]);
      SparseUnsafeArrivals(path, rows[i][|path|]);
      assert [|path|][0] < |rows[i]| && [NullLeaf(path, true)][0].test(rows[i][[|path|][0]]);
    }
    MatchAll(rows, where);
  }

  lemma UnsafePathRepeats(path: seq<Field>)
    requires !NullOnce(path)
    ensures !NoDuplicates(Apply(SparseDatabase(), [0], [NullLeaf(path, true)], false))
  {
    UnsafePathEndings(path);
    var qs: seq<Row> := [0];
    assert 0 in qs;
    SingleLookupRepeats(SparseDatabase(), qs, NullLeaf(path, true));
  }

  /** The claim that `isnull=True` cannot return duplicates is true of exactly the `NullOnce` paths. */
  lemma NullNeverRepeatsExactly(path: seq<Field>)
    ensures NullNeverRepeats(path) <==> NullOnce(path)
  {
    if NullOnce(path) {
      SafePathNeverRepeats(path);
    } else {
      UnsafePathRepeats(path);
      var qs: seq<Row> := [0];
      assert NoDuplicates(qs) && Conforms(SparseDatabase());
      assert !NoDuplicates(Apply(SparseDatabase(), qs, [NullLeaf(path, true)], false));
    }
  }

  // ----- BooleanFilter

  datatype BooleanLookup = IsNull | Other(test: (bool, Cell) -> bool)

  function BooleanLeaf(path: seq<Field>, lookup: BooleanLookup, value: bool): (leaf: Leaf) {
    match lookup
    case IsNull => NullLeaf(path, value)
    case Other(test) => Leaf(path, (c: Cell) => test(value, c))
  }

  function FilterBoolean(
    f: AutoDistinct, lookup: BooleanLookup, db: Database, qs: seq<Row>, value: Option<bool>): (r: seq<Row>)
  {
    if value.None? then qs
    else
      var r := Apply(db, qs, [BooleanLeaf(f.field.joins, lookup, value.value)], f.exclude);
      if DerivedDistinct(f) && !(lookup.IsNull? && value.value) then Distinct(r) else r
  }

  ghost predicate BooleanNeverRepeats(f: AutoDistinct, lookup: BooleanLookup) {
    forall db: Database, qs: seq<Row>, value: Option<bool> ::
      Conforms(db) && NoDuplicates(qs) ==> NoDuplicates(FilterBoolean(f, lookup, db, qs, value))
  }

  /** The answer is right as a set for every path ... */
  lemma FilterBooleanSelects(f: AutoDistinct, lookup: BooleanLookup, db: Database, qs: seq<Row>, value: bool)
    ensures FilterBoolean(f, lookup, db, qs, None) == qs
    ensures forall r :: r in FilterBoolean(f, lookup, db, qs, Some(value)) <==>
      r in qs && SomeEnd(db, f.field.joins, lookup, value, r) != f.exclude
  {
    ApplyOneSelects(db, qs, BooleanLeaf(f.field.joins, lookup, value), f.exclude);
    forall r: Row { BooleanLeafHolds(db, f.field.joins, lookup, value, r); }
  }

  /** Some cell at the end of the path is missing as asked, or passes the lookup's test. */
  ghost predicate SomeEnd(db: Database, path: seq<Field>, lookup: BooleanLookup, value: bool, row: Row) {
    match lookup
    case IsNull => exists c :: c in Arrivals(db, path, row) && c.None? == value
    case Other(test) => exists c :: c in Arrivals(db, path, row) && test(value, c)
  }

  lemma BooleanLeafHolds(db: Database, path: seq<Field>, lookup: BooleanLookup, value: bool, row: Row)
    ensures Holds(db, BooleanLeaf(path, lookup, value), row) <==> SomeEnd(db, path, lookup, value, row)
  {
    var leaf := BooleanLeaf(path, lookup, value);
    assert forall c: Cell :: leaf.test(c) <==> if lookup.IsNull? then c.None? == value else lookup.test(value, c);
  }

  lemma BooleanKeepsNoDuplicates(
    f: AutoDistinct, lookup: BooleanLookup, db: Database, qs: seq<Row>, value: Option<bool>)
    requires IsDerived(f) && f.excludeUsesSubquery
    requires lookup.Other? || f.exclude || NullOnce(f.field.joins)
    requires Conforms(db) && NoDuplicates(qs)
    ensures NoDuplicates(FilterBoolean(f, lookup, db, qs, value))
  {
    if value.Some? {
      if f.exclude || AllToOne(f.field.joins) {
        ApplyKeepsNoDuplicates(db, qs, [BooleanLeaf(f.field.joins, lookup, value.value)], f.exclude);
      } else if lookup.IsNull? && value.value {
        SafePathNeverRepeats(f.field.joins);
      }
    }
  }

  /** ... and free of duplicates exactly for the excluding filters, the other lookups and the `NullOnce` paths. */
  lemma BooleanNeverRepeatsExactly(f: AutoDistinct, lookup: BooleanLookup)
    requires IsDerived(f) && f.excludeUsesSubquery
    ensures BooleanNeverRepeats(f, lookup) <==> lookup.Other? || f.exclude || NullOnce(f.field.joins)
  {
    if lookup.Other? || f.exclude || NullOnce(f.field.joins) {
      forall db: Database, qs: seq<Row>, value: Option<bool> | Conforms(db) && NoDuplicates(qs)
        ensures NoDuplicates(FilterBoolean(f, lookup, db, qs, value))
      {
        BooleanKeepsNoDuplicates(f, lookup, db, qs, value);
      }
    } else {
      UnsafePathRepeats(f.field.joins);
      var qs: seq<Row> := [0];
      assert NoDuplicates(qs) && Conforms(SparseDatabase());
      assert !NoDuplicates(FilterBoolean(f, lookup, SparseDatabase(), qs, Some(true)));
    }
  }

  // ----- RelatedMembershipBooleanFilter: `exclude` is the value to look up

  function FilterMembership(f: AutoDistinct, db: Database, qs: seq<Row>, value: Option<bool>): (r: seq<Row>) {
    if value.None? then qs
    else if value.value then
      var r := Apply(db, qs, [NullLeaf(f.field.joins, f.exclude)], false);
      if DerivedDistinct(f) && !f.exclude then Distinct(r) else r
    else Apply(db, qs, [NullLeaf(f.field.joins, f.exclude)], true)
  }

  /** Some cell at the end of the path is (not) NULL. */
  ghost predicate HasCell(db: Database, path: seq<Field>, row: Row, isNull: bool) {
    exists c :: c in Arrivals(db, path, row) && c.None? == isNull
  }

  /** The four rows of the documented table; for either `exclude`, the two answers partition the queryset. */
  lemma MembershipTable(f: AutoDistinct, db: Database, qs: seq<Row>, row: Row)
    ensures row in FilterMembership(f, db, qs, Some(true)) <==> row in qs && HasCell(db, f.field.joins, row, f.exclude)
    ensures row in FilterMembership(f, db, qs, Some(false)) <==>
      row in qs && !HasCell(db, f.field.joins, row, f.exclude)
    ensures FilterMembership(f, db, qs, None) == qs
  {
    var leaf := NullLeaf(f.field.joins, f.exclude);
    ApplyOneSelects(db, qs, leaf, false);
    ApplyOneSelects(db, qs, leaf, true);
  }

  ghost predicate MembershipNeverRepeats(f: AutoDistinct) {
    forall db: Database, qs: seq<Row>, value: Option<bool> ::
      Conforms(db) && NoDuplicates(qs) ==> NoDuplicates(FilterMembership(f, db, qs, value))
  }

  lemma MembershipKeepsNoDuplicates(f: AutoDistinct, db: Database, qs: seq<Row>, value: Option<bool>)
    requires IsDerived(f) && !f.excludeUsesSubquery
    requires !f.exclude || NullOnce(f.field.joins)
    requires Conforms(db) && NoDuplicates(qs)
    ensures NoDuplicates(FilterMembership(f, db, qs, value))
  {
    var path := f.field.joins;
    if value == Some(false) {
      ApplyKeepsNoDuplicates(db, qs, [NullLeaf(path, f.exclude)], true);
    } else if value == Some(true) && f.exclude {
      SafePathNeverRepeats(path);
    } else if value == Some(true) && AllToOne(path) {
      ApplyKeepsNoDuplicates(db, qs, [NullLeaf(path, f.exclude)], false);
    }
  }

  /** Skipping `.distinct()` for `exclude=True` is right for exactly the `NullOnce` paths. */
  lemma MembershipNeverRepeatsExactly(f: AutoDistinct)
    requires IsDerived(f) && !f.excludeUsesSubquery
    ensures MembershipNeverRepeats(f) <==> !f.exclude || NullOnce(f.field.joins)
  {
    if !f.exclude || NullOnce(f.field.joins) {
      forall db: Database, qs: seq<Row>, value: Option<bool> | Conforms(db) && NoDuplicates(qs)
        ensures NoDuplicates(FilterMembership(f, db, qs, value))
      {
        MembershipKeepsNoDuplicates(f, db, qs, value);
      }
    } else {
      UnsafePathRepeats(f.field.joins);
      var qs: seq<Row> := [0];
      assert NoDuplicates(qs) && Conforms(SparseDatabase());
      assert !NoDuplicates(FilterMembership(f, SparseDatabase(), qs, Some(true)));
    }
  }
}
