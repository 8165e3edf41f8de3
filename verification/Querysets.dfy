/**
 `QuerySet.filter()`, `.exclude()` and `.distinct()` over the joins, and what they select.  `filter`
 keeps one copy of a row for every joined row that satisfies the query; `exclude` is a `NOT IN`
 subquery, so it removes rows and never repeats one.
*/
module Querysets {
  import opened Collections
  import opened Joins

  type Where = Tuple -> bool

  function MatchCount(tuples: seq<Tuple>, where: Where): (n: nat)
    ensures n > 0 <==> exists i :: 0 <= i < |tuples| && where(tuples[i])
    ensures n <= |tuples|
  {
    if tuples == [] then 0
    else
      var rest := tuples[1..];
      assert forall i :: 0 <= i < |rest| ==> rest[i] == tuples[i + 1];
      assert (exists i :: 0 <= i < |tuples| && where(tuples[i])) ==>
        where(tuples[0]) || exists i :: 0 <= i < |rest| && where(rest[i]);
      (if where(tuples[0]) then 1 else 0) + MatchCount(rest, where)
  }

  /** How often `row` comes back from a `.filter()`. */
  function Copies(db: Database, plan: Plan, where: Where, row: Row): (n: nat)
    requires WellFormed(plan)
  {
    MatchCount(JoinRows(db, plan, row), where)
  }

  function Copy(row: Row, n: nat): (rows: seq<Row>)
    ensures |rows| == n && forall i :: 0 <= i < n ==> rows[i] == row
  {
    seq(n, _ => row)
  }

  function FilterRows(db: Database, qs: seq<Row>, plan: Plan, where: Where): (r: seq<Row>)
    requires WellFormed(plan)
    ensures forall x :: x in r <==> x in qs && Copies(db, plan, where, x) > 0
  {
    if qs == [] then []
    else
      var last := qs[|qs| - 1];
      assert qs == qs[..|qs| - 1] + [last];
      var copies := Copy(last, Copies(db, plan, where, last));
      assert Copies(db, plan, where, last) > 0 ==> copies[0] == last;
      FilterRows(db, qs[..|qs| - 1], plan, where) + copies
  }

  function ExcludeRows(db: Database, qs: seq<Row>, plan: Plan, where: Where): (r: seq<Row>)
    requires WellFormed(plan)
    ensures forall x :: x in r <==> x in qs && Copies(db, plan, where, x) == 0
  {
    Filtered(qs, x => Copies(db, plan, where, x) == 0)
  }

  /** Counting matches goes through the rows one by one, each of which counts once or not at all. */
  lemma {:induction false} MatchCountAdds(a: seq<Tuple>, b: seq<Tuple>, where: Where)
    ensures MatchCount(a + b, where) == MatchCount(a, where) + MatchCount(b, where)
    ensures forall t: Tuple :: MatchCount([t], where) == if where(t) then 1 else 0
  {
    forall t: Tuple ensures MatchCount([t], where) == if where(t) then 1 else 0 {
      assert [t][1..] == [] && MatchCount([], where) == 0;
    }
    if a == [] {
      assert a + b == b;
    } else {
      assert (a + b)[0] == a[0] && (a + b)[1..] == a[1..] + b;
      MatchCountAdds(a[1..], b, where);
    }
  }

  /** Every row comes back once for every matching joined row, times its own copies in the queryset. */
  lemma {:induction false} FilterRowsCount(db: Database, qs: seq<Row>, plan: Plan, where: Where, x: Row)
    requires WellFormed(plan)
    ensures multiset(FilterRows(db, qs, plan, where))[x] == Times(multiset(qs)[x], Copies(db, plan, where, x))
  {
    if qs != [] {
      var front, last := qs[..|qs| - 1], qs[|qs| - 1];
      assert qs == front + [last];
      FilterRowsCount(db, front, plan, where, x);
      FilterRowsSnoc(db, front, last, plan, where);
      CountsGrow(FilterRows(db, front, plan, where), front, last,
        Copies(db, plan, where, last), Copies(db, plan, where, x), x);
    }
  }

  lemma FilterRowsSnoc(db: Database, front: seq<Row>, last: Row, plan: Plan, where: Where)
    requires WellFormed(plan)
    ensures FilterRows(db, front + [last], plan, where) ==
      FilterRows(db, front, plan, where) + Copy(last, Copies(db, plan, where, last))
  {
    assert (front + [last])[..|front|] == front;
  }

  lemma CountsGrow(before: seq<Row>, front: seq<Row>, last: Row, m: nat, n: nat, x: Row)
    requires multiset(before)[x] == Times(multiset(front)[x], n) && (x == last ==> m == n)
    ensures multiset(before + Copy(last, m))[x] == Times(multiset(front + [last])[x], n)
  {
    CopiesCount(last, m, x);
    if x == last {
      OneMoreTime(multiset(front)[x] + 1, n);
      assert multiset(front + [last])[x] == multiset(front)[x] + 1;
    }
  }

  lemma {:induction false} CopiesCount(last: Row, n: nat, x: Row)
    ensures multiset(Copy(last, n))[x] == if x == last then n else 0
  {
    if n > 0 {
      CopiesCount(last, n - 1, x);
      assert Copy(last, n) == Copy(last, n - 1) + [last];
    }
  }

  lemma {:induction false} FilterRepeatsAtMost(db: Database, qs: seq<Row>, plan: Plan, where: Where)
    requires WellFormed(plan) && NoDuplicates(qs)
    ensures NoDuplicates(FilterRows(db, qs, plan, where)) <==> forall x :: x in qs ==> Copies(db, plan, where, x) <= 1
  {
    if qs != [] {
      var front, last := qs[..|qs| - 1], qs[|qs| - 1];
      assert qs == front + [last] && last !in front;
      FilterRepeatsAtMost(db, front, plan, where);
      CopiesRepeat(FilterRows(db, front, plan, where), last, Copies(db, plan, where, last));
    }
  }

  /** Appending `n` copies of a new value keeps a sequence duplicate-free exactly for `n <= 1`. */
  lemma CopiesRepeat(before: seq<Row>, last: Row, n: nat)
    requires last !in before
    ensures NoDuplicates(before + Copy(last, n)) <==> NoDuplicates(before) && n <= 1
  {
    var all := before + Copy(last, n);
    assert forall i :: 0 <= i < |before| ==> all[i] == before[i];
    if n >= 2 {
      assert all[|before|] == last && all[|before| + 1] == last;
    }
    if NoDuplicates(all) {
      forall i, j | 0 <= i < j < |before| ensures before[i] != before[j] {
        assert before[i] == all[i] && before[j] == all[j];
      }
    }
  }

  /** A query row counts as matched when some way of following all joins satisfies the condition. */
  lemma CopiesPositive(db: Database, plan: Plan, where: Where, row: Row)
    requires WellFormed(plan)
    ensures Copies(db, plan, where, row) > 0 <==> exists t :: IsJoined(db, plan, row, t) && where(t)
  {
    var rows := JoinRows(db, plan, row);
    if Copies(db, plan, where, row) > 0 {
      var i :| 0 <= i < |rows| && where(rows[i]);
      JoinRowsMembers(db, plan, row, rows[i]);
    }
    if t :| IsJoined(db, plan, row, t) && where(t) {
      JoinRowsMembers(db, plan, row, t);
    }
  }

  // ----- Q objects that are a disjunction of lookups

  /** One lookup: a path and the test (`__exact=...`, `__isnull=...`) on what is found at its end. */
  datatype Leaf = Leaf(path: seq<Field>, test: Cell -> bool)

  /** Following the lookup's path from the row, some cell passes its test. */
  ghost predicate Holds(db: Database, leaf: Leaf, row: Row) {
    exists c :: c in Arrivals(db, leaf.path, row) && leaf.test(c)
  }

  /** The meaning of the query, one lookup at a time and without any join. */
  ghost predicate Selects(db: Database, leaves: seq<Leaf>, row: Row) {
    exists i :: 0 <= i < |leaves| && Holds(db, leaves[i], row)
  }

  /** The shared joins of one `.filter(Q | Q | ...)` call, and the table that each lookup reads. */
  function Compile(leaves: seq<Leaf>): (r: (Plan, seq<nat>))
    ensures WellFormed(r.0) && |r.1| == |leaves|
    ensures forall i :: 0 <= i < |r.1| ==> r.1[i] <= |r.0|
  {
    if leaves == [] then ([], [])
    else
      var (plan, at) := Compile(leaves[..|leaves| - 1]);
      var (longer, last) := AddPath(plan, 0, leaves[|leaves| - 1].path);
      (longer, at + [last])
  }

  lemma {:induction false} CompileLeads(leaves: seq<Leaf>, i: nat)
    requires i < |leaves|
    ensures var (plan, at) := Compile(leaves); PathTo(plan, at[i]) == leaves[i].path
  {
    var n := |leaves| - 1;
    var (plan, at) := Compile(leaves[..n]);
    var (longer, last) := AddPath(plan, 0, leaves[n].path);
    if i == n {
      AddPathLeads(plan, 0, leaves[n].path);
    } else {
      CompileLeads(leaves[..n], i);
      PathToOfPrefix(longer, plan, at[i]);
    }
  }

  lemma CompileSnoc(front: seq<Leaf>, last: Leaf)
    ensures Compile(front + [last]).0 == AddPath(Compile(front).0, 0, last.path).0
  {
    assert (front + [last])[..|front|] == front;
  }

  lemma {:induction false} CompileToOne(leaves: seq<Leaf>)
    ensures PlanToOne(Compile(leaves).0) <==> PathsToOne(leaves)
  {
    if leaves == [] {
      assert Compile(leaves).0 == [];
    } else {
      var front, last := leaves[..|leaves| - 1], leaves[|leaves| - 1];
      assert leaves == front + [last];
      CompileToOne(front);
      CompileSnoc(front, last);
      AddPathToOne(Compile(front).0, 0, last.path);
      PathsToOneSnoc(front, last);
    }
  }

  lemma PathsToOneSnoc(front: seq<Leaf>, last: Leaf)
    ensures PathsToOne(front + [last]) <==> PathsToOne(front) && AllToOne(last.path)
  {
    var all := front + [last];
    assert forall i :: 0 <= i < |front| ==> all[i] == front[i];
    assert all[|front|] == last;
  }

  function AnyLeaf(leaves: seq<Leaf>, at: seq<nat>): Where
    requires |at| == |leaves|
  {
    (t: Tuple) => exists i :: 0 <= i < |leaves| && at[i] < |t| && leaves[i].test(t[at[i]])
  }

  /** `get_method(qs)(query)`. An empty Q adds no condition to either method. */
  function Apply(db: Database, qs: seq<Row>, leaves: seq<Leaf>, exclude: bool): (r: seq<Row>) {
    var (plan, at) := Compile(leaves);
    if leaves == [] then qs
    else if exclude then ExcludeRows(db, qs, plan, AnyLeaf(leaves, at))
    else FilterRows(db, qs, plan, AnyLeaf(leaves, at))
  }

  /** Joining all lookups at once and testing the joined rows is the same as following each lookup by itself. */
  lemma CopiesMeanSelected(db: Database, leaves: seq<Leaf>, row: Row)
    ensures var (plan, at) := Compile(leaves);
      Copies(db, plan, AnyLeaf(leaves, at), row) > 0 <==> Selects(db, leaves, row)
  {
    var (plan, at) := Compile(leaves);
    var where := AnyLeaf(leaves, at);
    CopiesPositive(db, plan, where, row);
    if t :| IsJoined(db, plan, row, t) && where(t) {
      var i :| 0 <= i < |leaves| && at[i] < |t| && leaves[i].test(t[at[i]]);
      CompileLeads(leaves, i);
      JoinIsSound(db, plan, row, t, at[i]);
      assert Holds(db, leaves[i], row);
    }
    if Selects(db, leaves, row) {
      var i :| 0 <= i < |leaves| && Holds(db, leaves[i], row);
      var c :| c in Arrivals(db, leaves[i].path, row) && leaves[i].test(c);
      CompileLeads(leaves, i);
      var t := JoinIsComplete(db, plan, row, at[i], c);
      assert where(t);
    }
  }

  /** As a set, the result is the plain comprehension over the queryset. */
  lemma ApplySelects(db: Database, qs: seq<Row>, leaves: seq<Leaf>, exclude: bool)
    ensures forall r :: r in Apply(db, qs, leaves, exclude) <==>
      r in qs && (leaves == [] || Selects(db, leaves, r) != exclude)
  {
    forall r { CopiesMeanSelected(db, leaves, r); }
  }

  lemma SelectsOne(db: Database, leaf: Leaf, row: Row)
    ensures Selects(db, [leaf], row) <==> Holds(db, leaf, row)
  {
    assert [leaf][0] == leaf;
  }

  lemma ApplyOneSelects(db: Database, qs: seq<Row>, leaf: Leaf, exclude: bool)
    ensures forall r :: r in Apply(db, qs, [leaf], exclude) <==> r in qs && Holds(db, leaf, r) != exclude
  {
    ApplySelects(db, qs, [leaf], exclude);
    forall r: Row { SelectsOne(db, leaf, r); }
  }

  /** `filter` and `exclude` with one query partition every queryset. */
  lemma FilterAndExcludePartition(db: Database, qs: seq<Row>, leaves: seq<Leaf>, r: Row)
    requires leaves != [] && r in qs
    ensures r in Apply(db, qs, leaves, false) <==> r !in Apply(db, qs, leaves, true)
  {
    ApplySelects(db, qs, leaves, false);
    ApplySelects(db, qs, leaves, true);
  }

  predicate PathsToOne(leaves: seq<Leaf>) {
    forall i :: 0 <= i < |leaves| ==> AllToOne(leaves[i].path)
  }

  /** Excluding, or joining to-one relations only, cannot repeat a row. */
  lemma ApplyKeepsNoDuplicates(db: Database, qs: seq<Row>, leaves: seq<Leaf>, exclude: bool)
    requires Conforms(db) && NoDuplicates(qs) && (exclude || PathsToOne(leaves))
    ensures NoDuplicates(Apply(db, qs, leaves, exclude))
  {
    if leaves != [] {
      var (plan, at) := Compile(leaves);
      var where := AnyLeaf(leaves, at);
      CompileToOne(leaves);
      if exclude {
        FilteredKeepsNoDuplicates(qs, x => Copies(db, plan, where, x) == 0);
      } else {
        forall x | x in qs ensures Copies(db, plan, where, x) <= 1 {
          ToOneJoinsOnce(db, plan, x);
        }
        FilterRepeatsAtMost(db, qs, plan, where);
      }
    }
  }

  // ----- when `.distinct()` is needed

  /** No conforming database, duplicate-free queryset or choice of tests makes this filter repeat a row. */
  ghost predicate NeverRepeats(paths: seq<seq<Field>>, exclude: bool) {
    forall db: Database, qs: seq<Row>, leaves: seq<Leaf> ::
      Conforms(db) && NoDuplicates(qs) && Paths(leaves) == paths ==> NoDuplicates(Apply(db, qs, leaves, exclude))
  }

  function Paths(leaves: seq<Leaf>): (paths: seq<seq<Field>>)
    ensures |paths| == |leaves| && forall i :: 0 <= i < |paths| ==> paths[i] == leaves[i].path
  {
    seq(|leaves|, i requires 0 <= i < |leaves| => leaves[i].path)
  }

  /** Every to-many relation has two rows behind it, every to-one relation one. */
  function CrowdedDatabase(): (db: Database)
    ensures Conforms(db)
  {
    (f: Field, r: Row) => if f.ToMany() then [0, 1] else [0]
  }

  lemma {:induction false} CrowdedJoins(plan: Plan, root: Row)
    requires WellFormed(plan) && !PlanToOne(plan)
    ensures |JoinRows(CrowdedDatabase(), plan, root)| >= 2
    decreases |plan|
  {
    var shorter, last := plan[..|plan| - 1], plan[|plan| - 1];
    assert plan == shorter + [last];
    if !PlanToOne(shorter) {
      CrowdedJoins(shorter, root);
    } else {
      CrowdedLastJoin(shorter, last, root);
    }
  }

  lemma CrowdedLastJoin(shorter: Plan, last: Alias, root: Row)
    requires WellFormed(shorter) && last.parent <= |shorter| && last.field.ToMany()
    ensures WellFormed(shorter + [last]) && |JoinRows(CrowdedDatabase(), shorter + [last], root)| >= 2
  {
    var plan := shorter + [last];
    assert plan[..|plan| - 1] == shorter;
    var rows := JoinRows(CrowdedDatabase(), shorter, root);
    JoinRowsMembers(CrowdedDatabase(), shorter, root, rows[0]);
    CrowdedCells(shorter, root, rows[0], last.parent);
    ExpandAtLeast(CrowdedDatabase(), rows, last, |plan|);
  }

  lemma {:induction false} CrowdedCells(plan: Plan, root: Row, t: Tuple, k: nat)
    requires WellFormed(plan) && IsJoined(CrowdedDatabase(), plan, root, t) && k <= |plan|
    ensures t[k].Some?
    decreases k
  {
    if k > 0 {
      CrowdedCells(plan, root, t, plan[k - 1].parent);
      assert Found(CrowdedDatabase(), plan[k - 1], t, k - 1 + 1);
    }
  }

  lemma {:induction false} MatchAll(tuples: seq<Tuple>, where: Where)
    requires forall i :: 0 <= i < |tuples| ==> where(tuples[i])
    ensures MatchCount(tuples, where) == |tuples|
  {
    if tuples != [] {
      MatchAll(tuples[1..], where);
    }
  }

  /** A filter that crosses a to-many relation repeats a row of the crowded database, if it accepts all joined rows
      there. */
  lemma CrowdedFilterRepeats(leaves: seq<Leaf>)
    requires !PathsToOne(leaves)
    requires var (plan, at) := Compile(leaves);
      forall t :: IsJoined(CrowdedDatabase(), plan, 0, t) ==> AnyLeaf(leaves, at)(t)
    ensures !NoDuplicates(Apply(CrowdedDatabase(), [0], leaves, false))
  {
    var db := CrowdedDatabase();
    var (plan, at) := Compile(leaves);
    var where := AnyLeaf(leaves, at);
    CompileToOne(leaves);
    CrowdedJoins(plan, 0);
    var rows := JoinRows(db, plan, 0);
    forall i | 0 <= i < |rows| ensures where(rows[i]) {
      JoinRowsMembers(db, plan, 0, rows[i]);
    }
    MatchAll(rows, where);
    var qs: seq<Row> := [0];
    assert 0 in qs && Copies(db, plan, where, 0) >= 2;
    FilterRepeatsAtMost(db, qs, plan, where);
  }

  lemma ToOneNeverRepeats(paths: seq<seq<Field>>, exclude: bool)
    requires exclude || forall i :: 0 <= i < |paths| ==> AllToOne(paths[i])
    ensures NeverRepeats(paths, exclude)
  {
    forall db: Database, qs: seq<Row>, leaves: seq<Leaf> | Conforms(db) && NoDuplicates(qs) && Paths(leaves) == paths
      ensures NoDuplicates(Apply(db, qs, leaves, exclude))
    {
      assert forall i :: 0 <= i < |leaves| ==> leaves[i].path == paths[i];
      ApplyKeepsNoDuplicates(db, qs, leaves, exclude);
    }
  }

  /** Lookups on the given paths that accept whatever they find. */
  function AcceptAll(paths: seq<seq<Field>>): (leaves: seq<Leaf>)
    ensures Paths(leaves) == paths
    ensures forall i, c: Cell :: 0 <= i < |leaves| ==> leaves[i].test(c)
  {
    var leaves := seq(|paths|, i requires 0 <= i < |paths| => Leaf(paths[i], c => true));
    assert Paths(leaves) == paths;
    leaves
  }

  lemma ToManyCanRepeat(paths: seq<seq<Field>>)
    requires !forall i :: 0 <= i < |paths| ==> AllToOne(paths[i])
    ensures !NeverRepeats(paths, false)
  {
    var leaves, qs: seq<Row> := AcceptAll(paths), [0];
    assert !PathsToOne(leaves) by {
      var bad :| 0 <= bad < |paths| && !AllToOne(paths[bad]);
      assert Paths(leaves)[bad] == leaves[bad].path;
    }
    var (plan, at) := Compile(leaves);
    forall t | IsJoined(CrowdedDatabase(), plan, 0, t) ensures AnyLeaf(leaves, at)(t) {
      assert at[0] < |t| && leaves[0].test(t[at[0]]);
    }
    CrowdedFilterRepeats(leaves);
    assert Conforms(CrowdedDatabase()) && NoDuplicates(qs) && Paths(leaves) == paths;
    assert !NoDuplicates(Apply(CrowdedDatabase(), qs, leaves, false));
  }

  /** `.distinct()` can be skipped exactly when the filter excludes or crosses no to-many relation. */
  lemma DistinctNeededExactly(paths: seq<seq<Field>>, exclude: bool)
    ensures NeverRepeats(paths, exclude) <==> exclude || forall i :: 0 <= i < |paths| ==> AllToOne(paths[i])
  {
    if exclude || forall i :: 0 <= i < |paths| ==> AllToOne(paths[i]) {
      ToOneNeverRepeats(paths, exclude);
    } else {
      ToManyCanRepeat(paths);
    }
  }
}
