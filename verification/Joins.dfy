/**
 The relational ground under the filter engine: what a chain of Django lookups means when it is
 compiled to LEFT OUTER JOINs.  One `.filter()` call shares a join between all lookups with the
 same prefix, so a queryset row appears once per matching row of the whole join.
*/
module Joins {
  import opened Collections

  /** A primary key, or a column value seen as a row of its own. */
  type Row = nat

  /** What the ORM knows about one part of a lookup path. `required` is a non-null to-one relation or column. */
  datatype Field = Field(model: string, name: string, manyToMany: bool, oneToMany: bool, required: bool) {
    predicate ToMany() { manyToMany || oneToMany }
  }

  /** The rows that a row is linked to through a field. */
  type Database = (Field, Row) -> seq<Row>

  /** A joined column: NULL when the outer join found nothing. */
  type Cell = Option<Row>

  /** The database respects the declared cardinalities. */
  ghost predicate Conforms(db: Database) {
    forall f: Field, r: Row :: !f.manyToMany && !f.oneToMany ==> |db(f, r)| <= 1 && (f.required ==> |db(f, r)| == 1)
  }

  /** What a left outer join puts beside `c`: the linked rows, or a single NULL. */
  function Next(db: Database, c: Cell, f: Field): (next: seq<Cell>)
    ensures next != []
    ensures None in next <==> c.None? || db(f, c.value) == []
    ensures forall r :: Some(r) in next <==> c.Some? && r in db(f, c.value)
    ensures c.None? || db(f, c.value) == [] ==> |next| == 1
    ensures c.Some? && db(f, c.value) != [] ==> |next| == |db(f, c.value)|
  {
    if c.None? || db(f, c.value) == [] then [None]
    else
      var rows := db(f, c.value);
      var cells := seq(|rows|, i requires 0 <= i < |rows| => Some(rows[i]));
      assert forall i :: 0 <= i < |rows| ==> cells[i] == Some(rows[i]) && cells[i] in cells;
      cells
  }

  /** One join: follow `field` from the table with number `parent` (number 0 is the root table). */
  datatype Alias = Alias(parent: nat, field: Field)

  type Plan = seq<Alias>

  predicate WellFormed(plan: Plan) {
    forall k :: 0 <= k < |plan| ==> plan[k].parent <= k
  }

  type Tuple = seq<Cell>

  function ExtendOne(t: Tuple, next: seq<Cell>): (r: seq<Tuple>)
    ensures |r| == |next|
    ensures forall i :: 0 <= i < |r| ==> r[i] == t + [next[i]]
  {
    seq(|next|, i requires 0 <= i < |next| => t + [next[i]])
  }

  function Expand(db: Database, tuples: seq<Tuple>, a: Alias, width: nat): (r: seq<Tuple>)
    requires a.parent < width
    requires forall i :: 0 <= i < |tuples| ==> |tuples[i]| == width
    ensures |r| >= |tuples|
    ensures forall i :: 0 <= i < |r| ==> |r[i]| == width + 1
  {
    if tuples == [] then []
    else ExtendOne(tuples[0], Next(db, tuples[0][a.parent], a.field)) + Expand(db, tuples[1..], a, width)
  }

  lemma ExpandAtLeast(db: Database, tuples: seq<Tuple>, a: Alias, width: nat)
    requires a.parent < width && tuples != []
    requires forall i :: 0 <= i < |tuples| ==> |tuples[i]| == width
    ensures |Expand(db, tuples, a, width)| >= |Next(db, tuples[0][a.parent], a.field)|
  {
  }

  lemma {:induction false} ExpandMembers(db: Database, tuples: seq<Tuple>, a: Alias, width: nat, t: Tuple, c: Cell)
    requires a.parent < width == |t|
    requires forall i :: 0 <= i < |tuples| ==> |tuples[i]| == width
    ensures t + [c] in Expand(db, tuples, a, width) <==> t in tuples && c in Next(db, t[a.parent], a.field)
  {
    if tuples != [] {
      ExpandMembers(db, tuples[1..], a, width, t, c);
      var next := Next(db, tuples[0][a.parent], a.field);
      var one := ExtendOne(tuples[0], next);
      assert t + [c] in one <==> t == tuples[0] && c in next by {
        if t + [c] in one {
          var i :| 0 <= i < |one| && one[i] == t + [c];
          assert (t + [c])[..width] == t && one[i][..width] == tuples[0] && one[i][width] == next[i];
        }
        if t == tuples[0] && c in next {
          var i :| 0 <= i < |next| && next[i] == c;
          assert one[i] == t + [c];
        }
      }
    }
  }

  /** All rows of the join for one row of the root table. */
  function JoinRows(db: Database, plan: Plan, root: Row): (r: seq<Tuple>)
    requires WellFormed(plan)
    ensures r != []
    ensures forall i :: 0 <= i < |r| ==> |r[i]| == |plan| + 1
  {
    if plan == [] then [[Some(root)]]
    else Expand(db, JoinRows(db, plan[..|plan| - 1], root), plan[|plan| - 1], |plan|)
  }

  /** Column `k` of the tuple was found by join `a`. */
  predicate Found(db: Database, a: Alias, t: Tuple, k: nat)
    requires a.parent < |t| && k < |t|
  {
    t[k] in Next(db, t[a.parent], a.field)
  }

  /** The tuple is one way of following every join of the plan at once. */
  ghost predicate IsJoined(db: Database, plan: Plan, root: Row, t: Tuple)
    requires WellFormed(plan)
  {
    && |t| == |plan| + 1
    && t[0] == Some(root)
    && forall k :: 0 <= k < |plan| ==> Found(db, plan[k], t, k + 1)
  }

  lemma {:induction false} JoinRowsMembers(db: Database, plan: Plan, root: Row, t: Tuple)
    requires WellFormed(plan)
    ensures t in JoinRows(db, plan, root) <==> IsJoined(db, plan, root, t)
    decreases |plan|
  {
    var n := |plan|;
    if n == 0 {
      assert t == [Some(root)] <==> |t| == 1 && t[0] == Some(root);
    } else if |t| == n + 1 {
      var u := t[..n];
      assert t == u + [t[n]];
      JoinRowsMembers(db, plan[..n - 1], root, u);
      ExpandMembers(db, JoinRows(db, plan[..n - 1], root), plan[n - 1], n, u, t[n]);
      JoinedSnoc(db, plan, root, u, t[n]);
    }
  }

  lemma JoinedSnoc(db: Database, plan: Plan, root: Row, u: Tuple, c: Cell)
    requires WellFormed(plan) && |u| == |plan| > 0
    ensures IsJoined(db, plan, root, u + [c]) <==>
      IsJoined(db, plan[..|plan| - 1], root, u) && c in Next(db, u[plan[|plan| - 1].parent], plan[|plan| - 1].field)
  {
    var n, t := |plan|, u + [c];
    assert Found(db, plan[n - 1], t, n) <==> c in Next(db, u[plan[n - 1].parent], plan[n - 1].field);
    forall k | 0 <= k < n - 1 ensures Found(db, plan[k], t, k + 1) <==> Found(db, plan[..n - 1][k], u, k + 1) {
      assert plan[..n - 1][k] == plan[k];
    }
    if IsJoined(db, plan, root, t) {
      assert Found(db, plan[n - 1], t, n - 1 + 1);
    }
  }

  /** The lookup path that leads from the root table to table number `k`. */
  function PathTo(plan: Plan, k: nat): (path: seq<Field>)
    requires WellFormed(plan) && k <= |plan|
    decreases k
  {
    if k == 0 then [] else PathTo(plan, plan[k - 1].parent) + [plan[k - 1].field]
  }

  /** The cells one link away (NULL when a link is missing). */
  function Step(db: Database, from: set<Cell>, f: Field): (cells: set<Cell>) {
    set b, c | b in from && c in Next(db, b, f) :: c
  }

  /** Navigation, without any join: the cells at which `path` can arrive from `root`. */
  function Arrivals(db: Database, path: seq<Field>, root: Row): (cells: set<Cell>) {
    if path == [] then {Some(root)} else Step(db, Arrivals(db, path[..|path| - 1], root), path[|path| - 1])
  }

  lemma ArrivalsSnoc(db: Database, path: seq<Field>, f: Field, root: Row)
    ensures Arrivals(db, path + [f], root) == Step(db, Arrivals(db, path, root), f)
  {
    assert (path + [f])[..|path|] == path;
  }

  lemma {:induction false} PathToOfPrefix(plan: Plan, shorter: Plan, k: nat)
    requires WellFormed(plan) && shorter <= plan && k <= |shorter|
    ensures WellFormed(shorter) && PathTo(plan, k) == PathTo(shorter, k)
    decreases k
  {
    assert forall i :: 0 <= i < |shorter| ==> shorter[i] == plan[i];
    if k > 0 {
      PathToOfPrefix(plan, shorter, plan[k - 1].parent);
    }
  }

  /** A cell of a joined row is one that navigation finds ... */
  lemma {:induction false} JoinIsSound(db: Database, plan: Plan, root: Row, t: Tuple, k: nat)
    requires WellFormed(plan) && IsJoined(db, plan, root, t) && k <= |plan|
    ensures t[k] in Arrivals(db, PathTo(plan, k), root)
    decreases k
  {
    if k > 0 {
      var a := plan[k - 1];
      JoinIsSound(db, plan, root, t, a.parent);
      ArrivalsSnoc(db, PathTo(plan, a.parent), a.field, root);
    }
  }

  lemma JoinExtends(db: Database, plan: Plan, root: Row, u: Tuple, c: Cell)
    requires WellFormed(plan) && |u| == |plan| > 0
    requires IsJoined(db, plan[..|plan| - 1], root, u)
    requires c in Next(db, u[plan[|plan| - 1].parent], plan[|plan| - 1].field)
    ensures IsJoined(db, plan, root, u + [c])
  {
    JoinedSnoc(db, plan, root, u, c);
  }

  /** ... and every cell that navigation finds is in some joined row: no other join can remove it. */
  lemma {:induction false} JoinIsComplete(db: Database, plan: Plan, root: Row, k: nat, c: Cell) returns (t: Tuple)
    requires WellFormed(plan) && k <= |plan| && c in Arrivals(db, PathTo(plan, k), root)
    ensures IsJoined(db, plan, root, t) && t[k] == c
    decreases |plan|
  {
    if plan == [] {
      t := [Some(root)];
    } else {
      var last := plan[|plan| - 1];
      var u := JoinIsCompleteBefore(db, plan, root, k, c);
      var d := if k == |plan| then c else Next(db, u[last.parent], last.field)[0];
      JoinExtends(db, plan, root, u, d);
      t := u + [d];
    }
  }

  /** The joined row up to its last column: already with `c` in it, or ready to be extended by `c`. */
  lemma {:induction false} JoinIsCompleteBefore(db: Database, plan: Plan, root: Row, k: nat, c: Cell) returns (u: Tuple)
    requires WellFormed(plan) && plan != [] && k <= |plan| && c in Arrivals(db, PathTo(plan, k), root)
    ensures IsJoined(db, plan[..|plan| - 1], root, u)
    ensures if k < |plan| then u[k] == c else c in Next(db, u[plan[k - 1].parent], plan[k - 1].field)
    decreases |plan|, 0
  {
    var shorter, last := plan[..|plan| - 1], plan[|plan| - 1];
    if k < |plan| {
      PathToOfPrefix(plan, shorter, k);
      u := JoinIsComplete(db, shorter, root, k, c);
    } else {
      var b := LastLink(db, PathTo(plan, last.parent), last.field, root, c);
      PathToOfPrefix(plan, shorter, last.parent);
      u := JoinIsComplete(db, shorter, root, last.parent, b);
    }
  }

  lemma LastLink(db: Database, path: seq<Field>, f: Field, root: Row, c: Cell) returns (b: Cell)
    requires c in Arrivals(db, path + [f], root)
    ensures b in Arrivals(db, path, root) && c in Next(db, b, f)
  {
    ArrivalsSnoc(db, path, f, root);
    b :| b in Arrivals(db, path, root) && c in Next(db, b, f);
  }

  /** Add the joins for `path`, starting at table `at`, reusing every join that is already there. */
  function AddPath(plan: Plan, at: nat, path: seq<Field>): (r: (Plan, nat))
    requires WellFormed(plan) && at <= |plan|
    ensures WellFormed(r.0) && r.1 <= |r.0| && plan <= r.0
    decreases |path|
  {
    if path == [] then (plan, at)
    else
      var step := Alias(at, path[0]);
      if step in plan then AddPath(plan, IndexOf(plan, step) + 1, path[1..])
      else AddPath(plan + [step], |plan| + 1, path[1..])
  }

  /** The table that is added or found is the one that the path leads to. */
  lemma {:induction false} AddPathLeads(plan: Plan, at: nat, path: seq<Field>)
    requires WellFormed(plan) && at <= |plan|
    ensures var r := AddPath(plan, at, path); PathTo(r.0, r.1) == PathTo(plan, at) + path
    decreases |path|
  {
    if path != [] {
      var step, rest := Alias(at, path[0]), path[1..];
      ConcatStep(PathTo(plan, at), path);
      if step in plan {
        AddPathLeads(plan, IndexOf(plan, step) + 1, rest);
      } else {
        AddPathLeads(plan + [step], |plan| + 1, rest);
        PathToOfPrefix(plan + [step], plan, at);
      }
    }
  }

  lemma ConcatStep(front: seq<Field>, path: seq<Field>)
    requires path != []
    ensures front + [path[0]] + path[1..] == front + path
  {
  }

  function IndexOf<T(==)>(s: seq<T>, x: T): (k: nat)
    requires x in s
    ensures k < |s| && s[k] == x
  {
    if s[0] == x then 0 else 1 + IndexOf(s[1..], x)
  }

  predicate AllToOne(path: seq<Field>) {
    forall f :: f in path ==> !f.ToMany()
  }

  predicate PlanToOne(plan: Plan) {
    forall a :: a in plan ==> !a.field.ToMany()
  }

  lemma {:induction false} AddPathToOne(plan: Plan, at: nat, path: seq<Field>)
    requires WellFormed(plan) && at <= |plan|
    ensures PlanToOne(AddPath(plan, at, path).0) <==> PlanToOne(plan) && AllToOne(path)
    decreases |path|
  {
    if path != [] {
      var step := Alias(at, path[0]);
      assert AllToOne(path) <==> !path[0].ToMany() && AllToOne(path[1..]) by {
        assert path == [path[0]] + path[1..];
      }
      if step in plan {
        AddPathToOne(plan, IndexOf(plan, step) + 1, path[1..]);
      } else {
        AddPathToOne(plan + [step], |plan| + 1, path[1..]);
        assert PlanToOne(plan + [step]) <==> PlanToOne(plan) && !path[0].ToMany();
      }
    }
  }

  /** To-one joins never multiply a row. */
  lemma {:induction false} ToOneJoinsOnce(db: Database, plan: Plan, root: Row)
    requires WellFormed(plan) && Conforms(db) && PlanToOne(plan)
    ensures |JoinRows(db, plan, root)| == 1
  {
    if plan != [] {
      var shorter, last := plan[..|plan| - 1], plan[|plan| - 1];
      assert last in plan;
      ToOneJoinsOnce(db, shorter, root);
      var rows := JoinRows(db, shorter, root);
      assert rows[1..] == [];
      assert Expand(db, rows[1..], last, |plan|) == [];
      assert !last.field.ToMany();
    }
  }

  /** Follow a to-one relation. */
  function One(db: Database, c: Cell, f: Field): (d: Cell) {
    if c.Some? && db(f, c.value) != [] then Some(db(f, c.value)[0]) else None
  }

  lemma ToOneNext(db: Database, c: Cell, f: Field)
    requires Conforms(db) && !f.ToMany()
    ensures Next(db, c, f) == [One(db, c, f)]
  {
    if c.Some? {
      assert |db(f, c.value)| <= 1;
    }
  }

  lemma ToOneStep(db: Database, path: seq<Field>, f: Field, root: Row, c: Cell)
    requires Conforms(db) && !f.ToMany() && Arrivals(db, path, root) == {c}
    ensures Arrivals(db, path + [f], root) == {One(db, c, f)}
  {
    ArrivalsSnoc(db, path, f, root);
    ToOneNext(db, c, f);
  }

  /** A to-one path arrives at one cell. */
  lemma {:induction false} ToOneArrives(db: Database, path: seq<Field>, root: Row) returns (c: Cell)
    requires Conforms(db) && AllToOne(path)
    ensures Arrivals(db, path, root) == {c}
  {
    if path == [] {
      c := Some(root);
    } else {
      var front, f := path[..|path| - 1], path[|path| - 1];
      assert path == front + [f];
      var b := ToOneArrives(db, front, root);
      ToOneStep(db, front, f, root, b);
      c := One(db, b, f);
    }
  }

  // ----- how to-many joins multiply

  function Times(m: nat, n: nat): (k: nat) {
    m * n
  }

  lemma OneMoreTime(m: nat, n: nat)
    requires m > 0
    ensures Times(m, n) == n + Times(m - 1, n)
  {
  }

  lemma {:induction false} ExpandMultiplies(db: Database, tuples: seq<Tuple>, a: Alias, width: nat, n: nat)
    requires a.parent < width
    requires forall i :: 0 <= i < |tuples| ==> |tuples[i]| == width && |Next(db, tuples[i][a.parent], a.field)| == n
    ensures |Expand(db, tuples, a, width)| == Times(|tuples|, n)
  {
    if tuples != [] {
      ExpandMultiplies(db, tuples[1..], a, width, n);
      OneMoreTime(|tuples|, n);
    }
  }

  function FanOut(db: Database, plan: Plan, root: Row): (n: nat) {
    if plan == [] then 1
    else Times(FanOut(db, plan[..|plan| - 1], root), |Next(db, Some(root), plan[|plan| - 1].field)|)
  }

  /** Relations joined side by side to the root repeat it as often as the product of their fan-outs. */
  lemma {:induction false} SideBySideJoinsMultiply(db: Database, plan: Plan, root: Row)
    requires forall k :: 0 <= k < |plan| ==> plan[k].parent == 0
    ensures WellFormed(plan) && |JoinRows(db, plan, root)| == FanOut(db, plan, root)
    decreases |plan|
  {
    if plan != [] {
      var shorter, last := plan[..|plan| - 1], plan[|plan| - 1];
      SideBySideJoinsMultiply(db, shorter, root);
      var rows := JoinRows(db, shorter, root);
      forall i | 0 <= i < |rows| ensures rows[i][0] == Some(root) {
        assert rows[i] in rows;
        JoinRowsMembers(db, shorter, root, rows[i]);
      }
      ExpandMultiplies(db, rows, last, |plan|, |Next(db, Some(root), last.field)|);
    }
  }
}
