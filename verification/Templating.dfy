/**
 The check that no expression passed to a template call carries SQL of the template author's: a walk over
 source expressions, bounded in depth because the graph may be cyclic.
*/
module Templating {
  import opened Collections

  type Id = nat

  const MAX_EXPRESSION_DEPTH := 32

  const SQL_TEMPLATE_KWARGS: set<string> := {"template", "function", "arg_joiner"}

  /** What the check can see of a value. */
  datatype Value =
    | Class
    | Plain
    | Expression(isRaw: bool, isBase: bool, extra: set<string>, attributes: set<string>,
      sources: Option<seq<Option<Id>>>)

  /** All values reachable from the arguments of a call; cycles are allowed. */
  type Heap = map<Id, Value>

  /** The value itself is raw SQL, or a query expression given one of the SQL keywords. */
  predicate Carries(v: Value) {
    v.Expression? && (v.isRaw || (v.isBase && (SQL_TEMPLATE_KWARGS * v.extra != {} ||
      SQL_TEMPLATE_KWARGS * v.attributes != {})))
  }

  /** The source expressions that are not `None`. */
  function Sources(h: Heap, id: Id): (ids: seq<Id>)
    ensures ids != [] ==> id in h
  {
    if id in h && h[id].Expression? && h[id].sources.Some? then Present(h[id].sources.value) else []
  }

  function Present(xs: seq<Option<Id>>): (ids: seq<Id>)
    ensures forall x :: x in ids <==> Some(x) in xs
  {
    if xs == [] then []
    else
      assert xs == [xs[0]] + xs[1..];
      (if xs[0].Some? then [xs[0].value] else []) + Present(xs[1..])
  }

  /** Whether `_deny_nested_caller_supplied_sql` raises: for the value, or for one of its source expressions in turn. */
  predicate DenyNested(h: Heap, id: Id, depth: nat)
    decreases MAX_EXPRESSION_DEPTH - depth
  {
    if id !in h || h[id].Class? then false
    else if Carries(h[id]) then true
    else if depth >= MAX_EXPRESSION_DEPTH then false
    else exists x :: x in Sources(h, id) && DenyNested(h, x, depth + 1)
  }

  /** The class called in the template, if it is one of the query expressions. */
  datatype Callee = Other | ExpressionClass(isRaw: bool)

  predicate DenyCallerSuppliedSql(h: Heap, callee: Callee, kwargs: set<string>, values: seq<Id>) {
    (callee.ExpressionClass? && (callee.isRaw || SQL_TEMPLATE_KWARGS * kwargs != {})) ||
      exists x :: x in values && DenyNested(h, x, 0)
  }

  // ----- reachability, without any bound

  /** One of the value's source expressions is `x`. */
  predicate IsSource(h: Heap, id: Id, x: Id) {
    id in h && h[id].Expression? && h[id].sources.Some? && Some(x) in h[id].sources.value
  }

  lemma SourcesExactly(h: Heap, id: Id, x: Id)
    ensures x in Sources(h, id) <==> IsSource(h, id, x)
  {
  }

  /** Among the words is one under which a caller can supply SQL. */
  predicate NamesSql(words: set<string>) {
    "template" in words || "function" in words || "arg_joiner" in words
  }

  /** The value is raw SQL, or a query expression that was given SQL, among its extra keywords or as an attribute. */
  predicate SuppliesSql(v: Value) {
    v.Expression? && (v.isRaw || (v.isBase && (NamesSql(v.extra) || NamesSql(v.attributes))))
  }

  lemma NamesSqlExactly(words: set<string>)
    ensures SQL_TEMPLATE_KWARGS * words != {} <==> NamesSql(words)
  {
    if word :| word in SQL_TEMPLATE_KWARGS * words {
      assert word in words;
    }
    assert "template" in words ==> "template" in SQL_TEMPLATE_KWARGS * words;
    assert "function" in words ==> "function" in SQL_TEMPLATE_KWARGS * words;
    assert "arg_joiner" in words ==> "arg_joiner" in SQL_TEMPLATE_KWARGS * words;
  }

  lemma CarriesExactly(v: Value)
    ensures Carries(v) <==> SuppliesSql(v)
  {
    if v.Expression? {
      NamesSqlExactly(v.extra);
      NamesSqlExactly(v.attributes);
    }
  }

  /** The walk's `i`-th step goes to a source expression. */
  predicate StepAt(h: Heap, walk: seq<Id>, i: nat)
    requires i + 1 < |walk|
  {
    IsSource(h, walk[i], walk[i + 1])
  }

  /** A walk along source expressions. */
  ghost predicate IsWalk(h: Heap, walk: seq<Id>) {
    walk != [] && forall i :: 0 <= i < |walk| - 1 ==> StepAt(h, walk, i)
  }

  /** The walk leads from `id` to a value that carries SQL. */
  ghost predicate Leads(h: Heap, id: Id, walk: seq<Id>) {
    IsWalk(h, walk) && walk[0] == id && walk[|walk| - 1] in h && SuppliesSql(h[walk[|walk| - 1]])
  }

  ghost predicate ReachesWithin(h: Heap, id: Id, steps: nat) {
    exists walk :: Leads(h, id, walk) && |walk| - 1 <= steps
  }

  ghost predicate Reaches(h: Heap, id: Id) {
    exists walk :: Leads(h, id, walk)
  }

  lemma WalkTail(h: Heap, walk: seq<Id>)
    requires IsWalk(h, walk) && |walk| > 1
    ensures IsWalk(h, walk[1..]) && walk[1] in Sources(h, walk[0])
  {
    assert StepAt(h, walk, 0);
    forall i | 0 <= i < |walk[1..]| - 1 ensures StepAt(h, walk[1..], i) {
      assert StepAt(h, walk, i + 1);
    }
  }

  lemma WalkCons(h: Heap, id: Id, walk: seq<Id>)
    requires IsWalk(h, walk) && walk[0] in Sources(h, id)
    ensures IsWalk(h, [id] + walk)
  {
    var longer := [id] + walk;
    forall i | 0 <= i < |longer| - 1 ensures StepAt(h, longer, i) {
      if i > 0 {
        assert StepAt(h, walk, i - 1);
      }
    }
  }

  lemma LeadsCons(h: Heap, id: Id, walk: seq<Id>)
    requires walk != [] && walk[0] in Sources(h, id) && Leads(h, walk[0], walk)
    ensures Leads(h, id, [id] + walk)
  {
    WalkCons(h, id, walk);
    var longer := [id] + walk;
    assert longer[0] == id && longer[|longer| - 1] == walk[|walk| - 1];
  }

  lemma LeadsTail(h: Heap, id: Id, steps: nat)
    requires ReachesWithin(h, id, steps) && !(id in h && SuppliesSql(h[id]))
    ensures steps > 0 && exists x :: x in Sources(h, id) && ReachesWithin(h, x, steps - 1)
  {
    var walk :| Leads(h, id, walk) && |walk| - 1 <= steps;
    assert |walk| > 1;
    WalkTail(h, walk);
    assert Leads(h, walk[1], walk[1..]);
    assert walk[1] in Sources(h, id) && ReachesWithin(h, walk[1], steps - 1);
  }

  lemma LeadsFront(h: Heap, id: Id, steps: nat, x: Id)
    requires steps > 0 && x in Sources(h, id) && ReachesWithin(h, x, steps - 1)
    ensures ReachesWithin(h, id, steps)
  {
    var walk :| Leads(h, x, walk) && |walk| - 1 <= steps - 1;
    LeadsCons(h, id, walk);
    assert Leads(h, id, [id] + walk) && |[id] + walk| - 1 <= steps;
  }

  /** Reaching SQL takes no step, or one step and then one step less. */
  lemma ReachesStep(h: Heap, id: Id, steps: nat)
    ensures ReachesWithin(h, id, steps) <==>
      (id in h && SuppliesSql(h[id])) ||
      (steps > 0 && exists x :: x in Sources(h, id) && ReachesWithin(h, x, steps - 1))
  {
    if id in h && SuppliesSql(h[id]) {
      assert Leads(h, id, [id]) && |[id]| - 1 <= steps;
    } else {
      if ReachesWithin(h, id, steps) {
        LeadsTail(h, id, steps);
      }
      if steps > 0 {
        if x :| x in Sources(h, id) && ReachesWithin(h, x, steps - 1) {
          LeadsFront(h, id, steps, x);
        }
      }
    }
  }

  /** `q(id, n)`: the value carries SQL, or a source expression satisfies `q` with one step less. */
  ghost predicate StepByStep(h: Heap, q: (Id, nat) -> bool) {
    forall id, n: nat :: q(id, n) <==>
      (id in h && SuppliesSql(h[id])) || (n > 0 && exists x :: x in Sources(h, id) && q(x, n - 1))
  }

  /** The recursion of the check is the only way to be found step by step. */
  lemma {:induction false} DenyNestedIs(h: Heap, q: (Id, nat) -> bool, id: Id, depth: nat)
    requires StepByStep(h, q) && depth <= MAX_EXPRESSION_DEPTH
    ensures DenyNested(h, id, depth) <==> q(id, MAX_EXPRESSION_DEPTH - depth)
    decreases MAX_EXPRESSION_DEPTH - depth
  {
    DenyNestedStep(h, id, depth);
    if depth < MAX_EXPRESSION_DEPTH {
      forall x | x in Sources(h, id) ensures DenyNested(h, x, depth + 1) <==> q(x, MAX_EXPRESSION_DEPTH - depth - 1) {
        DenyNestedIs(h, q, x, depth + 1);
      }
    }
  }

  /** One call of the check: the value itself, or one of its source expressions while the bound is not reached. */
  lemma DenyNestedStep(h: Heap, id: Id, depth: nat)
    ensures DenyNested(h, id, depth) <==>
      (id in h && SuppliesSql(h[id])) ||
      (depth < MAX_EXPRESSION_DEPTH && exists x :: x in Sources(h, id) && DenyNested(h, x, depth + 1))
  {
    if id in h {
      CarriesExactly(h[id]);
    }
  }

  lemma DenyNestedExactly(h: Heap, id: Id)
    ensures DenyNested(h, id, 0) <==> ReachesWithin(h, id, 32)
  {
    var q := (x: Id, n: nat) => ReachesWithin(h, x, n);
    forall x, n: nat
      ensures q(x, n) <==> (x in h && SuppliesSql(h[x])) || (n > 0 && exists y :: y in Sources(h, x) && q(y, n - 1))
    {
      ReachesStep(h, x, n);
    }
    DenyNestedIs(h, q, id, 0);
  }

  /** On any graph, cyclic or not: the check raises exactly when SQL is reachable from an argument in at most 32
      steps. */
  lemma DenyExactly(h: Heap, callee: Callee, kwargs: set<string>, values: seq<Id>)
    ensures DenyCallerSuppliedSql(h, callee, kwargs, values) <==>
      || (callee.ExpressionClass? && (callee.isRaw || NamesSql(kwargs)))
      || exists x :: x in values && ReachesWithin(h, x, 32)
  {
    NamesSqlExactly(kwargs);
    forall x | x in values ensures DenyNested(h, x, 0) <==> ReachesWithin(h, x, 32) {
      DenyNestedExactly(h, x);
    }
  }

  // ----- when the bound loses nothing

  /** A walk that visits a value twice can be cut short. */
  lemma CutWalk(h: Heap, id: Id, walk: seq<Id>, i: nat, j: nat) returns (shorter: seq<Id>)
    requires Leads(h, id, walk) && i < j < |walk| && walk[i] == walk[j]
    ensures Leads(h, id, shorter) && |shorter| < |walk|
  {
    shorter := walk[..i] + walk[j..];
    forall k | 0 <= k < |shorter| - 1 ensures StepAt(h, shorter, k) {
      if k < i {
        assert StepAt(h, walk, k);
      } else {
        assert StepAt(h, walk, k - i + j);
      }
    }
  }

  /** A walk without repetitions inside a set is no longer than the set is large. */
  lemma {:induction false} SimpleWalkFits(walk: seq<Id>, ids: set<Id>)
    requires forall i :: 0 <= i < |walk| ==> walk[i] in ids
    requires forall i, j :: 0 <= i < j < |walk| ==> walk[i] != walk[j]
    ensures |walk| <= |ids|
  {
    if walk != [] {
      SimpleWalkFits(walk[1..], ids - {walk[0]});
    }
  }

  lemma WalkStaysInHeap(h: Heap, id: Id, walk: seq<Id>, i: nat)
    requires Leads(h, id, walk) && i < |walk|
    ensures walk[i] in h
  {
    if i < |walk| - 1 {
      assert StepAt(h, walk, i);
    }
  }

  /** In any graph, what is reachable is reachable within one step less than the graph has values. */
  lemma {:induction false} ReachesSimply(h: Heap, id: Id, walk: seq<Id>)
    requires Leads(h, id, walk)
    ensures h != map[] && ReachesWithin(h, id, |h| - 1)
    decreases |walk|
  {
    if i, j :| 0 <= i < j < |walk| && walk[i] == walk[j] {
      var shorter := CutWalk(h, id, walk, i, j);
      ReachesSimply(h, id, shorter);
    } else {
      forall i | 0 <= i < |walk| ensures walk[i] in h.Keys { WalkStaysInHeap(h, id, walk, i); }
      SimpleWalkFits(walk, h.Keys);
    }
  }

  /** So on every graph of at most 33 values, however cyclic, the bounded check misses nothing. */
  lemma SmallGraphsAreCovered(h: Heap, callee: Callee, kwargs: set<string>, values: seq<Id>)
    requires |h| <= 33
    ensures DenyCallerSuppliedSql(h, callee, kwargs, values) <==>
      || (callee.ExpressionClass? && (callee.isRaw || NamesSql(kwargs)))
      || exists x :: x in values && Reaches(h, x)
  {
    DenyExactly(h, callee, kwargs, values);
    forall x | x in values ensures Reaches(h, x) <==> ReachesWithin(h, x, 32) {
      if walk :| Leads(h, x, walk) {
        ReachesSimply(h, x, walk);
      }
    }
  }

  /** No walk from the value is longer than `height`: a tree of that height, say. */
  ghost predicate HeightAtMost(h: Heap, id: Id, height: nat) {
    forall walk :: IsWalk(h, walk) && walk[0] == id ==> |walk| - 1 <= height
  }

  /** For expressions nested at most 32 deep, the check raises exactly when SQL occurs anywhere in them. */
  lemma ShallowExpressionsAreCovered(h: Heap, id: Id)
    requires HeightAtMost(h, id, 32)
    ensures DenyNested(h, id, 0) <==> Reaches(h, id)
  {
    DenyNestedExactly(h, id);
  }

  // ----- the bound is tight

  function UpTo(n: nat): (ids: set<Id>)
    ensures forall k: nat :: k in ids <==> k <= n
    ensures |ids| == n + 1
  {
    if n == 0 then {0} else UpTo(n - 1) + {n}
  }

  /** Value `k` has value `k + 1` as its source, and value `n` is raw SQL. */
  function RawAfter(n: nat): (h: Heap)
    ensures h.Keys == UpTo(n)
  {
    map k | k in UpTo(n) :: Link(n, k)
  }

  function Link(n: nat, k: nat): (v: Value) {
    Expression(k == n, true, {}, {}, if k == n then None else Some([Some(k + 1)]))
  }

  lemma RawAfterLinks(n: nat, k: nat)
    requires k <= n
    ensures IsLink(RawAfter(n), n, k)
  {
    assert RawAfter(n)[k] == Link(n, k);
    assert Present([Some(k + 1)]) == [k + 1] + Present([Some(k + 1)][1..]) == [k + 1];
  }

  predicate IsLink(h: Heap, n: nat, k: nat) {
    && k in h && h[k].Expression? && (SuppliesSql(h[k]) <==> k == n)
    && Sources(h, k) == if k < n then [k + 1] else []
  }

  /** There is only one way to go. */
  lemma {:induction false} ChainWalk(h: Heap, n: nat, walk: seq<Id>, i: nat)
    requires (forall k: nat :: k <= n ==> IsLink(h, n, k)) && IsWalk(h, walk) && walk[0] == 0 && i < |walk|
    ensures walk[i] == i <= n
  {
    if i > 0 {
      ChainWalk(h, n, walk, i - 1);
      assert IsLink(h, n, i - 1) && StepAt(h, walk, i - 1);
    }
  }

  lemma {:induction false} ChainReaches(h: Heap, n: nat, k: nat)
    requires (forall i: nat :: i <= n ==> IsLink(h, n, i)) && k <= n
    ensures ReachesWithin(h, k, n - k)
    decreases n - k
  {
    assert IsLink(h, n, k);
    if k < n {
      ChainReaches(h, n, k + 1);
      assert k + 1 in Sources(h, k);
    }
    ReachesStep(h, k, n - k);
  }

  lemma ChainIsLong(h: Heap, n: nat)
    requires forall k: nat :: k <= n ==> IsLink(h, n, k)
    ensures forall walk :: Leads(h, 0, walk) ==> |walk| - 1 == n
  {
    forall walk | Leads(h, 0, walk) ensures |walk| - 1 == n {
      ChainWalk(h, n, walk, |walk| - 1);
      assert IsLink(h, n, |walk| - 1);
    }
  }

  /** With 34 values, one more than are covered always, raw SQL can be 33 steps away, and is then let through. */
  lemma BoundIsTight()
    ensures var h := RawAfter(MAX_EXPRESSION_DEPTH + 1);
      |h| == MAX_EXPRESSION_DEPTH + 2 && Reaches(h, 0) && !DenyCallerSuppliedSql(h, Other, {}, [0])
  {
    var n := MAX_EXPRESSION_DEPTH + 1;
    var h := RawAfter(n);
    forall k: nat | k <= n ensures IsLink(h, n, k) { RawAfterLinks(n, k); }
    ChainReaches(h, n, 0);
    ChainIsLong(h, n);
    DenyNestedExactly(h, 0);
    assert |h| == |h.Keys|;
  }
}
