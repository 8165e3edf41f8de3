/** Forests as tables of parent pointers: depths, subtrees, and what moving a subtree does to them. */
module Forests {
  import opened Collections

  type Node = nat

  /** Every node with its parent, if it has one. */
  type Forest = map<Node, Option<Node>>

  ghost predicate IsDepth(f: Forest, d: map<Node, nat>) {
    && d.Keys == f.Keys
    && forall n {:trigger IsLevel(f, d, n)} :: n in f ==> IsLevel(f, d, n)
  }

  /** The node's depth is 0 without a parent, and one more than its parent's otherwise. */
  ghost predicate IsLevel(f: Forest, d: map<Node, nat>, n: Node)
    requires d.Keys == f.Keys && n in f
  {
    match f[n]
    case None => d[n] == 0
    case Some(p) => p in f && d[n] == d[p] + 1
  }

  /** No dangling parent and no cycle: every node has a depth. */
  ghost predicate IsForest(f: Forest) {
    exists d :: IsDepth(f, d)
  }

  ghost function Depths(f: Forest): (d: map<Node, nat>)
    requires IsForest(f)
    ensures IsDepth(f, d)
  {
    var d :| IsDepth(f, d);
    d
  }

  lemma {:induction false} DepthUnique(f: Forest, d: map<Node, nat>, e: map<Node, nat>, n: Node)
    requires IsDepth(f, d) && IsDepth(f, e) && n in f
    ensures d[n] == e[n]
    decreases d[n]
  {
    assert IsLevel(f, d, n) && IsLevel(f, e, n);
    match f[n]
    case None =>
    case Some(p) => DepthUnique(f, d, e, p);
  }

  lemma DepthsAre(f: Forest, d: map<Node, nat>)
    requires IsDepth(f, d)
    ensures IsForest(f) && Depths(f) == d
  {
    var e := Depths(f);
    forall n | n in f ensures d[n] == e[n] { DepthUnique(f, d, e, n); }
    assert d.Keys == e.Keys;
  }

  // ----- the depth of a whole forest

  /** The greatest depth in a set of nodes, and 0 for no nodes. */
  ghost predicate IsDeepest(f: Forest, nodes: set<Node>, m: nat)
    requires IsForest(f) && nodes <= f.Keys
  {
    if nodes == {} then m == 0
    else (exists n :: n in nodes && Depths(f)[n] == m) && forall n :: n in nodes ==> Depths(f)[n] <= m
  }

  lemma {:induction false} DeepestExists(f: Forest, nodes: set<Node>)
    requires IsForest(f) && nodes <= f.Keys
    ensures exists m :: IsDeepest(f, nodes, m)
    decreases nodes
  {
    if nodes == {} {
      assert IsDeepest(f, nodes, 0);
    } else {
      var n :| n in nodes;
      var rest := nodes - {n};
      DeepestExists(f, rest);
      var k :| IsDeepest(f, rest, k);
      assert forall x :: x in nodes <==> x in rest || x == n;
      if rest == {} || k < Depths(f)[n] {
        assert IsDeepest(f, nodes, Depths(f)[n]);
      } else {
        assert IsDeepest(f, nodes, k);
      }
    }
  }

  ghost function Deepest(f: Forest, nodes: set<Node>): (m: nat)
    requires IsForest(f) && nodes <= f.Keys
    ensures IsDeepest(f, nodes, m)
  {
    DeepestExists(f, nodes);
    var k :| IsDeepest(f, nodes, k);
    k
  }

  ghost function MaxDepth(f: Forest): (m: nat)
    requires IsForest(f)
  {
    Deepest(f, f.Keys)
  }

  lemma DeepestIs(f: Forest, nodes: set<Node>, m: nat)
    requires IsForest(f) && nodes <= f.Keys && IsDeepest(f, nodes, m)
    ensures Deepest(f, nodes) == m
  {
  }

  /** If all depths in the set differ by the same amount, so does the greatest. */
  lemma DeepestShifts(f: Forest, g: Forest, nodes: set<Node>, shift: int)
    requires IsForest(f) && IsForest(g) && nodes <= f.Keys && nodes <= g.Keys && nodes != {}
    requires forall x :: x in nodes ==> Depths(g)[x] == Depths(f)[x] + shift
    ensures Deepest(g, nodes) == Deepest(f, nodes) + shift
  {
    var x :| x in nodes && Depths(f)[x] == Deepest(f, nodes);
    var y :| y in nodes && Depths(g)[y] == Deepest(g, nodes);
    assert Depths(g)[x] <= Deepest(g, nodes) && Depths(f)[y] <= Deepest(f, nodes);
  }

  /** To know the depth of a forest it is enough to show depths and a deepest node. */
  lemma MaxDepthIs(f: Forest, d: map<Node, nat>, n: Node)
    requires IsDepth(f, d) && n in f
    requires forall x :: x in d ==> d[x] <= d[n]
    ensures IsForest(f) && MaxDepth(f) == d[n]
  {
    DepthsAre(f, d);
    assert n in f.Keys;
    DeepestIs(f, f.Keys, d[n]);
  }

  lemma DeepestOfUnion(f: Forest, a: set<Node>, b: set<Node>)
    requires IsForest(f) && a <= f.Keys && b <= f.Keys
    ensures Deepest(f, a + b) == if Deepest(f, a) < Deepest(f, b) then Deepest(f, b) else Deepest(f, a)
  {
  }

  // ----- subtrees

  /** `n` is `a` or one of its descendants. */
  ghost predicate Under(f: Forest, n: Node, a: Node)
    requires IsForest(f) && n in f
    decreases Depths(f)[n]
  {
    assert IsLevel(f, Depths(f), n);
    n == a || (f[n].Some? && Under(f, f[n].value, a))
  }

  ghost function Subtree(f: Forest, a: Node): (nodes: set<Node>)
    requires IsForest(f)
    ensures nodes <= f.Keys
  {
    set n | n in f && Under(f, n, a)
  }

  lemma {:induction false} UnderTransitive(f: Forest, n: Node, m: Node, a: Node)
    requires IsForest(f) && n in f && m in f && Under(f, n, m) && Under(f, m, a)
    ensures Under(f, n, a)
    decreases Depths(f)[n]
  {
    assert IsLevel(f, Depths(f), n);
    if n != m {
      UnderTransitive(f, f[n].value, m, a);
    }
  }

  lemma {:induction false} UnderIsDeeper(f: Forest, n: Node, a: Node)
    requires IsForest(f) && n in f && a in f && Under(f, n, a)
    ensures Depths(f)[n] >= Depths(f)[a]
    ensures n != a ==> Depths(f)[n] > Depths(f)[a]
    decreases Depths(f)[n]
  {
    assert IsLevel(f, Depths(f), n);
    if n != a {
      UnderIsDeeper(f, f[n].value, a);
    }
  }

  // ----- changes

  /** The depth at which a node hangs under `parent`. */
  ghost function LevelUnder(f: Forest, parent: Option<Node>): (level: nat)
    requires IsForest(f) && (parent.Some? ==> parent.value in f)
  {
    if parent.None? then 0 else Depths(f)[parent.value] + 1
  }

  lemma AddLeaf(f: Forest, n: Node, parent: Option<Node>)
    requires IsForest(f) && n !in f && (parent.Some? ==> parent.value in f)
    ensures IsForest(f[n := parent])
    ensures Depths(f[n := parent]) == Depths(f)[n := LevelUnder(f, parent)]
  {
    var g, d := f[n := parent], Depths(f)[n := LevelUnder(f, parent)];
    forall x | x in g ensures IsLevel(g, d, x) {
      assert x in f ==> IsLevel(f, Depths(f), x);
    }
    DepthsAre(g, d);
  }

  lemma RemoveSubtree(f: Forest, a: Node)
    requires IsForest(f)
    ensures IsForest(f - Subtree(f, a)) && Depths(f - Subtree(f, a)) == Depths(f) - Subtree(f, a)
  {
    var g, d := f - Subtree(f, a), Depths(f) - Subtree(f, a);
    assert d.Keys == g.Keys;
    forall n | n in g ensures IsLevel(g, d, n) {
      assert IsLevel(f, Depths(f), n);
      assert g[n].Some? ==> !Under(f, g[n].value, a);
    }
    DepthsAre(g, d);
  }

  /** The parent may become the new parent of `n`: it exists and is not `n` or below it. */
  ghost predicate MayAdopt(f: Forest, n: Node, parent: Option<Node>)
    requires IsForest(f)
  {
    parent.Some? ==> parent.value in f && !Under(f, parent.value, n)
  }

  /** Where `x` is after `n` was moved to hang under `parent`: what is under `n` shifts with it, the rest stays. */
  ghost function MovedDepth(f: Forest, n: Node, parent: Option<Node>, x: Node): (d: nat)
    requires IsForest(f) && n in f && x in f && MayAdopt(f, n, parent)
  {
    if Under(f, x, n) then
      UnderIsDeeper(f, x, n);
      Depths(f)[x] - Depths(f)[n] + LevelUnder(f, parent)
    else Depths(f)[x]
  }

  lemma MovedDepthStep(f: Forest, n: Node, parent: Option<Node>, x: Node)
    requires IsForest(f) && n in f && x in f && MayAdopt(f, n, parent)
    ensures match f[n := parent][x]
      case None => MovedDepth(f, n, parent, x) == 0
      case Some(p) => p in f && MovedDepth(f, n, parent, x) == MovedDepth(f, n, parent, p) + 1
  {
    assert IsLevel(f, Depths(f), x);
    if x != n && f[x].Some? {
      assert Under(f, x, n) <==> Under(f, f[x].value, n);
    }
  }

  lemma MoveSubtree(f: Forest, n: Node, parent: Option<Node>)
    requires IsForest(f) && n in f && MayAdopt(f, n, parent)
    ensures IsForest(f[n := parent])
    ensures forall x :: x in f ==> Depths(f[n := parent])[x] == MovedDepth(f, n, parent, x)
  {
    var g := f[n := parent];
    var e := map x | x in f :: MovedDepth(f, n, parent, x);
    forall x | x in g ensures IsLevel(g, e, x) {
      MovedDepthStep(f, n, parent, x);
    }
    assert IsDepth(g, e);
    DepthsAre(g, e);
  }
}
