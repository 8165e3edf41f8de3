/**
 The cached depth of a tree model.  Saving or deleting a node clears the cache unless its parent has
 another child; here is when what stays in the cache is still true.
*/
module MaxDepthCache {
  import opened Collections
  import opened Forests

  /** The table of nodes and the cache entry for `max_depth`. */
  datatype TreeState = TreeState(forest: Forest, cache: Option<nat>)

  /** The cached value, if any, is the depth of the forest. */
  ghost predicate Consistent(s: TreeState) {
    IsForest(s.forest) && (s.cache.Some? ==> s.cache.value == MaxDepth(s.forest))
  }

  function Children(f: Forest, p: Node): (nodes: set<Node>) {
    set n | n in f && f[n] == Some(p)
  }

  /** "TreeNode has siblings, depth can't change": the parent is still there and has more than one child. */
  predicate SkipsInvalidation(f: Forest, parent: Option<Node>) {
    parent.Some? && parent.value in f && |Children(f, parent.value)| > 1
  }

  /** That is, two different nodes hang under it. */
  lemma SkipsExactly(f: Forest, p: Node)
    ensures SkipsInvalidation(f, Some(p)) <==>
      p in f && exists x, y :: x in f && y in f && x != y && f[x] == Some(p) && f[y] == Some(p)
    ensures !SkipsInvalidation(f, None)
  {
    if SkipsInvalidation(f, Some(p)) {
      var x :| x in Children(f, p);
      var y := Sibling(f, p, x);
    }
    if x, y :| x in f && y in f && x != y && f[x] == Some(p) && f[y] == Some(p) {
      CardinalityOfSubset({x, y}, Children(f, p));
    }
  }

  function AfterSignal(s: TreeState, parent: Option<Node>): (t: TreeState) {
    if SkipsInvalidation(s.forest, parent) then s else s.(cache := None)
  }

  // ----- the operations

  function AfterSave(s: TreeState, n: Node, parent: Option<Node>): (t: TreeState) {
    AfterSignal(s.(forest := s.forest[n := parent]), parent)
  }

  /** A delete takes the subtree along; every deleted node then sends its signal. */
  ghost function AfterDelete(s: TreeState, n: Node): (t: TreeState)
    requires IsForest(s.forest)
  {
    var rest := s.forest - Subtree(s.forest, n);
    if forall x :: x in Subtree(s.forest, n) ==> SkipsInvalidation(rest, s.forest[x])
    then s.(forest := rest) else TreeState(rest, None)
  }

  ghost function AfterRead(s: TreeState): (t: TreeState)
    requires IsForest(s.forest)
  {
    if s.cache.Some? then s else s.(cache := Some(MaxDepth(s.forest)))
  }

  lemma CreateKeepsConsistent(s: TreeState, n: Node, parent: Option<Node>)
    requires Consistent(s) && n !in s.forest && (parent.Some? ==> parent.value in s.forest)
    ensures Consistent(AfterSave(s, n, parent))
  {
    AddLeaf(s.forest, n, parent);
    var g := s.forest[n := parent];
    if SkipsInvalidation(g, parent) && s.cache.Some? {
      var sibling := Sibling(g, parent.value, n);
      assert IsLevel(s.forest, Depths(s.forest), sibling);
      assert Depths(s.forest)[sibling] == LevelUnder(s.forest, parent);
      SameDepths(s.forest, g, n, sibling);
    }
  }

  lemma Sibling(f: Forest, p: Node, n: Node) returns (sibling: Node)
    requires |Children(f, p)| > 1
    ensures sibling in f && f[sibling] == Some(p) && sibling != n
  {
    var rest := Children(f, p) - {n};
    assert rest != {} by {
      if rest == {} {
        assert Children(f, p) <= {n};
        CardinalityOfSubset(Children(f, p), {n});
      }
    }
    sibling :| sibling in rest;
  }

  /** Adding or removing one node beside an equally deep one does not change the depth of the forest. */
  lemma SameDepths(f: Forest, g: Forest, n: Node, sibling: Node)
    requires IsForest(f) && IsForest(g) && f.Keys <= g.Keys <= f.Keys + {n}
    requires forall x :: x in f ==> Depths(f)[x] == Depths(g)[x]
    requires n in g && sibling in f && Depths(g)[n] == Depths(f)[sibling]
    ensures MaxDepth(f) == MaxDepth(g)
  {
    var m := MaxDepth(f);
    forall x | x in g.Keys ensures Depths(g)[x] <= m {
      assert Depths(f)[sibling] <= m;
      assert x in f ==> Depths(f)[x] <= m;
    }
    var deepest :| deepest in f && Depths(f)[deepest] == m;
    assert deepest in g.Keys && Depths(g)[deepest] == m;
    DeepestIs(g, g.Keys, m);
  }

  lemma SaveKeepsConsistent(s: TreeState, n: Node)
    requires Consistent(s) && n in s.forest
    ensures Consistent(AfterSave(s, n, s.forest[n]))
  {
    assert s.forest[n := s.forest[n]] == s.forest;
  }

  /** The parent of a deleted descendant is deleted too, so its signal clears the cache. */
  lemma OrphansInvalidate(f: Forest, n: Node, x: Node)
    requires IsForest(f) && x in Subtree(f, n)
    ensures SkipsInvalidation(f - Subtree(f, n), f[x]) ==> x == n
  {
    assert IsLevel(f, Depths(f), x);
    assert x != n ==> f[x].value in Subtree(f, n);
  }

  lemma DeleteKeepsConsistent(s: TreeState, n: Node)
    requires Consistent(s) && n in s.forest
    ensures Consistent(AfterDelete(s, n))
  {
    RemoveSubtree(s.forest, n);
    var gone := Subtree(s.forest, n);
    var rest := s.forest - gone;
    assert n in gone;
    if s.cache.Some? && forall x :: x in gone ==> SkipsInvalidation(rest, s.forest[x]) {
      forall x | x in gone ensures x == n {
        OrphansInvalidate(s.forest, n, x);
      }
      assert SkipsInvalidation(rest, s.forest[n]);
      var sibling := Sibling(rest, s.forest[n].value, n);
      assert s.forest[sibling] == s.forest[n];
      assert IsLevel(s.forest, Depths(s.forest), n) && IsLevel(s.forest, Depths(s.forest), sibling);
      SameDepths(rest, s.forest, n, sibling);
    }
  }

  lemma ReadIsTrue(s: TreeState)
    requires Consistent(s)
    ensures Consistent(AfterRead(s)) && AfterRead(s).cache == Some(MaxDepth(s.forest))
  {
  }

  // ----- moves

  /** What is outside the moved subtree, and how deep that is. */
  ghost function Rest(f: Forest, n: Node): (nodes: set<Node>)
    requires IsForest(f)
    ensures nodes <= f.Keys
  {
    f.Keys - Subtree(f, n)
  }

  /** The move keeps the level, or the subtree reaches below the rest of the forest neither before nor after it. */
  ghost predicate MoveKeepsDepth(f: Forest, n: Node, parent: Option<Node>)
    requires IsForest(f) && n in f && (parent.Some? ==> parent.value in f)
  {
    var shift := LevelUnder(f, parent) - Depths(f)[n];
    var bottom, rest := Deepest(f, Subtree(f, n)), Deepest(f, Rest(f, n));
    shift == 0 || (bottom <= rest && bottom + shift <= rest)
  }

  lemma MovedBottom(f: Forest, n: Node, parent: Option<Node>)
    requires IsForest(f) && n in f && MayAdopt(f, n, parent)
    ensures IsForest(f[n := parent]) && f[n := parent].Keys == f.Keys
    ensures Deepest(f[n := parent], Subtree(f, n)) == Deepest(f, Subtree(f, n)) + LevelUnder(f, parent) - Depths(f)[n]
  {
    MoveSubtree(f, n, parent);
    assert f[n := parent].Keys == f.Keys && n in Subtree(f, n);
    DeepestShifts(f, f[n := parent], Subtree(f, n), LevelUnder(f, parent) - Depths(f)[n]);
  }

  lemma MovedRest(f: Forest, n: Node, parent: Option<Node>)
    requires IsForest(f) && n in f && MayAdopt(f, n, parent) && Rest(f, n) != {}
    ensures IsForest(f[n := parent]) && f[n := parent].Keys == f.Keys
    ensures Deepest(f[n := parent], Rest(f, n)) == Deepest(f, Rest(f, n))
  {
    MoveSubtree(f, n, parent);
    assert f[n := parent].Keys == f.Keys;
    DeepestShifts(f, f[n := parent], Rest(f, n), 0);
  }

  lemma MaxDepthAfterMove(f: Forest, n: Node, parent: Option<Node>)
    requires IsForest(f) && n in f && MayAdopt(f, n, parent) && Rest(f, n) != {}
    ensures IsForest(f[n := parent])
    ensures MaxDepth(f[n := parent]) == MaxDepth(f) <==> MoveKeepsDepth(f, n, parent)
  {
    MovedBottom(f, n, parent);
    MovedRest(f, n, parent);
    var g := f[n := parent];
    assert f.Keys == Subtree(f, n) + Rest(f, n);
    DeepestOfUnion(f, Subtree(f, n), Rest(f, n));
    DeepestOfUnion(g, Subtree(f, n), Rest(f, n));
  }

  /** A save that changes the parent leaves a true cache exactly when it clears it or the depth stays. */
  lemma MoveConsistentExactly(s: TreeState, n: Node, parent: Option<Node>)
    requires Consistent(s) && s.cache.Some? && n in s.forest && MayAdopt(s.forest, n, parent)
    ensures Consistent(AfterSave(s, n, parent)) <==>
      !SkipsInvalidation(s.forest[n := parent], parent) || MoveKeepsDepth(s.forest, n, parent)
  {
    MoveSubtree(s.forest, n, parent);
    if parent.Some? {
      assert parent.value in Rest(s.forest, n);
      MaxDepthAfterMove(s.forest, n, parent);
    }
  }

  /** The node is new or its new parent may adopt it. */
  ghost predicate MaySave(s: TreeState, n: Node, parent: Option<Node>)
    requires IsForest(s.forest)
  {
    if n in s.forest then MayAdopt(s.forest, n, parent) else parent.Some? ==> parent.value in s.forest
  }

  /** The cases in which a save leaves a true cache: no move, nothing cached, cache cleared, or depth unchanged. */
  ghost predicate CacheStaysTrue(s: TreeState, n: Node, parent: Option<Node>)
    requires IsForest(s.forest) && MaySave(s, n, parent)
  {
    || n !in s.forest || s.forest[n] == parent || s.cache.None?
    || !SkipsInvalidation(s.forest[n := parent], parent)
    || MoveKeepsDepth(s.forest, n, parent)
  }

  /** For every save of either kind, these cases are all of them. */
  lemma SaveIsTrue(s: TreeState, n: Node, parent: Option<Node>)
    requires Consistent(s) && MaySave(s, n, parent)
    ensures IsForest(s.forest[n := parent])
    ensures Consistent(AfterSave(s, n, parent)) <==> CacheStaysTrue(s, n, parent)
  {
    if n !in s.forest {
      AddLeaf(s.forest, n, parent);
      CreateKeepsConsistent(s, n, parent);
    } else {
      MoveSubtree(s.forest, n, parent);
      if s.forest[n] == parent {
        SaveKeepsConsistent(s, n);
      } else if s.cache.Some? {
        MoveConsistentExactly(s, n, parent);
      }
    }
  }

  // ----- runs

  /** A save creates a node, writes it in place or moves it. */
  datatype Operation = Save(n: Node, parent: Option<Node>) | Delete(n: Node) | Read | Evict

  ghost predicate Legal(s: TreeState, op: Operation)
    requires IsForest(s.forest)
  {
    match op
    case Save(n, parent) => MaySave(s, n, parent)
    case Delete(n) => n in s.forest
    case Read => true
    case Evict => true
  }

  ghost function Step(s: TreeState, op: Operation): (t: TreeState)
    requires IsForest(s.forest) && Legal(s, op)
  {
    match op
    case Save(n, parent) => AfterSave(s, n, parent)
    case Delete(n) => AfterDelete(s, n)
    case Read => AfterRead(s)
    case Evict => s.(cache := None)
  }

  /** The operation is not a save that leaves a false cache. */
  ghost predicate StepIsTrue(s: TreeState, op: Operation)
    requires IsForest(s.forest) && Legal(s, op)
  {
    op.Save? ==> CacheStaysTrue(s, op.n, op.parent)
  }

  lemma StepConsistentExactly(s: TreeState, op: Operation)
    requires Consistent(s) && Legal(s, op)
    ensures Consistent(Step(s, op)) <==> StepIsTrue(s, op)
  {
    match op
    case Save(n, parent) => SaveIsTrue(s, n, parent);
    case Delete(n) => DeleteKeepsConsistent(s, n);
    case Read => ReadIsTrue(s);
    case Evict =>
  }

  /** The states of a run: each follows from the one before by a legal operation. */
  ghost predicate IsRun(states: seq<TreeState>, ops: seq<Operation>) {
    |states| == |ops| + 1 && forall i :: 0 <= i < |ops| ==> IsStep(states, ops, i)
  }

  ghost predicate IsStep(states: seq<TreeState>, ops: seq<Operation>, i: nat)
    requires i < |ops| < |states|
  {
    IsForest(states[i].forest) && Legal(states[i], ops[i]) && states[i + 1] == Step(states[i], ops[i])
  }

  ghost predicate TrueUpTo(states: seq<TreeState>, ops: seq<Operation>, k: nat)
    requires IsRun(states, ops) && k <= |ops|
  {
    forall i :: 0 <= i < k ==> IsStep(states, ops, i) && StepIsTrue(states[i], ops[i])
  }

  /** Over every run, moves included: the cache stays absent or true exactly if no move leaves a false cache. */
  lemma {:induction false} RunConsistentExactly(states: seq<TreeState>, ops: seq<Operation>, k: nat)
    requires IsRun(states, ops) && Consistent(states[0]) && k <= |ops|
    ensures (forall i :: 0 <= i <= k ==> Consistent(states[i])) <==> TrueUpTo(states, ops, k)
    decreases k
  {
    if k > 0 {
      RunConsistentExactly(states, ops, k - 1);
      assert IsStep(states, ops, k - 1);
      if Consistent(states[k - 1]) {
        StepConsistentExactly(states[k - 1], ops[k - 1]);
      }
    }
  }

  /** And so long as none did, a read tells the true depth. */
  lemma EveryReadIsTrue(states: seq<TreeState>, ops: seq<Operation>, k: nat)
    requires IsRun(states, ops) && Consistent(states[0])
    requires k < |ops| && ops[k].Read? && TrueUpTo(states, ops, k)
    ensures IsForest(states[k].forest) && states[k + 1].cache == Some(MaxDepth(states[k].forest))
  {
    RunConsistentExactly(states, ops, k);
    assert IsStep(states, ops, k);
    ReadIsTrue(states[k]);
  }

  /** The operation moves no node. */
  predicate MovesNothing(s: TreeState, op: Operation) {
    op.Save? && op.n in s.forest ==> s.forest[op.n] == op.parent
  }

  /** Over every run of creations, saves in place, deletions, reads and evictions, that needs no condition. */
  lemma EveryReadIsTrueWithoutMoves(states: seq<TreeState>, ops: seq<Operation>, k: nat)
    requires IsRun(states, ops) && Consistent(states[0])
    requires forall i :: 0 <= i < |ops| ==> MovesNothing(states[i], ops[i])
    requires k < |ops| && ops[k].Read?
    ensures IsForest(states[k].forest) && states[k + 1].cache == Some(MaxDepth(states[k].forest))
  {
    forall i | 0 <= i < k ensures IsStep(states, ops, i) && StepIsTrue(states[i], ops[i]) {
      assert IsStep(states, ops, i) && MovesNothing(states[i], ops[i]);
    }
    EveryReadIsTrue(states, ops, k);
  }

  // ----- a stale depth

  /** 2 under 1 under 0. */
  const LINE: Forest := map[0 := None, 1 := Some(0), 2 := Some(1)]

  const LINE_DEPTHS: map<Node, nat> := map[0 := 0, 1 := 1, 2 := 2]

  lemma LineIsDepth()
    ensures IsDepth(LINE, LINE_DEPTHS) && 2 in LINE && LINE_DEPTHS[2] == 2
    ensures forall x :: x in LINE_DEPTHS ==> LINE_DEPTHS[x] <= 2
  {
    assert LINE.Keys == {0, 1, 2} == LINE_DEPTHS.Keys;
  }

  lemma LineDepth()
    ensures IsForest(LINE) && MaxDepth(LINE) == 2
  {
    LineIsDepth();
    MaxDepthIs(LINE, LINE_DEPTHS, 2);
  }

  lemma MovedLineDepth()
    ensures IsForest(LINE[2 := Some(0)]) && MaxDepth(LINE[2 := Some(0)]) == 1
  {
    var d: map<Node, nat> := map[0 := 0, 1 := 1, 2 := 1];
    MaxDepthIs(LINE[2 := Some(0)], d, 2);
  }

  lemma MovedLineHasSiblings()
    ensures SkipsInvalidation(LINE[2 := Some(0)], Some(0))
  {
    var g := LINE[2 := Some(0)];
    assert 1 in Children(g, 0) && 2 in Children(g, 0) && 0 in g;
    CardinalityOfSubset({1, 2}, Children(g, 0));
  }

  lemma StaleAfterMove(f: Forest, n: Node, p: Node)
    requires IsForest(f) && n in f && p in f && n != p && f[p].None?
    requires IsForest(f[n := Some(p)]) && MaxDepth(f[n := Some(p)]) != MaxDepth(f)
    requires SkipsInvalidation(f[n := Some(p)], Some(p))
    ensures MayAdopt(f, n, Some(p)) && Consistent(TreeState(f, Some(MaxDepth(f))))
    ensures !Consistent(AfterSave(TreeState(f, Some(MaxDepth(f))), n, Some(p)))
  {
  }

  /** A leaf is moved up beside its parent: its new sibling keeps the cached 2, the depth is 1. */
  lemma MoveCanLeaveStaleDepth()
    ensures IsForest(LINE) && MayAdopt(LINE, 2, Some(0))
    ensures Consistent(TreeState(LINE, Some(2))) && !Consistent(AfterSave(TreeState(LINE, Some(2)), 2, Some(0)))
  {
    LineDepth();
    MovedLineDepth();
    MovedLineHasSiblings();
    StaleAfterMove(LINE, 2, 0);
  }
}
