/** The tree model's manager and signal handler as they run: a table, a cache entry, and methods that update both. */
module TreeManagers {
  import opened Collections
  import opened Forests
  import opened MaxDepthCache

  class TreeManager {
    var forest: Forest
    var cache: Option<nat>

    ghost function State(): (s: TreeState)
      reads this
    {
      TreeState(forest, cache)
    }

    ghost predicate Valid()
      reads this
    {
      Consistent(State())
    }

    constructor ()
      ensures Valid() && forest == map[] && cache == None
    {
      forest, cache := map[], None;
      new;
      DepthsAre(forest, map[]);
    }

    /** The handler connected to `post_save` and `post_delete`; `parent` is that of the instance that sent the
        signal. */
    method InvalidateMaxDepthCache(parent: Option<Node>)
      modifies this`cache
      ensures State() == AfterSignal(old(State()), parent)
    {
      if parent.Some? && parent.value in forest {
        var siblings := set n | n in forest && forest[n] == parent;
        assert siblings == Children(forest, parent.value);
        if |siblings| > 1 {
          return;
        }
      }
      cache := None;
    }

    /** Insert, or update with a possibly different parent. */
    method Save(n: Node, parent: Option<Node>)
      requires Valid() && MaySave(State(), n, parent)
      modifies this
      ensures State() == AfterSave(old(State()), n, parent) && forest == old(forest)[n := parent]
      ensures IsForest(forest) && (CacheStaysTrue(old(State()), n, parent) ==> Valid())
    {
      SaveIsTrue(State(), n, parent);
      forest := forest[n := parent];
      InvalidateMaxDepthCache(parent);
    }

    /** Whether `a` is on the way from `n` to its root. */
    method IsUnder(n: Node, a: Node) returns (r: bool)
      requires IsForest(forest) && n in forest
      ensures r == Under(forest, n, a)
    {
      var at := n;
      while at != a && forest[at].Some?
        invariant at in forest && Under(forest, n, a) == Under(forest, at, a)
        decreases Depths(forest)[at]
      {
        assert IsLevel(forest, Depths(forest), at);
        at := forest[at].value;
      }
      r := at == a;
    }

    /** The node with everything below it. */
    method CollectSubtree(n: Node) returns (gone: set<Node>)
      requires IsForest(forest)
      ensures gone == Subtree(forest, n)
    {
      var todo := forest.Keys;
      gone := {};
      while todo != {}
        invariant todo <= forest.Keys && gone == Subtree(forest, n) - todo
        decreases todo
      {
        var x :| x in todo;
        var under := IsUnder(x, n);
        if under { gone := gone + {x}; }
        todo := todo - {x};
      }
    }

    /** One `post_delete` signal for each of the deleted rows, whose parents are in `was`. */
    method SignalDeleted(was: Forest, gone: set<Node>)
      requires gone <= was.Keys
      modifies this`cache
      ensures cache == if forall x :: x in gone ==> SkipsInvalidation(forest, was[x]) then old(cache) else None
    {
      var todo := gone;
      while todo != {}
        invariant todo <= gone
        invariant cache == if forall x :: x in gone - todo ==>
          SkipsInvalidation(forest, was[x]) then old(cache) else None
        decreases todo
      {
        var x :| x in todo;
        InvalidateMaxDepthCache(was[x]);
        todo := todo - {x};
      }
      assert gone - todo == gone;
    }

    /** Delete a node with everything below it; then each deleted row sends its signal. */
    method Delete(n: Node)
      requires Valid() && n in forest
      modifies this
      ensures State() == AfterDelete(old(State()), n)
      ensures forest == map x | x in old(forest) && !Under(old(forest), x, n) :: old(forest)[x]
      ensures Valid()
    {
      DeleteKeepsConsistent(State(), n);
      var gone := CollectSubtree(n);
      var was := forest;
      forest := forest - gone;
      SignalDeleted(was, gone);
    }

    method DepthOf(n: Node) returns (d: nat)
      requires IsForest(forest) && n in forest
      ensures d == Depths(forest)[n]
    {
      d := 0;
      var at := n;
      while forest[at].Some?
        invariant at in forest && Depths(forest)[at] + d == Depths(forest)[n]
        decreases Depths(forest)[at]
      {
        assert IsLevel(forest, Depths(forest), at);
        at, d := forest[at].value, d + 1;
      }
      assert IsLevel(forest, Depths(forest), at);
    }

    /** The query behind the cache. */
    method MaxTreeDepth() returns (m: nat)
      requires IsForest(forest)
      ensures m == MaxDepth(forest)
    {
      m := 0;
      var todo := forest.Keys;
      while todo != {}
        invariant todo <= forest.Keys && IsDeepest(forest, forest.Keys - todo, m)
        decreases todo
      {
        var n :| n in todo;
        var d := DepthOf(n);
        assert forest.Keys - (todo - {n}) == forest.Keys - todo + {n};
        if d > m { m := d; }
        todo := todo - {n};
      }
      assert forest.Keys - todo == forest.Keys;
      DeepestIs(forest, forest.Keys, m);
    }

    /** `max_depth`: the cached value, or the query's answer, which is then cached for good. */
    method ReadMaxDepth() returns (m: nat)
      requires Valid()
      modifies this`cache
      ensures m == MaxDepth(forest)
      ensures State() == AfterRead(old(State())) && Valid()
    {
      if cache.Some? {
        m := cache.value;
      } else {
        m := MaxTreeDepth();
        cache := Some(m);
      }
    }
  }
}
