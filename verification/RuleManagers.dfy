/** The managers and the signal handler of the validation rules, on shared tables and a shared cache. */
module RuleManagers {
  import opened Collections
  import opened CacheKeys
  import opened RuleCache
  import opened Strings

  class RuleStore {
    var tables: map<(RuleModel, Branch), Table>
    var cache: map<string, RuleSet>
    var active: Branch

    function Snapshot(): (w: World)
      reads this
    {
      World(tables, cache, active)
    }

    constructor (branch: Branch)
      requires LiteralBranch(branch)
      ensures Consistent(Snapshot()) && tables == map[] && active == branch
    {
      tables, cache, active := map[], map[], branch;
    }

    method GetForModel(m: RuleModel, contentType: string) returns (answer: Answer)
      requires Consistent(Snapshot())
      modifies this`cache
      ensures (Snapshot(), answer) == Read(old(Snapshot()), m, ForModel, contentType)
      ensures (active.Some? ==> '(' !in contentType) ==> Consistent(Snapshot())
      ensures !IsContentType(contentType) ==> answer == ValueError
      ensures IsContentType(contentType) && (active.Some? ==> '(' !in contentType) ==>
        && answer.Rules?
        && forall id: RuleId, r: Rule ::
          (id, r) in answer.rules <==> Applies(Snapshot(), m, active, contentType, false, id, r)
    {
      ContentTypeSplits(contentType);
      ghost var was := Snapshot();
      if IsAskable(active, contentType) {
        ReadIsFresh(was, m, ForModel, contentType);
      }
      var parts := SplitAtDot(contentType);
      if parts.None? {
        return ValueError;
      }
      var cacheKey := CacheKey(m, ForModel, active, contentType);
      if cacheKey !in cache {
        var queryset := Query(TableOf(Snapshot(), m, active), ForModel, parts.value.0, parts.value.1);
        cache := cache[cacheKey := queryset];
      }
      answer := Rules(cache[cacheKey]);
      FreshApplies(was, m, active, contentType);
    }

    method GetEnabledForModel(m: RuleModel, contentType: string) returns (answer: Answer)
      requires Consistent(Snapshot())
      modifies this`cache
      ensures (Snapshot(), answer) == Read(old(Snapshot()), m, EnabledForModel, contentType)
      ensures (active.Some? ==> '(' !in contentType) ==> Consistent(Snapshot())
      ensures !IsContentType(contentType) ==> answer == ValueError
      ensures IsContentType(contentType) && (active.Some? ==> '(' !in contentType) ==>
        && answer.Rules?
        && forall id: RuleId, r: Rule ::
          (id, r) in answer.rules <==> Applies(Snapshot(), m, active, contentType, true, id, r)
    {
      ContentTypeSplits(contentType);
      ghost var was := Snapshot();
      if IsAskable(active, contentType) {
        ReadIsFresh(was, m, EnabledForModel, contentType);
      }
      var parts := SplitAtDot(contentType);
      if parts.None? {
        return ValueError;
      }
      var cacheKey := CacheKey(m, EnabledForModel, active, contentType);
      if cacheKey !in cache {
        var queryset := Query(TableOf(Snapshot(), m, active), EnabledForModel, parts.value.0, parts.value.1);
        cache := cache[cacheKey := queryset];
      }
      answer := Rules(cache[cacheKey]);
      FreshApplies(was, m, active, contentType);
    }

    /** The handler of `post_save` and `post_delete`. */
    method InvalidateValidationRuleCaches(m: RuleModel)
      modifies this`cache
      ensures Snapshot() == AfterInvalidation(old(Snapshot()), m)
    {
      var prefixes := [KeyPrefix(m, ForModel, active), KeyPrefix(m, EnabledForModel, active)];
      for k := 0 to |prefixes|
        invariant cache == if k == 0 then old(cache) else if k == 1 then DeletePattern(old(cache), prefixes[0])
                           else DeletePattern(DeletePattern(old(cache), prefixes[0]), prefixes[1])
      {
        cache := DeletePattern(cache, prefixes[k]);
      }
    }

    method SaveRule(m: RuleModel, id: RuleId, rule: Rule)
      requires Consistent(Snapshot())
      modifies this
      ensures Snapshot() == Step(old(Snapshot()), Save(m, id, rule)).0
      ensures (m, active) in tables && tables == old(tables)[(m, active) := tables[(m, active)]]
      ensures tables[(m, active)] ==
        (if (m, active) in old(tables) then old(tables)[(m, active)] else map[])[id := rule]
      ensures Consistent(Snapshot())
    {
      StepKeepsConsistent(Snapshot(), Save(m, id, rule));
      tables := tables[(m, active) := TableOf(Snapshot(), m, active)[id := rule]];
      InvalidateValidationRuleCaches(m);
    }

    method DeleteRule(m: RuleModel, id: RuleId)
      requires Consistent(Snapshot())
      modifies this
      ensures Snapshot() == Step(old(Snapshot()), Delete(m, id)).0
      ensures (m, active) in tables && tables == old(tables)[(m, active) := tables[(m, active)]]
      ensures tables[(m, active)] == (if (m, active) in old(tables) then old(tables)[(m, active)] else map[]) - {id}
      ensures Consistent(Snapshot())
    {
      StepKeepsConsistent(Snapshot(), Delete(m, id));
      tables := tables[(m, active) := TableOf(Snapshot(), m, active) - {id}];
      InvalidateValidationRuleCaches(m);
    }
  }
}
