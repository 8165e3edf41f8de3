/**
 The validation-rule caches.  Entries never time out: they are right only because every save and delete
 of a rule wipes them by pattern.  Every answer is shown to be that of the plain query, over whole runs.
*/
module RuleCache {
  import opened Collections
  import opened CacheKeys
  import opened Strings

  type RuleId = nat

  datatype Rule = Rule(appLabel: string, model: string, field: string, enabled: bool)

  type Table = map<RuleId, Rule>

  type RuleSet = set<(RuleId, Rule)>

  /** The rule tables of every branch, the shared cache, and the active branch. */
  datatype World = World(tables: map<(RuleModel, Branch), Table>, cache: map<string, RuleSet>, active: Branch)

  function TableOf(w: World, m: RuleModel, b: Branch): (t: Table) {
    if (m, b) in w.tables then w.tables[(m, b)] else map[]
  }

  /** The query behind a getter. */
  function Query(t: Table, g: Getter, app: string, model: string): (r: RuleSet) {
    set id | id in t && t[id].appLabel == app && t[id].model == model && (g == ForModel || t[id].enabled) :: (id, t[id])
  }

  function Fresh(w: World, m: RuleModel, g: Getter, b: Branch, contentType: string): (r: RuleSet) {
    match SplitAtDot(contentType)
    case None => {}
    case Some((app, model)) => Query(TableOf(w, m, b), g, app, model)
  }

  /** A content type: an application and a model label without dots, joined by one. */
  ghost predicate IsContentType(contentType: string) {
    exists app: string, model: string :: '.' !in app && '.' !in model && contentType == app + "." + model
  }

  /** The rule is stored for the content type on the branch (and enabled, if only those are asked for). */
  ghost predicate Applies(
    w: World, m: RuleModel, b: Branch, contentType: string, onlyEnabled: bool, id: RuleId, r: Rule)
  {
    && (m, b) in w.tables && id in w.tables[(m, b)] && w.tables[(m, b)][id] == r
    && '.' !in r.appLabel && '.' !in r.model && contentType == r.appLabel + "." + r.model
    && (onlyEnabled ==> r.enabled)
  }

  lemma ContentTypeSplits(contentType: string)
    ensures IsContentType(contentType) <==> SplitAtDot(contentType).Some?
  {
    SplitAtDotParts(contentType);
    if app: string, model: string :| '.' !in app && '.' !in model && contentType == app + "." + model {
      SplitAtDotJoins(app, model);
    }
  }

  /** The query's answer is the rules that apply: all of them, or the enabled ones. */
  lemma FreshExactly(w: World, m: RuleModel, b: Branch, contentType: string, id: RuleId, r: Rule)
    ensures (id, r) in Fresh(w, m, ForModel, b, contentType) <==> Applies(w, m, b, contentType, false, id, r)
    ensures (id, r) in Fresh(w, m, EnabledForModel, b, contentType) <==> Applies(w, m, b, contentType, true, id, r)
  {
    SplitAtDotExactly(contentType, r.appLabel, r.model);
    SplitAtDotParts(contentType);
  }

  lemma FreshApplies(w: World, m: RuleModel, b: Branch, contentType: string)
    ensures forall id: RuleId, r: Rule ::
      (id, r) in Fresh(w, m, ForModel, b, contentType) <==> Applies(w, m, b, contentType, false, id, r)
    ensures forall id: RuleId, r: Rule ::
      (id, r) in Fresh(w, m, EnabledForModel, b, contentType) <==> Applies(w, m, b, contentType, true, id, r)
  {
    forall id: RuleId, r: Rule { FreshExactly(w, m, b, contentType, id, r); }
  }

  /** The enabled rules are among all rules, and are those that are enabled. */
  lemma EnabledAreAmongAll(w: World, m: RuleModel, b: Branch, contentType: string, id: RuleId, r: Rule)
    ensures (id, r) in Fresh(w, m, EnabledForModel, b, contentType) <==>
      (id, r) in Fresh(w, m, ForModel, b, contentType) && r.enabled
  {
    FreshExactly(w, m, b, contentType, id, r);
  }

  /** The cache has no entry under the key, or the query's answer. */
  predicate EntryIsFresh(w: World, m: RuleModel, g: Getter, b: Branch, contentType: string) {
    CacheKey(m, g, b, contentType) in w.cache ==>
      w.cache[CacheKey(m, g, b, contentType)] == Fresh(w, m, g, b, contentType)
  }

  /** Every cached answer, on every branch, is what the query would say now. */
  ghost predicate Consistent(w: World) {
    && LiteralBranch(w.active)
    && forall m, g, b, ct :: PlainKey(b, ct) && b.Some? == w.active.Some? ==> EntryIsFresh(w, m, g, b, ct)
  }

  // ----- operations

  datatype Operation =
    | Save(m: RuleModel, id: RuleId, rule: Rule)
    | Delete(m: RuleModel, id: RuleId)
    | Get(m: RuleModel, g: Getter, contentType: string)
    | Evict(keys: set<string>)
    | Foreign(key: string, value: RuleSet)
    | Checkout(branch: string)

  datatype Answer = Done | Rules(rules: RuleSet) | ValueError

  /** `cache.delete_pattern(f"{prefix}(*)")` */
  function DeletePattern(cache: map<string, RuleSet>, prefix: string): (c: map<string, RuleSet>) {
    map k | k in cache && !Glob(Pattern(prefix), k) :: cache[k]
  }

  function AfterInvalidation(w: World, m: RuleModel): (v: World) {
    var cache := DeletePattern(w.cache, KeyPrefix(m, ForModel, w.active));
    w.(cache := DeletePattern(cache, KeyPrefix(m, EnabledForModel, w.active)))
  }

  function WithTable(w: World, m: RuleModel, t: Table): (v: World) {
    w.(tables := w.tables[(m, w.active) := t])
  }

  function Read(w: World, m: RuleModel, g: Getter, contentType: string): (r: (World, Answer)) {
    if SplitAtDot(contentType).None? then (w, ValueError)
    else
      var key := CacheKey(m, g, w.active, contentType);
      if key in w.cache then (w, Rules(w.cache[key]))
      else
        var rules := Fresh(w, m, g, w.active, contentType);
        (w.(cache := w.cache[key := rules]), Rules(rules))
  }

  function Step(w: World, op: Operation): (r: (World, Answer)) {
    match op
    case Save(m, id, rule) => (AfterInvalidation(WithTable(w, m, TableOf(w, m, w.active)[id := rule]), m), Done)
    case Delete(m, id) => (AfterInvalidation(WithTable(w, m, TableOf(w, m, w.active) - {id}), m), Done)
    case Get(m, g, contentType) => Read(w, m, g, contentType)
    case Evict(keys) => (w.(cache := w.cache - keys), Done)
    case Foreign(key, value) => (w.(cache := w.cache[key := value]), Done)
    case Checkout(branch) => (w.(active := Some(branch)), Done)
  }

  /** What is asked for is not a content type at all, or its key can be taken apart. */
  predicate IsAskable(b: Branch, contentType: string) {
    SplitAtDot(contentType).Some? ==> PlainKey(b, contentType)
  }

  /** Branches exist only with Version Control, and their names may have parentheses but no pattern characters;
      foreign entries are not under rule keys. */
  ghost predicate Legal(versioned: bool, op: Operation) {
    match op
    case Checkout(branch) => versioned && LiteralBranch(Some(branch))
    case Foreign(key, value) =>
      forall m, g, b, ct :: PlainKey(b, ct) && b.Some? == versioned ==> CacheKey(m, g, b, ct) != key
    case Get(m, g, contentType) => versioned && SplitAtDot(contentType).Some? ==> '(' !in contentType
    case _ => true
  }

  // ----- every step keeps the cache right

  lemma InvalidationForgets(w: World, m: RuleModel, g: Getter, ct: string)
    requires LiteralBranch(w.active)
    ensures CacheKey(m, g, w.active, ct) !in AfterInvalidation(w, m).cache
  {
    PatternCoversKeys(m, g, w.active, ct);
  }

  /** The signal deletes the keys of the two methods on the active branch, for any parameters, and no other key. */
  lemma InvalidationDeletesExactly(w: World, m: RuleModel, key: string)
    requires LiteralBranch(w.active)
    ensures key in AfterInvalidation(w, m).cache <==>
      key in w.cache && !IsKeyOf(KeyPrefix(m, ForModel, w.active), key) &&
      !IsKeyOf(KeyPrefix(m, EnabledForModel, w.active), key)
  {
    LiteralPrefix(m, ForModel, w.active);
    LiteralPrefix(m, EnabledForModel, w.active);
    GlobPrefix(KeyPrefix(m, ForModel, w.active), key);
    GlobPrefix(KeyPrefix(m, EnabledForModel, w.active), key);
  }

  /** The prefix, a parenthesis, anything, and the closing parenthesis. */
  predicate IsKeyOf(prefix: string, key: string) {
    |key| >= |prefix| + 2 && prefix + ['('] <= key && key[|key| - 1] == ')'
  }

  /** The answers about other rule models stay cached. */
  lemma InvalidationSparesOthers(w: World, m: RuleModel, n: RuleModel, g: Getter, b: Branch, contentType: string)
    requires LiteralBranch(w.active) && m != n
    ensures var key := CacheKey(n, g, b, contentType); key in AfterInvalidation(w, m).cache <==> key in w.cache
  {
    InvalidationDeletesExactly(w, m, CacheKey(n, g, b, contentType));
    NotAKeyOf(m, ForModel, w.active, n, g, b, contentType);
    NotAKeyOf(m, EnabledForModel, w.active, n, g, b, contentType);
  }

  lemma NotAKeyOf(m: RuleModel, h: Getter, d: Branch, n: RuleModel, g: Getter, b: Branch, contentType: string)
    requires m != n
    ensures !IsKeyOf(KeyPrefix(m, h, d), CacheKey(n, g, b, contentType))
  {
    if KeyPrefix(m, h, d) + ['('] <= CacheKey(n, g, b, contentType) {
      KeysNameModels(m, h, d, n, g, b, contentType);
    }
  }

  lemma InvalidationOnlyForgets(w: World, m: RuleModel, key: string)
    ensures key in AfterInvalidation(w, m).cache ==>
      key in w.cache && AfterInvalidation(w, m).cache[key] == w.cache[key]
    ensures AfterInvalidation(w, m).tables == w.tables
  {
  }

  /** With the same data, an entry that is kept or forgotten stays fresh. */
  lemma FreshByKey(w: World, v: World, m: RuleModel, g: Getter, b: Branch, ct: string, key: string)
    requires key == CacheKey(m, g, b, ct) && TableOf(v, m, b) == TableOf(w, m, b)
    requires key in v.cache ==> key in w.cache && v.cache[key] == w.cache[key]
    requires EntryIsFresh(w, m, g, b, ct)
    ensures EntryIsFresh(v, m, g, b, ct)
  {
  }

  /** The table of another model or another branch is not touched, and its entry is kept or forgotten. */
  lemma ChangeKeepsOther(w: World, m: RuleModel, t: Table, n: RuleModel, g: Getter, b: Branch, ct: string)
    requires EntryIsFresh(w, n, g, b, ct) && !(n == m && b == w.active)
    ensures EntryIsFresh(AfterInvalidation(WithTable(w, m, t), m), n, g, b, ct)
  {
    var key, changed := CacheKey(n, g, b, ct), WithTable(w, m, t);
    InvalidationOnlyForgets(changed, m, key);
    FreshByKey(w, AfterInvalidation(changed, m), n, g, b, ct, key);
  }

  lemma ChangeKeepsEntry(w: World, m: RuleModel, t: Table, n: RuleModel, g: Getter, b: Branch, ct: string)
    requires LiteralBranch(w.active) && EntryIsFresh(w, n, g, b, ct)
    ensures EntryIsFresh(AfterInvalidation(WithTable(w, m, t), m), n, g, b, ct)
  {
    if n == m && b == w.active {
      InvalidationForgets(WithTable(w, m, t), n, g, ct);
    } else {
      ChangeKeepsOther(w, m, t, n, g, b, ct);
    }
  }

  lemma ChangeKeepsConsistent(w: World, m: RuleModel, t: Table)
    requires Consistent(w)
    ensures Consistent(AfterInvalidation(WithTable(w, m, t), m))
  {
    forall n, g, b, ct | PlainKey(b, ct) && b.Some? == w.active.Some?
      ensures EntryIsFresh(AfterInvalidation(WithTable(w, m, t), m), n, g, b, ct)
    {
      ChangeKeepsEntry(w, m, t, n, g, b, ct);
    }
  }

  lemma ReadKeepsEntry(
    w: World, m: RuleModel, g: Getter, contentType: string, n: RuleModel, h: Getter, b: Branch, ct: string)
    requires PlainKey(w.active, contentType) && PlainKey(b, ct) && b.Some? == w.active.Some?
    requires EntryIsFresh(w, n, h, b, ct)
    ensures EntryIsFresh(Read(w, m, g, contentType).0, n, h, b, ct)
  {
    var key := CacheKey(n, h, b, ct);
    if key == CacheKey(m, g, w.active, contentType) {
      KeysDiffer(n, h, b, ct, m, g, w.active, contentType);
      ReadEntryIsFresh(w, m, g, contentType);
    } else {
      ReadAddsOneEntry(w, m, g, contentType, key);
      FreshByKey(w, Read(w, m, g, contentType).0, n, h, b, ct, key);
    }
  }

  lemma ReadEntryIsFresh(w: World, m: RuleModel, g: Getter, contentType: string)
    requires EntryIsFresh(w, m, g, w.active, contentType)
    ensures EntryIsFresh(Read(w, m, g, contentType).0, m, g, w.active, contentType)
  {
  }

  lemma ReadAddsOneEntry(w: World, m: RuleModel, g: Getter, contentType: string, key: string)
    requires key != CacheKey(m, g, w.active, contentType)
    ensures var v := Read(w, m, g, contentType).0;
      v.tables == w.tables && (key in v.cache <==> key in w.cache) && (key in v.cache ==> v.cache[key] == w.cache[key])
  {
  }

  lemma ReadIsFresh(w: World, m: RuleModel, g: Getter, contentType: string)
    requires Consistent(w) && IsAskable(w.active, contentType)
    ensures Consistent(Read(w, m, g, contentType).0)
    ensures SplitAtDot(contentType).Some? ==>
      Read(w, m, g, contentType).1 == Rules(Fresh(w, m, g, w.active, contentType))
  {
    if SplitAtDot(contentType).Some? {
      forall n, h, b, ct | PlainKey(b, ct) && b.Some? == w.active.Some?
        ensures EntryIsFresh(Read(w, m, g, contentType).0, n, h, b, ct)
      {
        ReadKeepsEntry(w, m, g, contentType, n, h, b, ct);
      }
      assert EntryIsFresh(w, m, g, w.active, contentType);
    }
  }

  lemma StepKeepsConsistent(w: World, op: Operation)
    requires Consistent(w) && Legal(w.active.Some?, op)
    ensures Consistent(Step(w, op).0) && Step(w, op).0.active.Some? == w.active.Some?
  {
    match op
    case Save(m, id, rule) => ChangeKeepsConsistent(w, m, TableOf(w, m, w.active)[id := rule]);
    case Delete(m, id) => ChangeKeepsConsistent(w, m, TableOf(w, m, w.active) - {id});
    case Get(m, g, contentType) => ReadIsFresh(w, m, g, contentType);
    case Evict(keys) => SameTables(w, Step(w, op).0);
    case Foreign(key, value) => SameTables(w, Step(w, op).0);
    case Checkout(branch) => SameTables(w, Step(w, op).0);
  }

  lemma SameTables(w: World, v: World)
    requires Consistent(w) && v.tables == w.tables && LiteralBranch(v.active) && v.active.Some? == w.active.Some?
    requires forall m, g, b, ct :: PlainKey(b, ct) && b.Some? == w.active.Some? && CacheKey(m, g, b, ct) in v.cache ==>
      CacheKey(m, g, b, ct) in w.cache && v.cache[CacheKey(m, g, b, ct)] == w.cache[CacheKey(m, g, b, ct)]
    ensures Consistent(v)
  {
    forall m, g, b, ct | PlainKey(b, ct) && b.Some? == v.active.Some? ensures EntryIsFresh(v, m, g, b, ct) {
      assert EntryIsFresh(w, m, g, b, ct);
    }
  }

  /** A rule saved as disabled is from then on answered by the first getter and not by the second. */
  lemma DisabledRuleAnswers(w: World, m: RuleModel, id: RuleId, rule: Rule, contentType: string)
    requires Consistent(w) && !rule.enabled && IsAskable(w.active, contentType)
    requires '.' !in rule.appLabel && '.' !in rule.model && contentType == rule.appLabel + "." + rule.model
    ensures var saved := Step(w, Save(m, id, rule)).0;
      var all, enabled := Read(saved, m, ForModel, contentType).1, Read(saved, m, EnabledForModel, contentType).1;
      all.Rules? && enabled.Rules? && (id, rule) in all.rules && (id, rule) !in enabled.rules
  {
    var saved := Step(w, Save(m, id, rule)).0;
    StepKeepsConsistent(w, Save(m, id, rule));
    SplitAtDotJoins(rule.appLabel, rule.model);
    ReadIsFresh(saved, m, ForModel, contentType);
    ReadIsFresh(saved, m, EnabledForModel, contentType);
    FreshExactly(saved, m, saved.active, contentType, id, rule);
  }

  // ----- runs

  function Answers(w: World, ops: seq<Operation>): (answers: seq<Answer>)
    decreases |ops|
  {
    if ops == [] then [] else [Step(w, ops[0]).1] + Answers(Step(w, ops[0]).0, ops[1..])
  }

  /** The same operations on tables and branches alone: every get asks the query. */
  function PlainStep(w: World, op: Operation): (r: (World, Answer)) {
    match op
    case Save(m, id, rule) => (WithTable(w, m, TableOf(w, m, w.active)[id := rule]), Done)
    case Delete(m, id) => (WithTable(w, m, TableOf(w, m, w.active) - {id}), Done)
    case Get(m, g, contentType) =>
      (w, if SplitAtDot(contentType).None? then ValueError else Rules(Fresh(w, m, g, w.active, contentType)))
    case Evict(keys) => (w, Done)
    case Foreign(key, value) => (w, Done)
    case Checkout(branch) => (w.(active := Some(branch)), Done)
  }

  function PlainAnswers(w: World, ops: seq<Operation>): (answers: seq<Answer>)
    decreases |ops|
  {
    if ops == [] then [] else [PlainStep(w, ops[0]).1] + PlainAnswers(PlainStep(w, ops[0]).0, ops[1..])
  }

  ghost predicate SameData(w: World, v: World) {
    w.tables == v.tables && w.active == v.active
  }

  lemma StepRefines(w: World, v: World, op: Operation)
    requires Consistent(w) && SameData(w, v) && Legal(w.active.Some?, op)
    ensures Step(w, op).1 == PlainStep(v, op).1 && SameData(Step(w, op).0, PlainStep(v, op).0)
  {
    match op
    case Get(m, g, contentType) =>
      ReadIsFresh(w, m, g, contentType);
      assert TableOf(w, m, w.active) == TableOf(v, m, v.active);
    case _ =>
      assert forall m :: TableOf(w, m, w.active) == TableOf(v, m, v.active);
  }

  /** Over every run, on any branches and with any evictions, caching changes no answer. */
  lemma {:induction false} CachedAnswersArePlain(w: World, v: World, ops: seq<Operation>)
    requires Consistent(w) && SameData(w, v)
    requires forall i :: 0 <= i < |ops| ==> Legal(w.active.Some?, ops[i])
    ensures Answers(w, ops) == PlainAnswers(v, ops)
    decreases |ops|
  {
    if ops != [] {
      StepKeepsConsistent(w, ops[0]);
      StepRefines(w, v, ops[0]);
      CachedAnswersArePlain(Step(w, ops[0]).0, PlainStep(v, ops[0]).0, ops[1..]);
    }
  }
}
