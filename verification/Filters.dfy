/**
 The choice and search filters: when they call `.distinct()`, and that the row each of them returns is
 returned once, exactly if the query selects it.
*/
module Filters {
  import opened Collections
  import opened Joins
  import opened Querysets

  /** A filter's field path, and whether it resolves to model fields at all. */
  datatype FieldPath = FieldPath(joins: seq<Field>, resolvable: bool)

  /** `None` when the path is empty or does not resolve. */
  function TraversesToMany(path: FieldPath): (r: Option<bool>) {
    if path.joins == [] || !path.resolvable then None
    else Some(exists f :: f in path.joins && f.ToMany())
  }

  /** The state that `AutoDistinctFilterMixin.distinct` reads. */
  datatype AutoDistinct = AutoDistinct(
    field: FieldPath,
    exclude: bool,
    excludeUsesSubquery: bool,
    distinctExplicit: bool,
    stored: bool,
    hasModel: bool)

  function DerivedDistinct(f: AutoDistinct): (d: bool) {
    if f.distinctExplicit || !f.hasModel then f.stored
    else if f.exclude && f.excludeUsesSubquery then false
    else match TraversesToMany(f.field)
      case None => f.stored
      case Some(toMany) => toMany
  }

  /** `distinct` is left to the mixin, and the mixin can resolve the path. */
  predicate IsDerived(f: AutoDistinct) {
    f.hasModel && !f.distinctExplicit && f.field.resolvable && f.field.joins != []
  }

  /** `distinct` is derived, or it is on anyway: all but the filters that were told to leave it off. */
  predicate IsDerivedOrOn(f: AutoDistinct) {
    IsDerived(f) || f.stored
  }

  /** Where it is derived, `.distinct()` is called exactly if the filter could otherwise repeat a row. */
  lemma DistinctCalledExactly(f: AutoDistinct)
    requires IsDerived(f) && f.excludeUsesSubquery
    ensures DerivedDistinct(f) <==> !NeverRepeats([f.field.joins], f.exclude)
  {
    DistinctNeededExactly([f.field.joins], f.exclude);
    assert [f.field.joins][0] == f.field.joins;
  }

  /** Where it cannot be derived, it is what the filter was told, or the default of its class; but excluding never
      needs it. */
  lemma DistinctAsTold(f: AutoDistinct)
    requires !IsDerived(f) && !(f.hasModel && !f.distinctExplicit && f.exclude && f.excludeUsesSubquery)
    ensures DerivedDistinct(f) == f.stored
  {
  }

  /** A choice filter whose values are looked up at the field path or, for natural keys, at `toField` behind it. */
  datatype ChoiceFilter = ChoiceFilter(auto: AutoDistinct, toField: seq<Field>)

  predicate LooksUp(f: ChoiceFilter, path: seq<Field>) {
    path == f.auto.field.joins || path == f.auto.field.joins + f.toField
  }

  /** The non-conjoined choice filters: one OR'd query, then `.distinct()` if derived. No value, no filtering. */
  function FilterChoice(f: ChoiceFilter, db: Database, qs: seq<Row>, leaves: seq<Leaf>): (r: seq<Row>) {
    var r := Apply(db, qs, leaves, f.auto.exclude);
    if leaves == [] then qs else if DerivedDistinct(f.auto) then Distinct(r) else r
  }

  /** Every selected row exactly once, for every filter whose natural key does not itself cross a to-many relation. */
  lemma FilterChoiceExact(f: ChoiceFilter, db: Database, qs: seq<Row>, leaves: seq<Leaf>)
    requires IsDerivedOrOn(f.auto) && f.auto.excludeUsesSubquery
    requires forall leaf :: leaf in leaves ==> LooksUp(f, leaf.path)
    requires Conforms(db) && NoDuplicates(qs) && AllToOne(f.toField)
    ensures NoDuplicates(FilterChoice(f, db, qs, leaves))
    ensures leaves == [] ==> FilterChoice(f, db, qs, leaves) == qs
    ensures forall r :: r in FilterChoice(f, db, qs, leaves) <==>
      r in qs && (leaves == [] || Selects(db, leaves, r) != f.auto.exclude)
  {
    ApplySelects(db, qs, leaves, f.auto.exclude);
    if leaves != [] && !DerivedDistinct(f.auto) {
      forall i | 0 <= i < |leaves| && !f.auto.exclude ensures AllToOne(leaves[i].path) {
        assert leaves[i] in leaves;
      }
      ApplyKeepsNoDuplicates(db, qs, leaves, f.auto.exclude);
    }
  }

  /** One value given to the filter, as `get_filter_predicate` sees it. */
  datatype KeyValue = NullValue | PrimaryKey(id: Row) | NaturalKey(value: Row)

  /** `{path: wanted}`, or `{path__isnull: True}` */
  function EqualsLeaf(path: seq<Field>, wanted: Cell): (leaf: Leaf) {
    Leaf(path, (c: Cell) => c == wanted)
  }

  function KeyLeaf(f: ChoiceFilter, v: KeyValue): (leaf: Leaf) {
    match v
    case NullValue => EqualsLeaf(f.auto.field.joins, None)
    case PrimaryKey(id) => EqualsLeaf(f.auto.field.joins, Some(id))
    case NaturalKey(value) => EqualsLeaf(f.auto.field.joins + f.toField, Some(value))
  }

  function KeyLeaves(f: ChoiceFilter, values: seq<KeyValue>): (leaves: seq<Leaf>)
    ensures |leaves| == |values| && forall i :: 0 <= i < |leaves| ==> leaves[i] == KeyLeaf(f, values[i])
  {
    seq(|values|, i requires 0 <= i < |values| => KeyLeaf(f, values[i]))
  }

  /** The value is found at the end of its path: nothing for null, the row of the key, or the natural key's value. */
  ghost predicate FindsKey(db: Database, f: ChoiceFilter, v: KeyValue, row: Row) {
    match v
    case NullValue => None in Arrivals(db, f.auto.field.joins, row)
    case PrimaryKey(id) => Some(id) in Arrivals(db, f.auto.field.joins, row)
    case NaturalKey(value) => Some(value) in Arrivals(db, f.auto.field.joins + f.toField, row)
  }

  lemma EqualsLeafHolds(db: Database, path: seq<Field>, wanted: Cell, row: Row)
    ensures Holds(db, EqualsLeaf(path, wanted), row) <==> wanted in Arrivals(db, path, row)
  {
    if wanted in Arrivals(db, path, row) {
      assert EqualsLeaf(path, wanted).test(wanted);
    }
  }

  lemma KeyLeavesSelect(f: ChoiceFilter, db: Database, values: seq<KeyValue>, row: Row)
    ensures Selects(db, KeyLeaves(f, values), row) <==> exists v :: v in values && FindsKey(db, f, v, row)
  {
    var leaves := KeyLeaves(f, values);
    forall i | 0 <= i < |values| ensures Holds(db, leaves[i], row) <==> FindsKey(db, f, values[i], row) {
      EqualsLeafHolds(db, f.auto.field.joins, None, row);
      match values[i]
      case NullValue =>
      case PrimaryKey(id) => EqualsLeafHolds(db, f.auto.field.joins, Some(id), row);
      case NaturalKey(value) => EqualsLeafHolds(db, f.auto.field.joins + f.toField, Some(value), row);
    }
    if v :| v in values && FindsKey(db, f, v, row) {
      var i :| 0 <= i < |values| && values[i] == v;
      assert Holds(db, leaves[i], row);
    }
  }

  /** The natural-key filter on the values it is given: every row that one of them is found from, exactly once; or
      all others, if it excludes. */
  lemma KeyFilterExact(f: ChoiceFilter, db: Database, qs: seq<Row>, values: seq<KeyValue>)
    requires IsDerivedOrOn(f.auto) && f.auto.excludeUsesSubquery
    requires Conforms(db) && NoDuplicates(qs) && AllToOne(f.toField)
    ensures NoDuplicates(FilterChoice(f, db, qs, KeyLeaves(f, values)))
    ensures forall r :: r in FilterChoice(f, db, qs, KeyLeaves(f, values)) <==>
      r in qs && (values == [] || (exists v :: v in values && FindsKey(db, f, v, r)) != f.auto.exclude)
  {
    FilterChoiceExact(f, db, qs, KeyLeaves(f, values));
    forall r: Row { KeyLeavesSelect(f, db, values, r); }
  }

  /** A natural key ends in a column of the related model. */
  predicate EndsInColumn(f: ChoiceFilter) {
    f.toField != [] && !f.toField[|f.toField| - 1].ToMany()
  }

  /** No values, queryset or conforming database make the filter return a row twice. */
  ghost predicate KeysNeverRepeat(f: ChoiceFilter) {
    forall db: Database, qs: seq<Row>, values: seq<KeyValue> ::
      Conforms(db) && NoDuplicates(qs) ==> NoDuplicates(FilterChoice(f, db, qs, KeyLeaves(f, values)))
  }

  lemma SafeKeysNeverRepeat(f: ChoiceFilter)
    requires IsDerived(f.auto) && f.auto.excludeUsesSubquery
    requires f.auto.exclude || !AllToOne(f.auto.field.joins) || AllToOne(f.toField)
    ensures KeysNeverRepeat(f)
  {
    forall db: Database, qs: seq<Row>, values: seq<KeyValue> | Conforms(db) && NoDuplicates(qs)
      ensures NoDuplicates(FilterChoice(f, db, qs, KeyLeaves(f, values)))
    {
      if !DerivedDistinct(f.auto) {
        AllToOneConcat(f.auto.field.joins, f.toField);
        ApplyKeepsNoDuplicates(db, qs, KeyLeaves(f, values), f.auto.exclude);
      }
    }
  }

  /** In the crowded database every path that ends in a column ends at row 0, in every joined row. */
  lemma CrowdedColumn(path: seq<Field>, root: Row, t: Tuple)
    requires path != [] && !path[|path| - 1].ToMany()
    requires IsJoined(CrowdedDatabase(), Compile([EqualsLeaf(path, Some(0))]).0, root, t)
    ensures t[Compile([EqualsLeaf(path, Some(0))]).1[0]] == Some(0)
  {
    var leaves := [EqualsLeaf(path, Some(0))];
    var (plan, at) := Compile(leaves);
    CompileLeads(leaves, 0);
    JoinIsSound(CrowdedDatabase(), plan, root, t, at[0]);
    CrowdedCells(plan, root, t, at[0]);
    var c := t[at[0]];
    assert path == path[..|path| - 1] + [path[|path| - 1]];
    var b := LastLink(CrowdedDatabase(), path[..|path| - 1], path[|path| - 1], root, c);
  }

  /** One natural key, found twice: a to-many relation on the way to the column repeats the row. */
  lemma CrowdedKeyRepeats(path: seq<Field>)
    requires path != [] && !path[|path| - 1].ToMany() && !AllToOne(path)
    ensures !NoDuplicates(Apply(CrowdedDatabase(), [0], [EqualsLeaf(path, Some(0))], false))
  {
    var leaves := [EqualsLeaf(path, Some(0))];
    var (plan, at) := Compile(leaves);
    forall t | IsJoined(CrowdedDatabase(), plan, 0, t) ensures AnyLeaf(leaves, at)(t) {
      CrowdedColumn(path, 0, t);
      assert at[0] < |t| && leaves[0].test(t[at[0]]);
    }
    assert !PathsToOne(leaves) by {
      assert leaves[0].path == path;
    }
    CrowdedFilterRepeats(leaves);
  }

  lemma UnsafeKeyRepeats(f: ChoiceFilter)
    requires IsDerived(f.auto) && f.auto.excludeUsesSubquery && EndsInColumn(f)
    requires !f.auto.exclude && AllToOne(f.auto.field.joins) && !AllToOne(f.toField)
    ensures !NoDuplicates(FilterChoice(f, CrowdedDatabase(), [0], KeyLeaves(f, [NaturalKey(0)])))
  {
    var path := f.auto.field.joins + f.toField;
    AllToOneConcat(f.auto.field.joins, f.toField);
    CrowdedKeyRepeats(path);
    assert KeyLeaves(f, [NaturalKey(0)]) == [EqualsLeaf(path, Some(0))];
  }

  /** A natural-key filter is safe exactly unless the natural key is the only to-many part of it: `distinct` never
      looks there. */
  lemma NaturalKeyDistinctExactly(f: ChoiceFilter)
    requires IsDerived(f.auto) && f.auto.excludeUsesSubquery && EndsInColumn(f)
    ensures KeysNeverRepeat(f) <==> f.auto.exclude || !AllToOne(f.auto.field.joins) || AllToOne(f.toField)
  {
    if f.auto.exclude || !AllToOne(f.auto.field.joins) || AllToOne(f.toField) {
      SafeKeysNeverRepeat(f);
    } else {
      UnsafeKeysCanRepeat(f);
    }
  }

  lemma UnsafeKeysCanRepeat(f: ChoiceFilter)
    requires IsDerived(f.auto) && f.auto.excludeUsesSubquery && EndsInColumn(f)
    requires !f.auto.exclude && AllToOne(f.auto.field.joins) && !AllToOne(f.toField)
    ensures !KeysNeverRepeat(f)
  {
    UnsafeKeyRepeats(f);
    var qs: seq<Row> := [0];
    assert Conforms(CrowdedDatabase()) && NoDuplicates(qs);
    assert !NoDuplicates(FilterChoice(f, CrowdedDatabase(), qs, KeyLeaves(f, [NaturalKey(0)])));
  }

  lemma AllToOneConcat(path: seq<Field>, more: seq<Field>)
    ensures AllToOne(path + more) <==> AllToOne(path) && AllToOne(more)
  {
    assert forall p :: p in path + more <==> p in path || p in more;
  }

  // ----- SearchFilter

  /** The lookups' meaning: lookup expression, value given, cell found. */
  type Lookup = (string, string, Cell) -> bool

  datatype Preprocessor = Standard | Custom(run: string -> Option<string>)

  /** One entry of `filter_predicates`; a custom preprocessor answers `None` where the source raises. */
  datatype Predicate = Predicate(field: FieldPath, expr: string, preprocessor: Preprocessor)

  const PRESERVE_WHITESPACE := ["icontains"]

  predicate IsSpace(c: char) {
    c == ' ' || '\t' <= c <= '\r' || '\U{1C}' <= c <= '\U{1F}'
  }

  function Strip(s: string): (r: string)
    decreases |s|
  {
    if s == "" then s
    else if IsSpace(s[0]) then Strip(s[1..])
    else if IsSpace(s[|s| - 1]) then Strip(s[..|s| - 1])
    else s
  }

  /** The value that the predicate looks up, or `None` when the predicate is skipped. */
  function Prepared(p: Predicate, value: string): (r: Option<string>) {
    match p.preprocessor
    case Standard => Some(if p.expr in PRESERVE_WHITESPACE then value else Strip(value))
    case Custom(run) => run(value)
  }

  function PredicateLeaf(p: Predicate, value: string, lookup: Lookup): (leaf: Leaf) {
    Leaf(p.field.joins, (c: Cell) => lookup(p.expr, value, c))
  }

  function SearchLeaves(predicates: seq<Predicate>, value: string, lookup: Lookup): (leaves: seq<Leaf>) {
    if predicates == [] then []
    else
      var last := predicates[|predicates| - 1];
      SearchLeaves(predicates[..|predicates| - 1], value, lookup) +
      match Prepared(last, value)
      case None => []
      case Some(v) => [PredicateLeaf(last, v, lookup)]
  }

  method GenerateQuery(predicates: seq<Predicate>, value: string, lookup: Lookup) returns (query: seq<Leaf>)
    ensures query == SearchLeaves(predicates, value, lookup)
  {
    query := [];
    for k := 0 to |predicates|
      invariant query == SearchLeaves(predicates[..k], value, lookup)
    {
      assert predicates[..k + 1][..k] == predicates[..k];
      match Prepared(predicates[k], value) {
        case None =>
        case Some(v) => query := query + [PredicateLeaf(predicates[k], v, lookup)];
      }
    }
    assert predicates[..|predicates|] == predicates;
  }

  datatype SearchFilter = SearchFilter(
    predicates: seq<Predicate>,
    exclude: bool,
    distinctExplicit: bool,
    stored: bool,
    hasModel: bool)

  function SearchDistinct(f: SearchFilter): (d: bool) {
    if f.distinctExplicit || !f.hasModel then f.stored
    else if exists i :: 0 <= i < |f.predicates| && TraversesToMany(f.predicates[i].field).None? then true
    else exists i :: 0 <= i < |f.predicates| && TraversesToMany(f.predicates[i].field) == Some(true)
  }

  function FilterSearch(f: SearchFilter, db: Database, qs: seq<Row>, value: string, lookup: Lookup): (r: seq<Row>) {
    if value == "" then qs
    else
      var r := Apply(db, qs, SearchLeaves(f.predicates, value, lookup), f.exclude);
      if SearchDistinct(f) then Distinct(r) else r
  }

  /** The predicate applies to this value, and something at the end of its path satisfies the lookup. */
  ghost predicate Finds(db: Database, p: Predicate, value: string, lookup: Lookup, row: Row) {
    Prepared(p, value).Some? &&
    exists c :: c in Arrivals(db, p.field.joins, row) && lookup(p.expr, Prepared(p, value).value, c)
  }

  lemma {:induction false} SearchLeavesMean(
    predicates: seq<Predicate>, value: string, lookup: Lookup, db: Database, row: Row)
    ensures Selects(db, SearchLeaves(predicates, value, lookup), row) <==>
      exists p :: p in predicates && Finds(db, p, value, lookup, row)
    ensures SearchLeaves(predicates, value, lookup) == [] <==>
      forall p :: p in predicates ==> Prepared(p, value).None?
    ensures forall leaf :: leaf in SearchLeaves(predicates, value, lookup) ==>
      exists p :: p in predicates && p.field.joins == leaf.path
  {
    if predicates != [] {
      var front, last := predicates[..|predicates| - 1], predicates[|predicates| - 1];
      assert predicates == front + [last];
      SearchLeavesMean(front, value, lookup, db, row);
      var before, all := SearchLeaves(front, value, lookup), SearchLeaves(predicates, value, lookup);
      if Prepared(last, value).Some? {
        var leaf := PredicateLeaf(last, Prepared(last, value).value, lookup);
        assert all == before + [leaf];
        SelectsSnoc(db, before, leaf, row);
        assert Holds(db, leaf, row) <==> Finds(db, last, value, lookup, row);
      } else {
        assert all == before;
      }
      assert forall p :: p in predicates <==> p in front || p == last;
    }
  }

  lemma SelectsSnoc(db: Database, front: seq<Leaf>, last: Leaf, row: Row)
    ensures Selects(db, front + [last], row) <==> Selects(db, front, row) || Holds(db, last, row)
  {
    var all := front + [last];
    assert forall i :: 0 <= i < |front| ==> all[i] == front[i];
    if Selects(db, front, row) {
      var i :| 0 <= i < |front| && Holds(db, front[i], row);
      assert Holds(db, all[i], row);
    }
    if Holds(db, last, row) {
      assert Holds(db, all[|front|], row);
    }
  }

  lemma SearchFilterSelects(f: SearchFilter, db: Database, qs: seq<Row>, value: string, lookup: Lookup, r: Row)
    ensures r in FilterSearch(f, db, qs, value, lookup) <==> (
      r in qs &&
      (value == "" ||
       (forall p :: p in f.predicates ==> Prepared(p, value).None?) ||
       (exists p :: p in f.predicates && Finds(db, p, value, lookup, r)) != f.exclude))
  {
    if value != "" {
      SearchLeavesMean(f.predicates, value, lookup, db, r);
      SearchApplies(f, db, qs, value, lookup, r);
    }
  }

  lemma SearchApplies(f: SearchFilter, db: Database, qs: seq<Row>, value: string, lookup: Lookup, r: Row)
    requires value != ""
    ensures var leaves := SearchLeaves(f.predicates, value, lookup);
      r in FilterSearch(f, db, qs, value, lookup) <==> r in qs && (leaves == [] || Selects(db, leaves, r) != f.exclude)
  {
    ApplySelects(db, qs, SearchLeaves(f.predicates, value, lookup), f.exclude);
  }

  lemma SearchFilterNeverRepeats(f: SearchFilter, db: Database, qs: seq<Row>, value: string, lookup: Lookup)
    requires (f.hasModel && !f.distinctExplicit) || f.stored
    requires Conforms(db) && NoDuplicates(qs)
    ensures NoDuplicates(FilterSearch(f, db, qs, value, lookup))
  {
    if value != "" && !SearchDistinct(f) {
      var leaves := SearchLeaves(f.predicates, value, lookup);
      SearchLeavesMean(f.predicates, value, lookup, db, 0);
      forall i | 0 <= i < |leaves| ensures AllToOne(leaves[i].path) {
        assert leaves[i] in leaves;
        var p :| p in f.predicates && p.field.joins == leaves[i].path;
        assert TraversesToMany(p.field) == Some(false);
      }
      ApplyKeepsNoDuplicates(db, qs, leaves, f.exclude);
    }
  }

  /** For any predicate map and any database: every matching row exactly once, however the joins multiply; and the
      queryset itself if there is nothing to search for. */
  lemma SearchFilterExact(f: SearchFilter, db: Database, qs: seq<Row>, value: string, lookup: Lookup)
    requires (f.hasModel && !f.distinctExplicit) || f.stored
    requires Conforms(db) && NoDuplicates(qs)
    ensures NoDuplicates(FilterSearch(f, db, qs, value, lookup))
    ensures value == "" ==> FilterSearch(f, db, qs, value, lookup) == qs
    ensures forall r :: r in FilterSearch(f, db, qs, value, lookup) <==> (
      r in qs &&
      (value == "" ||
       (forall p :: p in f.predicates ==> Prepared(p, value).None?) ||
       (exists p :: p in f.predicates && Finds(db, p, value, lookup, r)) != f.exclude))
  {
    SearchFilterNeverRepeats(f, db, qs, value, lookup);
    forall r { SearchFilterSelects(f, db, qs, value, lookup, r); }
  }

  function PredicatePaths(f: SearchFilter): (paths: seq<seq<Field>>)
    ensures |paths| == |f.predicates|
    ensures forall i :: 0 <= i < |paths| ==> paths[i] == f.predicates[i].field.joins
  {
    seq(|f.predicates|, i requires 0 <= i < |f.predicates| => f.predicates[i].field.joins)
  }

  predicate Unresolved(p: Predicate) {
    p.field.joins == [] || !p.field.resolvable
  }

  /** Where it is derived, `.distinct()` is called exactly if a predicate does not resolve, or if filtering along the
      predicates' paths could repeat a row. */
  lemma SearchDistinctExactly(f: SearchFilter)
    requires f.hasModel && !f.distinctExplicit
    ensures SearchDistinct(f) <==>
      (exists p :: p in f.predicates && Unresolved(p)) || !NeverRepeats(PredicatePaths(f), false)
  {
    var paths := PredicatePaths(f);
    DistinctNeededExactly(paths, false);
    forall i | 0 <= i < |paths| ensures AllToOne(paths[i]) <==> !exists g: Field :: g in paths[i] && g.ToMany() {
    }
    if p :| p in f.predicates && Unresolved(p) {
      var i :| 0 <= i < |f.predicates| && f.predicates[i] == p;
      assert TraversesToMany(f.predicates[i].field).None?;
    } else {
      forall i | 0 <= i < |paths| ensures TraversesToMany(f.predicates[i].field) == Some(!AllToOne(paths[i])) {
        assert f.predicates[i] in f.predicates;
      }
    }
  }

  lemma SearchDistinctAsTold(f: SearchFilter)
    requires f.distinctExplicit || !f.hasModel
    ensures SearchDistinct(f) == f.stored
  {
  }

  // ----- how the value is prepared

  lemma IsSpaceExactly(c: char)
    ensures IsSpace(c) <==>
      c in [' ', '\t', '\n', '\U{0B}', '\U{0C}', '\r', '\U{1C}', '\U{1D}', '\U{1E}', '\U{1F}']
  {
  }

  /** Stripping takes away white space at both ends, all of it and nothing else. */
  lemma {:induction false} StripCuts(s: string) returns (i: nat, j: nat)
    ensures i <= j <= |s| && Strip(s) == s[i..j]
    ensures forall k :: 0 <= k < i || j <= k < |s| ==> IsSpace(s[k])
    ensures i < j ==> !IsSpace(s[i]) && !IsSpace(s[j - 1])
    decreases |s|
  {
    if s == "" {
      i, j := 0, 0;
    } else if IsSpace(s[0]) {
      var a, b := StripCuts(s[1..]);
      i, j := a + 1, b + 1;
      assert s[1..][a..b] == s[i..j];
      assert forall k :: 1 <= k < |s| ==> s[k] == s[1..][k - 1];
    } else if IsSpace(s[|s| - 1]) {
      i, j := StripCuts(s[..|s| - 1]);
      assert s[..|s| - 1][i..j] == s[i..j];
    } else {
      i, j := 0, |s|;
      assert s[0..|s|] == s;
    }
  }

  /** Only `icontains` keeps the white space, and a preprocessor of the predicate's own replaces the stripping. */
  lemma PreparedExactly(p: Predicate, value: string)
    ensures p.preprocessor == Standard && p.expr == "icontains" ==> Prepared(p, value) == Some(value)
    ensures p.preprocessor == Standard && p.expr != "icontains" ==> Prepared(p, value) == Some(Strip(value))
    ensures p.preprocessor.Custom? ==> Prepared(p, value) == p.preprocessor.run(value)
  {
  }
}
