/**
 The filters that a filterset generates beside each declared one: `name__ic`, `name__nic`, `name__n` and so
 on.  An `n` filter is meant to be the complement of its positive twin; here is exactly when it is.
*/
module LookupFilters {
  import opened Collections
  import opened Joins
  import opened Querysets

  datatype FilterClass =
    | MultiValueDate | MultiValueDateTime | MultiValueDecimal | MultiValueFloat | MultiValueNumber | MultiValueTime
    | ModelChoice | ModelMultipleChoice | NaturalKeyOrPK | TreeNode | Tag
    | ContentType | ContentTypeChoice | ContentTypeMultipleChoice | MultiValueUUID
    | DjangoMultipleChoice | MultipleChoice | Char | MultiValueChar | MultiValueMACAddress
    | Boolean | OtherClass

  /** `field` is the path that the field name spells. `conjoined`: several values are looked up one after the other,
      each in its own call, and not in one OR. */
  datatype Filter = Filter(
    cls: FilterClass,
    field: seq<Field>,
    lookupExpr: string,
    exclude: bool,
    conjoined: bool,
    hasMethod: bool)

  /** The classes that are conjoined unless their constructor is told otherwise. The constructor keeps what it is
      told to itself, so a filter made from another one is never told. */
  predicate ConjoinedByDefault(cls: FilterClass) {
    cls == Tag || cls == ContentTypeMultipleChoice
  }

  /** A new filter of the class, on the same field. */
  function Derived(cls: FilterClass, field: seq<Field>, expr: string, exclude: bool): (f: Filter) {
    Filter(cls, field, expr, exclude, ConjoinedByDefault(cls), false)
  }

  /** The model field behind a filter: which lookups it supports, and which filter class is its default for each. */
  datatype ModelField = ModelField(nullable: bool, supported: set<string>, defaultClass: string -> FilterClass)

  type LookupMap = seq<(string, string)>

  const CHAR_LOOKUPS: LookupMap := [
    ("n", "exact"), ("ic", "icontains"), ("nic", "icontains"), ("iew", "iendswith"), ("niew", "iendswith"),
    ("isw", "istartswith"), ("nisw", "istartswith"), ("ie", "iexact"), ("nie", "iexact"),
    ("re", "regex"), ("nre", "regex"), ("ire", "iregex"), ("nire", "iregex")]
  const NUMERIC_LOOKUPS: LookupMap := [("n", "exact"), ("lte", "lte"), ("lt", "lt"), ("gte", "gte"), ("gt", "gt")]
  const NEGATION_LOOKUPS: LookupMap := [("n", "exact")]

  function LookupMapFor(cls: FilterClass): (m: Option<LookupMap>) {
    match cls
    case MultiValueDate | MultiValueDateTime | MultiValueDecimal
       | MultiValueFloat | MultiValueNumber | MultiValueTime =>
      Some(NUMERIC_LOOKUPS)
    case ModelChoice | ModelMultipleChoice | NaturalKeyOrPK | TreeNode | Tag
       | ContentType | ContentTypeChoice | ContentTypeMultipleChoice | MultiValueUUID =>
      Some(NEGATION_LOOKUPS)
    case DjangoMultipleChoice | MultipleChoice | Char | MultiValueChar | MultiValueMACAddress =>
      Some(CHAR_LOOKUPS)
    case Boolean | OtherClass => None
  }

  predicate UsesCharFilter(cls: FilterClass) {
    cls == DjangoMultipleChoice || cls == MultipleChoice
  }

  /** `_get_new_filter`: `None` where the source raises `FieldLookupError`. */
  function NewFilter(
    declared: set<string>, field: ModelField, name: string, base: Filter, expr: string): (r: Option<Filter>) {
    if expr !in field.supported then None
    else if UsesCharFilter(base.cls) then Some(Derived(MultiValueChar, base.field, expr, base.exclude))
    else if name in declared && expr != "isnull" then Some(Derived(base.cls, base.field, expr, base.exclude))
    else Some(Derived(field.defaultClass(expr), base.field, expr, false))
  }

  /** `lookup_name.startswith("n")` */
  predicate Negates(lookup: string) {
    lookup != "" && lookup[0] == 'n'
  }

  function LookupName(name: string, lookup: string): (s: string) {
    name + "__" + lookup
  }

  lemma LookupNameInjective(name: string, lookup: string, other: string)
    ensures LookupName(name, lookup) == LookupName(name, other) ==> lookup == other
  {
    assert LookupName(name, lookup)[|name| + 2..] == lookup;
    assert LookupName(name, other)[|name| + 2..] == other;
  }

  /** The generated filter for one entry of the lookup map. */
  function LookupFilter(
    declared: set<string>, field: ModelField, name: string, base: Filter, entry: (string, string)): (r: Option<Filter>)
  {
    var new_ := NewFilter(declared, field, name, base, entry.1);
    if new_.Some? && Negates(entry.0) then Some(new_.value.(exclude := !base.exclude)) else new_
  }

  /** The lookup map in force, or nothing when the filter is not to be augmented. */
  function LookupsOf(base: Filter, field: Option<ModelField>): (m: LookupMap) {
    if base.hasMethod || base.lookupExpr !in ["exact", "in", "iexact"] || field.None? ||
      LookupMapFor(base.cls).None? then []
    else LookupMapFor(base.cls).value + if field.value.nullable then [("isnull", "isnull")] else []
  }

  method GenerateLookupExpressionFilters(declared: set<string>, field: Option<ModelField>, name: string, base: Filter)
    returns (magic: map<string, Filter>)
    ensures IsMagic(magic, declared, field, name, base, LookupsOf(base, field))
    ensures field.None? ==> magic == map[]
    ensures field.Some? ==> forall lookup, expr :: (lookup, expr) in LookupsOf(base, field) ==>
      IsGenerated(magic, declared, field.value, name, base, lookup, expr)
  {
    DistinctLookupNames(base, field);
    magic := NewFilters(declared, field, name, base, LookupsOf(base, field));
    MagicIsGenerated(magic, declared, field, name, base);
  }

  /** What the dictionary has for an entry of the lookup map, entry by entry and attribute by attribute. */
  ghost predicate IsGenerated(
    magic: map<string, Filter>, declared: set<string>, field: ModelField, name: string, base: Filter,
    lookup: string, expr: string)
  {
    var key := name + "__" + lookup;
    var choices := base.cls == MultipleChoice || base.cls == DjangoMultipleChoice;
    var sameClass := name in declared && expr != "isnull";
    && (key in magic <==> expr in field.supported)
    && (key in magic ==>
      && magic[key].field == base.field && magic[key].lookupExpr == expr && !magic[key].hasMethod
      && magic[key].cls ==
        (if choices then MultiValueChar else if sameClass then base.cls else field.defaultClass(expr))
      && magic[key].conjoined == (magic[key].cls == Tag || magic[key].cls == ContentTypeMultipleChoice)
      && magic[key].exclude == if lookup in NEGATIONS then !base.exclude else base.exclude && (choices || sameClass))
  }

  const NEGATIONS: set<string> := {"n", "nic", "niew", "nisw", "nie", "nre", "nire"}

  lemma MagicIsGenerated(
    magic: map<string, Filter>, declared: set<string>, field: Option<ModelField>, name: string, base: Filter)
    requires IsMagic(magic, declared, field, name, base, LookupsOf(base, field))
    ensures field.None? ==> magic == map[]
    ensures field.Some? ==> forall lookup, expr :: (lookup, expr) in LookupsOf(base, field) ==>
      IsGenerated(magic, declared, field.value, name, base, lookup, expr)
  {
    var lookups := LookupsOf(base, field);
    if field.Some? {
      forall lookup, expr | (lookup, expr) in lookups
        ensures IsGenerated(magic, declared, field.value, name, base, lookup, expr)
      {
        var i :| 0 <= i < |lookups| && lookups[i] == (lookup, expr);
        assert Contains(magic, name, lookups[i].0, LookupFilter(declared, field.value, name, base, lookups[i]));
        NegatesExactly(base, field, lookup, expr);
        EntryIsGenerated(magic, declared, field.value, name, base, lookup, expr);
      }
    } else {
      assert forall key :: key !in magic;
    }
  }

  lemma EntryIsGenerated(
    magic: map<string, Filter>, declared: set<string>, field: ModelField, name: string, base: Filter,
    lookup: string, expr: string)
    requires Contains(magic, name, lookup, LookupFilter(declared, field, name, base, (lookup, expr)))
    requires Negates(lookup) <==> lookup in NEGATIONS
    ensures IsGenerated(magic, declared, field, name, base, lookup, expr)
  {
  }

  /** Of the names in a lookup map, those that begin with "n" are exactly these seven. */
  lemma NegatesExactly(base: Filter, field: Option<ModelField>, lookup: string, expr: string)
    requires (lookup, expr) in LookupsOf(base, field)
    ensures Negates(lookup) <==> lookup in NEGATIONS
  {
    if (lookup, expr) in CHAR_LOOKUPS {
      CharNegations(lookup, expr);
    } else if (lookup, expr) in NUMERIC_LOOKUPS {
      NumericNegations(lookup, expr);
    } else {
      assert lookup == "n" || lookup == "isnull";
    }
  }

  lemma CharNegations(lookup: string, expr: string)
    requires (lookup, expr) in CHAR_LOOKUPS
    ensures Negates(lookup) <==> lookup in NEGATIONS
  {
    var i :| 0 <= i < |CHAR_LOOKUPS| && CHAR_LOOKUPS[i] == (lookup, expr);
  }

  lemma NumericNegations(lookup: string, expr: string)
    requires (lookup, expr) in NUMERIC_LOOKUPS
    ensures Negates(lookup) <==> lookup in NEGATIONS
  {
    var i :| 0 <= i < |NUMERIC_LOOKUPS| && NUMERIC_LOOKUPS[i] == (lookup, expr);
  }

  /** A filter gets lookups beside it exactly if it has no method of its own, looks up plainly, stands for a model
      field and is of a class with a lookup map; among them is `isnull` exactly if the field may be null. */
  lemma AugmentedExactly(base: Filter, field: Option<ModelField>)
    ensures LookupsOf(base, field) != [] <==>
      && !base.hasMethod && field.Some? && base.cls != Boolean && base.cls != OtherClass
      && (base.lookupExpr == "exact" || base.lookupExpr == "in" || base.lookupExpr == "iexact")
    ensures ("isnull", "isnull") in LookupsOf(base, field) <==> LookupsOf(base, field) != [] && field.value.nullable
  {
    assert forall i :: 0 <= i < |CHAR_LOOKUPS| ==> CHAR_LOOKUPS[i].0 != "isnull";
    assert forall i :: 0 <= i < |NUMERIC_LOOKUPS| ==> NUMERIC_LOOKUPS[i].0 != "isnull";
    assert NEGATION_LOOKUPS[0].0 != "isnull";
    if LookupsOf(base, field) != [] && field.value.nullable {
      assert LookupsOf(base, field)[|LookupsOf(base, field)| - 1] == ("isnull", "isnull");
    }
  }

  /** What the positive lookups of a text filter stand for. */
  const TEXT_LOOKUPS: set<(string, string)> := {
    ("ic", "icontains"), ("iew", "iendswith"), ("isw", "istartswith"),
    ("ie", "iexact"), ("re", "regex"), ("ire", "iregex")
  }

  /** A text filter has these lookups, each with its negation, and the plain negation; nothing else. */
  lemma TextLookupsExactly(lookup: string, expr: string)
    ensures LookupMapFor(MultiValueChar) == LookupMapFor(Char) == LookupMapFor(MultipleChoice) == Some(CHAR_LOOKUPS)
    ensures (lookup, expr) in CHAR_LOOKUPS <==>
      || (lookup, expr) in TEXT_LOOKUPS
      || (lookup, expr) == ("n", "exact")
      || (lookup != "" && lookup[0] == 'n' && (lookup[1..], expr) in TEXT_LOOKUPS)
  {
    if (lookup, expr) in CHAR_LOOKUPS {
      TextEntry(lookup, expr);
    }
    if (lookup, expr) in TEXT_LOOKUPS {
      TextHasEntry(lookup, expr);
    }
    if lookup != "" && lookup[0] == 'n' && (lookup[1..], expr) in TEXT_LOOKUPS {
      TextHasEntry(lookup[1..], expr);
      assert lookup == ['n'] + lookup[1..];
    }
    assert CHAR_LOOKUPS[0] == ("n", "exact");
  }

  /** The map lists the texts in turn, each followed by its negation. */
  lemma TextPairs(i: nat)
    requires i < |CHAR_LOOKUPS| && i % 2 == 1
    ensures CHAR_LOOKUPS[i] in TEXT_LOOKUPS && i + 1 < |CHAR_LOOKUPS|
    ensures CHAR_LOOKUPS[i + 1] == (['n'] + CHAR_LOOKUPS[i].0, CHAR_LOOKUPS[i].1)
    ensures CHAR_LOOKUPS[i].0 != "" && CHAR_LOOKUPS[i].0[0] != 'n'
  {
    assert i == 1 || i == 3 || i == 5 || i == 7 || i == 9 || i == 11;
    assert "nic" == ['n'] + "ic" && "niew" == ['n'] + "iew" && "nisw" == ['n'] + "isw";
    assert "nie" == ['n'] + "ie" && "nre" == ['n'] + "re" && "nire" == ['n'] + "ire";
  }

  lemma TextEntry(lookup: string, expr: string)
    requires (lookup, expr) in CHAR_LOOKUPS
    ensures (lookup, expr) in TEXT_LOOKUPS || (lookup, expr) == ("n", "exact") ||
      (lookup != "" && lookup[0] == 'n' && (lookup[1..], expr) in TEXT_LOOKUPS)
  {
    var i :| 0 <= i < |CHAR_LOOKUPS| && CHAR_LOOKUPS[i] == (lookup, expr);
    if i % 2 == 1 {
      TextPairs(i);
    } else if i > 0 {
      TextPairs(i - 1);
      assert (['n'] + CHAR_LOOKUPS[i - 1].0)[1..] == CHAR_LOOKUPS[i - 1].0;
    }
  }

  lemma TextHasEntry(lookup: string, expr: string)
    requires (lookup, expr) in TEXT_LOOKUPS
    ensures (lookup, expr) in CHAR_LOOKUPS && (['n'] + lookup, expr) in CHAR_LOOKUPS
  {
    var i := if expr == "icontains" then 1 else if expr == "iendswith" then 3 else if expr == "istartswith" then 5
      else if expr == "iexact" then 7 else if expr == "regex" then 9 else 11;
    TextAt(lookup, expr, i);
    TextPairs(i);
    assert CHAR_LOOKUPS[i + 1] in CHAR_LOOKUPS;
  }

  lemma TextAt(lookup: string, expr: string, i: nat)
    requires (lookup, expr) in TEXT_LOOKUPS
    requires i == if expr == "icontains" then 1 else if expr == "iendswith" then 3 else if expr == "istartswith" then 5
      else if expr == "iexact" then 7 else if expr == "regex" then 9 else 11
    ensures CHAR_LOOKUPS[i] == (lookup, expr)
  {
    DistinctExpressions();
  }

  lemma DistinctExpressions()
    ensures "icontains" != "iendswith" && "icontains" != "istartswith" && "icontains" != "iexact"
    ensures "icontains" != "regex" && "icontains" != "iregex" && "iendswith" != "istartswith"
    ensures "iendswith" != "iexact" && "iendswith" != "regex" && "iendswith" != "iregex"
    ensures "istartswith" != "iexact" && "istartswith" != "regex" && "istartswith" != "iregex"
    ensures "iexact" != "regex" && "iexact" != "iregex" && "regex" != "iregex"
  {
    assert |"icontains"| == |"iendswith"| == 9 && |"istartswith"| == 11;
    assert |"iexact"| == |"iregex"| == 6 && |"regex"| == 5;
    assert "icontains"[1] == 'c' && "iendswith"[1] == 'e' && "iexact"[1] == 'e' && "iregex"[1] == 'r';
  }

  /** In every lookup map, a negation but for the plain one stands beside the lookup that it negates. */
  lemma NegationHasTwin(base: Filter, field: Option<ModelField>, lookup: string, expr: string)
    requires lookup != "" && (['n'] + lookup, expr) in LookupsOf(base, field)
    ensures (lookup, expr) in LookupsOf(base, field)
  {
    var negation := ['n'] + lookup;
    assert negation[1..] == lookup && |negation| >= 2;
    OnlyTextsNegateOthers(base, field, negation, expr);
    TextEntry(negation, expr);
    NegatedIsText(lookup, expr);
    TextHasEntry(lookup, expr);
  }

  lemma NegatedIsText(lookup: string, expr: string)
    requires lookup != "" && (['n'] + lookup, expr) in CHAR_LOOKUPS
    ensures (lookup, expr) in TEXT_LOOKUPS
  {
    var i :| 0 <= i < |CHAR_LOOKUPS| && CHAR_LOOKUPS[i] == (['n'] + lookup, expr);
    assert CHAR_LOOKUPS[i].0[0] == 'n' && |CHAR_LOOKUPS[i].0| > 1;
    if i % 2 == 1 {
      TextPairs(i);
      assert false;
    }
    TextPairs(i - 1);
    assert lookup == (['n'] + lookup)[1..] == (['n'] + CHAR_LOOKUPS[i - 1].0)[1..] == CHAR_LOOKUPS[i - 1].0;
  }

  lemma OnlyTextsNegateOthers(base: Filter, field: Option<ModelField>, lookup: string, expr: string)
    requires (lookup, expr) in LookupsOf(base, field) && |lookup| >= 2 && lookup[0] == 'n'
    ensures LookupMapFor(base.cls) == Some(CHAR_LOOKUPS) && (lookup, expr) in CHAR_LOOKUPS
  {
    assert lookup != "isnull";
    assert forall i :: 0 <= i < |NUMERIC_LOOKUPS| ==> NUMERIC_LOOKUPS[i].0 == "n" || NUMERIC_LOOKUPS[i].0[0] != 'n';
  }

  /** The loop over the lookup map. */
  method NewFilters(
    declared: set<string>, field: Option<ModelField>, name: string, base: Filter, lookups: LookupMap)
    returns (magic: map<string, Filter>)
    requires lookups == [] || field.Some?
    requires forall i, j :: 0 <= i < j < |lookups| ==> lookups[i].0 != lookups[j].0
    ensures IsMagic(magic, declared, field, name, base, lookups)
  {
    magic := map[];
    for k := 0 to |lookups|
      invariant IsMagic(magic, declared, field, name, base, lookups[..k])
    {
      assert lookups[..k + 1] == lookups[..k] + [lookups[k]];
      MagicGrows(magic, declared, field, name, base, lookups[..k], lookups[k]);
      match LookupFilter(declared, field.value, name, base, lookups[k]) {
        case None =>
        case Some(f) => magic := magic[LookupName(name, lookups[k].0) := f];
      }
    }
    assert lookups[..|lookups|] == lookups;
  }

  /** The dictionary has the generated filter of every entry of the lookup map, and no other key. */
  ghost predicate IsMagic(
    magic: map<string, Filter>, declared: set<string>, field: Option<ModelField>, name: string, base: Filter,
    lookups: LookupMap)
    requires lookups == [] || field.Some?
  {
    && (forall key :: key in magic ==> exists i :: 0 <= i < |lookups| && key == LookupName(name, lookups[i].0))
    && forall i :: 0 <= i < |lookups| ==>
      Contains(magic, name, lookups[i].0, LookupFilter(declared, field.value, name, base, lookups[i]))
  }

  lemma MagicGrows(
    magic: map<string, Filter>, declared: set<string>, field: Option<ModelField>, name: string, base: Filter,
    lookups: LookupMap, entry: (string, string))
    requires field.Some? && IsMagic(magic, declared, field, name, base, lookups)
    requires forall i :: 0 <= i < |lookups| ==> lookups[i].0 != entry.0
    ensures var f := LookupFilter(declared, field.value, name, base, entry);
      var key := LookupName(name, entry.0);
      IsMagic(if f.Some? then magic[key := f.value] else magic, declared, field, name, base, lookups + [entry])
  {
    var all := lookups + [entry];
    DistinctFromEarlier(name, all, |lookups|);
    assert forall i :: 0 <= i < |lookups| ==> all[i] == lookups[i];
    assert all[|lookups|] == entry;
  }

  lemma DistinctFromEarlier(name: string, lookups: LookupMap, k: nat)
    requires k < |lookups| && forall i :: 0 <= i < k ==> lookups[i].0 != lookups[k].0
    ensures forall i :: 0 <= i < k ==> LookupName(name, lookups[i].0) != LookupName(name, lookups[k].0)
  {
    forall i | 0 <= i < k ensures LookupName(name, lookups[i].0) != LookupName(name, lookups[k].0) {
      LookupNameInjective(name, lookups[i].0, lookups[k].0);
    }
  }

  /** The dictionary holds the filter under the generated name, or nothing where no filter could be made. */
  predicate Contains(magic: map<string, Filter>, name: string, lookup: string, f: Option<Filter>) {
    if f.Some? then LookupName(name, lookup) in magic && magic[LookupName(name, lookup)] == f.value
    else LookupName(name, lookup) !in magic
  }

  lemma DistinctLookupNames(base: Filter, field: Option<ModelField>)
    ensures var m := LookupsOf(base, field); forall i, j :: 0 <= i < j < |m| ==> m[i].0 != m[j].0
  {
    var m := LookupsOf(base, field);
    assert CHAR_LOOKUPS[0].0 == "n" && CHAR_LOOKUPS[1].0 == "ic" && CHAR_LOOKUPS[2].0 == "nic";
    if m != [] {
      forall i, j | 0 <= i < j < |m| ensures m[i].0 != m[j].0 {
        assert |m[i].0| == |m[j].0| ==> exists k :: 0 <= k < |m[i].0| && m[i].0[k] != m[j].0[k] by {
          if |m[i].0| == |m[j].0| {
            assert m[i].0[0] != m[j].0[0] || (|m[i].0| > 1 && m[i].0[1] != m[j].0[1])
              || (|m[i].0| > 2 && m[i].0[2] != m[j].0[2]);
          }
        }
      }
    }
  }

  // ----- the meaning of a generated filter

  /** What one value is looked up by: keys, all of them columns of the row at the end of the path. */
  datatype ValueLookup = ValueLookup(path: seq<Field>, keys: seq<Cell -> bool>)

  /** What a filter of a class looks up for a list of values; `None` where it rejects the values and answers nothing. */
  type Meaning = (FilterClass, seq<Field>, string, seq<string>) -> Option<seq<ValueLookup>>

  /** The classes that answer `qs.none()` to a malformed value. */
  predicate MayReject(cls: FilterClass) {
    cls == ContentType || cls == ContentTypeChoice
  }

  /** The classes that look a value up by two columns of the related row: `field__app_label` and `field__model`. */
  predicate TwoKeyed(cls: FilterClass) {
    MayReject(cls) || cls == ContentTypeMultipleChoice
  }

  predicate IsLookup(cls: FilterClass, field: seq<Field>, l: ValueLookup) {
    l.keys != [] && (|l.keys| > 1 ==> TwoKeyed(cls) && l.path == field)
  }

  ghost predicate IsMeaning(meaning: Meaning) {
    forall cls, field, expr, values ::
      match meaning(cls, field, expr, values)
      case None => MayReject(cls)
      case Some(ls) => forall i :: 0 <= i < |ls| ==> IsLookup(cls, field, ls[i])
  }

  function Lookups(f: Filter, meaning: Meaning, values: seq<string>): (ls: Option<seq<ValueLookup>>) {
    meaning(f.cls, f.field, f.lookupExpr, values)
  }

  function KeyLeaf(l: ValueLookup, k: nat): (leaf: Leaf)
    requires k < |l.keys|
  {
    Leaf(l.path, l.keys[k])
  }

  /** All keys, tested on one and the same joined row. */
  function RowLeaf(l: ValueLookup): (leaf: Leaf) {
    Leaf(l.path, (c: Cell) => forall k :: 0 <= k < |l.keys| ==> l.keys[k](c))
  }

  function RowLeaves(ls: seq<ValueLookup>): (leaves: seq<Leaf>)
    ensures |leaves| == |ls| && forall i :: 0 <= i < |leaves| ==> leaves[i] == RowLeaf(ls[i])
  {
    seq(|ls|, i requires 0 <= i < |ls| => RowLeaf(ls[i]))
  }

  /** The row is in the subquery of a single lookup. */
  predicate InSubquery(db: Database, leaf: Leaf, row: Row) {
    var (plan, at) := Compile([leaf]);
    Copies(db, plan, AnyLeaf([leaf], at), row) > 0
  }

  /** Each key has a subquery of its own: what satisfies one key need not be what satisfies another. */
  predicate InSubqueries(db: Database, l: ValueLookup, row: Row) {
    forall k :: 0 <= k < |l.keys| ==> InSubquery(db, KeyLeaf(l, k), row)
  }

  /** One call of the filter's method for the lookups: `.filter()` ORs them over shared joins, `.exclude()` negates. */
  function Call(db: Database, qs: seq<Row>, ls: seq<ValueLookup>, exclude: bool): (r: seq<Row>) {
    if exclude then Filtered(qs, x => !exists i :: 0 <= i < |ls| && InSubqueries(db, ls[i], x))
    else Apply(db, qs, RowLeaves(ls), false)
  }

  /** One call for each lookup: `.filter(a).filter(b)` or `.exclude(a).exclude(b)`. */
  function Chained(db: Database, qs: seq<Row>, ls: seq<ValueLookup>, exclude: bool): (r: seq<Row>)
    decreases |ls|
  {
    if ls == [] then qs
    else Chained(db, Call(db, qs, [ls[0]], exclude), ls[1..], exclude)
  }

  /** `TreeNodeMultipleChoiceFilter` has its own `filter()`, which does not chain. */
  predicate Chains(f: Filter) {
    f.conjoined && f.cls != TreeNode
  }

  function Run(f: Filter, meaning: Meaning, db: Database, qs: seq<Row>, values: seq<string>): (r: seq<Row>) {
    match Lookups(f, meaning, values)
    case None => []
    case Some(ls) => if Chains(f) then Chained(db, qs, ls, f.exclude) else Call(db, qs, ls, f.exclude)
  }

  // ----- what it selects

  /** Some related row has all keys. */
  ghost predicate Together(db: Database, l: ValueLookup, row: Row) {
    Holds(db, RowLeaf(l), row)
  }

  /** Every key is that of some related row. */
  ghost predicate Apart(db: Database, l: ValueLookup, row: Row) {
    forall k :: 0 <= k < |l.keys| ==> Holds(db, KeyLeaf(l, k), row)
  }

  /** Said of the cells at the end of the path: one cell has all keys ... */
  lemma TogetherMeans(db: Database, l: ValueLookup, row: Row)
    ensures Together(db, l, row) <==> exists c :: c in Arrivals(db, l.path, row) && HasKeys(l, c)
  {
    forall c: Cell ensures RowLeaf(l).test(c) <==> HasKeys(l, c) {
    }
    if Together(db, l, row) {
      var c := TogetherAt(db, l, row);
      assert HasKeys(l, c);
    }
    if c :| c in Arrivals(db, l.path, row) && HasKeys(l, c) {
      assert RowLeaf(l).test(c);
    }
  }

  ghost predicate HasKeys(l: ValueLookup, c: Cell) {
    forall k :: 0 <= k < |l.keys| ==> l.keys[k](c)
  }

  /** ... or each key has a cell. */
  lemma ApartMeans(db: Database, l: ValueLookup, row: Row)
    ensures Apart(db, l, row) <==> forall k :: 0 <= k < |l.keys| ==> HasCell(db, l, k, row)
  {
    forall k | 0 <= k < |l.keys| ensures Holds(db, KeyLeaf(l, k), row) <==> HasCell(db, l, k, row) {
      if c :| c in Arrivals(db, l.path, row) && l.keys[k](c) {
        assert KeyLeaf(l, k).test(c);
      }
    }
  }

  ghost predicate HasCell(db: Database, l: ValueLookup, k: nat, row: Row)
    requires k < |l.keys|
  {
    exists c :: c in Arrivals(db, l.path, row) && l.keys[k](c)
  }

  /** The lookup as each method follows it. */
  ghost predicate Matches(db: Database, l: ValueLookup, exclude: bool, row: Row) {
    if exclude then Apart(db, l, row) else Together(db, l, row)
  }

  ghost predicate SomeMatches(db: Database, ls: seq<ValueLookup>, exclude: bool, row: Row) {
    exists i :: 0 <= i < |ls| && Matches(db, ls[i], exclude, row)
  }

  ghost predicate EachMatches(db: Database, ls: seq<ValueLookup>, exclude: bool, row: Row) {
    forall i :: 0 <= i < |ls| ==> Matches(db, ls[i], exclude, row)
  }

  lemma InSubqueryMeans(db: Database, leaf: Leaf, row: Row)
    ensures InSubquery(db, leaf, row) <==> Holds(db, leaf, row)
  {
    CopiesMeanSelected(db, [leaf], row);
    SelectsOne(db, leaf, row);
  }

  lemma InSubqueriesMeans(db: Database, l: ValueLookup, row: Row)
    ensures InSubqueries(db, l, row) <==> Apart(db, l, row)
  {
    forall k | 0 <= k < |l.keys| ensures InSubquery(db, KeyLeaf(l, k), row) <==> Holds(db, KeyLeaf(l, k), row) {
      InSubqueryMeans(db, KeyLeaf(l, k), row);
    }
  }

  lemma RowLeavesSelect(db: Database, ls: seq<ValueLookup>, row: Row)
    ensures Selects(db, RowLeaves(ls), row) <==> SomeMatches(db, ls, false, row)
  {
    var leaves := RowLeaves(ls);
    assert forall i :: 0 <= i < |ls| ==> (Holds(db, leaves[i], row) <==> Matches(db, ls[i], false, row));
  }

  lemma CallSelects(db: Database, qs: seq<Row>, ls: seq<ValueLookup>, exclude: bool, r: Row)
    requires ls != []
    ensures r in Call(db, qs, ls, exclude) <==> r in qs && SomeMatches(db, ls, exclude, r) != exclude
  {
    if exclude {
      forall i | 0 <= i < |ls| ensures InSubqueries(db, ls[i], r) <==> Matches(db, ls[i], true, r) {
        InSubqueriesMeans(db, ls[i], r);
      }
    } else {
      ApplySelects(db, qs, RowLeaves(ls), false);
      RowLeavesSelect(db, ls, r);
    }
  }

  /** Where every value has one key, this is the `NOT IN` subquery of all values at once. */
  lemma OneKeyExcludes(db: Database, qs: seq<Row>, ls: seq<ValueLookup>, r: Row)
    requires ls != [] && forall i :: 0 <= i < |ls| ==> |ls[i].keys| == 1
    ensures r in Call(db, qs, ls, true) <==> r in Apply(db, qs, RowLeaves(ls), true)
  {
    CallSelects(db, qs, ls, true, r);
    ApplySelects(db, qs, RowLeaves(ls), true);
    RowLeavesSelect(db, ls, r);
    forall i | 0 <= i < |ls| ensures Matches(db, ls[i], true, r) <==> Matches(db, ls[i], false, r) {
      OneKeyTogether(db, ls[i], r);
    }
  }

  lemma OneKeyTogether(db: Database, l: ValueLookup, row: Row)
    requires |l.keys| == 1
    ensures Together(db, l, row) <==> Apart(db, l, row)
  {
    assert forall c: Cell :: RowLeaf(l).test(c) <==> KeyLeaf(l, 0).test(c);
    if Together(db, l, row) {
      var c :| c in Arrivals(db, l.path, row) && RowLeaf(l).test(c);
      assert KeyLeaf(l, 0).test(c);
    }
    if Apart(db, l, row) {
      assert Holds(db, KeyLeaf(l, 0), row);
    }
  }

  /** A conjoined filter selects the rows that every value matches, or (excluding) none does. */
  ghost predicate EachCall(db: Database, ls: seq<ValueLookup>, exclude: bool, row: Row) {
    forall i :: 0 <= i < |ls| ==> Matches(db, ls[i], exclude, row) != exclude
  }

  lemma {:induction false} ChainedSelects(db: Database, qs: seq<Row>, ls: seq<ValueLookup>, exclude: bool, r: Row)
    ensures r in Chained(db, qs, ls, exclude) <==> r in qs && EachCall(db, ls, exclude, r)
    decreases |ls|
  {
    if ls != [] {
      CallOneSelects(db, qs, ls[0], exclude, r);
      ChainedSelects(db, Call(db, qs, [ls[0]], exclude), ls[1..], exclude, r);
      EachCallHead(db, ls, exclude, r);
    }
  }

  lemma CallOneSelects(db: Database, qs: seq<Row>, l: ValueLookup, exclude: bool, r: Row)
    ensures r in Call(db, qs, [l], exclude) <==> r in qs && Matches(db, l, exclude, r) != exclude
  {
    CallSelects(db, qs, [l], exclude, r);
    assert [l][0] == l;
  }

  lemma EachCallHead(db: Database, ls: seq<ValueLookup>, exclude: bool, r: Row)
    requires ls != []
    ensures EachCall(db, ls, exclude, r) <==>
      Matches(db, ls[0], exclude, r) != exclude && EachCall(db, ls[1..], exclude, r)
  {
    assert forall i :: 0 < i < |ls| ==> ls[i] == ls[1..][i - 1];
  }

  /** What a filter wants from its lookups: all of them when conjoined, some when not, none of them when excluding. */
  ghost predicate Wants(f: Filter, db: Database, ls: seq<ValueLookup>, row: Row) {
    if f.exclude then !SomeMatches(db, ls, true, row)
    else if Chains(f) then EachMatches(db, ls, false, row)
    else SomeMatches(db, ls, false, row)
  }

  lemma RunSelects(f: Filter, meaning: Meaning, db: Database, qs: seq<Row>, values: seq<string>, r: Row)
    requires Lookups(f, meaning, values).Some? && Lookups(f, meaning, values).value != []
    ensures r in Run(f, meaning, db, qs, values) <==> r in qs && Wants(f, db, Lookups(f, meaning, values).value, r)
  {
    var ls := Lookups(f, meaning, values).value;
    if Chains(f) {
      ChainedSelects(db, qs, ls, f.exclude, r);
      assert EachCall(db, ls, true, r) <==> !SomeMatches(db, ls, true, r);
      assert EachCall(db, ls, false, r) <==> EachMatches(db, ls, false, r);
    } else {
      CallSelects(db, qs, ls, f.exclude, r);
    }
  }

  // ----- when two filters are complements

  /** For these values, the two filters split every queryset in two. */
  ghost predicate Splits(f: Filter, g: Filter, meaning: Meaning, db: Database, values: seq<string>) {
    forall qs: seq<Row>, r: Row ::
      r in qs ==> (r in Run(f, meaning, db, qs, values) <==> r !in Run(g, meaning, db, qs, values))
  }

  /** On every conforming database, and for all values that are not empty. */
  ghost predicate Complementary(f: Filter, g: Filter) {
    forall meaning: Meaning, db: Database, values: seq<string> ::
      IsMeaning(meaning) && Conforms(db) && Lookups(f, meaning, values) != Some([]) ==>
        Splits(f, g, meaning, db, values)
  }

  /** The same, for one value that is not rejected. */
  ghost predicate ComplementaryForOne(f: Filter, g: Filter) {
    forall meaning: Meaning, db: Database, values: seq<string> ::
      IsMeaning(meaning) && Conforms(db) && IsOne(Lookups(f, meaning, values)) ==> Splits(f, g, meaning, db, values)
  }

  predicate IsOne(ls: Option<seq<ValueLookup>>) {
    ls.Some? && |ls.value| == 1
  }

  predicate SameLookups(f: Filter, g: Filter) {
    f.cls == g.cls && f.field == g.field && f.lookupExpr == g.lookupExpr
  }

  /** One of them excludes, and the one that does not asks for one of its values and not for all. */
  predicate Opposed(f: Filter, g: Filter) {
    f.exclude != g.exclude && !Chains(if f.exclude then g else f)
  }

  /** The keys of a value are those of one related row, however they are followed: there is one key, or one such row. */
  predicate KeysStayTogether(f: Filter) {
    TwoKeyed(f.cls) ==> AllToOne(f.field)
  }

  lemma TogetherOrApart(f: Filter, db: Database, l: ValueLookup, row: Row)
    requires Conforms(db) && KeysStayTogether(f) && IsLookup(f.cls, f.field, l)
    ensures Together(db, l, row) <==> Apart(db, l, row)
  {
    if |l.keys| == 1 {
      OneKeyTogether(db, l, row);
    } else {
      var c := ToOneArrives(db, l.path, row);
      assert c in Arrivals(db, l.path, row);
      assert forall k :: 0 <= k < |l.keys| ==> (Holds(db, KeyLeaf(l, k), row) <==> l.keys[k](c));
    }
  }

  lemma MatchesAlike(f: Filter, db: Database, ls: seq<ValueLookup>, row: Row)
    requires Conforms(db) && KeysStayTogether(f) && forall i :: 0 <= i < |ls| ==> IsLookup(f.cls, f.field, ls[i])
    ensures SomeMatches(db, ls, false, row) <==> SomeMatches(db, ls, true, row)
  {
    forall i | 0 <= i < |ls| ensures Matches(db, ls[i], false, row) <==> Matches(db, ls[i], true, row) {
      TogetherOrApart(f, db, ls[i], row);
    }
  }

  lemma OneOfOne(db: Database, ls: seq<ValueLookup>, row: Row)
    requires |ls| == 1
    ensures EachMatches(db, ls, false, row) <==> SomeMatches(db, ls, false, row)
  {
    if EachMatches(db, ls, false, row) {
      assert Matches(db, ls[0], false, row);
    }
  }

  /** Values that are looked up are split if the filters are opposed, or if there is only one. */
  lemma OpposedSplit(f: Filter, g: Filter, meaning: Meaning, db: Database, values: seq<string>)
    requires SameLookups(f, g) && f.exclude != g.exclude && KeysStayTogether(f) && IsMeaning(meaning) && Conforms(db)
    requires Lookups(f, meaning, values).Some? && Lookups(f, meaning, values).value != []
    requires Opposed(f, g) || |Lookups(f, meaning, values).value| == 1
    ensures Splits(f, g, meaning, db, values)
  {
    var ls := Lookups(f, meaning, values).value;
    forall qs: seq<Row>, r: Row | r in qs
      ensures r in Run(f, meaning, db, qs, values) <==> r !in Run(g, meaning, db, qs, values)
    {
      RunSelects(f, meaning, db, qs, values, r);
      RunSelects(g, meaning, db, qs, values, r);
      MatchesAlike(f, db, ls, r);
      if |ls| == 1 {
        OneOfOne(db, ls, r);
      }
    }
  }

  // ----- and when they are not: two values

  /** Looks up the row itself and asks, for each value, whether it is the row that the value's length numbers. */
  function ByLength(): (meaning: Meaning)
    ensures IsMeaning(meaning)
    ensures forall cls, field, expr, values :: meaning(cls, field, expr, values) == Some(LengthLookups(values))
  {
    (cls, field, expr, values) => Some(LengthLookups(values))
  }

  function LengthLookups(values: seq<string>): (ls: seq<ValueLookup>)
    ensures |ls| == |values|
    ensures forall i :: 0 <= i < |values| ==> ls[i] == LengthLookup(|values[i]|)
  {
    seq(|values|, i requires 0 <= i < |values| => LengthLookup(|values[i]|))
  }

  function LengthLookup(n: nat): (l: ValueLookup) {
    ValueLookup([], [(c: Cell) => c == Some(n)])
  }

  lemma LengthMatches(db: Database, n: nat, exclude: bool, row: Row)
    ensures Matches(db, LengthLookup(n), exclude, row) <==> n == row
  {
    var l := LengthLookup(n);
    assert Arrivals(db, [], row) == {Some(row)};
    assert Holds(db, KeyLeaf(l, 0), row) <==> n == row;
    OneKeyTogether(db, l, row);
  }

  /** Row 0 has the first of these two values only, and row 5 has neither. */
  const TWO_VALUES: seq<string> := ["", "b"]

  lemma TwoValues(db: Database, exclude: bool)
    ensures SomeMatches(db, LengthLookups(TWO_VALUES), exclude, 0)
    ensures !EachMatches(db, LengthLookups(TWO_VALUES), exclude, 0)
    ensures !SomeMatches(db, LengthLookups(TWO_VALUES), exclude, 5)
    ensures !EachMatches(db, LengthLookups(TWO_VALUES), exclude, 5)
  {
    var ls := LengthLookups(TWO_VALUES);
    assert ls[0] == LengthLookup(0) && ls[1] == LengthLookup(1);
    LengthMatches(db, 0, exclude, 0);
    LengthMatches(db, 1, exclude, 0);
    LengthMatches(db, 0, exclude, 5);
    LengthMatches(db, 1, exclude, 5);
  }

  /** Filters that are not opposed do not split rows 0 and 5 between them. */
  lemma NotOpposed(f: Filter, g: Filter, db: Database)
    requires SameLookups(f, g) && !Opposed(f, g)
    ensures !Splits(f, g, ByLength(), db, TWO_VALUES)
  {
    var qs: seq<Row> := [0, 5];
    assert 0 in qs && 5 in qs;
    TwoValues(db, false);
    TwoValues(db, true);
    var r: Row := if f.exclude == g.exclude then 5 else 0;
    RunSelects(f, ByLength(), db, qs, TWO_VALUES, r);
    RunSelects(g, ByLength(), db, qs, TWO_VALUES, r);
    assert Wants(f, db, LengthLookups(TWO_VALUES), r) == Wants(g, db, LengthLookups(TWO_VALUES), r);
    assert r in Run(f, ByLength(), db, qs, TWO_VALUES) <==> r in Run(g, ByLength(), db, qs, TWO_VALUES);
  }

  /** Rejects every value that it may reject. */
  function Rejecting(): (meaning: Meaning)
    ensures IsMeaning(meaning)
    ensures forall cls, field, expr, values | MayReject(cls) :: meaning(cls, field, expr, values) == None
  {
    (cls, field, expr, values) => if MayReject(cls) then None else Some([])
  }

  lemma RejectedByBoth(f: Filter, g: Filter, db: Database, values: seq<string>)
    requires SameLookups(f, g) && MayReject(f.cls)
    ensures !Splits(f, g, Rejecting(), db, values)
  {
    var qs: seq<Row> := [0];
    assert 0 in qs && Run(f, Rejecting(), db, qs, values) == [] && Run(g, Rejecting(), db, qs, values) == [];
    assert !(0 in Run(f, Rejecting(), db, qs, values) <==> 0 !in Run(g, Rejecting(), db, qs, values));
  }

  // ----- and when they are not: two keys of two related rows

  /** A row that finds each key somewhere, but nowhere both: neither filter returns it, if they are a filter of one
      value and its negation. */
  lemma KeysApartInNeither(
    f: Filter, g: Filter, meaning: Meaning, db: Database, values: seq<string>, l: ValueLookup, row: Row)
    requires SameLookups(f, g) && f.exclude != g.exclude && Lookups(f, meaning, values) == Some([l])
    requires Apart(db, l, row) && !Together(db, l, row)
    ensures row !in Run(f, meaning, db, [row], values) && row !in Run(g, meaning, db, [row], values)
    ensures !Splits(f, g, meaning, db, values)
  {
    var ls, qs: seq<Row> := [l], [row];
    assert ls[0] == l && row in qs;
    assert SomeMatches(db, ls, true, row) && !SomeMatches(db, ls, false, row) && !EachMatches(db, ls, false, row);
    RunSelects(f, meaning, db, qs, values, row);
    RunSelects(g, meaning, db, qs, values, row);
    assert !(row in Run(f, meaning, db, qs, values) <==> row !in Run(g, meaning, db, qs, values));
  }

  /** Two keys, found at two ends of the path, and both at none. */
  lemma TwoKeysApart(db: Database, l: ValueLookup, row: Row, a: Cell, b: Cell)
    requires |l.keys| == 2 && a in Arrivals(db, l.path, row) && l.keys[0](a)
    requires b in Arrivals(db, l.path, row) && l.keys[1](b)
    requires forall c :: c in Arrivals(db, l.path, row) ==> !(l.keys[0](c) && l.keys[1](c))
    ensures Apart(db, l, row) && !Together(db, l, row)
  {
    KeyFound(db, l, 0, row, a);
    KeyFound(db, l, 1, row, b);
    BothFound(db, l, row);
    NeverTogether(db, l, row);
  }

  lemma BothFound(db: Database, l: ValueLookup, row: Row)
    requires |l.keys| == 2 && Holds(db, KeyLeaf(l, 0), row) && Holds(db, KeyLeaf(l, 1), row)
    ensures Apart(db, l, row)
  {
    forall k | 0 <= k < |l.keys| ensures Holds(db, KeyLeaf(l, k), row) {
      assert k == 0 || k == 1;
    }
  }

  lemma NeverTogether(db: Database, l: ValueLookup, row: Row)
    requires |l.keys| == 2
    requires forall c :: c in Arrivals(db, l.path, row) ==> !(l.keys[0](c) && l.keys[1](c))
    ensures !Together(db, l, row)
  {
    if Together(db, l, row) {
      var c := TogetherAt(db, l, row);
      NotBothKeys(l, c);
    }
  }

  lemma TogetherAt(db: Database, l: ValueLookup, row: Row) returns (c: Cell)
    requires Together(db, l, row)
    ensures c in Arrivals(db, l.path, row) && RowLeaf(l).test(c)
  {
    c :| c in Arrivals(db, RowLeaf(l).path, row) && RowLeaf(l).test(c);
  }

  lemma KeyFound(db: Database, l: ValueLookup, k: nat, row: Row, c: Cell)
    requires k < |l.keys| && c in Arrivals(db, l.path, row) && l.keys[k](c)
    ensures Holds(db, KeyLeaf(l, k), row)
  {
    assert KeyLeaf(l, k).test(c);
  }

  lemma NotBothKeys(l: ValueLookup, c: Cell)
    requires |l.keys| == 2 && !(l.keys[0](c) && l.keys[1](c))
    ensures !RowLeaf(l).test(c)
  {
  }

  /** Every to-many relation leads to rows 0 and 1, every to-one relation back to the same row. */
  function ForkingDatabase(): (db: Database)
    ensures Conforms(db)
  {
    (f: Field, r: Row) => if f.ToMany() then [0, 1] else [r]
  }

  lemma {:induction false} ForkingArrivals(path: seq<Field>)
    ensures Some(0) in Arrivals(ForkingDatabase(), path, 0)
    ensures !AllToOne(path) ==> Some(1) in Arrivals(ForkingDatabase(), path, 0)
  {
    if path != [] {
      var front, f := path[..|path| - 1], path[|path| - 1];
      assert path == front + [f];
      ForkingArrivals(front);
      ArrivalsSnoc(ForkingDatabase(), front, f, 0);
      ForkingNext(f);
    }
  }

  lemma ForkingNext(f: Field)
    ensures Some(0) in Next(ForkingDatabase(), Some(0), f)
    ensures f.ToMany() ==> Some(1) in Next(ForkingDatabase(), Some(0), f)
    ensures !f.ToMany() ==> Some(1) in Next(ForkingDatabase(), Some(1), f)
  {
    var db := ForkingDatabase();
    assert 0 in db(f, 0);
    assert f.ToMany() ==> db(f, 0)[1] == 1;
    assert !f.ToMany() ==> db(f, 1) == [1];
  }

  /** One key of row 0 and one of row 1. */
  function ForkLookup(path: seq<Field>): (l: ValueLookup) {
    ValueLookup(path, [(c: Cell) => c == Some(0), (c: Cell) => c == Some(1)])
  }

  function ForkKeys(): (meaning: Meaning)
    ensures IsMeaning(meaning)
    ensures forall cls, field, expr, values | TwoKeyed(cls) ::
      meaning(cls, field, expr, values) == Some([ForkLookup(field)])
  {
    (cls, field, expr, values) => if TwoKeyed(cls) then Some([ForkLookup(field)]) else Some([])
  }

  lemma ForkedKeysApart(path: seq<Field>)
    requires !AllToOne(path)
    ensures Apart(ForkingDatabase(), ForkLookup(path), 0) && !Together(ForkingDatabase(), ForkLookup(path), 0)
  {
    ForkingArrivals(path);
    TwoKeysApart(ForkingDatabase(), ForkLookup(path), 0, Some(0), Some(1));
  }

  lemma ForkedNotSplit(f: Filter, g: Filter)
    requires SameLookups(f, g) && f.exclude != g.exclude && !KeysStayTogether(f)
    ensures Lookups(f, ForkKeys(), []) == Some([ForkLookup(f.field)])
    ensures !Splits(f, g, ForkKeys(), ForkingDatabase(), [])
  {
    ForkedKeysApart(f.field);
    KeysApartInNeither(f, g, ForkKeys(), ForkingDatabase(), [], ForkLookup(f.field), 0);
  }

  // ----- both together

  lemma ComplementaryIf(f: Filter, g: Filter)
    requires SameLookups(f, g) && Opposed(f, g) && !MayReject(f.cls) && KeysStayTogether(f)
    ensures Complementary(f, g)
  {
    forall meaning: Meaning, db: Database, values: seq<string> |
      IsMeaning(meaning) && Conforms(db) && Lookups(f, meaning, values) != Some([])
      ensures Splits(f, g, meaning, db, values)
    {
      OpposedSplit(f, g, meaning, db, values);
    }
  }

  /** Exactly these filters are complements, on all databases and for all values: opposed ones, of a class that
      rejects no value, whose keys stay together. */
  lemma ComplementaryExactly(f: Filter, g: Filter)
    requires SameLookups(f, g)
    ensures Complementary(f, g) <==> Opposed(f, g) && !MayReject(f.cls) && KeysStayTogether(f)
  {
    if MayReject(f.cls) {
      RejectedByBoth(f, g, CrowdedDatabase(), []);
      assert Lookups(f, Rejecting(), []) == None;
    } else if !Opposed(f, g) {
      NotOpposed(f, g, CrowdedDatabase());
      assert Lookups(f, ByLength(), TWO_VALUES) != Some([]);
    } else if !KeysStayTogether(f) {
      ForkedNotSplit(f, g);
    } else {
      ComplementaryIf(f, g);
    }
  }

  /** For one value, a filter and its negation are complements exactly if the keys stay together. */
  lemma ComplementaryForOneExactly(f: Filter, g: Filter)
    requires SameLookups(f, g) && f.exclude != g.exclude
    ensures ComplementaryForOne(f, g) <==> KeysStayTogether(f)
  {
    if KeysStayTogether(f) {
      forall meaning: Meaning, db: Database, values: seq<string> |
        IsMeaning(meaning) && Conforms(db) && IsOne(Lookups(f, meaning, values))
        ensures Splits(f, g, meaning, db, values)
      {
        OpposedSplit(f, g, meaning, db, values);
      }
    } else {
      ForkedNotSplit(f, g);
      assert IsOne(Lookups(f, ForkKeys(), []));
    }
  }

  // ----- the generated twins

  /** The new filters take over the base filter's `exclude`: only those built from it, not those built from the model
      field. */
  predicate InheritsExclude(declared: set<string>, name: string, base: Filter) {
    UsesCharFilter(base.cls) || name in declared
  }

  /** The class of the filters generated beside the base filter. */
  function TwinClass(
    declared: set<string>, field: ModelField, name: string, base: Filter, expr: string): (cls: FilterClass) {
    if UsesCharFilter(base.cls) then MultiValueChar
    else if name in declared then base.cls
    else field.defaultClass(expr)
  }

  lemma TwinFilters(declared: set<string>, field: ModelField, name: string, base: Filter, lookup: string, expr: string)
    requires expr in field.supported && expr != "isnull" && (lookup == "" || lookup[0] != 'n')
    ensures var cls := TwinClass(declared, field, name, base, expr);
      && LookupFilter(declared, field, name, base, (lookup, expr)) ==
           Some(Derived(cls, base.field, expr, base.exclude && InheritsExclude(declared, name, base)))
      && LookupFilter(declared, field, name, base, ("n" + lookup, expr)) ==
           Some(Derived(cls, base.field, expr, !base.exclude))
  {
    assert Negates("n" + lookup);
  }

  /** `nic` and `ic` (and so for every pair) are complements exactly if the positive one inherits the base's
      `exclude`, or there is nothing to inherit, and their class is neither conjoined nor rejects values. */
  lemma NegationExactly(
    declared: set<string>, field: ModelField, name: string, base: Filter, lookup: string, expr: string)
    requires expr in field.supported && expr != "isnull" && (lookup == "" || lookup[0] != 'n')
    ensures var positive := LookupFilter(declared, field, name, base, (lookup, expr));
      var negative := LookupFilter(declared, field, name, base, ("n" + lookup, expr));
      var cls := TwinClass(declared, field, name, base, expr);
      positive.Some? && negative.Some? &&
      (Complementary(positive.value, negative.value) <==>
        (!base.exclude || base.cls == DjangoMultipleChoice || base.cls == MultipleChoice || name in declared) &&
        cls != Tag && cls != ContentTypeMultipleChoice && cls != ContentType && cls != ContentTypeChoice)
  {
    TwinFilters(declared, field, name, base, lookup, expr);
    var positive := LookupFilter(declared, field, name, base, (lookup, expr));
    var negative := LookupFilter(declared, field, name, base, ("n" + lookup, expr));
    ComplementaryExactly(positive.value, negative.value);
  }

  /** `n` is the complement of the filter it was made from (when that one looks up `exact` in the same way) exactly
      if no value is rejected, the one of the two that does not exclude is not conjoined, and a value with two keys
      is not looked up across a to-many relation. */
  lemma PlainNegationExactly(declared: set<string>, field: ModelField, name: string, base: Filter)
    requires base.lookupExpr == "exact" && "exact" in field.supported
    requires TwinClass(declared, field, name, base, "exact") == base.cls
    ensures var negation := LookupFilter(declared, field, name, base, ("n", "exact"));
      negation.Some? &&
      (Complementary(base, negation.value) <==>
        base.cls != ContentType && base.cls != ContentTypeChoice &&
        (if base.exclude then base.cls != Tag && base.cls != ContentTypeMultipleChoice
         else !base.conjoined || base.cls == TreeNode) &&
        (base.cls == ContentTypeMultipleChoice ==> AllToOne(base.field)))
  {
    TwinFilters(declared, field, name, base, "", "exact");
    assert "n" + "" == "n";
    ComplementaryExactly(base, LookupFilter(declared, field, name, base, ("n", "exact")).value);
  }

  /** For a single value that is not rejected, only the last of these conditions is needed, and it is needed. */
  lemma SingleValueNegationExactly(declared: set<string>, field: ModelField, name: string, base: Filter)
    requires base.lookupExpr == "exact" && "exact" in field.supported
    requires TwinClass(declared, field, name, base, "exact") == base.cls
    ensures var negation := LookupFilter(declared, field, name, base, ("n", "exact"));
      negation.Some? &&
      (ComplementaryForOne(base, negation.value) <==>
        (base.cls == ContentType || base.cls == ContentTypeChoice || base.cls == ContentTypeMultipleChoice ==>
         AllToOne(base.field)))
  {
    TwinFilters(declared, field, name, base, "", "exact");
    assert "n" + "" == "n";
    ComplementaryForOneExactly(base, LookupFilter(declared, field, name, base, ("n", "exact")).value);
  }

  lemma TwoRowsArrive(db: Database, f: Field, row: Row, c: Cell)
    requires db(f, row) == [1, 2]
    ensures c in Arrivals(db, [f], row) <==> c == Some(1) || c == Some(2)
  {
    ArrivalsSnoc(db, [], f, row);
    assert [] + [f] == [f] && Arrivals(db, [], row) == {Some(row)};
    assert c in Step(db, {Some(row)}, f) <==> c in Next(db, Some(row), f);
    assert db(f, row)[0] == 1 && db(f, row)[1] == 2;
  }

  /** A role that is for content types 1 and 2: one has the wanted app label, the other the wanted model name. Asked
      for the content type that has both, neither `content_types` nor `content_types__n` returns the role. */
  lemma RoleInNeither(
    meaning: Meaning, db: Database, contentTypes: Field, value: string, hasLabel: Cell -> bool, hasModel: Cell -> bool,
    role: Row)
    requires contentTypes.ToMany() && db(contentTypes, role) == [1, 2]
    requires hasLabel(Some(1)) && !hasModel(Some(1)) && !hasLabel(Some(2)) && hasModel(Some(2))
    requires meaning(ContentTypeMultipleChoice, [contentTypes], "exact", [value]) ==
      Some([ValueLookup([contentTypes], [hasLabel, hasModel])])
    ensures var base := Filter(ContentTypeMultipleChoice, [contentTypes], "exact", false, false, false);
      role !in Run(base, meaning, db, [role], [value]) &&
      role !in Run(Derived(ContentTypeMultipleChoice, [contentTypes], "exact", true), meaning, db, [role], [value])
  {
    var l := ValueLookup([contentTypes], [hasLabel, hasModel]);
    forall c: Cell { TwoRowsArrive(db, contentTypes, role, c); }
    TwoKeysApart(db, l, role, Some(1), Some(2));
    KeysApartInNeither(
      Filter(ContentTypeMultipleChoice, [contentTypes], "exact", false, false, false),
      Derived(ContentTypeMultipleChoice, [contentTypes], "exact", true), meaning, db, [value], l, role);
  }

  /** Asked for two tags, neither `tags` nor `tags__n` returns an object that has one of them. */
  lemma PartlyTaggedInNeither(
    meaning: Meaning, db: Database, tags: seq<Field>, values: seq<string>, a: ValueLookup, b: ValueLookup, row: Row)
    requires |a.keys| == |b.keys| == 1 && Together(db, a, row) && !Together(db, b, row)
    requires meaning(Tag, tags, "exact", values) == Some([a, b])
    ensures row !in Run(Filter(Tag, tags, "exact", false, true, false), meaning, db, [row], values)
    ensures row !in Run(Derived(Tag, tags, "exact", true), meaning, db, [row], values)
  {
    var ls := [a, b];
    assert ls[0] == a && ls[1] == b;
    RunSelects(Filter(Tag, tags, "exact", false, true, false), meaning, db, [row], values, row);
    RunSelects(Derived(Tag, tags, "exact", true), meaning, db, [row], values, row);
    OneKeyTogether(db, a, row);
    assert Matches(db, ls[0], true, row) && !Matches(db, ls[1], false, row);
  }

  /** An excluding filter added with `add_filter()`: its `ic` and `nic` filters give the same answer. */
  lemma AddedExcludingFilterLosesNegation(field: ModelField, path: seq<Field>)
    requires field.supported == {"exact", "icontains"} && !field.nullable
    ensures var base := Filter(MultiValueChar, path, "exact", true, false, false);
      LookupFilter({}, field, "not_name", base, ("ic", "icontains")) ==
      LookupFilter({}, field, "not_name", base, ("nic", "icontains"))
  {
    assert Negates("nic") && !Negates("ic");
  }
}
