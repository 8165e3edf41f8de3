/** `TreeNodeMultipleChoiceFilter`: choosing a node of a tree chooses everything below it too. */
module TreeFilters {
  import opened Collections
  import opened Joins
  import opened Querysets
  import opened Filters
  import opened Forests

  /** A chosen tree node, or the null choice. */
  datatype Choice = Chosen(node: Node) | NullChoice

  /** `cacheable_descendants_pks(include_self=True)`, in whatever order the database lists the keys. */
  ghost predicate ListsDescendants(f: Forest, pks: Node -> seq<Node>)
    requires IsForest(f)
  {
    forall n, x :: x in pks(n) <==> x in Subtree(f, n)
  }

  /** The values after the descendants are put in place of the nodes and the list is flattened. */
  function Flatten(values: seq<Choice>, pks: Node -> seq<Node>): (flat: seq<Cell>)
    ensures forall c :: c in flat <==> exists v :: v in values && c in Expansion(v, pks)
  {
    if values == [] then []
    else
      var front, last := values[..|values| - 1], values[|values| - 1];
      assert values == front + [last];
      Flatten(front, pks) + Expansion(last, pks)
  }

  function Expansion(v: Choice, pks: Node -> seq<Node>): (cells: seq<Cell>) {
    match v
    case NullChoice => [None]
    case Chosen(n) => seq(|pks(n)|, i requires 0 <= i < |pks(n)| => Some(pks(n)[i]))
  }

  function Leaves(path: seq<Field>, flat: seq<Cell>): (leaves: seq<Leaf>)
    ensures |leaves| == |flat| && forall i :: 0 <= i < |leaves| ==> leaves[i] == EqualsLeaf(path, flat[i])
  {
    seq(|flat|, i requires 0 <= i < |flat| => EqualsLeaf(path, flat[i]))
  }

  method GenerateQuery(path: seq<Field>, values: seq<Choice>, pks: Node -> seq<Node>) returns (query: seq<Leaf>)
    ensures query == Leaves(path, Flatten(values, pks))
  {
    var flat := [];
    for k := 0 to |values|
      invariant flat == Flatten(values[..k], pks)
    {
      assert values[..k + 1][..k] == values[..k];
      flat := flat + Expansion(values[k], pks);
    }
    assert values[..|values|] == values;
    query := [];
    for k := 0 to |flat|
      invariant query == Leaves(path, flat[..k])
    {
      query := query + [EqualsLeaf(path, flat[k])];
    }
    assert flat[..|flat|] == flat;
  }

  function FilterTree(
    f: AutoDistinct, db: Database, qs: seq<Row>, values: seq<Choice>, pks: Node -> seq<Node>): (r: seq<Row>) {
    if values == [] then qs
    else
      var r := Apply(db, qs, Leaves(f.field.joins, Flatten(values, pks)), f.exclude);
      if DerivedDistinct(f) then Distinct(r) else r
  }

  /** The choice covers what is found at the end of the path: a node at or below the chosen one, or nothing for null. */
  ghost predicate Covers(f: Forest, v: Choice, c: Cell)
    requires IsForest(f)
  {
    match v
    case NullChoice => c.None?
    case Chosen(n) => c.Some? && c.value in f && Under(f, c.value, n)
  }

  ghost predicate TreeSelects(f: Forest, db: Database, path: seq<Field>, values: seq<Choice>, row: Row)
    requires IsForest(f)
  {
    exists c, v :: c in Arrivals(db, path, row) && v in values && Covers(f, v, c)
  }

  lemma ExpansionCovers(f: Forest, v: Choice, pks: Node -> seq<Node>, c: Cell)
    requires IsForest(f) && ListsDescendants(f, pks)
    ensures c in Expansion(v, pks) <==> Covers(f, v, c)
  {
    if v.Chosen? && c.Some? {
      var all := pks(v.node);
      if c.value in all {
        var i :| 0 <= i < |all| && all[i] == c.value;
        assert Expansion(v, pks)[i] == c;
      }
    }
  }

  lemma LeavesFind(db: Database, path: seq<Field>, flat: seq<Cell>, row: Row)
    ensures Selects(db, Leaves(path, flat), row) <==> exists c :: c in flat && c in Arrivals(db, path, row)
  {
    var leaves := Leaves(path, flat);
    forall i | 0 <= i < |flat| ensures Holds(db, leaves[i], row) <==> flat[i] in Arrivals(db, path, row) {
      EqualsLeafHolds(db, path, flat[i], row);
    }
    if c :| c in flat && c in Arrivals(db, path, row) {
      var i :| 0 <= i < |flat| && flat[i] == c;
      assert Holds(db, leaves[i], row);
    }
  }

  lemma LeavesSelect(f: Forest, db: Database, path: seq<Field>, values: seq<Choice>, pks: Node -> seq<Node>, row: Row)
    requires IsForest(f) && ListsDescendants(f, pks)
    ensures Selects(db, Leaves(path, Flatten(values, pks)), row) <==> TreeSelects(f, db, path, values, row)
  {
    var flat := Flatten(values, pks);
    LeavesFind(db, path, flat, row);
    if c :| c in flat && c in Arrivals(db, path, row) {
      var v :| v in values && c in Expansion(v, pks);
      ExpansionCovers(f, v, pks, c);
    }
    if c, v :| c in Arrivals(db, path, row) && v in values && Covers(f, v, c) {
      ExpansionCovers(f, v, pks, c);
      assert c in flat;
    }
  }

  /** Nothing is chosen, or only nodes that are gone. */
  ghost predicate NothingChosen(f: Forest, values: seq<Choice>) {
    forall v :: v in values ==> v.Chosen? && v.node !in f
  }

  /** Exactly the rows that lead to a node at or below a chosen one (or, if chosen, to nothing), each once; or all
      others; and all rows if nothing is chosen. */
  lemma FilterTreeExact(
    f: AutoDistinct, forest: Forest, db: Database, qs: seq<Row>, values: seq<Choice>, pks: Node -> seq<Node>)
    requires IsDerivedOrOn(f) && f.excludeUsesSubquery && IsForest(forest) && ListsDescendants(forest, pks)
    requires Conforms(db) && NoDuplicates(qs)
    ensures NoDuplicates(FilterTree(f, db, qs, values, pks))
    ensures values == [] ==> FilterTree(f, db, qs, values, pks) == qs
    ensures forall r :: r in FilterTree(f, db, qs, values, pks) <==>
      r in qs && (NothingChosen(forest, values) || TreeSelects(forest, db, f.field.joins, values, r) != f.exclude)
  {
    var leaves := Leaves(f.field.joins, Flatten(values, pks));
    SomethingToLookUp(forest, values, pks);
    var choice := ChoiceFilter(f, []);
    assert forall leaf :: leaf in leaves ==> LooksUp(choice, leaf.path);
    FilterChoiceExact(choice, db, qs, leaves);
    assert leaves != [] ==> FilterTree(f, db, qs, values, pks) == FilterChoice(choice, db, qs, leaves);
    forall r: Row
      ensures Selects(db, leaves, r) <==> TreeSelects(forest, db, f.field.joins, values, r)
    {
      LeavesSelect(forest, db, f.field.joins, values, pks, r);
    }
  }

  lemma SomethingToLookUp(f: Forest, values: seq<Choice>, pks: Node -> seq<Node>)
    requires IsForest(f) && ListsDescendants(f, pks)
    ensures Flatten(values, pks) == [] <==> NothingChosen(f, values)
  {
    if v :| v in values && (v.Chosen? ==> v.node in f) {
      var c: Cell := if v.Chosen? then Some(v.node) else None;
      ExpansionCovers(f, v, pks, c);
      assert c in Flatten(values, pks);
    }
    if NothingChosen(f, values) && Flatten(values, pks) != [] {
      var c := Flatten(values, pks)[0];
      assert c in Flatten(values, pks);
      var v :| v in values && c in Expansion(v, pks);
      ExpansionCovers(f, v, pks, c);
      AncestorExists(f, c.value, v.node);
    }
  }

  // ----- laws

  /** Choosing more chooses the union. */
  lemma ChoicesUnite(f: Forest, db: Database, path: seq<Field>, a: seq<Choice>, b: seq<Choice>, row: Row)
    requires IsForest(f)
    ensures TreeSelects(f, db, path, a + b, row) <==>
      TreeSelects(f, db, path, a, row) || TreeSelects(f, db, path, b, row)
  {
    assert forall v :: v in a + b <==> v in a || v in b;
  }

  /** Going up from a choice to an ancestor loses no row ... */
  lemma AncestorsSelectMore(f: Forest, db: Database, path: seq<Field>, n: Node, a: Node, row: Row)
    requires IsForest(f) && n in f && Under(f, n, a)
    requires TreeSelects(f, db, path, [Chosen(n)], row)
    ensures a in f && TreeSelects(f, db, path, [Chosen(a)], row)
  {
    AncestorExists(f, n, a);
    var c, v :| c in Arrivals(db, path, row) && v in [Chosen(n)] && Covers(f, v, c);
    UnderTransitive(f, c.value, n, a);
    assert Chosen(a) in [Chosen(a)] && Covers(f, Chosen(a), c);
  }

  lemma {:induction false} AncestorExists(f: Forest, n: Node, a: Node)
    requires IsForest(f) && n in f && Under(f, n, a)
    ensures a in f
    decreases Depths(f)[n]
  {
    assert IsLevel(f, Depths(f), n);
    if n != a {
      AncestorExists(f, f[n].value, a);
    }
  }

  /** ... so a choice below another one adds nothing. */
  lemma DescendantsAddNothing(
    f: Forest, db: Database, path: seq<Field>, values: seq<Choice>, n: Node, a: Node, row: Row)
    requires IsForest(f) && n in f && Under(f, n, a) && Chosen(a) in values
    ensures TreeSelects(f, db, path, values + [Chosen(n)], row) <==> TreeSelects(f, db, path, values, row)
  {
    ChoicesUnite(f, db, path, values, [Chosen(n)], row);
    if TreeSelects(f, db, path, [Chosen(n)], row) {
      AncestorsSelectMore(f, db, path, n, a, row);
      var c, v :| c in Arrivals(db, path, row) && v in [Chosen(a)] && Covers(f, v, c);
      assert Covers(f, Chosen(a), c);
    }
  }
}
