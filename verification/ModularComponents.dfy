/**
 Finding a modular component by the device it belongs to.  The filter unrolls the recursive ownership
 (component, module, bay, module, bay, ..., device) into a bounded OR of lookups.
*/
module ModularComponents {
  import opened Collections
  import opened Joins
  import opened Querysets

  const MODULE_RECURSION_DEPTH_LIMIT := 4

  const DEVICE := Field("Component", "device", false, false, false)
  const MODULE := Field("Component", "module", false, false, false)
  const PARENT_MODULE_BAY := Field("Module", "parent_module_bay", false, false, false)
  const PARENT_MODULE := Field("ModuleBay", "parent_module", false, false, false)
  const PARENT_DEVICE := Field("ModuleBay", "parent_device", false, false, false)
  const NAME := Field("Device", "name", false, false, false)
  const ID := Field("Device", "id", false, false, true)

  // ----- the filter

  /** `__in=values` */
  function InLeaf(path: seq<Field>, values: set<Row>): (leaf: Leaf) {
    Leaf(path, (c: Cell) => c.Some? && c.value in values)
  }

  /** `parent_module__parent_module_bay__` repeated. */
  function UpBays(level: nat): (path: seq<Field>) {
    if level == 0 then [] else UpBays(level - 1) + [PARENT_MODULE, PARENT_MODULE_BAY]
  }

  function ComponentPath(level: nat, column: Field): (path: seq<Field>) {
    [MODULE, PARENT_MODULE_BAY] + UpBays(level) + [PARENT_DEVICE, column]
  }

  function RecursiveQuery(levels: nat, column: Field, values: set<Row>): (query: seq<Leaf>)
    ensures |query| == levels + 1
    ensures query[0] == InLeaf([DEVICE, column], values)
    ensures forall k :: 0 <= k < levels ==> query[k + 1] == InLeaf(ComponentPath(k, column), values)
  {
    if levels == 0 then [InLeaf([DEVICE, column], values)]
    else RecursiveQuery(levels - 1, column, values) + [InLeaf(ComponentPath(levels - 1, column), values)]
  }

  method ConstructDeviceFilterRecursively(limit: nat, column: Field, values: set<Row>) returns (query: seq<Leaf>)
    requires limit >= 1
    ensures query == RecursiveQuery(limit - 1, column, values)
  {
    var recursionDepth := limit - 1;
    query := [InLeaf([DEVICE, column], values)];
    for level := 0 to recursionDepth
      invariant query == RecursiveQuery(level, column, values)
    {
      query := query + [InLeaf([MODULE, PARENT_MODULE_BAY] + UpBays(level) + [PARENT_DEVICE, column], values)];
    }
  }

  /** The names and the ids of a request, each looked up along every path. */
  function DeviceQuery(limit: nat, names: set<Row>, ids: set<Row>): (query: seq<Leaf>)
    requires limit >= 1
  {
    RecursiveQuery(limit - 1, NAME, names) + RecursiveQuery(limit - 1, ID, ids)
  }

  function FilterDevice(limit: nat, db: Database, qs: seq<Row>, names: set<Row>, ids: set<Row>): (r: seq<Row>)
    requires limit >= 1
  {
    if names + ids == {} then qs else Apply(db, qs, DeviceQuery(limit, names, ids), false)
  }

  // ----- ownership

  /** The bay that holds the `k`-th module (from 0) around the component. */
  function BayAt(db: Database, component: Row, k: nat): (c: Cell) {
    if k == 0 then One(db, One(db, Some(component), MODULE), PARENT_MODULE_BAY)
    else One(db, One(db, BayAt(db, component, k - 1), PARENT_MODULE), PARENT_MODULE_BAY)
  }

  /** The device that the component is in through exactly `k` modules, if there is one. */
  function DeviceAt(db: Database, component: Row, k: nat): (c: Cell) {
    if k == 0 then One(db, Some(component), DEVICE) else One(db, BayAt(db, component, k - 1), PARENT_DEVICE)
  }

  /** The column of the device has one of the values. */
  predicate ColumnIn(db: Database, device: Cell, column: Field, values: set<Row>) {
    One(db, device, column).Some? && One(db, device, column).value in values
  }

  /** The device is one of those asked for. */
  predicate Asked(db: Database, device: Cell, names: set<Row>, ids: set<Row>) {
    ColumnIn(db, device, NAME, names) || ColumnIn(db, device, ID, ids)
  }

  /** Ownership without any bound on the nesting. */
  ghost predicate BelongsToAsked(db: Database, component: Row, names: set<Row>, ids: set<Row>) {
    exists k: nat :: Asked(db, DeviceAt(db, component, k), names, ids)
  }

  // ----- the lookups follow the ownership

  lemma ToOneSteps(db: Database, path: seq<Field>, f: Field, g: Field, root: Row, c: Cell)
    requires Conforms(db) && !f.ToMany() && !g.ToMany() && Arrivals(db, path, root) == {c}
    ensures Arrivals(db, path + [f, g], root) == {One(db, One(db, c, f), g)}
  {
    var longer, d := path + [f], One(db, c, f);
    ToOneStep(db, path, f, root, c);
    assert path + [f, g] == longer + [g];
    ToOneStep(db, longer, g, root, d);
  }

  lemma {:induction false} BayPath(db: Database, root: Row, level: nat)
    requires Conforms(db)
    ensures Arrivals(db, [MODULE, PARENT_MODULE_BAY] + UpBays(level), root) == {BayAt(db, root, level)}
  {
    if level == 0 {
      ToOneSteps(db, [], MODULE, PARENT_MODULE_BAY, root, Some(root));
      assert [] + [MODULE, PARENT_MODULE_BAY] == [MODULE, PARENT_MODULE_BAY] + UpBays(0);
    } else {
      BayPath(db, root, level - 1);
      var path := [MODULE, PARENT_MODULE_BAY] + UpBays(level - 1);
      UpBaysStep(db, path, root, BayAt(db, root, level - 1));
      assert path + [PARENT_MODULE, PARENT_MODULE_BAY] == [MODULE, PARENT_MODULE_BAY] + UpBays(level);
    }
  }

  lemma UpBaysStep(db: Database, path: seq<Field>, root: Row, c: Cell)
    requires Conforms(db) && Arrivals(db, path, root) == {c}
    ensures Arrivals(db, path + [PARENT_MODULE, PARENT_MODULE_BAY], root) ==
      {One(db, One(db, c, PARENT_MODULE), PARENT_MODULE_BAY)}
  {
    ToOneSteps(db, path, PARENT_MODULE, PARENT_MODULE_BAY, root, c);
  }

  /** The `k`-th lookup of the query reads the column of the device `k` modules up. */
  lemma LookupReadsDeviceAt(db: Database, root: Row, column: Field, k: nat)
    requires Conforms(db) && !column.ToMany()
    ensures var path := if k == 0 then [DEVICE, column] else ComponentPath(k - 1, column);
      Arrivals(db, path, root) == {One(db, DeviceAt(db, root, k), column)}
  {
    if k == 0 {
      ToOneSteps(db, [], DEVICE, column, root, Some(root));
      assert [] + [DEVICE, column] == [DEVICE, column];
    } else {
      BayPath(db, root, k - 1);
      ToOneSteps(db, [MODULE, PARENT_MODULE_BAY] + UpBays(k - 1), PARENT_DEVICE, column, root, BayAt(db, root, k - 1));
    }
  }

  lemma InLeafHolds(db: Database, path: seq<Field>, values: set<Row>, row: Row, c: Cell)
    requires Arrivals(db, path, row) == {c}
    ensures Holds(db, InLeaf(path, values), row) <==> c.Some? && c.value in values
  {
    assert c in Arrivals(db, path, row);
  }

  lemma RecursiveQuerySelects(db: Database, root: Row, levels: nat, column: Field, values: set<Row>)
    requires Conforms(db) && !column.ToMany()
    ensures Selects(db, RecursiveQuery(levels, column, values), root) <==>
      exists k: nat :: k <= levels && ColumnIn(db, DeviceAt(db, root, k), column, values)
  {
    var query := RecursiveQuery(levels, column, values);
    forall k: nat | k <= levels ensures Holds(db, query[k], root) <==>
      ColumnIn(db, DeviceAt(db, root, k), column, values) {
      LookupReadsDeviceAt(db, root, column, k);
      var path := if k == 0 then [DEVICE, column] else ComponentPath(k - 1, column);
      InLeafHolds(db, path, values, root, One(db, DeviceAt(db, root, k), column));
      assert k > 0 ==> query[k - 1 + 1] == InLeaf(path, values);
    }
  }

  lemma SelectsConcat(db: Database, a: seq<Leaf>, b: seq<Leaf>, row: Row)
    ensures Selects(db, a + b, row) <==> Selects(db, a, row) || Selects(db, b, row)
  {
    var ab := a + b;
    assert forall i :: 0 <= i < |a| ==> ab[i] == a[i];
    assert forall i :: 0 <= i < |b| ==> ab[|a| + i] == b[i];
    if Selects(db, a, row) {
      var i :| 0 <= i < |a| && Holds(db, a[i], row);
      assert Holds(db, ab[i], row);
    }
    if Selects(db, b, row) {
      var i :| 0 <= i < |b| && Holds(db, b[i], row);
      assert Holds(db, ab[|a| + i], row);
    }
  }

  /** For any limit: the query selects a component exactly when a device asked for is at most `limit - 1` modules up. */
  lemma DeviceQueryExact(limit: nat, db: Database, component: Row, names: set<Row>, ids: set<Row>)
    requires limit >= 1 && Conforms(db)
    ensures Selects(db, DeviceQuery(limit, names, ids), component) <==>
      exists k: nat :: k <= limit - 1 && Asked(db, DeviceAt(db, component, k), names, ids)
  {
    SelectsConcat(db, RecursiveQuery(limit - 1, NAME, names), RecursiveQuery(limit - 1, ID, ids), component);
    RecursiveQuerySelects(db, component, limit - 1, NAME, names);
    RecursiveQuerySelects(db, component, limit - 1, ID, ids);
    AskedByNameOrId(limit - 1, db, component, names, ids);
  }

  lemma AskedByNameOrId(levels: nat, db: Database, component: Row, names: set<Row>, ids: set<Row>)
    ensures (exists k: nat :: k <= levels && Asked(db, DeviceAt(db, component, k), names, ids)) <==>
      (exists k: nat :: k <= levels && ColumnIn(db, DeviceAt(db, component, k), NAME, names)) ||
      (exists k: nat :: k <= levels && ColumnIn(db, DeviceAt(db, component, k), ID, ids))
  {
  }

  // ----- no repetition

  lemma {:induction false} UpBaysToOne(level: nat)
    ensures AllToOne(UpBays(level))
  {
    if level > 0 {
      UpBaysToOne(level - 1);
    }
  }

  lemma RecursiveQueryToOne(levels: nat, column: Field, values: set<Row>)
    requires !column.ToMany()
    ensures PathsToOne(RecursiveQuery(levels, column, values))
  {
    var query := RecursiveQuery(levels, column, values);
    forall i | 0 <= i < |query| ensures AllToOne(query[i].path) {
      if i > 0 {
        UpBaysToOne(i - 1);
        assert query[i - 1 + 1] == InLeaf(ComponentPath(i - 1, column), values);
      }
    }
  }

  /** `filter_device` returns each selected component once, although it never calls `.distinct()`. */
  lemma FilterDeviceExact(limit: nat, db: Database, qs: seq<Row>, names: set<Row>, ids: set<Row>)
    requires limit >= 1 && Conforms(db) && NoDuplicates(qs)
    ensures NoDuplicates(FilterDevice(limit, db, qs, names, ids))
    ensures names == ids == {} ==> FilterDevice(limit, db, qs, names, ids) == qs
    ensures forall c :: c in FilterDevice(limit, db, qs, names, ids) <==>
      c in qs && (names == ids == {} || exists k: nat :: k <= limit - 1 && Asked(db, DeviceAt(db, c, k), names, ids))
  {
    DeviceQueryToOne(limit, names, ids);
    ApplyKeepsNoDuplicates(db, qs, DeviceQuery(limit, names, ids), false);
    forall c: Row { FilterDeviceSelects(limit, db, qs, names, ids, c); }
  }

  lemma FilterDeviceSelects(limit: nat, db: Database, qs: seq<Row>, names: set<Row>, ids: set<Row>, c: Row)
    requires limit >= 1 && Conforms(db)
    ensures c in FilterDevice(limit, db, qs, names, ids) <==>
      c in qs && (names == ids == {} || exists k: nat :: k <= limit - 1 && Asked(db, DeviceAt(db, c, k), names, ids))
  {
    ApplySelects(db, qs, DeviceQuery(limit, names, ids), false);
    DeviceQueryExact(limit, db, c, names, ids);
  }

  lemma DeviceQueryToOne(limit: nat, names: set<Row>, ids: set<Row>)
    requires limit >= 1
    ensures PathsToOne(DeviceQuery(limit, names, ids))
  {
    RecursiveQueryToOne(limit - 1, NAME, names);
    RecursiveQueryToOne(limit - 1, ID, ids);
  }

  // ----- how deep the filter sees

  /** What model validation guarantees: one parent per bay, and a component is in a device or in a module, not in
      both. */
  ghost predicate OneParent(db: Database) {
    && (forall r: Row :: db(DEVICE, r) == [] || db(MODULE, r) == [])
    && (forall r: Row :: db(PARENT_DEVICE, r) == [] || db(PARENT_MODULE, r) == [])
  }

  lemma {:induction false} NothingAboveDevice(db: Database, component: Row, j: nat, k: nat)
    requires OneParent(db) && DeviceAt(db, component, j).Some? && j <= k
    ensures BayAt(db, component, k).None?
    decreases k
  {
    if k == j {
      if k > 0 {
        assert One(db, BayAt(db, component, k - 1), PARENT_MODULE) == None;
      }
    } else {
      NothingAboveDevice(db, component, j, k - 1);
    }
  }

  /** A component is at one depth in one device only. */
  lemma DeviceIsUnique(db: Database, component: Row, j: nat, k: nat)
    requires OneParent(db) && DeviceAt(db, component, j).Some? && DeviceAt(db, component, k).Some?
    ensures j == k
  {
    if j < k {
      NothingAboveDevice(db, component, j, k - 1);
    } else if k < j {
      NothingAboveDevice(db, component, k, j - 1);
    }
  }

  /** The bounded query agrees with unbounded ownership, whatever is asked for. */
  ghost predicate SeesOwner(limit: nat, db: Database, component: Row)
    requires limit >= 1
  {
    forall names: set<Row>, ids: set<Row> ::
      Selects(db, DeviceQuery(limit, names, ids), component) <==> BelongsToAsked(db, component, names, ids)
  }

  /** It does exactly for the components that are not nested in `limit` or more modules. */
  lemma SeesOwnerExactly(limit: nat, db: Database, component: Row)
    requires limit >= 1 && Conforms(db) && OneParent(db)
    ensures SeesOwner(limit, db, component) <==> forall k: nat :: DeviceAt(db, component, k).Some? ==> k <= limit - 1
  {
    if forall k: nat :: DeviceAt(db, component, k).Some? ==> k <= limit - 1 {
      forall names: set<Row>, ids: set<Row>
        ensures Selects(db, DeviceQuery(limit, names, ids), component) <==> BelongsToAsked(db, component, names, ids)
      {
        DeviceQueryExact(limit, db, component, names, ids);
      }
    } else {
      var k: nat :| DeviceAt(db, component, k).Some? && !(k <= limit - 1);
      var device := DeviceAt(db, component, k);
      assert |db(ID, device.value)| == 1;
      var names: set<Row>, ids := {}, {db(ID, device.value)[0]};
      assert Asked(db, DeviceAt(db, component, k), names, ids);
      DeviceQueryExact(limit, db, component, names, ids);
      forall j: nat | j <= limit - 1 ensures !Asked(db, DeviceAt(db, component, j), names, ids) {
        if DeviceAt(db, component, j).Some? {
          DeviceIsUnique(db, component, j, k);
        }
      }
      assert !Selects(db, DeviceQuery(limit, names, ids), component);
    }
  }

  /** With the limit in force, components are found in up to three modules, the third included. */
  lemma ThirdModuleIsSeen(db: Database, component: Row, names: set<Row>, ids: set<Row>, k: nat)
    requires Conforms(db) && k <= 3 && Asked(db, DeviceAt(db, component, k), names, ids)
    ensures Selects(db, DeviceQuery(MODULE_RECURSION_DEPTH_LIMIT, names, ids), component)
  {
    DeviceQueryExact(MODULE_RECURSION_DEPTH_LIMIT, db, component, names, ids);
  }

  // ----- ModuleFilterSet unrolls one level more

  function ModulePath(level: nat, column: Field): (path: seq<Field>) {
    UpModules(level) + [PARENT_MODULE_BAY, PARENT_DEVICE, column]
  }

  /** `parent_module_bay__parent_module__` repeated. */
  function UpModules(level: nat): (path: seq<Field>) {
    if level == 0 then [] else UpModules(level - 1) + [PARENT_MODULE_BAY, PARENT_MODULE]
  }

  /** The module filter's own query: no lookup on the module itself, and one level more. */
  function ModuleQuery(levels: nat, column: Field, values: set<Row>): (query: seq<Leaf>)
    ensures |query| == levels
    ensures forall k :: 0 <= k < levels ==> query[k] == InLeaf(ModulePath(k, column), values)
  {
    if levels == 0 then []
    else ModuleQuery(levels - 1, column, values) + [InLeaf(ModulePath(levels - 1, column), values)]
  }

  /** The `k`-th module (from 0) on the way up from a module. */
  function ModuleAt(db: Database, m: Row, k: nat): (c: Cell) {
    if k == 0 then Some(m) else One(db, One(db, ModuleAt(db, m, k - 1), PARENT_MODULE_BAY), PARENT_MODULE)
  }

  lemma {:induction false} UpModulesPath(db: Database, m: Row, level: nat)
    requires Conforms(db)
    ensures Arrivals(db, UpModules(level), m) == {ModuleAt(db, m, level)}
  {
    if level > 0 {
      var path := UpModules(level - 1);
      UpModulesPath(db, m, level - 1);
      UpModulesStep(db, path, m, ModuleAt(db, m, level - 1));
      assert UpModules(level) == path + [PARENT_MODULE_BAY, PARENT_MODULE];
      assert ModuleAt(db, m, level) == One(db, One(db, ModuleAt(db, m, level - 1), PARENT_MODULE_BAY), PARENT_MODULE);
    } else {
      assert UpModules(level) == [] && Arrivals(db, [], m) == {Some(m)};
    }
  }

  lemma UpModulesStep(db: Database, path: seq<Field>, m: Row, c: Cell)
    requires Conforms(db) && Arrivals(db, path, m) == {c}
    ensures Arrivals(db, path + [PARENT_MODULE_BAY, PARENT_MODULE], m) ==
      {One(db, One(db, c, PARENT_MODULE_BAY), PARENT_MODULE)}
  {
    ToOneSteps(db, path, PARENT_MODULE_BAY, PARENT_MODULE, m, c);
  }

  lemma {:induction false} BayOfModuleAt(db: Database, component: Row, m: Row, k: nat)
    requires One(db, Some(component), MODULE) == Some(m)
    ensures BayAt(db, component, k) == One(db, ModuleAt(db, m, k), PARENT_MODULE_BAY)
  {
    if k > 0 {
      BayOfModuleAt(db, component, m, k - 1);
    }
  }

  /** The lookup of the module filter at level `k` reads the device that its components are in through `k + 1`
      modules. */
  lemma ModuleLookupReadsDeviceAt(db: Database, component: Row, m: Row, column: Field, k: nat)
    requires Conforms(db) && One(db, Some(component), MODULE) == Some(m) && !column.ToMany()
    ensures Arrivals(db, ModulePath(k, column), m) == {One(db, DeviceAt(db, component, k + 1), column)}
  {
    UpModulesPath(db, m, k);
    BayOfModuleAt(db, component, m, k);
    var path := UpModules(k) + [PARENT_MODULE_BAY, PARENT_DEVICE];
    ToOneSteps(db, UpModules(k), PARENT_MODULE_BAY, PARENT_DEVICE, m, ModuleAt(db, m, k));
    assert Arrivals(db, path, m) == {DeviceAt(db, component, k + 1)};
    assert ModulePath(k, column) == path + [column];
    ToOneStep(db, path, column, m, DeviceAt(db, component, k + 1));
  }

  lemma ModuleQuerySelects(db: Database, component: Row, m: Row, levels: nat, column: Field, values: set<Row>)
    requires Conforms(db) && One(db, Some(component), MODULE) == Some(m) && !column.ToMany()
    ensures Selects(db, ModuleQuery(levels, column, values), m) <==>
      exists k: nat :: 1 <= k <= levels && ColumnIn(db, DeviceAt(db, component, k), column, values)
  {
    var query := ModuleQuery(levels, column, values);
    forall i | 0 <= i < levels ensures Holds(db, query[i], m) <==>
      ColumnIn(db, DeviceAt(db, component, i + 1), column, values) {
      ModuleLookupReadsDeviceAt(db, component, m, column, i);
      InLeafHolds(db, ModulePath(i, column), values, m, One(db, DeviceAt(db, component, i + 1), column));
    }
    if k: nat :| 1 <= k <= levels && ColumnIn(db, DeviceAt(db, component, k), column, values) {
      assert Holds(db, query[k - 1], m);
    }
  }

  /** With one limit for both, a device's modules are found one level deeper than the components in them. */
  lemma ModuleFoundWithoutItsComponents(limit: nat, db: Database, component: Row, m: Row, device: Row)
    requires limit >= 1 && Conforms(db) && OneParent(db) && db(ID, device) == [device]
    requires One(db, Some(component), MODULE) == Some(m) && DeviceAt(db, component, limit) == Some(device)
    ensures Selects(db, ModuleQuery(limit, ID, {device}), m)
    ensures !Selects(db, DeviceQuery(limit, {}, {device}), component)
  {
    ModuleQuerySelects(db, component, m, limit, ID, {device});
    assert ColumnIn(db, DeviceAt(db, component, limit), ID, {device});
    DeviceQueryExact(limit, db, component, {}, {device});
    forall k: nat | k <= limit - 1 ensures !Asked(db, DeviceAt(db, component, k), {}, {device}) {
      if DeviceAt(db, component, k).Some? {
        DeviceIsUnique(db, component, k, limit);
      }
    }
  }

  /** Component 0 in module 4, which is in module 3, in module 2, in module 1, in device 20: the documented nesting. */
  function FourModules(): (db: Database) {
    (f: Field, r: Row) =>
      if f == MODULE && r == 0 then [4]
      else if f == PARENT_MODULE_BAY && 1 <= r <= 4 then [10 + r]
      else if f == PARENT_MODULE && 12 <= r <= 14 then [r - 11]
      else if f == PARENT_DEVICE && r == 11 then [20]
      else if f.required then [r]
      else []
  }

  lemma FourModulesConform()
    ensures Conforms(FourModules()) && OneParent(FourModules())
  {
  }

  lemma FourModulesBays()
    ensures BayAt(FourModules(), 0, 1) == Some(13) && BayAt(FourModules(), 0, 3) == Some(11)
  {
    var db := FourModules();
    assert BayAt(db, 0, 0) == Some(14);
    assert BayAt(db, 0, 1) == Some(13);
    assert BayAt(db, 0, 2) == Some(12);
  }

  lemma FourModulesShape()
    ensures DeviceAt(FourModules(), 0, 4) == Some(20) && FourModules()(ID, 20) == [20]
    ensures One(FourModules(), Some(0), MODULE) == Some(4)
  {
    FourModulesBays();
  }

  /** The comment beside the limit promises four nested modules; a component in the fourth one is not found. */
  lemma FourthModuleIsNotSeen()
    ensures Conforms(FourModules()) && OneParent(FourModules())
    ensures BelongsToAsked(FourModules(), 0, {}, {20})
    ensures !Selects(FourModules(), DeviceQuery(MODULE_RECURSION_DEPTH_LIMIT, {}, {20}), 0)
  {
    FourModulesConform();
    FourModulesShape();
    assert ColumnIn(FourModules(), DeviceAt(FourModules(), 0, 4), ID, {20});
    assert Asked(FourModules(), DeviceAt(FourModules(), 0, 4), {}, {20});
    ModuleFoundWithoutItsComponents(4, FourModules(), 0, 4, 20);
  }

  // ----- available_for_cable

  const CABLE_TERMINATION := Field("Termination", "cable_termination", false, false, false)
  const CABLE := Field("CableTermination", "cable", false, false, true)

  function FilterAvailableForCable(db: Database, qs: seq<Row>, cables: set<Row>): (r: seq<Row>) {
    if cables == {} then qs
    else Apply(db, qs, [FreeLeaf(), InLeaf([CABLE_TERMINATION, CABLE], cables)], false)
  }

  predicate IsAvailable(db: Database, termination: Row, cables: set<Row>) {
    var end := One(db, Some(termination), CABLE_TERMINATION);
    end.None? || (One(db, end, CABLE).Some? && One(db, end, CABLE).value in cables)
  }

  function FreeLeaf(): (leaf: Leaf) {
    Leaf([CABLE_TERMINATION], (c: Cell) => c.None?)
  }

  lemma FreeLeafHolds(db: Database, r: Row)
    requires Conforms(db)
    ensures Holds(db, FreeLeaf(), r) <==> One(db, Some(r), CABLE_TERMINATION).None?
  {
    ToOneStep(db, [], CABLE_TERMINATION, r, Some(r));
    assert [] + [CABLE_TERMINATION] == FreeLeaf().path;
    assert One(db, Some(r), CABLE_TERMINATION) in Arrivals(db, FreeLeaf().path, r);
  }

  lemma CableLeafHolds(db: Database, r: Row, cables: set<Row>)
    requires Conforms(db)
    ensures var cable := One(db, One(db, Some(r), CABLE_TERMINATION), CABLE);
      Holds(db, InLeaf([CABLE_TERMINATION, CABLE], cables), r) <==> cable.Some? && cable.value in cables
  {
    ToOneSteps(db, [], CABLE_TERMINATION, CABLE, r, Some(r));
    assert [] + [CABLE_TERMINATION, CABLE] == [CABLE_TERMINATION, CABLE];
    InLeafHolds(db, [CABLE_TERMINATION, CABLE], cables, r, One(db, One(db, Some(r), CABLE_TERMINATION), CABLE));
  }

  lemma AvailableIsSelected(db: Database, r: Row, cables: set<Row>)
    requires Conforms(db)
    ensures Selects(db, [FreeLeaf(), InLeaf([CABLE_TERMINATION, CABLE], cables)], r) <==> IsAvailable(db, r, cables)
  {
    var own := InLeaf([CABLE_TERMINATION, CABLE], cables);
    SelectsConcat(db, [FreeLeaf()], [own], r);
    assert [FreeLeaf()] + [own] == [FreeLeaf(), own];
    SelectsOne(db, FreeLeaf(), r);
    SelectsOne(db, own, r);
    FreeLeafHolds(db, r);
    CableLeafHolds(db, r, cables);
  }

  /** Exactly the terminations without a cable or on one of the given cables, each once. */
  lemma AvailableForCableExact(db: Database, qs: seq<Row>, cables: set<Row>)
    requires Conforms(db) && NoDuplicates(qs)
    ensures NoDuplicates(FilterAvailableForCable(db, qs, cables))
    ensures cables == {} ==> FilterAvailableForCable(db, qs, cables) == qs
    ensures forall r :: r in FilterAvailableForCable(db, qs, cables) <==>
      r in qs && (cables == {} || IsAvailable(db, r, cables))
  {
    var query := [FreeLeaf(), InLeaf([CABLE_TERMINATION, CABLE], cables)];
    ApplySelects(db, qs, query, false);
    ApplyKeepsNoDuplicates(db, qs, query, false);
    forall r: Row { AvailableIsSelected(db, r, cables); }
  }
}
