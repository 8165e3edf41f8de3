/**
 Validation as a transition system: the unique rules and the device uniqueness check accept a write exactly
 when the table still conforms after it, so that every run of validated writes keeps it conforming.
*/
module Uniqueness {
  import opened Collections

  type Key = nat

  // ----- unique validation rules

  datatype Value = Null | Text(s: string) | Number(n: int)

  /** Python's truth: null, the empty string and zero do not count. */
  predicate Truthy(v: Value) {
    match v
    case Null => false
    case Text(s) => s != ""
    case Number(n) => n != 0
  }

  /** An object, by its fields. */
  type Object = string -> Value

  type Objects = map<Key, Object>

  datatype UniqueRule = UniqueRule(field: string, maxInstances: nat)

  function Holders(t: Objects, field: string, v: Value): (pks: set<Key>) {
    set pk | pk in t && t[pk](field) == v
  }

  /** `filter(field=value).exclude(pk=obj.pk).count()` */
  function CountOthers(t: Objects, field: string, v: Value, pk: Key): (n: nat) {
    |Holders(t, field, v) - {pk}|
  }

  predicate Violates(t: Objects, r: UniqueRule, pk: Key, obj: Object) {
    Truthy(obj(r.field)) && CountOthers(t, r.field, obj(r.field), pk) >= r.maxInstances
  }

  predicate IsFirstViolation(t: Objects, rules: seq<UniqueRule>, pk: Key, obj: Object, i: nat) {
    && i < |rules| && Violates(t, rules[i], pk, obj)
    && forall k :: 0 <= k < i ==> !Violates(t, rules[k], pk, obj)
  }

  /** The loop over the rules: the field of the first one that is violated, or nothing. */
  method CleanUniqueRules(t: Objects, rules: seq<UniqueRule>, pk: Key, obj: Object) returns (error: Option<string>)
    ensures error.None? <==> forall i :: 0 <= i < |rules| ==> !Violates(t, rules[i], pk, obj)
    ensures error.Some? ==> exists i: nat :: IsFirstViolation(t, rules, pk, obj, i) && error.value == rules[i].field
  {
    for i := 0 to |rules|
      invariant forall k :: 0 <= k < i ==> !Violates(t, rules[k], pk, obj)
    {
      var value := obj(rules[i].field);
      if Truthy(value) {
        var countExcludingCurrent := CountOthers(t, rules[i].field, value, pk);
        if countExcludingCurrent >= rules[i].maxInstances {
          assert IsFirstViolation(t, rules, pk, obj, i);
          return Some(rules[i].field);
        }
      }
    }
    error := None;
  }

  /** At most `maxInstances` objects hold any one truthy value. */
  ghost predicate Conforms(t: Objects, r: UniqueRule) {
    forall v :: v != Null && v != Text("") && v != Number(0) ==> |Holders(t, r.field, v)| <= r.maxInstances
  }

  lemma CardinalityWithout(a: set<Key>, x: Key)
    ensures |a| == |a - {x}| + if x in a then 1 else 0
  {
    assert x in a ==> a == (a - {x}) + {x};
    assert x !in a ==> a == a - {x};
  }

  lemma OtherHolders(t: Objects, field: string, v: Value, pk: Key, obj: Object)
    ensures Holders(t[pk := obj], field, v) - {pk} == Holders(t, field, v) - {pk}
    ensures pk in Holders(t[pk := obj], field, v) <==> v == obj(field)
  {
  }

  lemma HoldersAfterSave(t: Objects, field: string, v: Value, pk: Key, obj: Object)
    ensures |Holders(t[pk := obj], field, v)| == CountOthers(t, field, v, pk) + if v == obj(field) then 1 else 0
    ensures CountOthers(t, field, v, pk) <= |Holders(t, field, v)|
  {
    OtherHolders(t, field, v, pk, obj);
    CardinalityWithout(Holders(t[pk := obj], field, v), pk);
    CardinalityWithout(Holders(t, field, v), pk);
  }

  /** One rule accepts a write to a conforming table exactly when the table conforms afterwards. */
  lemma RuleAcceptsExactly(t: Objects, r: UniqueRule, pk: Key, obj: Object)
    requires Conforms(t, r)
    ensures !Violates(t, r, pk, obj) <==> Conforms(t[pk := obj], r)
  {
    var u := t[pk := obj];
    HoldersAfterSave(t, r.field, obj(r.field), pk, obj);
    TruthyExactly(obj(r.field));
    if !Violates(t, r, pk, obj) {
      forall v ensures v != Null && v != Text("") && v != Number(0) ==> |Holders(u, r.field, v)| <= r.maxInstances {
        HoldersAfterSave(t, r.field, v, pk, obj);
      }
    } else {
      assert |Holders(u, r.field, obj(r.field))| > r.maxInstances;
    }
  }

  lemma TruthyExactly(v: Value)
    ensures Truthy(v) <==> v != Null && v != Text("") && v != Number(0)
  {
  }

  /** So do all rules together. */
  lemma WriteAcceptedExactly(t: Objects, rules: seq<UniqueRule>, pk: Key, obj: Object)
    requires forall i :: 0 <= i < |rules| ==> Conforms(t, rules[i])
    ensures (forall i :: 0 <= i < |rules| ==> !Violates(t, rules[i], pk, obj)) <==>
      (forall i :: 0 <= i < |rules| ==> Conforms(t[pk := obj], rules[i]))
  {
    forall i | 0 <= i < |rules| ensures !Violates(t, rules[i], pk, obj) <==> Conforms(t[pk := obj], rules[i]) {
      RuleAcceptsExactly(t, rules[i], pk, obj);
    }
  }

  lemma DeleteConforms(t: Objects, r: UniqueRule, pk: Key)
    requires Conforms(t, r)
    ensures Conforms(t - {pk}, r)
  {
    forall v
      ensures v != Null && v != Text("") && v != Number(0) ==> |Holders(t - {pk}, r.field, v)| <= r.maxInstances
    {
      CardinalityOfSubset(Holders(t - {pk}, r.field, v), Holders(t, r.field, v));
    }
  }

  datatype Write<T> = Save(pk: Key, obj: T) | Delete(pk: Key)

  /** A validated write: refused when a rule is violated. */
  function AfterWrite(t: Objects, rules: seq<UniqueRule>, w: Write<Object>): (u: Objects) {
    match w
    case Save(pk, obj) => if forall i :: 0 <= i < |rules| ==> !Violates(t, rules[i], pk, obj) then t[pk := obj] else t
    case Delete(pk) => t - {pk}
  }

  /** On conforming tables a write is stored exactly if the table conforms with it. */
  lemma AfterWriteExactly(t: Objects, rules: seq<UniqueRule>, pk: Key, obj: Object)
    requires forall i :: 0 <= i < |rules| ==> Conforms(t, rules[i])
    ensures AfterWrite(t, rules, Save(pk, obj)) ==
      if forall i :: 0 <= i < |rules| ==> Conforms(t[pk := obj], rules[i]) then t[pk := obj] else t
  {
    WriteAcceptedExactly(t, rules, pk, obj);
  }

  /** A delete always takes its row away, and no other. */
  lemma AfterDeleteExactly(t: Objects, rules: seq<UniqueRule>, pk: Key)
    ensures AfterWrite(t, rules, Delete(pk)) == map k | k in t && k != pk :: t[k]
  {
  }

  function AfterWrites(t: Objects, rules: seq<UniqueRule>, ws: seq<Write<Object>>): (u: Objects) {
    if ws == [] then t else AfterWrite(AfterWrites(t, rules, ws[..|ws| - 1]), rules, ws[|ws| - 1])
  }

  lemma {:induction false} RunKeepsRule(t: Objects, rules: seq<UniqueRule>, ws: seq<Write<Object>>, i: nat)
    requires i < |rules| && Conforms(t, rules[i])
    ensures Conforms(AfterWrites(t, rules, ws), rules[i])
  {
    if ws != [] {
      var before := AfterWrites(t, rules, ws[..|ws| - 1]);
      RunKeepsRule(t, rules, ws[..|ws| - 1], i);
      match ws[|ws| - 1]
      case Save(pk, obj) => RuleAcceptsExactly(before, rules[i], pk, obj);
      case Delete(pk) => DeleteConforms(before, rules[i], pk);
    }
  }

  // ----- device uniqueness

  datatype Device = Device(name: Option<string>, tenant: Option<Key>, location: Key)

  type Devices = map<Key, Device>

  datatype Mode = LocationTenantName | Name | NoUniqueness

  predicate Unnamed(d: Device) {
    d.name.None? || d.name.value == ""
  }

  /** Rule 1: unnamed devices are not compared, unless names are required. */
  predicate Compared(d: Device, nameRequired: bool) {
    (d.name != None && d.name != Some("")) || nameRequired
  }

  predicate SameKey(mode: Mode, d: Device, e: Device) {
    match mode
    case LocationTenantName => d.name == e.name && d.tenant == e.tenant && d.location == e.location
    case Name => d.name == e.name
    case NoUniqueness => false
  }

  /** `DeviceUniquenessValidator.clean()`: true when it raises. */
  predicate CleanDeviceRaises(t: Devices, mode: Mode, nameRequired: bool, pk: Key, d: Device) {
    if Unnamed(d) && !nameRequired then false
    else match mode
      case LocationTenantName =>
        if d.tenant.None? then
          exists k :: k in t && t[k].name == d.name && t[k].tenant.None? && t[k].location == d.location && k != pk
        else
          exists k :: k in t && t[k].name == d.name && t[k].tenant == d.tenant && t[k].location == d.location && k != pk
      case Name => exists k :: k in t && t[k].name == d.name && k != pk
      case NoUniqueness => false
  }

  /** No two compared devices agree on the mode's key. */
  ghost predicate UniqueDevices(t: Devices, mode: Mode, nameRequired: bool) {
    forall j, k :: j in t && k in t && j != k && Compared(t[j], nameRequired) ==> !SameKey(mode, t[j], t[k])
  }

  /** In every mode, the check accepts a write to a unique table exactly when the table is unique afterwards. */
  lemma DeviceAcceptedExactly(t: Devices, mode: Mode, nameRequired: bool, pk: Key, d: Device)
    requires UniqueDevices(t, mode, nameRequired)
    ensures !CleanDeviceRaises(t, mode, nameRequired, pk, d) <==> UniqueDevices(t[pk := d], mode, nameRequired)
  {
    var u := t[pk := d];
    if CleanDeviceRaises(t, mode, nameRequired, pk, d) {
      var k :| k in t && k != pk && SameKey(mode, d, t[k]);
      assert u[k] == t[k] && u[pk] == d && Compared(u[pk], nameRequired);
    } else {
      forall j, k | j in u && k in u && j != k && Compared(u[j], nameRequired) ensures !SameKey(mode, u[j], u[k]) {
        if j == pk {
          assert k in t && u[k] == t[k];
        } else if k == pk {
          assert j in t && u[j] == t[j];
        }
      }
    }
  }

  function AfterDeviceWrite(t: Devices, mode: Mode, nameRequired: bool, w: Write<Device>): (u: Devices) {
    match w
    case Save(pk, d) => if CleanDeviceRaises(t, mode, nameRequired, pk, d) then t else t[pk := d]
    case Delete(pk) => t - {pk}
  }

  lemma AfterDeviceWriteExactly(t: Devices, mode: Mode, nameRequired: bool, pk: Key, d: Device)
    requires UniqueDevices(t, mode, nameRequired)
    ensures AfterDeviceWrite(t, mode, nameRequired, Save(pk, d)) ==
      if UniqueDevices(t[pk := d], mode, nameRequired) then t[pk := d] else t
    ensures AfterDeviceWrite(t, mode, nameRequired, Delete(pk)) == map k | k in t && k != pk :: t[k]
  {
    DeviceAcceptedExactly(t, mode, nameRequired, pk, d);
  }

  function AfterDeviceWrites(t: Devices, mode: Mode, nameRequired: bool, ws: seq<Write<Device>>): (u: Devices) {
    if ws == [] then t
    else AfterDeviceWrite(AfterDeviceWrites(t, mode, nameRequired, ws[..|ws| - 1]), mode, nameRequired, ws[|ws| - 1])
  }

  lemma {:induction false} RunKeepsDevicesUnique(t: Devices, mode: Mode, nameRequired: bool, ws: seq<Write<Device>>)
    requires UniqueDevices(t, mode, nameRequired)
    ensures UniqueDevices(AfterDeviceWrites(t, mode, nameRequired, ws), mode, nameRequired)
  {
    if ws != [] {
      var before := AfterDeviceWrites(t, mode, nameRequired, ws[..|ws| - 1]);
      RunKeepsDevicesUnique(t, mode, nameRequired, ws[..|ws| - 1]);
      match ws[|ws| - 1]
      case Save(pk, d) => DeviceAcceptedExactly(before, mode, nameRequired, pk, d);
      case Delete(pk) =>
    }
  }

  /** Relaxing the mode keeps the table unique, and it goes on being kept so by the runs in the new mode. */
  lemma {:induction false} RelaxedModeKeepsUnique(t: Devices, nameRequired: bool, ws: seq<Write<Device>>)
    requires UniqueDevices(t, Name, nameRequired)
    ensures UniqueDevices(AfterDeviceWrites(t, LocationTenantName, nameRequired, ws), LocationTenantName, nameRequired)
  {
    RunKeepsDevicesUnique(t, LocationTenantName, nameRequired, ws);
  }
}
