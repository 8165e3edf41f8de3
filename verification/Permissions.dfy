/**
 Object permissions: the map from permission names to constraints, and what `has_perm` decides with it.
 The decision must not depend on the order or repetition of the rows behind the map, and adding a
 permission should never take one away; here is exactly when it does not.
*/
module Permissions {
  import opened Collections

  /** A primary key of the model at hand. */
  type ObjectId = nat

  /** One constraint set: null or empty lets everything pass, anything else is a filter on objects. */
  datatype Constraint = Unrestricted | Matching(test: ObjectId -> bool)

  /** The JSON column: a single constraint set (or null), or a list of them. */
  datatype Stored = Single(c: Constraint) | Listed(cs: seq<Constraint>)

  function ListConstraints(s: Stored): (cs: seq<Constraint>) {
    match s
    case Single(c) => [c]
    case Listed(cs) => cs
  }

  datatype ObjectPermission = ObjectPermission(
    objectTypes: seq<(string, string)>,
    actions: seq<string>,
    constraints: Stored)

  /** `f"{object_type.app_label}.{action}_{object_type.model}"` */
  function PermissionName(objectType: (string, string), action: string): (name: string) {
    objectType.0 + "." + action + "_" + objectType.1
  }

  type PermissionMap = map<string, seq<Constraint>>

  /** `perms[name].extend(...)` on a defaultdict. */
  function Extend(perms: PermissionMap, name: string, cs: seq<Constraint>): (r: PermissionMap) {
    perms[name := (if name in perms then perms[name] else []) + cs]
  }

  method GetObjectPermissions(rows: seq<ObjectPermission>) returns (perms: PermissionMap)
    ensures forall name :: name in perms <==> Granted(rows, name)
    ensures forall name :: name in perms ==> perms[name] == Gathered(rows, name)
    ensures forall name, c :: name in perms ==> (c in perms[name] <==>
      exists i :: 0 <= i < |rows| && Grants(rows[i], name) && Stores(rows[i].constraints, c))
  {
    perms := map[];
    for i := 0 to |rows|
      invariant perms == ExtendRows(rows[..i])
    {
      assert rows[..i + 1][..i] == rows[..i];
      ghost var before := perms;
      var types, actions, cs := rows[i].objectTypes, rows[i].actions, ListConstraints(rows[i].constraints);
      for j := 0 to |types|
        invariant perms == ExtendTypes(before, types[..j], actions, cs)
      {
        assert types[..j + 1][..j] == types[..j];
        ghost var middle := perms;
        for k := 0 to |actions|
          invariant perms == ExtendActions(middle, types[j], actions[..k], cs)
        {
          assert actions[..k + 1][..k] == actions[..k];
          perms := Extend(perms, PermissionName(types[j], actions[k]), cs);
        }
        assert actions[..|actions|] == actions;
      }
      assert types[..|types|] == types;
    }
    assert rows[..|rows|] == rows;
    forall name { ExtendRowsGathers(rows, name); }
    forall name, c | name in perms
      ensures c in perms[name] <==>
        exists i :: 0 <= i < |rows| && Grants(rows[i], name) && Stores(rows[i].constraints, c)
    {
      GatheredIsStored(rows, name, c);
    }
  }

  // ----- what the loops compute

  function ExtendActions(
    perms: PermissionMap, objectType: (string, string), actions: seq<string>, cs: seq<Constraint>): (r: PermissionMap) {
    if actions == [] then perms
    else
      var n := |actions| - 1;
      Extend(ExtendActions(perms, objectType, actions[..n], cs), PermissionName(objectType, actions[n]), cs)
  }

  function ExtendTypes(
    perms: PermissionMap, types: seq<(string, string)>, actions: seq<string>, cs: seq<Constraint>): (r: PermissionMap) {
    if types == [] then perms
    else
      var n := |types| - 1;
      ExtendActions(ExtendTypes(perms, types[..n], actions, cs), types[n], actions, cs)
  }

  /** How often the permission's types and actions spell the name. */
  function CountActions(objectType: (string, string), actions: seq<string>, name: string): (n: nat)
    ensures n > 0 <==> exists a :: a in actions && PermissionName(objectType, a) == name
  {
    if actions == [] then 0
    else
      assert actions == actions[..|actions| - 1] + [actions[|actions| - 1]];
      CountActions(objectType, actions[..|actions| - 1], name) +
      if PermissionName(objectType, actions[|actions| - 1]) == name then 1 else 0
  }

  function CountNames(types: seq<(string, string)>, actions: seq<string>, name: string): (n: nat)
    ensures n > 0 <==> exists t, a :: t in types && a in actions && PermissionName(t, a) == name
  {
    if types == [] then 0
    else
      assert types == types[..|types| - 1] + [types[|types| - 1]];
      CountNames(types[..|types| - 1], actions, name) + CountActions(types[|types| - 1], actions, name)
  }

  function Repeated(cs: seq<Constraint>, n: nat): (r: seq<Constraint>)
    ensures forall c :: c in r <==> n > 0 && c in cs
    ensures r == [] <==> n == 0 || cs == []
  {
    if n == 0 then [] else Repeated(cs, n - 1) + cs
  }

  lemma {:induction false} RepeatedConcat(cs: seq<Constraint>, m: nat, n: nat)
    ensures Repeated(cs, m) + Repeated(cs, n) == Repeated(cs, m + n)
  {
    if n > 0 {
      RepeatedConcat(cs, m, n - 1);
      assert Repeated(cs, m) + Repeated(cs, n) == Repeated(cs, m) + Repeated(cs, n - 1) + cs;
    }
  }

  function Entry(perms: PermissionMap, name: string): (cs: seq<Constraint>) {
    if name in perms then perms[name] else []
  }

  /** The map has the name if it had it or something was added, and its constraints are `n` more copies of `cs`. */
  ghost predicate Grew(perms: PermissionMap, r: PermissionMap, name: string, cs: seq<Constraint>, n: nat) {
    (name in r <==> name in perms || n > 0) && Entry(r, name) == Entry(perms, name) + Repeated(cs, n)
  }

  lemma GrewTwice(
    perms: PermissionMap, q: PermissionMap, r: PermissionMap, name: string, cs: seq<Constraint>, m: nat, n: nat)
    requires Grew(perms, q, name, cs, m) && Grew(q, r, name, cs, n)
    ensures Grew(perms, r, name, cs, m + n)
  {
    RepeatedConcat(cs, m, n);
    assert Entry(perms, name) + Repeated(cs, m) + Repeated(cs, n) ==
      Entry(perms, name) + (Repeated(cs, m) + Repeated(cs, n));
  }

  lemma ExtendAdds(perms: PermissionMap, key: string, cs: seq<Constraint>, name: string)
    ensures Grew(perms, Extend(perms, key, cs), name, cs, if key == name then 1 else 0)
  {
    assert Repeated(cs, 1) == Repeated(cs, 0) + cs == cs;
  }

  lemma {:induction false} ExtendActionsAdds(
    perms: PermissionMap, t: (string, string), actions: seq<string>, cs: seq<Constraint>, name: string)
    ensures Grew(perms, ExtendActions(perms, t, actions, cs), name, cs, CountActions(t, actions, name))
  {
    if actions != [] {
      var front, key := actions[..|actions| - 1], PermissionName(t, actions[|actions| - 1]);
      var q := ExtendActions(perms, t, front, cs);
      ExtendActionsAdds(perms, t, front, cs, name);
      ExtendAdds(q, key, cs, name);
      GrewTwice(perms, q, Extend(q, key, cs), name, cs, CountActions(t, front, name), if key == name then 1 else 0);
    }
  }

  lemma {:induction false} ExtendTypesAdds(
    perms: PermissionMap, types: seq<(string, string)>, actions: seq<string>, cs: seq<Constraint>, name: string)
    ensures Grew(perms, ExtendTypes(perms, types, actions, cs), name, cs, CountNames(types, actions, name))
  {
    if types != [] {
      var front, last := types[..|types| - 1], types[|types| - 1];
      var q := ExtendTypes(perms, front, actions, cs);
      ExtendTypesAdds(perms, front, actions, cs, name);
      ExtendActionsAdds(q, last, actions, cs, name);
      GrewTwice(perms, q, ExtendActions(q, last, actions, cs), name, cs,
        CountNames(front, actions, name), CountActions(last, actions, name));
    }
  }

  function ExtendRows(rows: seq<ObjectPermission>): (perms: PermissionMap) {
    if rows == [] then map[]
    else
      var last := rows[|rows| - 1];
      ExtendTypes(ExtendRows(rows[..|rows| - 1]), last.objectTypes, last.actions, ListConstraints(last.constraints))
  }

  lemma {:induction false} ExtendRowsGathers(rows: seq<ObjectPermission>, name: string)
    ensures name in ExtendRows(rows) <==> Granted(rows, name)
    ensures Entry(ExtendRows(rows), name) == Gathered(rows, name)
  {
    if rows != [] {
      var front, last := rows[..|rows| - 1], rows[|rows| - 1];
      assert rows == front + [last];
      ExtendRowsGathers(front, name);
      ExtendTypesAdds(ExtendRows(front), last.objectTypes, last.actions, ListConstraints(last.constraints), name);
      GrantedSnoc(front, last, name);
    }
  }

  // ----- the declarative specification

  /** The permission grants the name through one of its types and actions. */
  ghost predicate Grants(p: ObjectPermission, name: string) {
    exists t, a :: t in p.objectTypes && a in p.actions && PermissionName(t, a) == name
  }

  ghost predicate Granted(rows: seq<ObjectPermission>, name: string) {
    exists i :: 0 <= i < |rows| && Grants(rows[i], name)
  }

  function Gathered(rows: seq<ObjectPermission>, name: string): (cs: seq<Constraint>) {
    if rows == [] then []
    else
      var last := rows[|rows| - 1];
      Gathered(rows[..|rows| - 1], name) +
      Repeated(ListConstraints(last.constraints), CountNames(last.objectTypes, last.actions, name))
  }

  lemma GrantedSnoc(rows: seq<ObjectPermission>, p: ObjectPermission, name: string)
    ensures Granted(rows + [p], name) <==> Granted(rows, name) || Grants(p, name)
  {
    var all := rows + [p];
    assert forall i :: 0 <= i < |rows| ==> all[i] == rows[i];
    assert all[|rows|] == p;
  }

  /** The row grants the name with this constraint. */
  ghost predicate Contributes(p: ObjectPermission, name: string, c: Constraint) {
    Grants(p, name) && c in ListConstraints(p.constraints)
  }

  ghost predicate SomeContributes(rows: seq<ObjectPermission>, name: string, c: Constraint) {
    exists i :: 0 <= i < |rows| && Contributes(rows[i], name, c)
  }

  lemma ContributesSnoc(rows: seq<ObjectPermission>, p: ObjectPermission, name: string, c: Constraint)
    ensures SomeContributes(rows + [p], name, c) <==> SomeContributes(rows, name, c) || Contributes(p, name, c)
  {
    var all := rows + [p];
    assert forall i :: 0 <= i < |rows| ==> all[i] == rows[i];
    assert all[|rows|] == p;
  }

  lemma GatheredSnoc(rows: seq<ObjectPermission>, p: ObjectPermission, name: string, c: Constraint)
    ensures c in Gathered(rows + [p], name) <==> c in Gathered(rows, name) || Contributes(p, name, c)
  {
    assert (rows + [p])[..|rows|] == rows;
    assert Grants(p, name) <==> CountNames(p.objectTypes, p.actions, name) > 0;
  }

  /** The gathered constraints are those of the granting rows, whatever their order and however often they come. */
  lemma {:induction false} GatheredMembers(rows: seq<ObjectPermission>, name: string, c: Constraint)
    ensures c in Gathered(rows, name) <==> SomeContributes(rows, name, c)
  {
    if rows == [] {
      assert Gathered(rows, name) == [];
    } else {
      var front, last := rows[..|rows| - 1], rows[|rows| - 1];
      assert rows == front + [last];
      GatheredMembers(front, name, c);
      GatheredSnoc(front, last, name, c);
      ContributesSnoc(front, last, name, c);
    }
  }

  /** The column holds the constraint: as the only one, or in its list. */
  ghost predicate Stores(s: Stored, c: Constraint) {
    match s
    case Single(d) => c == d
    case Listed(cs) => exists k :: 0 <= k < |cs| && cs[k] == c
  }

  lemma GatheredIsStored(rows: seq<ObjectPermission>, name: string, c: Constraint)
    ensures c in Gathered(rows, name) <==>
      exists i :: 0 <= i < |rows| && Grants(rows[i], name) && Stores(rows[i].constraints, c)
  {
    GatheredMembers(rows, name, c);
    forall i | 0 <= i < |rows|
      ensures Contributes(rows[i], name, c) <==> Grants(rows[i], name) && Stores(rows[i].constraints, c)
    {
      StoresExactly(rows[i].constraints, c);
    }
  }

  lemma StoresExactly(s: Stored, c: Constraint)
    ensures c in ListConstraints(s) <==> Stores(s, c)
  {
  }

  // ----- decisions

  /** `qs_filter_from_constraints`: `None` stands for the empty Q, which matches every object. */
  method QsFilterFromConstraints(constraints: seq<Constraint>) returns (params: Option<seq<ObjectId -> bool>>)
    ensures forall obj :: Passes(params, obj) <==> Allows(constraints, obj)
  {
    var tests := [];
    for i := 0 to |constraints|
      invariant i > 0 ==> tests != []
      invariant forall k :: 0 <= k < i ==> constraints[k].Matching?
      invariant |tests| == i && forall k :: 0 <= k < i ==> tests[k] == constraints[k].test
    {
      match constraints[i] {
        case Unrestricted => return None;
        case Matching(test) => tests := tests + [test];
      }
    }
    params := if tests == [] then None else Some(tests);
    forall obj ensures Passes(params, obj) <==> Allows(constraints, obj) {
      if params.Some? {
        assert forall k :: 0 <= k < |constraints| ==> (Accepts(constraints[k], obj) <==> tests[k](obj));
      }
    }
  }

  ghost predicate Passes(params: Option<seq<ObjectId -> bool>>, obj: ObjectId) {
    params.None? || exists k :: 0 <= k < |params.value| && params.value[k](obj)
  }

  predicate Accepts(c: Constraint, obj: ObjectId) {
    c.Unrestricted? || c.test(obj)
  }

  /** An OR in which null matches all, and in which no constraint at all matches all too. */
  ghost predicate Allows(constraints: seq<Constraint>, obj: ObjectId) {
    constraints == [] || exists k :: 0 <= k < |constraints| && Accepts(constraints[k], obj)
  }

  /** The part of `has_perm` that depends on the user's permissions. */
  ghost predicate Decides(rows: seq<ObjectPermission>, name: string, obj: ObjectId) {
    Granted(rows, name) && Allows(Gathered(rows, name), obj)
  }

  /** Some granting row has a constraint that accepts the object. */
  ghost predicate SomeAccepts(rows: seq<ObjectPermission>, name: string, obj: ObjectId) {
    exists i, c :: 0 <= i < |rows| && Contributes(rows[i], name, c) && Accepts(c, obj)
  }

  /** Every row that grants the name has an empty constraint list. */
  ghost predicate OnlyEmptyLists(rows: seq<ObjectPermission>, name: string) {
    forall i :: 0 <= i < |rows| && Grants(rows[i], name) ==> ListConstraints(rows[i].constraints) == []
  }

  lemma GatheredNothing(rows: seq<ObjectPermission>, name: string)
    ensures Gathered(rows, name) == [] <==> OnlyEmptyLists(rows, name)
  {
    var all := Gathered(rows, name);
    if all == [] {
      forall i | 0 <= i < |rows| && Grants(rows[i], name) ensures ListConstraints(rows[i].constraints) == [] {
        var cs := ListConstraints(rows[i].constraints);
        if cs != [] {
          assert Contributes(rows[i], name, cs[0]);
          GatheredMembers(rows, name, cs[0]);
        }
      }
    } else {
      GatheredMembers(rows, name, all[0]);
    }
  }

  /** The same decision, said of the rows directly. */
  lemma DecidesMeans(rows: seq<ObjectPermission>, name: string, obj: ObjectId)
    ensures Decides(rows, name, obj) <==>
      Granted(rows, name) && (OnlyEmptyLists(rows, name) || SomeAccepts(rows, name, obj))
  {
    var all := Gathered(rows, name);
    GatheredNothing(rows, name);
    if k :| 0 <= k < |all| && Accepts(all[k], obj) {
      GatheredMembers(rows, name, all[k]);
    }
    if i, c :| 0 <= i < |rows| && Contributes(rows[i], name, c) && Accepts(c, obj) {
      GatheredMembers(rows, name, c);
      var k :| 0 <= k < |all| && all[k] == c;
    }
  }

  /** Null accepts every object, a constraint set those that pass it, a list those that some set in it accepts. */
  ghost predicate StoredAccepts(s: Stored, obj: ObjectId) {
    match s
    case Single(Unrestricted) => true
    case Single(Matching(test)) => test(obj)
    case Listed(cs) => exists k :: 0 <= k < |cs| && (cs[k].Unrestricted? || cs[k].test(obj))
  }

  lemma StoredAcceptsExactly(p: ObjectPermission, name: string, obj: ObjectId)
    requires Grants(p, name)
    ensures StoredAccepts(p.constraints, obj) <==> exists c :: Contributes(p, name, c) && Accepts(c, obj)
  {
    match p.constraints
    case Single(c) =>
      assert c in ListConstraints(p.constraints);
      assert Contributes(p, name, c);
    case Listed(cs) =>
      if k :| 0 <= k < |cs| && (cs[k].Unrestricted? || cs[k].test(obj)) {
        assert Contributes(p, name, cs[k]);
      }
      if c :| Contributes(p, name, c) && Accepts(c, obj) {
        var k :| 0 <= k < |cs| && cs[k] == c;
      }
  }

  lemma EmptyListExactly(s: Stored)
    ensures ListConstraints(s) == [] <==> s == Listed([])
  {
  }

  /** The decision, said of the stored columns: some row that grants the name accepts the object, or some row grants
      it and all that do have an empty list. */
  lemma DecidesExactly(rows: seq<ObjectPermission>, name: string, obj: ObjectId)
    ensures Decides(rows, name, obj) <==>
      || (exists i :: 0 <= i < |rows| && Grants(rows[i], name) && StoredAccepts(rows[i].constraints, obj))
      || ((exists i :: 0 <= i < |rows| && Grants(rows[i], name)) &&
          forall i :: 0 <= i < |rows| && Grants(rows[i], name) ==> rows[i].constraints == Listed([]))
  {
    DecidesMeans(rows, name, obj);
    forall i | 0 <= i < |rows| && Grants(rows[i], name)
      ensures StoredAccepts(rows[i].constraints, obj) <==>
        exists c :: Contributes(rows[i], name, c) && Accepts(c, obj)
      ensures ListConstraints(rows[i].constraints) == [] <==> rows[i].constraints == Listed([])
    {
      StoredAcceptsExactly(rows[i], name, obj);
      EmptyListExactly(rows[i].constraints);
    }
    if i :| 0 <= i < |rows| && Grants(rows[i], name) && StoredAccepts(rows[i].constraints, obj) {
      var c :| Contributes(rows[i], name, c) && Accepts(c, obj);
      assert SomeAccepts(rows, name, obj);
    }
  }

  /** Reordering or repeating the rows changes no decision. */
  lemma DecisionIgnoresOrderAndRepetition(
    rows: seq<ObjectPermission>, others: seq<ObjectPermission>, name: string, obj: ObjectId)
    requires forall p :: p in rows <==> p in others
    ensures Decides(rows, name, obj) <==> Decides(others, name, obj)
  {
    if Decides(rows, name, obj) {
      SameRowsDecide(rows, others, name, obj);
    }
    if Decides(others, name, obj) {
      SameRowsDecide(others, rows, name, obj);
    }
  }

  lemma SameRowsDecide(rows: seq<ObjectPermission>, others: seq<ObjectPermission>, name: string, obj: ObjectId)
    requires (forall p :: p in rows <==> p in others) && Decides(rows, name, obj)
    ensures Decides(others, name, obj)
  {
    DecidesMeans(rows, name, obj);
    DecidesMeans(others, name, obj);
    var i :| 0 <= i < |rows| && Grants(rows[i], name);
    assert rows[i] in rows;
    SameRow(others, rows[i]);
    if OnlyEmptyLists(rows, name) {
      forall j | 0 <= j < |others| && Grants(others[j], name) ensures ListConstraints(others[j].constraints) == [] {
        assert others[j] in others;
      }
    } else {
      var k, c :| 0 <= k < |rows| && Contributes(rows[k], name, c) && Accepts(c, obj);
      assert rows[k] in rows;
      SameRow(others, rows[k]);
    }
  }

  lemma SameRow(rows: seq<ObjectPermission>, p: ObjectPermission)
    requires p in rows
    ensures exists i :: 0 <= i < |rows| && rows[i] == p
  {
  }

  // ----- adding a permission

  /** No further permission can make the answer about the name turn from yes to no. */
  ghost predicate OnlyGains(rows: seq<ObjectPermission>, name: string) {
    forall p: ObjectPermission, obj: ObjectId :: Decides(rows, name, obj) ==> Decides(rows + [p], name, obj)
  }

  lemma GainsFromConstraints(rows: seq<ObjectPermission>, p: ObjectPermission, name: string, obj: ObjectId)
    requires Decides(rows, name, obj) && !OnlyEmptyLists(rows, name)
    ensures Decides(rows + [p], name, obj)
  {
    DecidesMeans(rows, name, obj);
    DecidesMeans(rows + [p], name, obj);
    GrantedSnoc(rows, p, name);
    var i, c :| 0 <= i < |rows| && Contributes(rows[i], name, c) && Accepts(c, obj);
    assert (rows + [p])[i] == rows[i];
  }

  /** A permission for one name that accepts no object. */
  function DenyAll(objectType: (string, string), action: string): (p: ObjectPermission)
    ensures Grants(p, PermissionName(objectType, action))
    ensures forall name, c, obj :: Contributes(p, name, c) ==> !Accepts(c, obj)
  {
    var p := ObjectPermission([objectType], [action], Single(Matching(obj => false)));
    assert objectType in p.objectTypes && action in p.actions;
    p
  }

  lemma LosesWithoutConstraints(
    rows: seq<ObjectPermission>, objectType: (string, string), action: string, obj: ObjectId)
    requires Granted(rows, PermissionName(objectType, action)) &&
      OnlyEmptyLists(rows, PermissionName(objectType, action))
    ensures Decides(rows, PermissionName(objectType, action), obj)
    ensures !Decides(rows + [DenyAll(objectType, action)], PermissionName(objectType, action), obj)
  {
    var name, p := PermissionName(objectType, action), DenyAll(objectType, action);
    DecidesMeans(rows, name, obj);
    DecidesMeans(rows + [p], name, obj);
    var all := rows + [p];
    assert all[|rows|] == p && ListConstraints(p.constraints) != [];
    assert forall i :: 0 <= i < |rows| ==> all[i] == rows[i];
  }

  /** That is so exactly unless the name rests on empty constraint lists alone: those grant all until a real
      constraint joins them. */
  lemma OnlyGainsExactly(rows: seq<ObjectPermission>, objectType: (string, string), action: string)
    ensures var name := PermissionName(objectType, action);
      OnlyGains(rows, name) <==> (Granted(rows, name) ==> !OnlyEmptyLists(rows, name))
  {
    var name := PermissionName(objectType, action);
    if Granted(rows, name) && OnlyEmptyLists(rows, name) {
      LosesWithoutConstraints(rows, objectType, action, 0);
    } else {
      forall p: ObjectPermission, obj: ObjectId | Decides(rows, name, obj) ensures Decides(rows + [p], name, obj) {
        GainsFromConstraints(rows, p, name, obj);
      }
    }
  }

  /** A permission with an empty list grants every device; adding one that matches no device takes them all away. */
  lemma AddedPermissionCanRevoke(device: ObjectId)
    ensures var all := ObjectPermission([("dcim", "device")], ["view"], Listed([]));
      var name := PermissionName(("dcim", "device"), "view");
      Decides([all], name, device) && !Decides([all] + [DenyAll(("dcim", "device"), "view")], name, device)
  {
    var t, a := ("dcim", "device"), "view";
    var all := ObjectPermission([t], [a], Listed([]));
    assert t in all.objectTypes && a in all.actions && [all][0] == all;
    assert Grants(all, PermissionName(t, a));
    LosesWithoutConstraints([all], t, a, device);
  }
}
