/** `ObjectPermissionBackend` as it runs: the per-user cache of the permission map, and the chain of tests in
    `has_perm`. */
module PermissionBackend {
  import opened Collections
  import opened Permissions
  import opened Strings

  // ----- permission names

  /** `codename.rsplit("_", 1)` into exactly two parts. */
  function SplitAtLastUnderscore(s: string): (r: Option<(string, string)>) {
    if s == "" then None
    else match SplitAtLastUnderscore(s[1..])
      case Some((a, b)) => Some(([s[0]] + a, b))
      case None => if s[0] == '_' then Some(("", s[1..])) else None
  }

  /** Application, action and model; `None` where `resolve_permission` raises `ValueError`. */
  function ResolvePermission(name: string): (r: Option<(string, string, string)>) {
    match SplitAtDot(name)
    case None => None
    case Some((app, codename)) =>
      match SplitAtLastUnderscore(codename)
      case None => None
      case Some((action, model)) => Some((app, action, model))
  }

  lemma {:induction false} NoUnderscoreNoSplit(s: string)
    requires '_' !in s
    ensures SplitAtLastUnderscore(s) == None
  {
    if s != "" {
      NoUnderscoreNoSplit(s[1..]);
    }
  }

  lemma {:induction false} SplitAtLastUnderscoreJoins(a: string, b: string)
    requires '_' !in b
    ensures SplitAtLastUnderscore(a + "_" + b) == Some((a, b))
  {
    var s := a + "_" + b;
    if a == "" {
      assert s[0] == '_' && s[1..] == b;
      NoUnderscoreNoSplit(b);
    } else {
      assert s[1..] == a[1..] + "_" + b;
      SplitAtLastUnderscoreJoins(a[1..], b);
      assert [a[0]] + a[1..] == a;
    }
  }

  /** The names in the map resolve to the type and the action that they were made from; actions may contain
      underscores. */
  lemma PermissionNameResolves(objectType: (string, string), action: string)
    requires '.' !in objectType.0 && '.' !in action && '.' !in objectType.1 && '_' !in objectType.1
    ensures ResolvePermission(PermissionName(objectType, action)) == Some((objectType.0, action, objectType.1))
  {
    var codename := action + "_" + objectType.1;
    assert PermissionName(objectType, action) == objectType.0 + "." + codename;
    SplitAtDotJoins(objectType.0, codename);
    SplitAtLastUnderscoreJoins(action, objectType.1);
  }

  lemma {:induction false} SplitAtLastUnderscoreParts(s: string)
    ensures SplitAtLastUnderscore(s).Some? ==>
      var (a, b) := SplitAtLastUnderscore(s).value; '_' !in b && s == a + "_" + b
    ensures SplitAtLastUnderscore(s).None? ==> '_' !in s
  {
    if s != "" {
      SplitAtLastUnderscoreParts(s[1..]);
      assert s == [s[0]] + s[1..];
      if SplitAtLastUnderscore(s[1..]).Some? {
        var (a, b) := SplitAtLastUnderscore(s[1..]).value;
        assert [s[0]] + (a + "_" + b) == [s[0]] + a + "_" + b;
      } else if s[0] == '_' {
        assert s == "" + "_" + s[1..];
      }
    }
  }

  /** A name resolves to these parts exactly if it is made of them, and is refused exactly if it is made of no such
      parts. */
  lemma ResolvesExactly(name: string, app: string, action: string, model: string)
    ensures ResolvePermission(name) == Some((app, action, model)) <==>
      && '.' !in app && '.' !in action && '.' !in model && '_' !in model
      && name == app + "." + action + "_" + model
  {
    if '.' !in app && '.' !in action && '.' !in model && '_' !in model && name == app + "." + action + "_" + model {
      PermissionNameResolves((app, model), action);
    }
    SplitAtDotParts(name);
    if ResolvePermission(name) == Some((app, action, model)) {
      var codename := SplitAtDot(name).value.1;
      SplitAtLastUnderscoreParts(codename);
      assert codename == action + "_" + model;
      assert forall c :: c in action || c in model ==> c in codename;
      assert app + "." + (action + "_" + model) == app + "." + action + "_" + model;
    }
  }

  function Replace(s: string, what: string, with: string): (r: string)
    requires what != ""
  {
    if s == "" then ""
    else if what <= s then with + Replace(s[|what|..], what, with)
    else [s[0]] + Replace(s[1..], what, with)
  }

  /** The name looked up: `users.*_admingroup` stands for `auth.*_group`. */
  function CanonicalName(perm: string): (name: string)
    requires ResolvePermission(perm).Some?
  {
    var (app, _, model) := ResolvePermission(perm).value;
    if app == "users" && model == "admingroup"
      then Replace(Replace(perm, "users", "auth"), "admingroup", "group") else perm
  }

  /** Nothing to replace begins in the first part: it stays, and replacing goes on behind it. */
  lemma {:induction false} ReplaceSkips(front: string, rest: string, what: string, with: string)
    requires what != "" && forall i :: 0 <= i < |front| ==> !(what <= (front + rest)[i..])
    ensures Replace(front + rest, what, with) == front + Replace(rest, what, with)
  {
    if front == "" {
      assert front + rest == rest;
    } else {
      assert (front + rest)[1..] == front[1..] + rest && (front + rest)[0..] == front + rest;
      forall i | 0 <= i < |front[1..]| ensures !(what <= (front[1..] + rest)[i..]) {
        assert (front[1..] + rest)[i..] == (front + rest)[i + 1..];
      }
      ReplaceSkips(front[1..], rest, what, with);
      assert [front[0]] + (front[1..] + Replace(rest, what, with)) == front + Replace(rest, what, with);
    }
  }

  lemma ReplaceHead(what: string, rest: string, with: string)
    requires what != ""
    ensures Replace(what + rest, what, with) == with + Replace(rest, what, with)
  {
    assert (what + rest)[|what|..] == rest;
  }

  lemma {:induction false} ReplaceNothing(s: string, what: string, with: string)
    requires what != "" && forall i :: 0 <= i < |s| ==> !(what <= s[i..])
    ensures Replace(s, what, with) == s
  {
    assert s + "" == s;
    ReplaceSkips(s, "", what, with);
  }

  lemma NotPrefix(what: string, s: string, k: nat)
    requires k < |what| && (k < |s| ==> s[k] != what[k])
    ensures !(what <= s)
  {
  }

  /** The proxy model of groups is looked up as the group model of Django, for every action without a "u" (with which
      "users" and the rest of "admingroup" could begin inside it). */
  lemma AdminGroupIsGroup(action: string)
    requires '.' !in action && 'u' !in action
    ensures ResolvePermission("users" + ("." + action + "_" + "admingroup")).Some?
    ensures CanonicalName("users" + ("." + action + "_" + "admingroup")) == "auth" + ("." + action + "_") + "group"
  {
    AdminGroupResolves(action);
    UsersToAuth("." + action + "_");
    AdminGroupToGroup("." + action + "_");
  }

  lemma AdminGroupResolves(action: string)
    requires '.' !in action
    ensures ResolvePermission("users" + ("." + action + "_" + "admingroup")) == Some(("users", action, "admingroup"))
  {
    assert '.' !in "users" && '.' !in "admingroup" && '_' !in "admingroup";
    PermissionNameResolves(("users", "admingroup"), action);
    SameName("users", action, "admingroup");
  }

  lemma SameName(app: string, action: string, model: string)
    ensures PermissionName((app, model), action) == app + ("." + action + "_" + model)
  {
  }

  lemma UsersToAuth(middle: string)
    requires 'u' !in middle
    ensures Replace("users" + (middle + "admingroup"), "users", "auth") == "auth" + (middle + "admingroup")
  {
    var rest := middle + "admingroup";
    ReplaceHead("users", rest, "auth");
    forall i | 0 <= i < |rest| ensures !("users" <= rest[i..]) {
      if rest[i] == 'u' {
        assert "admingroup"[8] == 'u' && "admingroup"[9] == 'p' && i == |middle| + 8;
        NotPrefix("users", rest[i..], 1);
      } else {
        NotPrefix("users", rest[i..], 0);
      }
    }
    ReplaceNothing(rest, "users", "auth");
  }

  lemma AdminGroupToGroup(middle: string)
    requires 'u' !in middle && middle != "" && middle[|middle| - 1] == '_'
    ensures Replace("auth" + (middle + "admingroup"), "admingroup", "group") == "auth" + middle + "group"
  {
    var front := "auth" + middle;
    assert "auth" + (middle + "admingroup") == front + "admingroup";
    assert front[..4] == "auth" && front[4..] == middle;
    forall i | 0 <= i < |front| ensures !("admingroup" <= (front + "admingroup")[i..]) {
      NotBeforeTheEnd(front, i);
    }
    ReplaceSkips(front, "admingroup", "admingroup", "group");
    ReplaceHead("admingroup", "", "group");
    assert "admingroup" + "" == "admingroup" && "group" + "" == "group";
  }

  lemma NotBeforeTheEnd(front: string, i: nat)
    requires i < |front| && |front| >= 5 && front[|front| - 1] == '_' && 'u' !in front[4..]
    ensures !("admingroup" <= (front + "admingroup")[i..])
  {
    var s, end := front + "admingroup", |front| - 1;
    if end < i + 10 {
      assert '_' !in "admingroup" && s[i..][end - i] == '_';
      NotPrefix("admingroup", s[i..], end - i);
    } else {
      assert s[i..][8] == front[4..][i + 4] && "admingroup"[8] == 'u';
      NotPrefix("admingroup", s[i..], 8);
    }
  }

  /** Every other name is looked up as it is. */
  lemma OtherNamesStay(app: string, action: string, model: string)
    requires '.' !in app && '.' !in action && '.' !in model && '_' !in model
    requires !(app == "users" && model == "admingroup")
    ensures ResolvePermission(app + "." + action + "_" + model).Some?
    ensures CanonicalName(app + "." + action + "_" + model) == app + "." + action + "_" + model
  {
    ResolvesExactly(app + "." + action + "_" + model, app, action, model);
  }

  // ----- users and decisions

  class User {
    const isActive: bool
    const isAnonymous: bool
    const isStaff: bool
    const isSuperuser: bool
    /** `_object_perm_cache`, absent until the first query. */
    var permCache: Option<PermissionMap>

    constructor (isActive: bool, isAnonymous: bool, isStaff: bool, isSuperuser: bool)
      ensures permCache == None
    {
      this.isActive, this.isAnonymous, this.isStaff, this.isSuperuser := isActive, isAnonymous, isStaff, isSuperuser;
      permCache := None;
    }
  }

  /** The object asked about: its model's label, its key, and whether the database still has it. */
  datatype Target = Target(modelLabel: string, pk: ObjectId, exists_: bool)

  datatype Decision = Yes | No | InvalidName | WrongModel

  /** The map holds what the rows grant. */
  ghost predicate IsMapOf(perms: PermissionMap, rows: seq<ObjectPermission>) {
    && (forall name :: name in perms <==> Granted(rows, name))
    && (forall name :: name in perms ==> perms[name] == Gathered(rows, name))
  }

  /** `rows` is the answer of the query for the user's enabled permissions. */
  method GetAllPermissions(user: User, rows: seq<ObjectPermission>) returns (perms: PermissionMap)
    requires user.permCache.Some? ==> IsMapOf(user.permCache.value, rows)
    modifies user
    ensures if user.isActive && !user.isAnonymous then user.permCache == Some(perms) && IsMapOf(perms, rows)
            else perms == map[] && user.permCache == old(user.permCache)
    ensures user.permCache.Some? ==> IsMapOf(user.permCache.value, rows)
    ensures old(user.permCache).Some? ==> user.permCache == old(user.permCache)
  {
    if !user.isActive || user.isAnonymous {
      return map[];
    }
    if user.permCache.None? {
      perms := GetObjectPermissions(rows);
      user.permCache := Some(perms);
    }
    perms := user.permCache.value;
  }

  /** The decision, from the rows and not from any map or cache. */
  ghost function SpecifiedDecision(
    user: User, rows: seq<ObjectPermission>, exempt: string -> bool, perm: string, obj: Option<Target>): (d: Decision)
  {
    if perm == "is_staff" then (if user.isActive && (user.isStaff || user.isSuperuser) then Yes else No)
    else if ResolvePermission(perm).None? then InvalidName
    else if user.isActive && user.isSuperuser then Yes
    else
      var (app, _, model) := ResolvePermission(perm).value;
      var name := CanonicalName(perm);
      if exempt(name) then Yes
      else if !user.isActive || user.isAnonymous || !Granted(rows, name) then No
      else if obj.None? then Yes
      else if obj.value.modelLabel != app + "." + model then WrongModel
      else if obj.value.exists_ && Decides(rows, name, obj.value.pk) then Yes else No
  }

  /** The four answers, each said at once and not as a chain of tests. */
  lemma DecisionExactly(
    user: User, rows: seq<ObjectPermission>, exempt: string -> bool, perm: string, obj: Option<Target>)
    requires perm != "is_staff" && ResolvePermission(perm).Some?
    ensures var d := SpecifiedDecision(user, rows, exempt, perm, obj);
      var (app, _, model) := ResolvePermission(perm).value;
      var name := CanonicalName(perm);
      var free := (user.isActive && user.isSuperuser) || exempt(name);
      var granted := user.isActive && !user.isAnonymous && Granted(rows, name);
      var right := obj.Some? && obj.value.modelLabel == app + "." + model;
      && (d == Yes <==>
        free || (granted && (obj.None? || (right && obj.value.exists_ && Decides(rows, name, obj.value.pk)))))
      && (d == WrongModel <==> !free && granted && obj.Some? && !right)
      && d != InvalidName
  {
  }

  predicate IsNameOf(perm: string, app: string, action: string, model: string) {
    '.' !in app && '.' !in action && '.' !in model && '_' !in model && perm == app + "." + action + "_" + model
  }

  /** Staff access needs an active account; a name that cannot be resolved is refused even to superusers. */
  lemma OtherDecisions(
    user: User, rows: seq<ObjectPermission>, exempt: string -> bool, perm: string, obj: Option<Target>)
    ensures perm == "is_staff" ==> (SpecifiedDecision(user, rows, exempt, perm, obj) == Yes <==>
      user.isActive && (user.isStaff || user.isSuperuser))
    ensures SpecifiedDecision(user, rows, exempt, perm, obj) == InvalidName <==>
      perm != "is_staff" && forall app, action, model :: !IsNameOf(perm, app, action, model)
  {
    if ResolvePermission(perm).Some? {
      var (app, action, model) := ResolvePermission(perm).value;
      ResolvesExactly(perm, app, action, model);
      assert IsNameOf(perm, app, action, model);
    } else {
      forall app, action, model ensures !IsNameOf(perm, app, action, model) {
        ResolvesExactly(perm, app, action, model);
      }
    }
  }

  method HasPerm(user: User, rows: seq<ObjectPermission>, exempt: string -> bool, perm: string, obj: Option<Target>)
    returns (d: Decision)
    requires user.permCache.Some? ==> IsMapOf(user.permCache.value, rows)
    modifies user
    ensures d == SpecifiedDecision(user, rows, exempt, perm, obj)
    ensures user.permCache.Some? ==> IsMapOf(user.permCache.value, rows)
  {
    if perm == "is_staff" {
      return if user.isActive && (user.isStaff || user.isSuperuser) then Yes else No;
    }
    var parts := ResolvePermission(perm);
    if parts.None? {
      return InvalidName;
    }
    var (app, _, model) := parts.value;
    var name := perm;
    if app == "users" && model == "admingroup" {
      name := Replace(Replace(perm, "users", "auth"), "admingroup", "group");
    }
    if user.isActive && user.isSuperuser {
      return Yes;
    }
    if exempt(name) {
      return Yes;
    }
    if !user.isActive || user.isAnonymous {
      return No;
    }
    var perms := GetAllPermissions(user, rows);
    if name !in perms {
      return No;
    }
    if obj.None? {
      return Yes;
    }
    if obj.value.modelLabel != app + "." + model {
      return WrongModel;
    }
    var again := GetAllPermissions(user, rows);
    var params := QsFilterFromConstraints(again[name]);
    assert Passes(params, obj.value.pk) <==> Allows(Gathered(rows, name), obj.value.pk);
    var matches := params.None? || exists k :: 0 <= k < |params.value| && params.value[k](obj.value.pk);
    d := if matches && obj.value.exists_ then Yes else No;
  }

  // ----- the rows behind the decision

  datatype Assignment = Assignment(permission: ObjectPermission, enabled: bool, users: set<nat>, groups: set<nat>)

  /** Enabled, and assigned to the user or to one of the user's groups. */
  predicate Applies(a: Assignment, userId: nat, memberships: set<nat>) {
    a.enabled && (userId in a.users || a.groups * memberships != {})
  }

  /** The join returns each applicable permission at least once: once per matching group, in any order. */
  ghost predicate IsAnswer(rows: seq<ObjectPermission>, stored: set<Assignment>, userId: nat, memberships: set<nat>) {
    forall p :: p in rows <==> exists a :: a in stored && Applies(a, userId, memberships) && a.permission == p
  }

  /** A name is granted exactly by an enabled permission that names the user or one of the user's groups. */
  lemma GrantedByAssignment(
    rows: seq<ObjectPermission>, stored: set<Assignment>, userId: nat, memberships: set<nat>, name: string)
    requires IsAnswer(rows, stored, userId, memberships)
    ensures Granted(rows, name) <==>
      exists a :: a in stored && Grants(a.permission, name) && a.enabled && IsFor(a, userId, memberships)
  {
    if i :| 0 <= i < |rows| && Grants(rows[i], name) {
      assert rows[i] in rows;
      var a :| a in stored && Applies(a, userId, memberships) && a.permission == rows[i];
      AppliesExactly(a, userId, memberships);
    }
    if a :| a in stored && Grants(a.permission, name) && a.enabled && IsFor(a, userId, memberships) {
      AppliesExactly(a, userId, memberships);
      assert a.permission in rows;
      var i :| 0 <= i < |rows| && rows[i] == a.permission;
    }
  }

  /** It names the user, or a group that the user is in. */
  ghost predicate IsFor(a: Assignment, userId: nat, memberships: set<nat>) {
    userId in a.users || exists g :: g in a.groups && g in memberships
  }

  lemma AppliesExactly(a: Assignment, userId: nat, memberships: set<nat>)
    ensures Applies(a, userId, memberships) <==> a.enabled && IsFor(a, userId, memberships)
  {
    if g :| g in a.groups && g in memberships {
      assert g in a.groups * memberships;
    }
  }

  /** Which answer the database gives, with which repetitions, never changes a decision. */
  lemma AnyAnswerDecidesAlike(stored: set<Assignment>, userId: nat, memberships: set<nat>,
                              rows: seq<ObjectPermission>, others: seq<ObjectPermission>, name: string, obj: ObjectId)
    requires IsAnswer(rows, stored, userId, memberships) && IsAnswer(others, stored, userId, memberships)
    ensures Decides(rows, name, obj) <==> Decides(others, name, obj)
  {
    assert forall p :: p in rows <==> p in others;
    DecisionIgnoresOrderAndRepetition(rows, others, name, obj);
  }
}
