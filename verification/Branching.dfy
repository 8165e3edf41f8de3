/**
 `BranchContext`: switching a list of database connections to a branch and back.  Leaving the context
 puts every connection where it was, exactly unless an alias is listed twice.
*/
module Branching {
  import opened Collections

  type Alias = string
  type Branch = string

  /** The branch that each connection is on. */
  type Active = map<Alias, Branch>

  /** The `using` argument: omitted, one alias, or a list. */
  datatype Using = Omitted | One(alias: Alias) | Many(aliases: seq<Alias>)

  /** The aliases to switch; an empty string or list counts as omitted. */
  function Targets(using: Using): (aliases: seq<Alias>)
    ensures aliases != []
  {
    match using
    case Omitted => ["default"]
    case One(alias) => if alias == "" then ["default"] else [alias]
    case Many(aliases) => if aliases == [] then ["default"] else aliases
  }

  // ----- the objects

  class Connections {
    var active: Active

    constructor (active: Active)
      ensures this.active == active
    {
      this.active := active;
    }

    method Checkout(branch: Branch, using: Alias)
      modifies this
      ensures active == old(active)[using := branch]
    {
      active := active[using := branch];
    }
  }

  class BranchContext {
    const branchName: Option<Branch>
    const using: seq<Alias>
    /** Whether the version control plugin is installed. */
    const installed: bool
    var originalBranches: map<Alias, Branch>

    constructor (branchName: Option<Branch>, using: Using, installed: bool)
      ensures this.branchName == branchName && this.using == Targets(using) && this.installed == installed
      ensures using.One? && using.alias != "" ==> this.using == [using.alias]
      ensures using.Many? && using.aliases != [] ==> this.using == using.aliases
      ensures using == Omitted || using == One("") || using == Many([]) ==> this.using == ["default"]
      ensures originalBranches == map[]
    {
      this.branchName, this.using, this.installed := branchName, Targets(using), installed;
      originalBranches := map[];
    }

    method Enter(connections: Connections)
      requires forall a :: a in using ==> a in connections.active
      modifies this, connections
      ensures branchName.None? || !installed ==>
        connections.active == old(connections.active) && originalBranches == old(originalBranches)
      ensures branchName.Some? && installed ==>
        (connections.active, originalBranches) ==
          Entered(old(connections.active), old(originalBranches), using, branchName.value)
    {
      if branchName.None? || !installed {
        return;
      }
      var b := branchName.value;
      for k := 0 to |using|
        invariant connections.active.Keys == old(connections.active).Keys
        invariant (connections.active, originalBranches) ==
          Entered(old(connections.active), old(originalBranches), using[..k], b)
      {
        assert using[..k + 1][..k] == using[..k];
        assert using[k] in using;
        originalBranches := originalBranches[using[k] := connections.active[using[k]]];
        if b != originalBranches[using[k]] {
          connections.Checkout(b, using[k]);
        }
      }
      assert using[..|using|] == using;
    }

    method Exit(connections: Connections)
      requires branchName.Some? && installed ==> forall a :: a in using ==> a in originalBranches
      modifies connections
      ensures branchName.None? || !installed ==> connections.active == old(connections.active)
      ensures branchName.Some? && installed ==>
        connections.active == Exited(old(connections.active), originalBranches, using, branchName.value)
    {
      if branchName.None? || !installed {
        return;
      }
      var b := branchName.value;
      for k := 0 to |using|
        invariant connections.active == Exited(old(connections.active), originalBranches, using[..k], b)
      {
        assert using[..k + 1][..k] == using[..k];
        assert using[k] in using;
        if b != originalBranches[using[k]] {
          connections.Checkout(originalBranches[using[k]], using[k]);
        }
      }
      assert using[..|using|] == using;
    }
  }

  // ----- what the loops compute

  function EnterOne(active: Active, saved: map<Alias, Branch>, a: Alias, b: Branch): (r: (Active, map<Alias, Branch>)) {
    if a !in active then (active, saved)
    else (if b != active[a] then active[a := b] else active, saved[a := active[a]])
  }

  function Entered(
    active: Active, saved: map<Alias, Branch>, using: seq<Alias>, b: Branch): (r: (Active, map<Alias, Branch>))
    ensures r.0.Keys == active.Keys
  {
    if using == [] then (active, saved)
    else
      var (s, o) := Entered(active, saved, using[..|using| - 1], b);
      EnterOne(s, o, using[|using| - 1], b)
  }

  function Exited(active: Active, saved: map<Alias, Branch>, using: seq<Alias>, b: Branch): (r: Active) {
    if using == [] then active
    else
      var s, a := Exited(active, saved, using[..|using| - 1], b), using[|using| - 1];
      if a in saved && b != saved[a] then s[a := saved[a]] else s
  }

  function Occurrences(a: Alias, using: seq<Alias>): (n: nat)
    ensures n > 0 <==> a in using
  {
    if using == [] then 0
    else
      assert using == using[..|using| - 1] + [using[|using| - 1]];
      Occurrences(a, using[..|using| - 1]) + if using[|using| - 1] == a then 1 else 0
  }

  // ----- entering

  /** Inside the context every listed connection is on the branch and no other has moved; an alias listed twice has
      lost its original branch. */
  lemma {:induction false} EnteredIs(active: Active, saved: map<Alias, Branch>, using: seq<Alias>, b: Branch, a: Alias)
    requires a in active
    ensures var (inside, originals) := Entered(active, saved, using, b);
      && inside[a] == (if a in using then b else active[a])
      && (a in using ==> a in originals && originals[a] == if Occurrences(a, using) > 1 then b else active[a])
  {
    if using != [] {
      var front, last := using[..|using| - 1], using[|using| - 1];
      assert using == front + [last];
      EnteredIs(active, saved, front, b, a);
    }
  }

  // ----- leaving

  lemma {:induction false} ExitedIs(active: Active, saved: map<Alias, Branch>, using: seq<Alias>, b: Branch, a: Alias)
    requires a in active
    ensures var after := Exited(active, saved, using, b);
      a in after && after[a] == if a in using && a in saved && saved[a] != b then saved[a] else active[a]
  {
    if using != [] {
      var front, last := using[..|using| - 1], using[|using| - 1];
      assert using == front + [last];
      ExitedIs(active, saved, front, b, a);
    }
  }

  lemma {:induction false} ExitedKeys(active: Active, saved: map<Alias, Branch>, using: seq<Alias>, b: Branch)
    requires forall a :: a in using ==> a in active
    ensures Exited(active, saved, using, b).Keys == active.Keys
  {
    if using != [] {
      var front, last := using[..|using| - 1], using[|using| - 1];
      assert using == front + [last];
      ExitedKeys(active, saved, front, b);
    }
  }

  /** Enter, run the body, exit, with an installed plugin and a requested branch. */
  function Around(active: Active, using: seq<Alias>, b: Branch, body: Active -> Active): (after: Active) {
    var (inside, originals) := Entered(active, map[], using, b);
    Exited(body(inside), originals, using, b)
  }

  /** Whatever the body does to a listed connection that was on another branch is undone; unlisted ones, and those
      that were on the branch already, are left as the body left them. */
  lemma AroundIs(active: Active, using: seq<Alias>, b: Branch, body: Active -> Active, a: Alias)
    requires a in active && a in body(Entered(active, map[], using, b).0)
    ensures var after, left := Around(active, using, b, body), body(Entered(active, map[], using, b).0);
      a in after && after[a] == if Occurrences(a, using) == 1 && active[a] != b then active[a] else left[a]
  {
    var (inside, originals) := Entered(active, map[], using, b);
    EnteredIs(active, map[], using, b, a);
    ExitedIs(body(inside), originals, using, b, a);
  }

  /** A context whose body restores what it found restores every connection exactly if each alias that is listed
      twice was on the requested branch to begin with. */
  lemma RestoredExactly(active: Active, using: seq<Alias>, b: Branch)
    requires forall a :: a in using ==> a in active
    ensures Around(active, using, b, x => x) == active <==>
      forall a :: a in using ==> Occurrences(a, using) == 1 || active[a] == b
  {
    var (inside, originals) := Entered(active, map[], using, b);
    var after := Around(active, using, b, x => x);
    ExitedKeys(inside, originals, using, b);
    forall a | a in active
      ensures after[a] == active[a] <==> a !in using || Occurrences(a, using) == 1 || active[a] == b
    {
      AroundIs(active, using, b, x => x, a);
      EnteredIs(active, map[], using, b, a);
    }
  }

  /** `using=["default", "default"]` leaves the connection on the branch. */
  lemma DuplicateAliasLosesBranch()
    ensures Around(map["default" := "main"], ["default", "default"], "feature", x => x) != map["default" := "main"]
  {
    var using, active := ["default", "default"], map["default" := "main"];
    assert using[..1] == ["default"] && using[..1][..0] == [];
    assert Occurrences("default", using[..1]) == 1;
    assert Occurrences("default", using) == 2 && "default" in using;
    assert "main"[0] != "feature"[0];
    RestoredExactly(active, using, "feature");
  }

  // ----- nesting

  /** A `with BranchContext(...)` statement and the ones inside it. */
  datatype Scope = Scope(branch: Option<Branch>, using: Using, body: seq<Scope>)

  function RunScope(active: Active, installed: bool, s: Scope): (after: Active)
    decreases s
  {
    if s.branch.None? || !installed then RunScopes(active, installed, s.body)
    else
      var (inside, originals) := Entered(active, map[], Targets(s.using), s.branch.value);
      Exited(RunScopes(inside, installed, s.body), originals, Targets(s.using), s.branch.value)
  }

  function RunScopes(active: Active, installed: bool, scopes: seq<Scope>): (after: Active)
    decreases scopes
  {
    if scopes == [] then active else RunScopes(RunScope(active, installed, scopes[0]), installed, scopes[1..])
  }

  /** Throughout the nesting, every alias names a connection and is listed once. */
  ghost predicate ListedOnce(s: Scope, aliases: set<Alias>)
    decreases s
  {
    && (forall a :: a in Targets(s.using) ==> a in aliases && Occurrences(a, Targets(s.using)) == 1)
    && forall t :: t in s.body ==> ListedOnce(t, aliases)
  }

  lemma {:induction false} ScopeRestores(active: Active, installed: bool, s: Scope)
    requires ListedOnce(s, active.Keys)
    ensures RunScope(active, installed, s) == active
    decreases s
  {
    if s.branch.None? || !installed {
      ScopesRestore(active, installed, s.body);
    } else {
      var using, b := Targets(s.using), s.branch.value;
      var (inside, originals) := Entered(active, map[], using, b);
      ScopesRestore(inside, installed, s.body);
      RestoredExactly(active, using, b);
      assert RunScope(active, installed, s) == Around(active, using, b, x => x);
    }
  }

  /** Any well-bracketed nesting and sequence of such contexts leaves every connection where it was. */
  lemma {:induction false} ScopesRestore(active: Active, installed: bool, scopes: seq<Scope>)
    requires forall s :: s in scopes ==> ListedOnce(s, active.Keys)
    ensures RunScopes(active, installed, scopes) == active
    decreases scopes
  {
    if scopes != [] {
      ScopeRestores(active, installed, scopes[0]);
      ScopesRestore(active, installed, scopes[1..]);
    }
  }
}
