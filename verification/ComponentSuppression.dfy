/**
 Suppressing the automatic creation of components: a context variable, set and reset by the `with` blocks
 of concurrent tasks.  A task is suppressed exactly inside its own blocks, and reusing one manager object
 inside its own block is exactly what breaks that.
*/
module ComponentSuppression {
  import opened Collections

  type Task = nat
  type Manager = nat

  /** What `ContextVar.set` returns: the context it was called in, and the value before. */
  datatype Token = Token(task: Task, before: bool)

  /** The variable's value in each task's context; the default is `False`. */
  type Flags = map<Task, bool>

  function Get(flags: Flags, t: Task): (v: bool) {
    if t in flags then flags[t] else false
  }

  function EnterOne(flags: Flags, t: Task): (r: (Flags, Option<Token>)) {
    (flags[t := true], Some(Token(t, Get(flags, t))))
  }

  /** Resetting with another context's token raises `ValueError`. */
  predicate ExitRaises(t: Task, token: Option<Token>) {
    token.Some? && token.value.task != t
  }

  function ExitOne(flags: Flags, t: Task, token: Option<Token>): (r: (Flags, Option<Token>)) {
    if token.None? then (flags, None)
    else if ExitRaises(t, token) then (flags, token)
    else (flags[t := token.value.before], None)
  }

  class ContextVar {
    var values: Flags

    constructor ()
      ensures values == map[]
    {
      values := map[];
    }

    method Set(t: Task, v: bool) returns (token: Token)
      modifies this
      ensures values == old(values)[t := v] && token == Token(t, t in old(values) && old(values)[t])
    {
      token := Token(t, if t in values then values[t] else false);
      values := values[t := v];
    }

    /** `is_auto_component_creation_suppressed()`, called in task `t`. */
    method IsSuppressed(t: Task) returns (v: bool)
      ensures v <==> t in values && values[t]
    {
      v := if t in values then values[t] else false;
    }

    method Reset(t: Task, token: Token) returns (ok: bool)
      modifies this
      ensures ok == (token.task == t)
      ensures values == if ok then old(values)[t := token.before] else old(values)
    {
      ok := token.task == t;
      if ok {
        values := values[t := token.before];
      }
    }
  }

  class SkipAutoComponentCreation {
    var token: Option<Token>

    constructor ()
      ensures token == None
    {
      token := None;
    }

    method Enter(flag: ContextVar, t: Task)
      modifies this, flag
      ensures (flag.values, token) == EnterOne(old(flag.values), t)
    {
      var k := flag.Set(t, true);
      token := Some(k);
    }

    method Exit(flag: ContextVar, t: Task) returns (raised: bool)
      modifies this, flag
      ensures raised == ExitRaises(t, old(token))
      ensures (flag.values, token) == ExitOne(old(flag.values), t, old(token))
    {
      raised := false;
      if token.Some? {
        var ok := flag.Reset(t, token.value);
        if !ok {
          return true;
        }
        token := None;
      }
    }
  }

  // ----- interleaved tasks

  /** The context variable and the tokens of all manager objects. */
  datatype World = World(flags: Flags, tokens: map<Manager, Token>)

  function TokenOf(w: World, m: Manager): (k: Option<Token>) {
    if m in w.tokens then Some(w.tokens[m]) else None
  }

  function WithToken(w: World, m: Manager, r: (Flags, Option<Token>)): (v: World) {
    World(r.0, if r.1.Some? then w.tokens[m := r.1.value] else w.tokens - {m})
  }

  datatype Event = Enter(t: Task, m: Manager) | Exit(t: Task, m: Manager)

  function Step(w: World, e: Event): (v: World) {
    match e
    case Enter(t, m) => WithToken(w, m, EnterOne(w.flags, t))
    case Exit(t, m) => WithToken(w, m, ExitOne(w.flags, t, TokenOf(w, m)))
  }

  function Run(w: World, trace: seq<Event>): (v: World) {
    if trace == [] then w else Step(Run(w, trace[..|trace| - 1]), trace[|trace| - 1])
  }

  function BlocksAfter(s: seq<Manager>, t: Task, e: Event): (r: seq<Manager>) {
    if e.t != t then s else if e.Enter? then s + [e.m] else if s == [] then [] else s[..|s| - 1]
  }

  /** The managers whose blocks the task is inside, innermost last. */
  function Blocks(trace: seq<Event>, t: Task): (s: seq<Manager>) {
    if trace == [] then [] else BlocksAfter(Blocks(trace[..|trace| - 1], t), t, trace[|trace| - 1])
  }

  /** Each task leaves the block it is innermost in, and no manager object is entered while its block is open. */
  ghost predicate Proper(trace: seq<Event>) {
    forall i :: 0 <= i < |trace| ==>
      if trace[i].Exit? then Blocks(trace[..i], trace[i].t) != [] && Last(Blocks(trace[..i], trace[i].t)) == trace[i].m
      else forall t :: trace[i].m !in Blocks(trace[..i], t)
  }

  function Last<T>(s: seq<T>): (x: T)
    requires s != []
  {
    s[|s| - 1]
  }

  /** The value that the task's `i`-th open block found. */
  function Found(start: World, t: Task, i: nat): (v: bool) {
    i > 0 || Get(start.flags, t)
  }

  /** Task `t` is where it should be: suppressed inside its blocks, with every block's token at hand. */
  ghost predicate InOrder(start: World, w: World, s: seq<Manager>, t: Task) {
    && Get(w.flags, t) == (s != [] || Get(start.flags, t))
    && (forall i :: 0 <= i < |s| ==> TokenOf(w, s[i]) == Some(Token(t, Found(start, t, i))))
    && (forall i, j :: 0 <= i < j < |s| ==> s[i] != s[j])
  }

  lemma StepInOrder(start: World, w: World, s: seq<Manager>, t: Task, e: Event)
    requires InOrder(start, w, s, t)
    requires if e.t == t then (if e.Exit? then s != [] && Last(s) == e.m else e.m !in s)
             else e.m !in s
    ensures InOrder(start, Step(w, e), BlocksAfter(s, t, e), t)
    ensures e.t == t && e.Exit? ==> !ExitRaises(t, TokenOf(w, e.m))
  {
  }

  /** Blocks of different tasks have different managers. */
  lemma {:induction false} OwnManagers(trace: seq<Event>, t: Task, u: Task, m: Manager)
    requires Proper(trace) && t != u && m in Blocks(trace, t)
    ensures m !in Blocks(trace, u)
  {
    var front, e := trace[..|trace| - 1], trace[|trace| - 1];
    ProperPrefix(trace);
    if m in Blocks(front, t) && m in Blocks(front, u) {
      OwnManagers(front, t, u, m);
    }
    assert trace[..|trace| - 1] == front;
  }

  lemma ProperPrefix(trace: seq<Event>)
    requires Proper(trace) && trace != []
    ensures Proper(trace[..|trace| - 1])
  {
    var front := trace[..|trace| - 1];
    forall i | 0 <= i < |front| ensures front[i] == trace[i] && front[..i] == trace[..i] {
    }
  }

  /** In every interleaving: a task is suppressed exactly inside its own blocks or if it began so, and no exit
      raises. */
  lemma {:induction false} SuppressedExactly(start: World, trace: seq<Event>, t: Task)
    requires Proper(trace)
    ensures InOrder(start, Run(start, trace), Blocks(trace, t), t)
  {
    if trace != [] {
      var front, e := trace[..|trace| - 1], trace[|trace| - 1];
      ProperPrefix(trace);
      SuppressedExactly(start, front, t);
      assert trace[..|trace| - 1] == front;
      if e.t != t && e.Exit? && e.m in Blocks(front, t) {
        OwnManagers(front, e.t, t, e.m);
      }
      StepInOrder(start, Run(start, front), Blocks(front, t), t, e);
    }
  }

  /** From any start: suppressed exactly inside, or where the task's context has the flag set to begin with. */
  lemma SuppressedInside(start: World, trace: seq<Event>, t: Task)
    requires Proper(trace)
    ensures var flags := Run(start, trace).flags;
      (t in flags && flags[t]) <==> Blocks(trace, t) != [] || (t in start.flags && start.flags[t])
  {
    SuppressedExactly(start, trace, t);
  }

  /** From a fresh context variable: suppressed exactly inside, and components are created everywhere else. */
  lemma SuppressedOnlyInside(trace: seq<Event>, t: Task)
    requires Proper(trace)
    ensures var flags := Run(World(map[], map[]), trace).flags;
      (t in flags && flags[t]) <==> Blocks(trace, t) != []
  {
    SuppressedInside(World(map[], map[]), trace, t);
  }

  lemma NoExitRaises(start: World, trace: seq<Event>, i: nat)
    requires Proper(trace) && i < |trace| && trace[i].Exit?
    ensures !ExitRaises(trace[i].t, TokenOf(Run(start, trace[..i]), trace[i].m))
  {
    var prefix := trace[..i];
    assert Proper(prefix) by {
      forall j | 0 <= j < i ensures prefix[j] == trace[j] && prefix[..j] == trace[..j] {
      }
    }
    SuppressedExactly(start, prefix, trace[i].t);
    var s := Blocks(prefix, trace[i].t);
    assert s[|s| - 1] == trace[i].m;
  }

  /** When a task has left all its blocks, it has the value it began with. */
  lemma LeavingRestores(start: World, trace: seq<Event>, t: Task)
    requires Proper(trace) && Blocks(trace, t) == []
    ensures Get(Run(start, trace).flags, t) == Get(start.flags, t)
  {
    SuppressedExactly(start, trace, t);
  }

  /** The events of one task. */
  function Own(trace: seq<Event>, t: Task): (own: seq<Event>) {
    if trace == [] then []
    else Own(trace[..|trace| - 1], t) + if trace[|trace| - 1].t == t then [trace[|trace| - 1]] else []
  }

  lemma {:induction false} BlocksAreOwn(trace: seq<Event>, t: Task)
    ensures Blocks(trace, t) == Blocks(Own(trace, t), t)
  {
    if trace != [] {
      var front, e := trace[..|trace| - 1], trace[|trace| - 1];
      BlocksAreOwn(front, t);
      var own := Own(trace, t);
      if e.t == t {
        assert own[..|own| - 1] == Own(front, t) && own[|own| - 1] == e;
      } else {
        assert own == Own(front, t);
      }
    }
  }

  /** What the other tasks do makes no difference to a task. */
  lemma TasksDoNotInterfere(start: World, trace: seq<Event>, other: seq<Event>, t: Task)
    requires Proper(trace) && Proper(other) && Own(trace, t) == Own(other, t)
    ensures Get(Run(start, trace).flags, t) == Get(Run(start, other).flags, t)
  {
    SuppressedExactly(start, trace, t);
    SuppressedExactly(start, other, t);
    BlocksAreOwn(trace, t);
    BlocksAreOwn(other, t);
  }

  // ----- one manager object in several tasks

  /** Each task leaves the block it is innermost in; manager objects are shared at will. */
  ghost predicate Bracketed(trace: seq<Event>) {
    forall i :: 0 <= i < |trace| && trace[i].Exit? ==> LeavesInnermost(trace, i)
  }

  ghost predicate LeavesInnermost(trace: seq<Event>, i: nat)
    requires i < |trace|
  {
    Blocks(trace[..i], trace[i].t) != [] && Last(Blocks(trace[..i], trace[i].t)) == trace[i].m
  }

  /** The last event that used the manager object, in any task. */
  function LastUse(trace: seq<Event>, m: Manager): (k: Option<nat>)
    ensures k.Some? ==> k.value < |trace| && trace[k.value].m == m
    ensures k.Some? ==> forall i :: k.value < i < |trace| ==> trace[i].m != m
    ensures k.None? ==> forall i :: 0 <= i < |trace| ==> trace[i].m != m
  {
    if trace == [] then None
    else if trace[|trace| - 1].m == m then Some(|trace| - 1)
    else LastUse(trace[..|trace| - 1], m)
  }

  /** The exit finds its object last entered by another task. */
  predicate MeetsOther(trace: seq<Event>, j: nat)
    requires j < |trace|
  {
    var k := LastUse(trace[..j], trace[j].m);
    trace[j].Exit? && k.Some? && trace[k.value].Enter? && trace[k.value].t != trace[j].t
  }

  /** The exit from an outermost block finds its object left already. */
  predicate Loses(trace: seq<Event>, j: nat)
    requires j < |trace|
  {
    var k := LastUse(trace[..j], trace[j].m);
    trace[j].Exit? && |Blocks(trace[..j], trace[j].t)| == 1 && k.Some? && trace[k.value].Exit?
  }

  ghost predicate Leaked(trace: seq<Event>, t: Task) {
    exists j :: 0 <= j < |trace| && trace[j].t == t && Loses(trace, j)
  }

  predicate Raises(start: World, trace: seq<Event>, j: nat)
    requires j < |trace|
  {
    trace[j].Exit? && ExitRaises(trace[j].t, TokenOf(Run(start, trace[..j]), trace[j].m))
  }

  ghost predicate NoneRaises(start: World, trace: seq<Event>) {
    forall j :: 0 <= j < |trace| ==> !Raises(start, trace, j)
  }

  lemma PrefixOf(trace: seq<Event>, n: nat, j: nat)
    requires j <= n <= |trace|
    ensures trace[..n][..j] == trace[..j]
  {
  }

  lemma BracketedPrefix(trace: seq<Event>, n: nat)
    requires Bracketed(trace) && n <= |trace|
    ensures Bracketed(trace[..n])
  {
    forall i | 0 <= i < n && trace[..n][i].Exit? ensures LeavesInnermost(trace[..n], i) {
      PrefixOf(trace, n, i);
      assert LeavesInnermost(trace, i);
    }
  }

  lemma NoneRaisesPrefix(start: World, trace: seq<Event>, n: nat)
    requires NoneRaises(start, trace) && n <= |trace|
    ensures NoneRaises(start, trace[..n])
  {
    forall j | 0 <= j < n ensures !Raises(start, trace[..n], j) {
      PrefixOf(trace, n, j);
      assert !Raises(start, trace, j);
    }
  }

  /** While no exit raises, an object holds the token of its last entry, or none if it was left after that. */
  lemma {:induction false} TokenAfter(start: World, trace: seq<Event>, m: Manager)
    requires NoneRaises(start, trace) && LastUse(trace, m).Some?
    ensures var k := LastUse(trace, m).value;
      TokenOf(Run(start, trace), m) ==
        if trace[k].Exit? then None else Some(Token(trace[k].t, Get(Run(start, trace[..k]).flags, trace[k].t)))
  {
    var n := |trace| - 1;
    assert !Raises(start, trace, n);
    if trace[n].m != m {
      NoneRaisesPrefix(start, trace, n);
      PrefixOf(trace, n, LastUse(trace, m).value);
      TokenAfter(start, trace[..n], m);
    }
  }

  lemma {:induction false} InsideWasUsed(trace: seq<Event>, t: Task, m: Manager)
    requires m in Blocks(trace, t)
    ensures LastUse(trace, m).Some?
  {
    var n := |trace| - 1;
    if trace[n].m != m {
      InsideWasUsed(trace[..n], t, m);
    }
  }

  /** An exit after which none raised before: it raises exactly if it meets another task's entry. */
  lemma RaisesOne(start: World, trace: seq<Event>, j: nat)
    requires Bracketed(trace) && j < |trace| && NoneRaises(start, trace[..j])
    ensures Raises(start, trace, j) <==> MeetsOther(trace, j)
  {
    if trace[j].Exit? {
      assert LeavesInnermost(trace, j);
      InsideWasUsed(trace[..j], trace[j].t, trace[j].m);
      TokenAfter(start, trace[..j], trace[j].m);
    }
  }

  /** No exit raises exactly if none meets the entry of another task. */
  lemma {:induction false} NoneRaisesExactly(start: World, trace: seq<Event>)
    requires Bracketed(trace)
    ensures NoneRaises(start, trace) <==> forall j :: 0 <= j < |trace| ==> !MeetsOther(trace, j)
  {
    if NoneRaises(start, trace) {
      forall j | 0 <= j < |trace| ensures !MeetsOther(trace, j) {
        NoneRaisesPrefix(start, trace, j);
        RaisesOne(start, trace, j);
        assert !Raises(start, trace, j);
      }
    }
    if forall j :: 0 <= j < |trace| ==> !MeetsOther(trace, j) {
      assert trace[..|trace|] == trace;
      NobodyMet(start, trace, |trace|);
    }
  }

  lemma {:induction false} NobodyMet(start: World, trace: seq<Event>, n: nat)
    requires Bracketed(trace) && n <= |trace| && forall j :: 0 <= j < |trace| ==> !MeetsOther(trace, j)
    ensures NoneRaises(start, trace[..n])
  {
    if n > 0 {
      NobodyMet(start, trace, n - 1);
      RaisesOne(start, trace, n - 1);
      forall j | 0 <= j < n ensures !Raises(start, trace[..n], j) {
        PrefixOf(trace, n, j);
        PrefixOf(trace, n - 1, j);
        assert j < n - 1 ==> !Raises(start, trace[..n - 1], j);
      }
    }
  }

  /** Since its last use, an entry by the task, an object's block stays where it was put: on top of what was open
      then. */
  lemma {:induction false} StackSince(trace: seq<Event>, t: Task, m: Manager)
    requires Bracketed(trace) && LastUse(trace, m).Some?
    requires var e := trace[LastUse(trace, m).value]; e.Enter? && e.t == t
    ensures var below := Blocks(trace[..LastUse(trace, m).value], t);
      var s := Blocks(trace, t);
      below + [m] <= s && forall i :: |below| < i < |s| ==> s[i] != m
  {
    var n, k := |trace| - 1, LastUse(trace, m).value;
    if n != k {
      BracketedPrefix(trace, n);
      PrefixOf(trace, n, k);
      StackSince(trace[..n], t, m);
      assert trace[n].Exit? ==> LeavesInnermost(trace, n);
    }
  }

  /** Inside, a task is suppressed whoever shares its objects; outside, exactly if it began so or has leaked. */
  lemma {:induction false} SharedExactly(start: World, trace: seq<Event>, t: Task)
    requires Bracketed(trace) && NoneRaises(start, trace)
    ensures IsShared(start, trace, t)
    decreases |trace|
  {
    if trace != [] {
      var n := |trace| - 1;
      BracketedPrefix(trace, n);
      NoneRaisesPrefix(start, trace, n);
      SharedExactly(start, trace[..n], t);
      if trace[n].t == t && trace[n].Exit? {
        var k := LastUse(trace[..n], trace[n].m);
        if k.Some? {
          BracketedPrefix(trace, k.value);
          NoneRaisesPrefix(start, trace, k.value);
          SharedExactly(start, trace[..k.value], t);
        }
        SharedExit(start, trace, t);
      } else {
        SharedOther(start, trace, t);
      }
    }
  }

  /** The formula of `SharedExactly`, for one trace. */
  ghost predicate IsShared(start: World, trace: seq<Event>, t: Task) {
    Get(Run(start, trace).flags, t) == (Blocks(trace, t) != [] || Get(start.flags, t) || Leaked(trace, t))
  }

  lemma SharedOther(start: World, trace: seq<Event>, t: Task)
    requires trace != [] && IsShared(start, trace[..|trace| - 1], t)
    requires trace[|trace| - 1].t != t || trace[|trace| - 1].Enter?
    ensures IsShared(start, trace, t)
  {
    LeakedSnoc(trace, t);
  }

  lemma LeakedSnoc(trace: seq<Event>, t: Task)
    requires trace != []
    ensures Leaked(trace, t) <==>
      Leaked(trace[..|trace| - 1], t) || (trace[|trace| - 1].t == t && Loses(trace, |trace| - 1))
  {
    var n := |trace| - 1;
    forall j | 0 <= j < n ensures Loses(trace[..n], j) <==> Loses(trace, j) {
      PrefixOf(trace, n, j);
    }
    if j :| 0 <= j < n && trace[..n][j].t == t && Loses(trace[..n], j) {
      assert trace[j].t == t && Loses(trace, j);
    }
    if j :| 0 <= j < |trace| && trace[j].t == t && Loses(trace, j) {
      assert j < n ==> trace[..n][j].t == t && Loses(trace[..n], j);
    }
  }

  /** While the object of a task's block is not used again, the task does not lose a token. */
  lemma {:induction false} NothingLostSince(trace: seq<Event>, t: Task, m: Manager)
    requires Bracketed(trace) && LastUse(trace, m).Some?
    requires var e := trace[LastUse(trace, m).value]; e.Enter? && e.t == t
    ensures Leaked(trace, t) <==> Leaked(trace[..LastUse(trace, m).value], t)
  {
    var n, k := |trace| - 1, LastUse(trace, m).value;
    LeakedSnoc(trace, t);
    if n != k {
      BracketedPrefix(trace, n);
      PrefixOf(trace, n, k);
      NothingLostSince(trace[..n], t, m);
      if trace[n].t == t && Loses(trace, n) {
        assert LeavesInnermost(trace, n);
        StackSince(trace[..n], t, m);
        assert false;
      }
    }
  }

  lemma SharedExit(start: World, trace: seq<Event>, t: Task)
    requires Bracketed(trace) && NoneRaises(start, trace) && trace != []
    requires var e := trace[|trace| - 1]; e.t == t && e.Exit?
    requires var k := LastUse(trace[..|trace| - 1], trace[|trace| - 1].m);
      k.Some? ==> IsShared(start, trace[..k.value], t)
    requires IsShared(start, trace[..|trace| - 1], t)
    ensures IsShared(start, trace, t)
  {
    var n := |trace| - 1;
    var front, m := trace[..n], trace[n].m;
    assert LeavesInnermost(trace, n);
    BracketedPrefix(trace, n);
    NoneRaisesPrefix(start, trace, n);
    RaisesOne(start, trace, n);
    InsideWasUsed(front, t, m);
    TokenAfter(start, front, m);
    LeakedSnoc(trace, t);
    var k := LastUse(front, m).value;
    PrefixOf(trace, n, k);
    assert !Raises(start, trace, n);
    if front[k].Enter? {
      StackSince(front, t, m);
      NothingLostSince(front, t, m);
      assert Blocks(trace, t) == Blocks(trace[..k], t);
    }
  }

  /** All tasks end as they began and no exit raises, exactly if no exit meets the entry of another task, and none
      from an outermost block (of a task that began unsuppressed) finds its object left already. */
  lemma SharedRestoredExactly(start: World, trace: seq<Event>)
    requires Bracketed(trace) && forall t :: Blocks(trace, t) == []
    ensures NoneRaises(start, trace) && (forall t :: Get(Run(start, trace).flags, t) == Get(start.flags, t)) <==>
      forall j :: 0 <= j < |trace| ==> !MeetsOther(trace, j) && (Loses(trace, j) ==> Get(start.flags, trace[j].t))
  {
    NoneRaisesExactly(start, trace);
    if NoneRaises(start, trace) {
      forall t ensures Get(Run(start, trace).flags, t) == (Get(start.flags, t) || Leaked(trace, t)) {
        SharedExactly(start, trace, t);
        assert IsShared(start, trace, t) && Blocks(trace, t) == [];
      }
      forall j | 0 <= j < |trace| && Loses(trace, j) ensures Leaked(trace, trace[j].t) {
      }
    }
  }

  lemma RunSnoc(start: World, front: seq<Event>, e: Event)
    ensures Run(start, front + [e]) == Step(Run(start, front), e)
  {
    assert (front + [e])[..|front|] == front;
  }

  lemma TwoTasksInside(start: World, m: Manager)
    ensures Run(start, [Enter(1, m), Enter(2, m)]) == Step(Step(start, Enter(1, m)), Enter(2, m))
  {
    RunSnoc(start, [], Enter(1, m));
    RunSnoc(start, [Enter(1, m)], Enter(2, m));
    assert [] + [Enter(1, m)] == [Enter(1, m)] && [Enter(1, m)] + [Enter(2, m)] == [Enter(1, m), Enter(2, m)];
  }

  /** Tasks 1 and 2 enter the object, 2 leaves it and then 1 does: nothing raises, and 1 stays suppressed. */
  lemma SharedObjectLeaks(start: World, m: Manager)
    ensures var trace := [Enter(1, m), Enter(2, m), Exit(2, m), Exit(1, m)];
      !Raises(start, trace, 2) && !Raises(start, trace, 3) && Get(Run(start, trace).flags, 1)
  {
    var two := [Enter(1, m), Enter(2, m)];
    var three, trace := two + [Exit(2, m)], [Enter(1, m), Enter(2, m), Exit(2, m), Exit(1, m)];
    TwoTasksInside(start, m);
    RunSnoc(start, two, Exit(2, m));
    RunSnoc(start, three, Exit(1, m));
    assert trace == three + [Exit(1, m)] && trace[..2] == two && trace[..3] == three;
    assert TokenOf(Run(start, two), m) == Some(Token(2, Get(start.flags, 2)));
    assert TokenOf(Run(start, three), m) == None;
  }

  /** If task 1 leaves it first, that raises. */
  lemma SharedObjectRaises(start: World, m: Manager)
    ensures Raises(start, [Enter(1, m), Enter(2, m), Exit(1, m)], 2)
  {
    TwoTasksInside(start, m);
    assert [Enter(1, m), Enter(2, m), Exit(1, m)][..2] == [Enter(1, m), Enter(2, m)];
  }

  // ----- reusing one manager object

  /** A `with` block and the blocks inside it. */
  datatype Block = Block(m: Manager, body: seq<Block>)

  function RunBlock(w: World, t: Task, b: Block): (v: World)
    decreases b
  {
    Step(RunBlocks(Step(w, Enter(t, b.m)), t, b.body), Exit(t, b.m))
  }

  function RunBlocks(w: World, t: Task, bs: seq<Block>): (v: World)
    decreases bs
  {
    if bs == [] then w else RunBlocks(RunBlock(w, t, bs[0]), t, bs[1..])
  }

  function Managers(b: Block): (ms: set<Manager>)
    decreases b
  {
    {b.m} + ManagersOf(b.body)
  }

  function ManagersOf(bs: seq<Block>): (ms: set<Manager>)
    decreases bs
  {
    if bs == [] then {} else Managers(bs[0]) + ManagersOf(bs[1..])
  }

  /** The block's own manager object is entered again inside it. */
  predicate Reenters(b: Block) {
    b.m in ManagersOf(b.body)
  }

  /** No token of these managers belongs to another task. */
  ghost predicate TokensOf(w: World, t: Task, ms: set<Manager>) {
    forall m :: m in ms && m in w.tokens ==> w.tokens[m].task == t
  }

  /** Some outermost block re-enters its own manager. */
  ghost predicate SomeReenters(bs: seq<Block>) {
    exists i :: 0 <= i < |bs| && Reenters(bs[i])
  }

  lemma SomeReentersStep(bs: seq<Block>)
    requires bs != []
    ensures SomeReenters(bs) <==> Reenters(bs[0]) || SomeReenters(bs[1..])
  {
    assert forall i :: 0 <= i < |bs[1..]| ==> bs[1..][i] == bs[i + 1];
    if i :| 0 < i < |bs| && Reenters(bs[i]) {
      assert bs[1..][i - 1] == bs[i];
    }
  }

  /** The blocks leave no token of theirs, change no other task, and suppress the task iff a manager was re-entered. */
  ghost predicate Leaves(w: World, v: World, t: Task, ms: set<Manager>, suppressed: bool) {
    && v.tokens == w.tokens - ms
    && Get(v.flags, t) == (Get(w.flags, t) || suppressed)
    && forall u :: u != t ==> Get(v.flags, u) == Get(w.flags, u)
  }

  lemma ExitLeaves(w: World, t: Task, b: Block, after: World)
    requires TokensOf(w, t, Managers(b))
    requires Leaves(Step(w, Enter(t, b.m)), after, t, ManagersOf(b.body), SomeReenters(b.body))
    ensures Leaves(w, Step(after, Exit(t, b.m)), t, Managers(b), Reenters(b))
  {
    var inside, v := Step(w, Enter(t, b.m)), Step(after, Exit(t, b.m));
    assert Get(inside.flags, t) && TokenOf(inside, b.m) == Some(Token(t, Get(w.flags, t)));
    if Reenters(b) {
      assert TokenOf(after, b.m) == None && Get(v.flags, t);
    } else {
      assert TokenOf(after, b.m) == TokenOf(inside, b.m);
    }
    assert v.tokens == w.tokens - Managers(b);
    forall u | u != t ensures Get(v.flags, u) == Get(w.flags, u) {
      assert Get(after.flags, u) == Get(inside.flags, u) == Get(w.flags, u);
    }
  }

  lemma {:induction false} BlockLeaves(w: World, t: Task, b: Block)
    requires TokensOf(w, t, Managers(b))
    ensures Leaves(w, RunBlock(w, t, b), t, Managers(b), Reenters(b))
    decreases b
  {
    var inside := Step(w, Enter(t, b.m));
    BlocksLeave(inside, t, b.body);
    ExitLeaves(w, t, b, RunBlocks(inside, t, b.body));
  }

  lemma {:induction false} BlocksLeave(w: World, t: Task, bs: seq<Block>)
    requires TokensOf(w, t, ManagersOf(bs))
    ensures Leaves(w, RunBlocks(w, t, bs), t, ManagersOf(bs), SomeReenters(bs))
    decreases bs
  {
    if bs != [] {
      BlockLeaves(w, t, bs[0]);
      BlocksLeave(RunBlock(w, t, bs[0]), t, bs[1..]);
      SomeReentersStep(bs);
    }
  }

  /** Any nesting, one object reused at will: the task ends as it began exactly if no outermost block re-enters its
      own manager, or it was suppressed to begin with. */
  lemma RestoredExactly(w: World, t: Task, bs: seq<Block>)
    requires TokensOf(w, t, ManagersOf(bs))
    ensures Get(RunBlocks(w, t, bs).flags, t) == Get(w.flags, t) <==>
      Get(w.flags, t) || forall i :: 0 <= i < |bs| ==> !Reenters(bs[i])
  {
    BlocksLeave(w, t, bs);
  }

  /** Inside a block everything is suppressed, whatever blocks were run there. */
  lemma InsideIsSuppressed(w: World, t: Task, m: Manager, bs: seq<Block>)
    requires TokensOf(w, t, {m} + ManagersOf(bs))
    ensures Get(RunBlocks(Step(w, Enter(t, m)), t, bs).flags, t)
  {
    BlocksLeave(Step(w, Enter(t, m)), t, bs);
  }

  /** `with s: with s: ...` leaves the task suppressed for good. */
  lemma ReentranceLeaks(t: Task, m: Manager)
    ensures Get(RunBlocks(World(map[], map[]), t, [Block(m, [Block(m, [])])]).flags, t)
  {
    var bs := [Block(m, [Block(m, [])])];
    assert ManagersOf(bs[0].body) == Managers(Block(m, [])) + ManagersOf([]);
    assert Reenters(bs[0]);
    RestoredExactly(World(map[], map[]), t, bs);
  }
}
