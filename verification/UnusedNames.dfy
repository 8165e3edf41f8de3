/**
 The factories' search for a model name that a manufacturer does not use yet: the plain names first, then
 every name with " 2" behind it, and so forth.  It always ends, because no two rounds try the same name.
*/
module UnusedNames {
  const DIGITS := "0123456789"

  /** `str(n)` */
  function Decimal(n: nat): (s: string)
    ensures s != ""
    ensures forall c :: c in s ==> '0' <= c <= '9'
  {
    if n < 10 then [DIGITS[n]] else Decimal(n / 10) + [DIGITS[n % 10]]
  }

  lemma {:induction false} DecimalInjective(m: nat, n: nat)
    requires Decimal(m) == Decimal(n)
    ensures m == n
  {
    var a, b := Decimal(m), Decimal(n);
    assert a[|a| - 1] == DIGITS[m % 10] && b[|b| - 1] == DIGITS[n % 10];
    assert m % 10 == n % 10;
    assert a[..|a| - 1] == b[..|b| - 1];
    if m >= 10 && n >= 10 {
      assert a[..|a| - 1] == Decimal(m / 10) && b[..|b| - 1] == Decimal(n / 10);
      DecimalInjective(m / 10, n / 10);
    }
  }

  /** The number that a string of digits is read as. */
  function Reading(s: string): (n: nat)
    requires forall i :: 0 <= i < |s| ==> '0' <= s[i] <= '9'
  {
    if s == "" then 0 else 10 * Reading(s[..|s| - 1]) + (s[|s| - 1] - '0') as nat
  }

  /** The numeral reads as its number, and does not begin with a zero but for zero itself. */
  lemma {:induction false} DecimalReads(n: nat)
    ensures forall i :: 0 <= i < |Decimal(n)| ==> '0' <= Decimal(n)[i] <= '9'
    ensures Reading(Decimal(n)) == n
    ensures n > 0 ==> Decimal(n)[0] != '0'
  {
    forall i | 0 <= i < |Decimal(n)| ensures '0' <= Decimal(n)[i] <= '9' {
      assert Decimal(n)[i] in Decimal(n);
    }
    DigitIs(n % 10);
    if n >= 10 {
      DecimalReads(n / 10);
      assert Decimal(n)[..|Decimal(n)| - 1] == Decimal(n / 10);
    } else {
      assert Decimal(n)[..0] == "" && Reading("") == 0;
    }
  }

  lemma DigitIs(d: nat)
    requires d < 10
    ensures (DIGITS[d] - '0') as int == d
  {
  }

  /** `f"{type} {count}"` */
  function Numbered(name: string, count: nat): (s: string) {
    name + [' '] + Decimal(count)
  }

  lemma {:induction false} SplitAtLastSpace(p: string, r: string, q: string, s: string)
    requires ' ' !in r && ' ' !in s && p + [' '] + r == q + [' '] + s
    ensures p == q && r == s
  {
    var t, u := p + [' '] + r, q + [' '] + s;
    if r == "" || s == "" {
      assert t[|t| - 1] == u[|u| - 1];
      assert r == s;
      assert t[..|t| - 1] == p && u[..|u| - 1] == q;
    } else {
      assert t[|t| - 1] == r[|r| - 1] && u[|u| - 1] == s[|s| - 1];
      assert t[..|t| - 1] == p + [' '] + r[..|r| - 1] && u[..|u| - 1] == q + [' '] + s[..|s| - 1];
      SplitAtLastSpace(p, r[..|r| - 1], q, s[..|s| - 1]);
    }
  }

  /** A numbered name gives away the type and the number, even when the type has spaces and digits itself. */
  lemma NumberedInjective(name: string, m: nat, other: string, n: nat)
    requires Numbered(name, m) == Numbered(other, n)
    ensures name == other && m == n
  {
    SplitAtLastSpace(name, Decimal(m), other, Decimal(n));
    DecimalInjective(m, n);
  }

  /** The names tried in a round: the plain ones in round 1, then the numbered ones. */
  function Round(types: set<string>, count: nat): (names: set<string>)
    requires count >= 1
  {
    if count == 1 then types else set t | t in types :: Numbered(t, count)
  }

  lemma RoundIsKnown(types: set<string>, m: nat, n: nat, s: string)
    requires m >= 2 && n >= 2 && s in Round(types, m) && s in Round(types, n)
    ensures m == n
  {
    var t :| t in types && s == Numbered(t, m);
    var u :| u in types && s == Numbered(u, n);
    NumberedInjective(t, m, u, n);
  }

  lemma RoundsDisjoint(types: set<string>, m: nat, n: nat)
    requires 2 <= m < n
    ensures Round(types, m) !! Round(types, n)
  {
    forall s | s in Round(types, m) ensures s !in Round(types, n) {
      if s in Round(types, n) {
        RoundIsKnown(types, m, n, s);
      }
    }
  }

  lemma NothingLeftOver(a: set<string>, b: set<string>)
    requires a - b == {}
    ensures a <= b
  {
    forall x | x in a ensures x in b {
      assert x !in a - b;
    }
  }

  /** The first round with an unused name. */
  ghost predicate IsFirstFree(types: set<string>, current: set<string>, count: nat) {
    && count >= 1
    && Round(types, count) - current != {}
    && forall c :: 1 <= c < count ==> Round(types, c) <= current
  }

  /** For every finite set of names in use, and any non-empty list of types: the unused names of the first round that
      has any. */
  method UnusedModels(types: set<string>, current: set<string>) returns (unused: set<string>, ghost round: nat)
    requires types != {}
    ensures unused != {} && unused * current == {}
    ensures IsFirstFree(types, current, round) && unused == Round(types, round) - current
  {
    unused := types - current;
    var count := 2;
    round := 1;
    ghost var left := current;
    while unused == {}
      invariant count >= 2 && round == count - 1 && unused == Round(types, round) - current
      invariant AllUsed(types, current, round) && Covers(types, current, left, count)
      decreases |left|, unused == {}
    {
      AllUsedToo(types, current, round);
      unused := Round(types, count) - current;
      if unused == {} {
        NothingLeftOver(Round(types, count), current);
        UsesUp(types, current, left, count);
        left := left - Round(types, count);
      }
      round := count;
      count := count + 1;
    }
  }

  /** The rounds before this one have no unused name. */
  ghost predicate AllUsed(types: set<string>, current: set<string>, round: nat) {
    forall c :: 1 <= c < round ==> Round(types, c) <= current
  }

  lemma AllUsedToo(types: set<string>, current: set<string>, round: nat)
    requires round >= 1 && AllUsed(types, current, round) && Round(types, round) - current == {}
    ensures AllUsed(types, current, round + 1)
  {
    NothingLeftOver(Round(types, round), current);
  }

  /** What is left of the names in use has all that the rounds to come could meet. */
  ghost predicate Covers(types: set<string>, current: set<string>, left: set<string>, count: nat)
    requires count >= 1
  {
    forall c :: c >= count ==> Round(types, c) * current <= left
  }

  /** A round without an unused name takes at least one of the names in use, for good. */
  lemma UsesUp(types: set<string>, current: set<string>, left: set<string>, count: nat)
    requires types != {} && count >= 2 && Round(types, count) <= current
    requires Covers(types, current, left, count)
    ensures |left - Round(types, count)| < |left|
    ensures Covers(types, current, left - Round(types, count), count + 1)
  {
    var t :| t in types;
    var s := Numbered(t, count);
    assert s in Round(types, count) * current;
    assert |left - Round(types, count)| < |left| by {
      SmallerBy(left, Round(types, count), s);
    }
    forall c | c >= count + 1 ensures Round(types, c) * current <= left - Round(types, count) {
      RoundsDisjoint(types, count, c);
    }
  }

  lemma SmallerBy(a: set<string>, b: set<string>, x: string)
    requires x in a && x in b
    ensures |a - b| < |a|
  {
    assert a == (a - b) + (a * b);
    assert x in a * b;
    assert |a| == |a - b| + |a * b|;
  }

  /** However many names there are, there is a first round with an unused one. */
  lemma {:induction false} SomeRoundIsFree(types: set<string>, current: set<string>, left: set<string>, count: nat)
    requires types != {} && count >= 2
    requires Covers(types, current, left, count)
    ensures exists c :: c >= count && Round(types, c) - current != {}
    decreases |left|
  {
    if Round(types, count) - current == {} {
      NothingLeftOver(Round(types, count), current);
      UsesUp(types, current, left, count);
      SomeRoundIsFree(types, current, left - Round(types, count), count + 1);
    }
  }

  const DEVICE_TYPES: set<string> := {
    "Router", "Switch", "Firewall", "Load Balancer", "WLAN Controller", "Access Point", "SAN Fabric", "Console Server"
  }
  const MODULE_TYPES: set<string> := {"Supervisor", "Line Card", "Fabric"}

  /** The name is unused and as plain as can be: a type's own name if one is free, and otherwise numbered, with every
      name of a lower number in use. */
  ghost predicate IsPlainest(types: set<string>, current: set<string>, model: string) {
    && model !in current
    && if exists t :: t in types && t !in current then model in types
       else exists t, count ::
         && t in types && count >= 2 && model == t + " " + Decimal(count)
         && forall u, c :: u in types && 2 <= c < count ==> u + " " + Decimal(c) in current
  }

  lemma FirstFreeIsPlainest(types: set<string>, current: set<string>, round: nat, model: string)
    requires IsFirstFree(types, current, round) && model in Round(types, round) - current
    ensures IsPlainest(types, current, model)
  {
    if t :| t in types && t !in current {
      assert !(Round(types, 1) <= current);
    } else {
      assert types <= current;
      assert round != 1;
      var t :| t in types && model == Numbered(t, round);
      forall u, c: nat | u in types && 2 <= c < round ensures u + " " + Decimal(c) in current {
        assert Numbered(u, c) in Round(types, c);
      }
      assert model == t + " " + Decimal(round);
    }
  }

  /** The model attribute of a device type: some unused name (the factory draws one at random). */
  method DeviceTypeModel(current: set<string>) returns (model: string)
    ensures IsPlainest(DEVICE_TYPES, current, model)
  {
    assert "Router" in DEVICE_TYPES;
    var unused, round := UnusedModels(DEVICE_TYPES, current);
    model :| model in unused;
    FirstFreeIsPlainest(DEVICE_TYPES, current, round, model);
  }

  method ModuleTypeModel(current: set<string>) returns (model: string)
    ensures IsPlainest(MODULE_TYPES, current, model)
  {
    assert "Fabric" in MODULE_TYPES;
    var unused, round := UnusedModels(MODULE_TYPES, current);
    model :| model in unused;
    FirstFreeIsPlainest(MODULE_TYPES, current, round, model);
  }
}
