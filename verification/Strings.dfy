/** Splitting names at a separator. */
module Strings {
  import opened Collections

  /** `s.split(".")` unpacked into exactly two parts; `None` where the unpacking raises `ValueError`. */
  function SplitAtDot(s: string): (r: Option<(string, string)>) {
    if s == "" then None
    else if s[0] == '.' then (if '.' in s[1..] then None else Some(("", s[1..])))
    else match SplitAtDot(s[1..])
      case None => None
      case Some((a, b)) => Some(([s[0]] + a, b))
  }

  lemma {:induction false} SplitAtDotJoins(a: string, b: string)
    requires '.' !in a && '.' !in b
    ensures SplitAtDot(a + "." + b) == Some((a, b))
  {
    var s := a + "." + b;
    if a == "" {
      assert s[0] == '.' && s[1..] == b;
    } else {
      assert s[1..] == a[1..] + "." + b;
      SplitAtDotJoins(a[1..], b);
      assert [a[0]] + a[1..] == a;
    }
  }

  lemma {:induction false} SplitAtDotParts(s: string)
    ensures SplitAtDot(s).Some? ==>
      var (a, b) := SplitAtDot(s).value; '.' !in a && '.' !in b && s == a + "." + b
  {
    if s != "" {
      if s[0] == '.' {
        assert s == "" + "." + s[1..];
      } else {
        SplitAtDotParts(s[1..]);
        if SplitAtDot(s[1..]).Some? {
          var (a, b) := SplitAtDot(s[1..]).value;
          assert s == [s[0]] + s[1..] == [s[0]] + a + "." + b;
        }
      }
    }
  }

  /** The string splits into these two parts exactly if it is made of them and neither has a dot. */
  lemma SplitAtDotExactly(s: string, a: string, b: string)
    ensures SplitAtDot(s) == Some((a, b)) <==> '.' !in a && '.' !in b && s == a + "." + b
  {
    SplitAtDotParts(s);
    if '.' !in a && '.' !in b {
      SplitAtDotJoins(a, b);
    }
  }
}
