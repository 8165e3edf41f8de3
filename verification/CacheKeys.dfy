/** The string keys of the validation-rule caches, and the wildcard pattern that deletes a family of them. */
module CacheKeys {
  import opened Collections

  datatype RuleModel = MinMax | RegularExpression | Required | Unique
  datatype Getter = ForModel | EnabledForModel

  function ModelLabel(m: RuleModel): (s: string) {
    match m
    case MinMax => "minmaxvalidationrule"
    case RegularExpression => "regularexpressionvalidationrule"
    case Required => "requiredvalidationrule"
    case Unique => "uniquevalidationrule"
  }

  function GetterName(g: Getter): (s: string) {
    match g
    case ForModel => "get_for_model"
    case EnabledForModel => "get_enabled_for_model"
  }

  /** Version Control adds the active branch; without it there is none. */
  type Branch = Option<string>

  const APP := "nautobot.data_validation."

  function BranchTail(b: Branch): (s: string) {
    if b.Some? then ['.'] + "branch." + b.value else ""
  }

  function KeyPrefix(m: RuleModel, g: Getter, b: Branch): (s: string) {
    APP + ModelLabel(m) + ['.'] + GetterName(g) + BranchTail(b)
  }

  function WithParameter(prefix: string, parameter: string): (s: string) {
    prefix + ['('] + parameter + [')']
  }

  function CacheKey(m: RuleModel, g: Getter, b: Branch, contentType: string): (s: string) {
    WithParameter(KeyPrefix(m, g, b), "content_type=" + contentType)
  }

  // ----- patterns

  /** The characters without a meaning of their own in a pattern. */
  predicate IsLiteral(c: char) {
    c != '*' && c != '?' && c != '[' && c != '\\'
  }

  predicate Literal(s: string) {
    forall i :: 0 <= i < |s| ==> IsLiteral(s[i])
  }

  /** A branch name that a pattern takes literally. */
  predicate LiteralBranch(b: Branch) {
    b.Some? ==> Literal(b.value)
  }

  lemma LiteralBranchExactly(b: Branch)
    ensures LiteralBranch(b) <==>
      b.None? || ('*' !in b.value && '?' !in b.value && '[' !in b.value && '\\' !in b.value)
  {
  }

  /** Whether `c` is in a bracketed class, of which `pattern` is what follows the bracket, and what follows the
      class. */
  function InClass(pattern: string, c: char): (r: (bool, string))
    ensures |r.1| <= |pattern|
    decreases |pattern|
  {
    if pattern == "" then (false, "")
    else if pattern[0] == ']' then (false, pattern[1..])
    else if pattern[0] == '\\' && |pattern| >= 2 then
      var (rest, after) := InClass(pattern[2..], c);
      (rest || c == pattern[1], after)
    else if |pattern| >= 3 && pattern[1] == '-' then
      var (rest, after) := InClass(pattern[3..], c);
      (rest || pattern[0] <= c <= pattern[2] || pattern[2] <= c <= pattern[0], after)
    else
      var (rest, after) := InClass(pattern[1..], c);
      (rest || c == pattern[0], after)
  }

  /** Redis glob matching: `*` stands for any characters, `?` for one, `[...]` and `[^...]` for one of (or not of) a
      class, and a backslash takes the next character literally. */
  predicate Glob(pattern: string, s: string)
    decreases |pattern|, |s|
  {
    if pattern == "" then s == ""
    else if pattern[0] == '*' then Glob(pattern[1..], s) || (s != "" && Glob(pattern, s[1..]))
    else if s == "" then false
    else if pattern[0] == '?' then Glob(pattern[1..], s[1..])
    else if pattern[0] == '[' then
      var negated := |pattern| >= 2 && pattern[1] == '^';
      var (found, after) := InClass(if negated then pattern[2..] else pattern[1..], s[0]);
      found != negated && Glob(after, s[1..])
    else if pattern[0] == '\\' && |pattern| >= 2 then s[0] == pattern[1] && Glob(pattern[2..], s[1..])
    else s[0] == pattern[0] && Glob(pattern[1..], s[1..])
  }

  lemma GlobParenthesis(s: string)
    ensures Glob([')'], s) <==> s == [')']
  {
    assert [')'][1..] == "";
  }

  lemma {:induction false} GlobTail(s: string)
    ensures Glob(['*', ')'], s) <==> s != "" && s[|s| - 1] == ')'
  {
    assert ['*', ')'][1..] == [')'];
    GlobParenthesis(s);
    if s != "" {
      GlobTail(s[1..]);
    }
  }

  /** The pattern `prefix(*)`. */
  function Pattern(prefix: string): (p: string) {
    prefix + ['(', '*', ')']
  }

  /** It matches exactly the strings `prefix(...)`. */
  lemma {:induction false} GlobPrefix(prefix: string, s: string)
    requires Literal(prefix)
    ensures Glob(Pattern(prefix), s) <==> |s| >= |prefix| + 2 && prefix + ['('] <= s && s[|s| - 1] == ')'
  {
    var pattern := Pattern(prefix);
    if prefix == "" {
      assert pattern[0] == '(' && pattern[1..] == ['*', ')'];
      if s != "" {
        GlobTail(s[1..]);
      }
    } else {
      assert pattern[1..] == Pattern(prefix[1..]) && pattern[0] == prefix[0];
      if s != "" {
        GlobPrefix(prefix[1..], s[1..]);
        PrefixStep(prefix, s);
      }
    }
  }

  lemma PrefixStep(prefix: string, s: string)
    requires prefix != "" && s != ""
    ensures prefix + ['('] <= s <==> prefix[0] == s[0] && prefix[1..] + ['('] <= s[1..]
  {
    var p := prefix + ['('];
    assert p[1..] == prefix[1..] + ['('];
    if prefix[0] == s[0] && p[1..] <= s[1..] {
      assert forall i :: 1 <= i < |p| ==> p[i] == p[1..][i - 1] == s[1..][i - 1];
    }
  }

  lemma PatternCoversParameters(prefix: string, parameter: string)
    requires Literal(prefix)
    ensures Glob(Pattern(prefix), WithParameter(prefix, parameter))
  {
    GlobPrefix(prefix, WithParameter(prefix, parameter));
  }

  /** Deleting a manager's pattern deletes that method's entry for every content type, moved rules included. */
  lemma PatternCoversKeys(m: RuleModel, g: Getter, b: Branch, contentType: string)
    requires LiteralBranch(b)
    ensures Glob(Pattern(KeyPrefix(m, g, b)), CacheKey(m, g, b, contentType))
  {
    LiteralPrefix(m, g, b);
    PatternCoversParameters(KeyPrefix(m, g, b), "content_type=" + contentType);
  }

  // ----- keys do not collide

  /** Without a parenthesis, and taken literally. */
  predicate Plain(s: string) {
    Literal(s) && '(' !in s
  }

  /** A key that can be taken apart: a pattern takes its branch literally, and where branches exist (their names may
      have parentheses) its content type has none. */
  predicate PlainKey(b: Branch, contentType: string) {
    LiteralBranch(b) && (b.Some? ==> '(' !in contentType)
  }

  lemma {:induction false} SplitAtLast(c: char, p: string, r: string, q: string, s: string)
    requires c !in r && c !in s && p + [c] + r == q + [c] + s
    ensures p == q && r == s
  {
    var t, u := p + [c] + r, q + [c] + s;
    if r == "" || s == "" {
      assert t[|t| - 1] == u[|u| - 1];
      assert r == s;
      assert t[..|t| - 1] == p && u[..|u| - 1] == q;
    } else {
      assert t[|t| - 1] == r[|r| - 1] && u[|u| - 1] == s[|s| - 1];
      assert t[..|t| - 1] == p + [c] + r[..|r| - 1] && u[..|u| - 1] == q + [c] + s[..|s| - 1];
      SplitAtLast(c, p, r[..|r| - 1], q, s[..|s| - 1]);
    }
  }

  lemma {:induction false} SplitAtFirst(c: char, p: string, r: string, q: string, s: string)
    requires c !in p && c !in q && p + [c] + r == q + [c] + s
    ensures p == q && r == s
  {
    if p == "" || q == "" {
      assert (p + [c] + r)[0] == (q + [c] + s)[0];
      assert (p + [c] + r)[|p|] == c;
      assert p == q;
      assert (p + [c] + r)[1..] == r && (q + [c] + s)[1..] == s;
    } else {
      assert (p + [c] + r)[0] == p[0] && (q + [c] + s)[0] == q[0];
      assert (p + [c] + r)[1..] == p[1..] + [c] + r && (q + [c] + s)[1..] == q[1..] + [c] + s;
      SplitAtFirst(c, p[1..], r, q[1..], s);
    }
  }

  lemma LabelsDiffer(m: RuleModel, n: RuleModel)
    ensures ModelLabel(m) == ModelLabel(n) ==> m == n
  {
    assert ModelLabel(Required)[2] == 'q' && ModelLabel(RegularExpression)[2] == 'g';
    assert ModelLabel(MinMax)[0] == 'm' && ModelLabel(Unique)[0] == 'u';
    assert ModelLabel(Required)[0] == ModelLabel(RegularExpression)[0] == 'r';
  }

  lemma PlainLabel(m: RuleModel)
    ensures Plain(ModelLabel(m)) && '.' !in ModelLabel(m)
  {
    match m
    case MinMax => PlainMinMax();
    case RegularExpression => PlainRegularExpression();
    case Required => PlainRequired();
    case Unique => PlainUnique();
  }

  lemma PlainMinMax()
    ensures Plain(ModelLabel(MinMax)) && '.' !in ModelLabel(MinMax)
  {
  }

  lemma PlainRegularExpression()
    ensures Plain(ModelLabel(RegularExpression)) && '.' !in ModelLabel(RegularExpression)
  {
  }

  lemma PlainRequired()
    ensures Plain(ModelLabel(Required)) && '.' !in ModelLabel(Required)
  {
  }

  lemma PlainUnique()
    ensures Plain(ModelLabel(Unique)) && '.' !in ModelLabel(Unique)
  {
  }

  lemma GettersDiffer(g: Getter, h: Getter)
    ensures GetterName(g) == GetterName(h) ==> g == h
  {
    assert GetterName(ForModel)[4] == 'f' && GetterName(EnabledForModel)[4] == 'e';
  }

  lemma PlainGetter(g: Getter)
    ensures Plain(GetterName(g)) && '.' !in GetterName(g)
  {
    match g
    case ForModel => PlainForModel();
    case EnabledForModel => PlainEnabledForModel();
  }

  lemma PlainForModel()
    ensures Plain(GetterName(ForModel)) && '.' !in GetterName(ForModel)
  {
  }

  lemma PlainEnabledForModel()
    ensures Plain(GetterName(EnabledForModel)) && '.' !in GetterName(EnabledForModel)
  {
  }

  lemma PlainApp()
    ensures Plain(APP)
  {
  }

  lemma LiteralTail(b: Branch)
    requires LiteralBranch(b)
    ensures Literal(BranchTail(b))
  {
    assert Plain("branch.");
  }

  lemma LiteralConcats(app: string, model: string, getter: string, tail: string)
    requires Plain(app) && Plain(model) && Plain(getter) && Literal(tail)
    ensures Literal(app + model + ['.'] + getter + tail)
    ensures tail == "" ==> '(' !in app + model + ['.'] + getter + tail
  {
  }

  lemma LiteralPrefix(m: RuleModel, g: Getter, b: Branch)
    requires LiteralBranch(b)
    ensures Literal(KeyPrefix(m, g, b)) && (b.None? ==> '(' !in KeyPrefix(m, g, b))
  {
    PlainApp();
    PlainLabel(m);
    PlainGetter(g);
    LiteralTail(b);
    LiteralConcats(APP, ModelLabel(m), GetterName(g), BranchTail(b));
  }

  lemma {:induction false} DropCommon(p: string, r: string, s: string)
    requires p + r == p + s
    ensures r == s
  {
    assert (p + r)[|p|..] == r && (p + s)[|p|..] == s;
  }

  lemma DottedTailsDiffer(g: string, h: string, word: string, x: string, y: string)
    requires '.' !in g && '.' !in h && g + (['.'] + word + x) == h + (['.'] + word + y)
    ensures g == h && x == y
  {
    assert g + (['.'] + word + x) == g + ['.'] + (word + x) && h + (['.'] + word + y) == h + ['.'] + (word + y);
    SplitAtFirst('.', g, word + x, h, word + y);
    DropCommon(word, x, y);
  }

  lemma TailsDiffer(g: Getter, b: Branch, h: Getter, d: Branch)
    requires GetterName(g) + BranchTail(b) == GetterName(h) + BranchTail(d) && b.Some? == d.Some?
    ensures g == h && b == d
  {
    GettersDiffer(g, h);
    if b.Some? {
      PlainGetter(g);
      PlainGetter(h);
      DottedTailsDiffer(GetterName(g), GetterName(h), "branch.", b.value, d.value);
    } else {
      NothingAdded(GetterName(g));
      NothingAdded(GetterName(h));
    }
  }

  lemma NothingAdded(s: string)
    ensures s + "" == s
  {
  }

  lemma PrefixesDiffer(m: RuleModel, g: Getter, b: Branch, n: RuleModel, h: Getter, d: Branch)
    requires KeyPrefix(m, g, b) == KeyPrefix(n, h, d) && b.Some? == d.Some?
    ensures m == n && g == h && b == d
  {
    var r, s := GetterName(g) + BranchTail(b), GetterName(h) + BranchTail(d);
    PrefixParts(APP, ModelLabel(m), GetterName(g), BranchTail(b));
    PrefixParts(APP, ModelLabel(n), GetterName(h), BranchTail(d));
    DropCommon(APP, ModelLabel(m) + ['.'] + r, ModelLabel(n) + ['.'] + s);
    PlainLabel(m);
    PlainLabel(n);
    SplitAtFirst('.', ModelLabel(m), r, ModelLabel(n), s);
    LabelsDiffer(m, n);
    TailsDiffer(g, b, h, d);
  }

  lemma PrefixParts(app: string, model: string, getter: string, tail: string)
    ensures app + model + ['.'] + getter + tail == app + (model + ['.'] + (getter + tail))
  {
  }

  lemma ParametersDiffer(p: string, r: string, q: string, s: string)
    requires ('(' !in p && '(' !in q) || ('(' !in r && '(' !in s)
    requires WithParameter(p, r) == WithParameter(q, s)
    ensures p == q && r == s
  {
    assert WithParameter(p, r) == p + ['('] + (r + [')']) && WithParameter(q, s) == q + ['('] + (s + [')']);
    if '(' !in p && '(' !in q {
      SplitAtFirst('(', p, r + [')'], q, s + [')']);
    } else {
      SplitAtLast('(', p, r + [')'], q, s + [')']);
    }
    assert (r + [')'])[..|r|] == r && (s + [')'])[..|s|] == s;
  }

  lemma PlainParameter(contentType: string)
    requires '(' !in contentType
    ensures '(' !in "content_type=" + contentType
  {
    assert Plain("content_type=");
  }

  /** Different models, methods, branches or content types never share a cache entry. */
  lemma KeysDiffer(m: RuleModel, g: Getter, b: Branch, ct: string, n: RuleModel, h: Getter, d: Branch, dt: string)
    requires PlainKey(b, ct) && PlainKey(d, dt) && b.Some? == d.Some?
    requires CacheKey(m, g, b, ct) == CacheKey(n, h, d, dt)
    ensures m == n && g == h && b == d && ct == dt
  {
    LiteralPrefix(m, g, b);
    LiteralPrefix(n, h, d);
    if b.Some? {
      PlainParameter(ct);
      PlainParameter(dt);
    }
    ParametersDiffer(KeyPrefix(m, g, b), "content_type=" + ct, KeyPrefix(n, h, d), "content_type=" + dt);
    PrefixesDiffer(m, g, b, n, h, d);
    DropCommon("content_type=", ct, dt);
  }

  lemma {:induction false} PrefixesSplitAtFirst(c: char, p: string, r: string, q: string, s: string)
    requires c !in p && c !in q && p + [c] + r <= q + [c] + s
    ensures p == q
  {
    var rest := (q + [c] + s)[|p + [c] + r|..];
    assert p + [c] + (r + rest) == p + [c] + r + rest == q + [c] + s;
    SplitAtFirst(c, p, r + rest, q, s);
  }

  /** A key does not begin with the prefix of another model. */
  lemma KeysNameModels(m: RuleModel, g: Getter, b: Branch, n: RuleModel, h: Getter, d: Branch, contentType: string)
    requires KeyPrefix(m, g, b) + ['('] <= CacheKey(n, h, d, contentType)
    ensures m == n
  {
    PlainLabel(m);
    PlainLabel(n);
    NamesDiffer(APP, ModelLabel(m), GetterName(g), BranchTail(b), ModelLabel(n), GetterName(h), BranchTail(d),
      "content_type=" + contentType);
    LabelsDiffer(m, n);
  }

  lemma NamesDiffer(
    app: string, m: string, g: string, b: string, n: string, h: string, d: string, parameter: string)
    requires '.' !in m && '.' !in n
    requires app + m + ['.'] + g + b + ['('] <= app + n + ['.'] + h + d + ['('] + parameter + [')']
    ensures m == n
  {
    var r, s := g + b + ['('], h + d + ['('] + parameter + [')'];
    assert app + m + ['.'] + g + b + ['('] == app + (m + ['.'] + r);
    assert app + n + ['.'] + h + d + ['('] + parameter + [')'] == app + (n + ['.'] + s);
    DropCommonPrefix(app, m + ['.'] + r, n + ['.'] + s);
    PrefixesSplitAtFirst('.', m, r, n, s);
  }

  lemma DropCommonPrefix(p: string, r: string, s: string)
    requires p + r <= p + s
    ensures r <= s
  {
    assert forall i :: 0 <= i < |r| ==> r[i] == (p + r)[|p| + i] == (p + s)[|p| + i] == s[i];
  }

  /** The documented key, with a branch name in it. */
  lemma DocumentedKey()
    ensures CacheKey(MinMax, ForModel, Some("main"), "dcim.location") ==
      "nautobot.data_validation." + "minmaxvalidationrule" + "." + "get_for_model" + ("." + "branch." + "main") +
      "(" + ("content_type=" + "dcim.location") + ")"
  {
  }

  // ----- what patterns mean

  /** Any text, any one character, one of a class, one not of a class, and a character taken literally. */
  lemma GlobUnits(s: string, c: char, d: char)
    requires c != ']' && c != '\\' && c != '^' && c != '-'
    ensures Glob(['*'], s)
    ensures Glob(['?'], s) <==> |s| == 1
    ensures Glob(['[', c, ']'], [d]) <==> d == c
    ensures Glob(['[', '^', c, ']'], [d]) <==> d != c
    ensures Glob(['\\', c], s) <==> s == [c]
  {
    GlobAnything(s);
    assert ['[', c, ']'][1..] == [c, ']'] && [c, ']'][1..] == [']'] && [']'][1..] == "";
    assert ['[', '^', c, ']'][2..] == [c, ']'];
    assert ['\\', c][2..] == "" && ['?'][1..] == "";
    assert |s| == 1 ==> s[1..] == "";
    assert s == [c] <==> |s| == 1 && s[0] == c;
    assert [d][1..] == "" && Glob("", [d][1..]);
    assert InClass([']'], d) == (false, "");
    assert InClass([c, ']'], d) == (d == c, "");
  }

  /** A range in a class, either way round; a character taken literally in a class; a class that is not closed; and a
      backslash at the end. */
  lemma GlobCorners(s: string, a: char, b: char, d: char)
    requires a != ']' && a != '\\' && a != '^'
    ensures Glob(['[', a, '-', b, ']'], [d]) <==> a <= d <= b || b <= d <= a
    ensures Glob(['[', '\\', b, ']'], [d]) <==> d == b
    ensures Glob(['[', a], [d]) <==> d == a
    ensures !Glob(['['], [d])
    ensures Glob(['\\'], s) <==> s == ['\\']
  {
    assert [d][1..] == "" && InClass([']'], d) == (false, "") && InClass("", d) == (false, "");
    assert [a, '-', b, ']'][3..] == [']'] && ['\\', b, ']'][2..] == [']'];
    assert ['[', a, '-', b, ']'][1..] == [a, '-', b, ']'] && ['[', '\\', b, ']'][1..] == ['\\', b, ']'];
    assert InClass([a, '-', b, ']'], d) == (a <= d <= b || b <= d <= a, "");
    assert InClass(['\\', b, ']'], d) == (d == b, "");
    assert ['[', a][1..] == [a] && [a][1..] == "" && InClass([a], d) == (d == a, "");
    assert ['['][1..] == "" && ['\\'][1..] == "";
    assert s == ['\\'] <==> |s| == 1 && s[0] == '\\';
    assert |s| == 1 ==> s[1..] == "";
  }

  lemma {:induction false} GlobAnything(s: string)
    ensures Glob(['*'], s)
  {
    assert ['*'][1..] == "";
    if s != "" {
      GlobAnything(s[1..]);
    }
  }

  /** With parentheses in both, branches and content types could be confused. */
  lemma ParenthesesCollide(m: RuleModel, g: Getter, x: string, y: string, contentType: string)
    ensures CacheKey(m, g, Some(x + "(content_type=" + y), contentType) ==
      CacheKey(m, g, Some(x), y + "(content_type=" + contentType)
  {
    assert "(content_type=" == ['('] + "content_type=";
    Regroup(APP + ModelLabel(m) + ['.'] + GetterName(g), ['.'] + "branch.", x, "content_type=", y, contentType);
  }

  lemma Regroup(a: string, b: string, x: string, w: string, y: string, c: string)
    ensures a + (b + (x + (['('] + w) + y)) + ['('] + (w + c) + [')'] ==
      a + (b + x) + ['('] + (w + (y + (['('] + w) + c)) + [')']
  {
  }
}
