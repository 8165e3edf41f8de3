/**
 Data compliance: what one run of a rule class's audit does to the stored verdicts about an object, and
 when those verdicts say exactly what the audit said.
*/
module Compliance {
  import opened Collections

  /** A rule class and the object that it judges. */
  datatype Owner = Owner(className: string, contentType: string, objectId: nat)

  datatype Message = Reported(text: string) | AttributeIsValid | AllRulesValid | SomeRulesInvalid

  datatype Verdict = Verdict(valid: bool, message: Message)

  /** One row of the `DataCompliance` table. */
  datatype Record = Record(owner: Owner, attribute: string, verdict: Verdict)

  type Table = seq<Record>

  const ALL := "__all__"

  ghost predicate OneRowEach(t: Table) {
    forall i, j :: 0 <= i < j < |t| ==> t[i].owner != t[j].owner || t[i].attribute != t[j].attribute
  }

  function Lookup(t: Table, o: Owner, a: string): (r: Option<Verdict>) {
    if t == [] then None
    else if t[0].owner == o && t[0].attribute == a then Some(t[0].verdict)
    else Lookup(t[1..], o, a)
  }

  /** The verdict stored about the attribute is that it is (not) valid. */
  predicate Says(t: Table, o: Owner, a: string, valid: bool) {
    Lookup(t, o, a).Some? && Lookup(t, o, a).value.valid == valid
  }

  /** `update_or_create` on the four identifying columns. */
  function Upsert(t: Table, o: Owner, a: string, v: Verdict): (r: Table) {
    if t == [] then [Record(o, a, v)]
    else if t[0].owner == o && t[0].attribute == a then [Record(o, a, v)] + t[1..]
    else [t[0]] + Upsert(t[1..], o, a, v)
  }

  lemma {:induction false} LookupAfterUpsert(t: Table, o: Owner, a: string, v: Verdict, p: Owner, b: string)
    ensures Lookup(Upsert(t, o, a, v), p, b) == if p == o && b == a then Some(v) else Lookup(t, p, b)
  {
    if t != [] && !(t[0].owner == o && t[0].attribute == a) {
      LookupAfterUpsert(t[1..], o, a, v, p, b);
    }
  }

  lemma {:induction false} LookupFinds(t: Table, o: Owner, a: string)
    ensures Lookup(t, o, a).Some? <==> exists r :: r in t && r.owner == o && r.attribute == a
  {
    if t != [] {
      LookupFinds(t[1..], o, a);
      assert forall r :: r in t <==> r == t[0] || r in t[1..];
    }
  }

  lemma {:induction false} UpsertKeepsOneRowEach(t: Table, o: Owner, a: string, v: Verdict)
    requires OneRowEach(t)
    ensures OneRowEach(Upsert(t, o, a, v))
  {
    if t != [] && !(t[0].owner == o && t[0].attribute == a) {
      UpsertKeepsOneRowEach(t[1..], o, a, v);
      var rest := Upsert(t[1..], o, a, v);
      forall r | r in rest ensures r.owner != t[0].owner || r.attribute != t[0].attribute {
        LookupFinds(rest, t[0].owner, t[0].attribute);
        LookupAfterUpsert(t[1..], o, a, v, t[0].owner, t[0].attribute);
        LookupFinds(t[1..], t[0].owner, t[0].attribute);
      }
    }
  }

  // ----- the steps of a run

  /** What an audit ends in: nothing raised, errors per attribute (in the order of the dictionary), or plain
      messages. */
  datatype Outcome =
    | Pass
    | FieldErrors(errors: seq<(string, seq<string>)>)
    | PlainErrors(messages: seq<string>)

  /** The row that a report is stored in: an empty attribute name counts as none. */
  function RowFor(a: string): (row: string) {
    if a == "" then ALL else a
  }

  /** `getattr` finds the attribute, or none is asked for. */
  predicate Readable(attrs: set<string>, a: string) {
    a == "" || a in attrs
  }

  /** Store the messages one after the other; the last one stays. */
  function Report(t: Table, o: Owner, row: string, messages: seq<string>): (r: Table) {
    if messages == [] then t
    else Upsert(Report(t, o, row, messages[..|messages| - 1]), o, row, Verdict(false,
      Reported(messages[|messages| - 1])))
  }

  /** The loop over the dictionary stops with an `AttributeError` at the first unreadable name that has a message. */
  predicate Stops(attrs: set<string>, error: (string, seq<string>)) {
    !Readable(attrs, error.0) && error.1 != []
  }

  /** The number of entries that are fully processed. */
  function Processed(attrs: set<string>, errors: seq<(string, seq<string>)>): (n: nat)
    ensures n <= |errors|
    ensures forall i :: 0 <= i < n ==> !Stops(attrs, errors[i])
    ensures n < |errors| ==> Stops(attrs, errors[n])
  {
    if errors == [] || Stops(attrs, errors[0]) then 0 else 1 + Processed(attrs, errors[1..])
  }

  function ReportEach(t: Table, o: Owner, errors: seq<(string, seq<string>)>): (r: Table) {
    if errors == [] then t
    else
      var last := errors[|errors| - 1];
      Report(ReportEach(t, o, errors[..|errors| - 1]), o, RowFor(last.0), last.1)
  }

  function AllMessages(errors: seq<(string, seq<string>)>): (messages: seq<string>) {
    if errors == [] then [] else AllMessages(errors[..|errors| - 1]) + errors[|errors| - 1].1
  }

  /** All messages of the dictionary, entry by entry. */
  lemma {:induction false} AllMessagesInOrder(a: seq<(string, seq<string>)>, b: seq<(string, seq<string>)>)
    ensures AllMessages(a + b) == AllMessages(a) + AllMessages(b)
    ensures forall e :: AllMessages([e]) == e.1
  {
    forall e: (string, seq<string>) ensures AllMessages([e]) == e.1 {
      assert [e][..0] == [] && [e][0] == e;
    }
    if b == [] {
      assert a + b == a;
    } else {
      AllMessagesInOrder(a, b[..|b| - 1]);
      assert (a + b)[..|a + b| - 1] == a + b[..|b| - 1];
    }
  }

  function Names(errors: seq<(string, seq<string>)>): (names: seq<string>)
    ensures |names| == |errors| && forall i :: 0 <= i < |names| ==> names[i] == errors[i].0
  {
    seq(|errors|, i requires 0 <= i < |errors| => errors[i].0)
  }

  /** The attributes excluded from being marked valid: every name up to and including the one that stopped the loop. */
  function Excluded(attrs: set<string>, errors: seq<(string, seq<string>)>): (names: seq<string>) {
    var n := Processed(attrs, errors);
    Names(errors)[..if n < |errors| then n + 1 else n]
  }

  /** The attributes that `mark_existing_attributes_as_valid` is to go through, in the order of the table. */
  function ToMark(t: Table, o: Owner, exclude: seq<string>): (attributes: seq<string>)
    ensures forall a :: a in attributes <==>
      a != ALL && a !in exclude && exists r :: r in t && r.owner == o && r.attribute == a
  {
    if t == [] then []
    else
      assert t == [t[0]] + t[1..];
      (if t[0].owner == o && t[0].attribute != ALL && t[0].attribute !in exclude then [t[0].attribute] else [])
      + ToMark(t[1..], o, exclude)
  }

  /** The number of attributes that can be read before the first one that cannot. */
  function CountReadable(attrs: set<string>, attributes: seq<string>): (n: nat)
    ensures n <= |attributes|
    ensures forall i :: 0 <= i < n ==> Readable(attrs, attributes[i])
    ensures n < |attributes| ==> !Readable(attrs, attributes[n])
  {
    if attributes == [] || !Readable(attrs, attributes[0]) then 0 else 1 + CountReadable(attrs, attributes[1..])
  }

  function Mark(t: Table, o: Owner, attributes: seq<string>): (r: Table) {
    if attributes == [] then t
    else
      var last := attributes[|attributes| - 1];
      Upsert(Mark(t, o, attributes[..|attributes| - 1]), o, RowFor(last), Verdict(true, AttributeIsValid))
  }

  /** Marking stops, with an `AttributeError`, at the first stored attribute that the object no longer has. */
  function MarkReadable(t: Table, o: Owner, attrs: set<string>, attributes: seq<string>): (r: Table) {
    Mark(t, o, attributes[..CountReadable(attrs, attributes)])
  }

  function AfterErrors(t: Table, o: Owner, attrs: set<string>, outcome: Outcome): (r: (Table, seq<string>))
    requires !outcome.Pass?
  {
    match outcome
    case PlainErrors(messages) => (Report(t, o, ALL, messages), [])
    case FieldErrors(errors) =>
      var n := Processed(attrs, errors);
      var reported := ReportEach(t, o, errors[..n]);
      (if n < |errors| then Report(reported, o, ALL, AllMessages(errors)) else reported, Excluded(attrs, errors))
  }

  /** The attributes that a run excludes from being marked valid. */
  function Excludes(attrs: set<string>, outcome: Outcome): (names: seq<string>) {
    if outcome.FieldErrors? then Excluded(attrs, outcome.errors) else []
  }

  /** Excluded are the names in the error dictionary up to the first that cannot be read and has a message, that one
      included. */
  lemma ExcludesExactly(attrs: set<string>, outcome: Outcome, b: string)
    ensures b in Excludes(attrs, outcome) <==>
      outcome.FieldErrors? &&
      exists i :: 0 <= i < |outcome.errors| && outcome.errors[i].0 == b && ReachedAt(attrs, outcome.errors, i)
  {
    if outcome.FieldErrors? {
      var errors, n := outcome.errors, Processed(attrs, outcome.errors);
      if b in Excludes(attrs, outcome) {
        var i :| 0 <= i < |Excludes(attrs, outcome)| && Excludes(attrs, outcome)[i] == b;
        assert errors[i].0 == b && ReachedAt(attrs, errors, i);
      }
      if i :| 0 <= i < |errors| && errors[i].0 == b && ReachedAt(attrs, errors, i) {
        assert i <= n;
        assert Excludes(attrs, outcome)[i] == b;
      }
    }
  }

  /** No entry before this one has a message for an attribute that cannot be read. */
  predicate ReachedAt(attrs: set<string>, errors: seq<(string, seq<string>)>, i: nat)
    requires i < |errors|
  {
    forall j :: 0 <= j < i ==> errors[j].0 == "" || errors[j].0 in attrs || errors[j].1 == []
  }

  /** The run ends in an `AttributeError`, raised while it marks the stored attributes. */
  predicate Breaks(t: Table, o: Owner, attrs: set<string>, outcome: Outcome) {
    var attributes := ToMark(t, o, Excludes(attrs, outcome));
    CountReadable(attrs, attributes) < |attributes|
  }

  /** One whole run of `clean()`. When marking raises, `__all__` is not stored any more. */
  function AfterRun(t: Table, o: Owner, attrs: set<string>, outcome: Outcome): (r: Table) {
    var (reported, exclude) := if outcome.Pass? then (t, []) else AfterErrors(t, o, attrs, outcome);
    var attributes := ToMark(reported, o, exclude);
    var marked := MarkReadable(reported, o, attrs, attributes);
    if CountReadable(attrs, attributes) < |attributes| then marked
    else Upsert(marked, o, ALL, Verdict(outcome.Pass?, if outcome.Pass? then AllRulesValid else SomeRulesInvalid))
  }

  // ----- what each step leaves in the table

  lemma {:induction false} LookupAfterReport(
    t: Table, o: Owner, row: string, messages: seq<string>, p: Owner, b: string)
    ensures Lookup(Report(t, o, row, messages), p, b) ==
      if p == o && b == row && messages != []
      then Some(Verdict(false, Reported(messages[|messages| - 1]))) else Lookup(t, p, b)
  {
    if messages != [] {
      var n := |messages| - 1;
      LookupAfterReport(t, o, row, messages[..n], p, b);
      LookupAfterUpsert(Report(t, o, row, messages[..n]), o, row, Verdict(false, Reported(messages[n])), p, b);
    }
  }

  /** Some entry has a message for the row. */
  ghost predicate Blames(errors: seq<(string, seq<string>)>, row: string) {
    exists i :: 0 <= i < |errors| && RowFor(errors[i].0) == row && errors[i].1 != []
  }

  lemma {:induction false} LookupAfterReportEach(
    t: Table, o: Owner, errors: seq<(string, seq<string>)>, p: Owner, b: string)
    ensures if p == o && Blames(errors, b) then Says(ReportEach(t, o, errors), p, b, false)
      else Lookup(ReportEach(t, o, errors), p, b) == Lookup(t, p, b)
  {
    if errors != [] {
      var n := |errors| - 1;
      var front, last := errors[..n], errors[n];
      LookupAfterReportEach(t, o, front, p, b);
      LookupAfterReport(ReportEach(t, o, front), o, RowFor(last.0), last.1, p, b);
      assert errors == front + [last];
      BlamesSnoc(front, last, b);
    }
  }

  lemma BlamesSnoc(front: seq<(string, seq<string>)>, last: (string, seq<string>), row: string)
    ensures Blames(front + [last], row) <==> Blames(front, row) || (RowFor(last.0) == row && last.1 != [])
  {
    var all := front + [last];
    assert all[|front|] == last;
    assert forall i :: 0 <= i < |front| ==> all[i] == front[i];
  }

  /** One of the attributes is stored in the row. */
  ghost predicate Covers(attributes: seq<string>, row: string) {
    exists i :: 0 <= i < |attributes| && RowFor(attributes[i]) == row
  }

  lemma {:induction false} LookupAfterMark(t: Table, o: Owner, attributes: seq<string>, p: Owner, b: string)
    ensures Lookup(Mark(t, o, attributes), p, b) ==
      if p == o && Covers(attributes, b) then Some(Verdict(true, AttributeIsValid)) else Lookup(t, p, b)
  {
    if attributes != [] {
      var n := |attributes| - 1;
      var front, last := attributes[..n], attributes[n];
      LookupAfterMark(t, o, front, p, b);
      LookupAfterUpsert(Mark(t, o, front), o, RowFor(last), Verdict(true, AttributeIsValid), p, b);
      assert attributes == front + [last];
      CoversSnoc(front, last, b);
    }
  }

  lemma CoversSnoc(front: seq<string>, last: string, row: string)
    ensures Covers(front + [last], row) <==> Covers(front, row) || RowFor(last) == row
  {
    var all := front + [last];
    assert all[|front|] == last;
    assert forall i :: 0 <= i < |front| ==> all[i] == front[i];
  }

  // ----- an invariant that every upsert keeps is kept by a run

  /** One row per attribute, and every row says what it is about. */
  ghost predicate Tidy(t: Table) {
    OneRowEach(t) && forall r :: r in t ==> r.attribute != ""
  }

  lemma {:induction false} UpsertMembers(t: Table, o: Owner, a: string, v: Verdict, r: Record)
    requires r in Upsert(t, o, a, v)
    ensures r in t || r == Record(o, a, v)
  {
    if t != [] && r != Upsert(t, o, a, v)[0] {
      if !(t[0].owner == o && t[0].attribute == a) {
        UpsertMembers(t[1..], o, a, v, r);
      }
    }
  }

  lemma UpsertKeepsTidy(t: Table, o: Owner, a: string, v: Verdict)
    requires Tidy(t)
    ensures Tidy(Upsert(t, o, RowFor(a), v))
  {
    UpsertKeepsOneRowEach(t, o, RowFor(a), v);
    forall r | r in Upsert(t, o, RowFor(a), v) ensures r.attribute != "" {
      UpsertMembers(t, o, RowFor(a), v, r);
    }
  }

  lemma {:induction false} ReportKeepsTidy(t: Table, o: Owner, a: string, messages: seq<string>)
    requires Tidy(t)
    ensures Tidy(Report(t, o, RowFor(a), messages))
  {
    if messages != [] {
      var n := |messages| - 1;
      ReportKeepsTidy(t, o, a, messages[..n]);
      UpsertKeepsTidy(Report(t, o, RowFor(a), messages[..n]), o, a, Verdict(false, Reported(messages[n])));
    }
  }

  lemma {:induction false} ReportEachKeepsTidy(t: Table, o: Owner, errors: seq<(string, seq<string>)>)
    requires Tidy(t)
    ensures Tidy(ReportEach(t, o, errors))
  {
    if errors != [] {
      var n := |errors| - 1;
      ReportEachKeepsTidy(t, o, errors[..n]);
      ReportKeepsTidy(ReportEach(t, o, errors[..n]), o, errors[n].0, errors[n].1);
    }
  }

  lemma {:induction false} MarkKeepsTidy(t: Table, o: Owner, attributes: seq<string>)
    requires Tidy(t)
    ensures Tidy(Mark(t, o, attributes))
  {
    if attributes != [] {
      var n := |attributes| - 1;
      MarkKeepsTidy(t, o, attributes[..n]);
      UpsertKeepsTidy(Mark(t, o, attributes[..n]), o, attributes[n], Verdict(true, AttributeIsValid));
    }
  }

  lemma ErrorsKeepTidy(t: Table, o: Owner, attrs: set<string>, outcome: Outcome)
    requires Tidy(t) && !outcome.Pass?
    ensures Tidy(AfterErrors(t, o, attrs, outcome).0)
  {
    match outcome
    case PlainErrors(messages) => ReportKeepsTidy(t, o, "", messages);
    case FieldErrors(errors) =>
      var reached := errors[..Processed(attrs, errors)];
      ReportEachKeepsTidy(t, o, reached);
      ReportKeepsTidy(ReportEach(t, o, reached), o, "", AllMessages(errors));
  }

  /** A run, broken or not, keeps one row per class, type, object and attribute. */
  lemma RunKeepsTidy(t: Table, o: Owner, attrs: set<string>, outcome: Outcome)
    requires Tidy(t)
    ensures Tidy(AfterRun(t, o, attrs, outcome))
  {
    if !outcome.Pass? {
      ErrorsKeepTidy(t, o, attrs, outcome);
    }
    var (reported, exclude) := if outcome.Pass? then (t, []) else AfterErrors(t, o, attrs, outcome);
    var attributes := ToMark(reported, o, exclude);
    MarkKeepsTidy(reported, o, attributes[..CountReadable(attrs, attributes)]);
    var marked := MarkReadable(reported, o, attrs, attributes);
    UpsertKeepsTidy(marked, o, "", Verdict(true, AllRulesValid));
    UpsertKeepsTidy(marked, o, "", Verdict(false, SomeRulesInvalid));
  }

  // ----- which attributes are marked

  lemma {:induction false} UpsertKeepsToMark(t: Table, o: Owner, a: string, v: Verdict, exclude: seq<string>)
    requires a == ALL || a in exclude
    ensures ToMark(Upsert(t, o, a, v), o, exclude) == ToMark(t, o, exclude)
  {
    if t == [] {
      assert Upsert(t, o, a, v)[1..] == [];
    } else if t[0].owner == o && t[0].attribute == a {
      assert Upsert(t, o, a, v)[1..] == t[1..];
    } else {
      assert Upsert(t, o, a, v)[1..] == Upsert(t[1..], o, a, v);
      UpsertKeepsToMark(t[1..], o, a, v, exclude);
    }
  }

  lemma {:induction false} ReportKeepsToMark(
    t: Table, o: Owner, row: string, messages: seq<string>, exclude: seq<string>)
    requires row == ALL || row in exclude
    ensures ToMark(Report(t, o, row, messages), o, exclude) == ToMark(t, o, exclude)
  {
    if messages != [] {
      var n := |messages| - 1;
      ReportKeepsToMark(t, o, row, messages[..n], exclude);
      UpsertKeepsToMark(Report(t, o, row, messages[..n]), o, row, Verdict(false, Reported(messages[n])), exclude);
    }
  }

  lemma {:induction false} ReportEachKeepsToMark(
    t: Table, o: Owner, errors: seq<(string, seq<string>)>, exclude: seq<string>)
    requires forall i :: 0 <= i < |errors| ==> errors[i].0 in exclude
    ensures ToMark(ReportEach(t, o, errors), o, exclude) == ToMark(t, o, exclude)
  {
    if errors != [] {
      var n := |errors| - 1;
      ReportEachKeepsToMark(t, o, errors[..n], exclude);
      ReportKeepsToMark(ReportEach(t, o, errors[..n]), o, RowFor(errors[n].0), errors[n].1, exclude);
    }
  }

  /** What the run has reported so far does not change what is to be marked. */
  lemma ErrorsKeepToMark(t: Table, o: Owner, attrs: set<string>, outcome: Outcome)
    requires !outcome.Pass?
    ensures AfterErrors(t, o, attrs, outcome).1 == Excludes(attrs, outcome)
    ensures var (reported, exclude) := AfterErrors(t, o, attrs, outcome);
      ToMark(reported, o, exclude) == ToMark(t, o, exclude)
  {
    match outcome
    case PlainErrors(messages) => ReportKeepsToMark(t, o, ALL, messages, []);
    case FieldErrors(errors) =>
      var exclude := Excluded(attrs, errors);
      var reached := errors[..Processed(attrs, errors)];
      forall i | 0 <= i < |reached| ensures reached[i].0 in exclude {
        assert exclude[i] == reached[i].0;
      }
      ReportEachKeepsToMark(t, o, reached, exclude);
      ReportKeepsToMark(ReportEach(t, o, reached), o, ALL, AllMessages(errors), exclude);
  }

  /** The attributes that a run marks valid: those it is to mark, up to the first that cannot be read. */
  function Marked(t: Table, o: Owner, attrs: set<string>, outcome: Outcome): (attributes: seq<string>) {
    var all := ToMark(t, o, Excludes(attrs, outcome));
    all[..CountReadable(attrs, all)]
  }

  /** A run breaks exactly if an attribute is stored that the object no longer has and the audit's errors do not
      name. */
  lemma BreaksExactly(t: Table, o: Owner, attrs: set<string>, outcome: Outcome)
    ensures Breaks(t, o, attrs, outcome) <==>
      exists r :: r in t && r.owner == o && r.attribute != ALL && !Readable(attrs, r.attribute) &&
        r.attribute !in Excludes(attrs, outcome)
  {
    var all := ToMark(t, o, Excludes(attrs, outcome));
    var n := CountReadable(attrs, all);
    if n < |all| {
      assert all[n] in all;
    }
  }

  lemma MarkedMembers(t: Table, o: Owner, attrs: set<string>, outcome: Outcome, b: string)
    ensures b in Marked(t, o, attrs, outcome) ==>
      b != ALL && b !in Excludes(attrs, outcome) && Readable(attrs, b) && Lookup(t, o, b).Some?
    ensures !Breaks(t, o, attrs, outcome) && b != ALL && b !in Excludes(attrs, outcome) && Lookup(t, o, b).Some? ==>
      b in Marked(t, o, attrs, outcome)
  {
    LookupFinds(t, o, b);
    var all := ToMark(t, o, Excludes(attrs, outcome));
    assert b in Marked(t, o, attrs, outcome) ==> b in all;
    if !Breaks(t, o, attrs, outcome) {
      assert Marked(t, o, attrs, outcome) == all;
    }
  }

  // ----- what a run leaves

  /** The rows that the run stores an error in: those with a message that is reached. */
  ghost predicate Recorded(attrs: set<string>, outcome: Outcome, b: string) {
    match outcome
    case Pass => false
    case PlainErrors(messages) => b == ALL && messages != []
    case FieldErrors(errors) =>
      var n := Processed(attrs, errors);
      Blames(errors[..n], b) || (b == ALL && n < |errors|)
  }

  lemma {:induction false} SomeMessage(errors: seq<(string, seq<string>)>, i: nat)
    requires i < |errors| && errors[i].1 != []
    ensures AllMessages(errors) != []
  {
    if i < |errors| - 1 {
      SomeMessage(errors[..|errors| - 1], i);
    }
  }

  lemma LookupAfterErrors(t: Table, o: Owner, attrs: set<string>, outcome: Outcome, p: Owner, b: string)
    requires !outcome.Pass?
    ensures var r := AfterErrors(t, o, attrs, outcome).0;
      if p == o && Recorded(attrs, outcome, b) then Says(r, p, b, false) else Lookup(r, p, b) == Lookup(t, p, b)
  {
    match outcome
    case PlainErrors(messages) => LookupAfterReport(t, o, ALL, messages, p, b);
    case FieldErrors(errors) =>
      var n := Processed(attrs, errors);
      LookupAfterReportEach(t, o, errors[..n], p, b);
      LookupAfterReport(ReportEach(t, o, errors[..n]), o, ALL, AllMessages(errors), p, b);
      if n < |errors| {
        SomeMessage(errors, n);
      }
  }

  lemma RecordedIsExcluded(attrs: set<string>, outcome: Outcome, b: string)
    requires b != ALL && Recorded(attrs, outcome, b)
    ensures b in Excludes(attrs, outcome) && b in attrs
  {
    var n := Processed(attrs, outcome.errors);
    var reached := outcome.errors[..n];
    var i :| 0 <= i < |reached| && RowFor(reached[i].0) == b && reached[i].1 != [];
    assert Excludes(attrs, outcome)[i] == b;
    assert !Stops(attrs, outcome.errors[i]);
  }

  /** For every row: what it says after a run, from what it said before and from the outcome. */
  lemma RunLeaves(t: Table, o: Owner, attrs: set<string>, outcome: Outcome, p: Owner, b: string)
    ensures var before, after := Lookup(t, p, b), Lookup(AfterRun(t, o, attrs, outcome), p, b);
      if p != o then after == before
      else if b == ALL && !Breaks(t, o, attrs, outcome) then after.Some? && after.value.valid == outcome.Pass?
      else if Covers(Marked(t, o, attrs, outcome), b) then after == Some(Verdict(true, AttributeIsValid))
      else if Recorded(attrs, outcome, b) then after.Some? && !after.value.valid
      else after == before
  {
    if !outcome.Pass? {
      LookupAfterErrors(t, o, attrs, outcome, p, b);
      ErrorsKeepToMark(t, o, attrs, outcome);
    }
    var (reported, exclude) := if outcome.Pass? then (t, []) else AfterErrors(t, o, attrs, outcome);
    var attributes := ToMark(reported, o, exclude);
    LookupAfterMark(reported, o, attributes[..CountReadable(attrs, attributes)], p, b);
    var marked := MarkReadable(reported, o, attrs, attributes);
    LookupAfterUpsert(marked, o, ALL, Verdict(true, AllRulesValid), p, b);
    LookupAfterUpsert(marked, o, ALL, Verdict(false, SomeRulesInvalid), p, b);
  }

  /** A run changes nothing about other rule classes or other objects. */
  lemma OthersUntouched(t: Table, o: Owner, attrs: set<string>, outcome: Outcome, p: Owner, b: string)
    requires p != o
    ensures Lookup(AfterRun(t, o, attrs, outcome), p, b) == Lookup(t, p, b)
  {
    RunLeaves(t, o, attrs, outcome, p, b);
  }

  /** Marking an attribute changes its own row only, except that the row without a name is taken for `__all__`. */
  lemma MarkedRow(t: Table, o: Owner, attrs: set<string>, outcome: Outcome, b: string)
    requires b != "" && (b == ALL ==> Lookup(t, o, "").None?)
    ensures Covers(Marked(t, o, attrs, outcome), b) <==> b in Marked(t, o, attrs, outcome)
  {
    var marked := Marked(t, o, attrs, outcome);
    if i :| 0 <= i < |marked| && RowFor(marked[i]) == b {
      MarkedMembers(t, o, attrs, outcome, marked[i]);
    }
    if b in marked {
      var i :| 0 <= i < |marked| && marked[i] == b;
      assert RowFor(marked[i]) == b;
    }
  }

  // ----- the stored attributes stay readable

  /** Every attribute stored about the object can be read from it. */
  ghost predicate ReadableRows(t: Table, o: Owner, attrs: set<string>) {
    forall a :: Lookup(t, o, a).Some? ==> a == ALL || a in attrs
  }

  lemma ReadableDoesNotBreak(t: Table, o: Owner, attrs: set<string>, outcome: Outcome)
    requires ReadableRows(t, o, attrs)
    ensures !Breaks(t, o, attrs, outcome)
  {
    BreaksExactly(t, o, attrs, outcome);
    forall r | r in t && r.owner == o && r.attribute != ALL ensures Readable(attrs, r.attribute) {
      LookupFinds(t, o, r.attribute);
    }
  }

  /** A run stores nothing that it could not read. */
  lemma RunKeepsReadable(t: Table, o: Owner, attrs: set<string>, outcome: Outcome, p: Owner, others: set<string>)
    requires ReadableRows(t, p, others) && (p == o ==> attrs <= others)
    ensures ReadableRows(AfterRun(t, o, attrs, outcome), p, others)
  {
    forall a | a != ALL && Lookup(AfterRun(t, o, attrs, outcome), p, a).Some? ensures a in others {
      RunLeaves(t, o, attrs, outcome, p, a);
      if p == o && Recorded(attrs, outcome, a) {
        RecordedIsExcluded(attrs, outcome, a);
      } else if p == o && Covers(Marked(t, o, attrs, outcome), a) {
        var marked := Marked(t, o, attrs, outcome);
        var i :| 0 <= i < |marked| && RowFor(marked[i]) == a;
        MarkedMembers(t, o, attrs, outcome, marked[i]);
      }
    }
  }

  // ----- exactly the errored attributes are invalid

  /** Afterwards, the attributes stored as invalid are those that the audit raised an error for. */
  ghost predicate TellsErrors(t: Table, o: Owner, attrs: set<string>, outcome: Outcome) {
    forall a :: a in attrs ==> (Says(AfterRun(t, o, attrs, outcome), o, a, false) <==> Named(outcome, a))
  }

  /** The audit's error dictionary names the attribute. */
  predicate Named(outcome: Outcome, a: string) {
    outcome.FieldErrors? && a in Names(outcome.errors)
  }

  /** Every real attribute in the error dictionary has a message, and no unreadable name before it stops the loop. */
  predicate ReachesAll(attrs: set<string>, outcome: Outcome) {
    outcome.FieldErrors? ==> forall i :: 0 <= i < |outcome.errors| && outcome.errors[i].0 in attrs ==>
      outcome.errors[i].1 != [] && i < Processed(attrs, outcome.errors)
  }

  /** Every attribute that is stored as invalid, and that the audit found nothing wrong with, is marked before the
      run breaks. */
  predicate ClearsAll(t: Table, o: Owner, attrs: set<string>, outcome: Outcome) {
    forall a :: a in attrs && Says(t, o, a, false) && !Named(outcome, a) ==> a in Marked(t, o, attrs, outcome)
  }

  predicate ProperAttributes(attrs: set<string>) {
    "" !in attrs && ALL !in attrs
  }

  predicate DistinctNames(outcome: Outcome) {
    outcome.FieldErrors? ==>
      forall i, j :: 0 <= i < j < |outcome.errors| ==> outcome.errors[i].0 != outcome.errors[j].0
  }

  lemma RecordedExactly(attrs: set<string>, outcome: Outcome, i: nat)
    requires outcome.FieldErrors? && ProperAttributes(attrs) && DistinctNames(outcome)
    requires i < |outcome.errors| && outcome.errors[i].0 in attrs
    ensures Recorded(attrs, outcome, outcome.errors[i].0) <==>
      outcome.errors[i].1 != [] && i < Processed(attrs, outcome.errors)
  {
    var errors, a := outcome.errors, outcome.errors[i].0;
    var n := Processed(attrs, errors);
    if i < n && errors[i].1 != [] {
      assert errors[..n][i] == errors[i];
    }
    if Recorded(attrs, outcome, a) {
      var j :| 0 <= j < |errors[..n]| && RowFor(errors[..n][j].0) == a && errors[..n][j].1 != [];
      assert errors[j].0 == a;
    }
  }

  lemma NotNamedNotRecorded(attrs: set<string>, outcome: Outcome, a: string)
    requires a != ALL && a != "" && !Named(outcome, a)
    ensures !Recorded(attrs, outcome, a) && a !in Excludes(attrs, outcome)
  {
    if outcome.FieldErrors? {
      var errors := outcome.errors;
      var n := Processed(attrs, errors);
      forall j | 0 <= j < n ensures RowFor(errors[..n][j].0) != a {
        assert Names(errors)[j] == errors[..n][j].0;
      }
    }
  }

  lemma NamedIsRecorded(attrs: set<string>, outcome: Outcome, a: string)
    requires ProperAttributes(attrs) && DistinctNames(outcome) && ReachesAll(attrs, outcome)
    requires a in attrs && Named(outcome, a)
    ensures Recorded(attrs, outcome, a)
  {
    var i :| 0 <= i < |outcome.errors| && Names(outcome.errors)[i] == a;
    RecordedExactly(attrs, outcome, i);
  }

  /** For one attribute: what the run makes of it, if the dictionary reaches all errors. */
  lemma ReachingTellsOne(t: Table, o: Owner, attrs: set<string>, outcome: Outcome, a: string)
    requires ProperAttributes(attrs) && DistinctNames(outcome) && ReachesAll(attrs, outcome) && a in attrs
    ensures Says(AfterRun(t, o, attrs, outcome), o, a, false) <==>
      Named(outcome, a) || (Says(t, o, a, false) && a !in Marked(t, o, attrs, outcome))
  {
    RunLeaves(t, o, attrs, outcome, o, a);
    MarkedRow(t, o, attrs, outcome, a);
    MarkedMembers(t, o, attrs, outcome, a);
    if Named(outcome, a) {
      NamedIsRecorded(attrs, outcome, a);
      RecordedIsExcluded(attrs, outcome, a);
    } else {
      NotNamedNotRecorded(attrs, outcome, a);
    }
  }

  /** On any table: if the dictionary reaches all errors, the verdicts tell them exactly if all old errors are
      cleared. */
  lemma ReachingTellsExactly(t: Table, o: Owner, attrs: set<string>, outcome: Outcome)
    requires ProperAttributes(attrs) && DistinctNames(outcome) && ReachesAll(attrs, outcome)
    ensures TellsErrors(t, o, attrs, outcome) <==> ClearsAll(t, o, attrs, outcome)
  {
    forall a | a in attrs
      ensures Says(AfterRun(t, o, attrs, outcome), o, a, false) <==>
        Named(outcome, a) || (Says(t, o, a, false) && a !in Marked(t, o, attrs, outcome))
    {
      ReachingTellsOne(t, o, attrs, outcome, a);
    }
  }

  /** A run that does not break clears them all. */
  lemma UnbrokenClears(t: Table, o: Owner, attrs: set<string>, outcome: Outcome)
    requires ProperAttributes(attrs) && !Breaks(t, o, attrs, outcome)
    ensures ClearsAll(t, o, attrs, outcome)
  {
    forall a | a in attrs && Says(t, o, a, false) && !Named(outcome, a) ensures a in Marked(t, o, attrs, outcome) {
      NotNamedNotRecorded(attrs, outcome, a);
      MarkedMembers(t, o, attrs, outcome, a);
    }
  }

  /** On all tables whose attributes can still be read, the verdicts tell the errors exactly if the dictionary
      reaches them. */
  lemma TellsErrorsExactly(o: Owner, attrs: set<string>, outcome: Outcome)
    requires ProperAttributes(attrs) && DistinctNames(outcome)
    ensures (forall t: Table :: ReadableRows(t, o, attrs) ==> TellsErrors(t, o, attrs, outcome)) <==>
      ReachesAll(attrs, outcome)
  {
    if ReachesAll(attrs, outcome) {
      forall t: Table | ReadableRows(t, o, attrs) ensures TellsErrors(t, o, attrs, outcome) {
        ReadableDoesNotBreak(t, o, attrs, outcome);
        UnbrokenClears(t, o, attrs, outcome);
        ReachingTellsExactly(t, o, attrs, outcome);
      }
    } else {
      var i :| 0 <= i < |outcome.errors| && outcome.errors[i].0 in attrs &&
        !(outcome.errors[i].1 != [] && i < Processed(attrs, outcome.errors));
      var a, empty: Table := outcome.errors[i].0, [];
      RecordedExactly(attrs, outcome, i);
      RunLeaves(empty, o, attrs, outcome, o, a);
      MarkedRow(empty, o, attrs, outcome, a);
      MarkedMembers(empty, o, attrs, outcome, a);
      assert Names(outcome.errors)[i] == a;
      assert ReadableRows(empty, o, attrs) && !TellsErrors(empty, o, attrs, outcome);
    }
  }

  /** An unknown name in the dictionary hides the error after it: the attribute that failed is marked valid. */
  lemma UnknownNameHidesError(o: Owner)
    ensures var outcome := FieldErrors([("typo", ["is wrong"]), ("name", ["is wrong"])]);
      var before := [Record(o, "name", Verdict(false, Reported("is wrong")))];
      Lookup(AfterRun(before, o, {"name"}, outcome), o, "name") == Some(Verdict(true, AttributeIsValid))
  {
    var errors := [("typo", ["is wrong"]), ("name", ["is wrong"])];
    var outcome := FieldErrors(errors);
    var before := [Record(o, "name", Verdict(false, Reported("is wrong")))];
    assert "typo"[0] == 't' && "name"[0] == 'n' && ALL[0] == '_';
    assert Stops({"name"}, errors[0]) && Processed({"name"}, errors) == 0;
    assert Excludes({"name"}, outcome) == ["typo"];
    assert before[0] in before;
    BreaksExactly(before, o, {"name"}, outcome);
    RunLeaves(before, o, {"name"}, outcome, o, "name");
    MarkedRow(before, o, {"name"}, outcome, "name");
    MarkedMembers(before, o, {"name"}, outcome, "name");
  }

  /** An attribute that is gone, stored in front of another: a passing audit leaves the other one invalid. */
  lemma LostAttributeKeepsError(o: Owner)
    ensures var lost := Record(o, "x", Verdict(true, AttributeIsValid));
      var invalid := Record(o, "name", Verdict(false, Reported("is wrong")));
      Says(AfterRun([lost, invalid], o, {"name"}, Pass), o, "name", false)
  {
    var lost := Record(o, "x", Verdict(true, AttributeIsValid));
    var invalid := Record(o, "name", Verdict(false, Reported("is wrong")));
    var t := [lost, invalid];
    assert |"x"| == 1 && |"name"| == 4 && |ALL| == 7;
    assert ToMark(t, o, [])[0] == "x";
    assert Marked(t, o, {"name"}, Pass) == [];
    RunLeaves(t, o, {"name"}, Pass, o, "name");
  }

  // ----- runs

  datatype Run = Run(owner: Owner, attrs: set<string>, outcome: Outcome)

  function AfterRuns(t: Table, runs: seq<Run>): (r: Table) {
    if runs == [] then t
    else
      var last := runs[|runs| - 1];
      AfterRun(AfterRuns(t, runs[..|runs| - 1]), last.owner, last.attrs, last.outcome)
  }

  /** An object that is valid as a whole has no invalid attribute. */
  ghost predicate Sound(t: Table) {
    Tidy(t) && forall o, a :: Says(t, o, ALL, true) ==> !Says(t, o, a, false)
  }

  /** The run breaks on an object stored as valid, after it stored an error for an attribute and before it reached
      `__all__`. */
  ghost predicate HidesFailure(t: Table, o: Owner, attrs: set<string>, outcome: Outcome) {
    && Breaks(t, o, attrs, outcome) && Says(t, o, ALL, true)
    && outcome.FieldErrors? && Processed(attrs, outcome.errors) == |outcome.errors|
    && !Blames(outcome.errors, ALL) && exists i :: 0 <= i < |outcome.errors| && outcome.errors[i].1 != []
  }

  lemma HidesFailureMeans(t: Table, o: Owner, attrs: set<string>, outcome: Outcome)
    requires Breaks(t, o, attrs, outcome) && Says(t, o, ALL, true)
    ensures HidesFailure(t, o, attrs, outcome) <==>
      !Recorded(attrs, outcome, ALL) && exists b :: Recorded(attrs, outcome, b)
  {
    if outcome.FieldErrors? && Processed(attrs, outcome.errors) == |outcome.errors| {
      assert outcome.errors[..|outcome.errors|] == outcome.errors;
      if i :| 0 <= i < |outcome.errors| && outcome.errors[i].1 != [] {
        assert Recorded(attrs, outcome, RowFor(outcome.errors[i].0));
      }
    }
  }

  lemma TidyHasNoNameless(t: Table, o: Owner)
    requires Tidy(t)
    ensures Lookup(t, o, "").None?
  {
    LookupFinds(t, o, "");
  }

  /** What a run makes of a sound table's verdict on the whole object. */
  lemma WholeAfterRun(t: Table, o: Owner, attrs: set<string>, outcome: Outcome)
    requires Tidy(t)
    ensures Says(AfterRun(t, o, attrs, outcome), o, ALL, true) <==>
      if Breaks(t, o, attrs, outcome) then Says(t, o, ALL, true) && !Recorded(attrs, outcome, ALL) else outcome.Pass?
  {
    RunLeaves(t, o, attrs, outcome, o, ALL);
    TidyHasNoNameless(t, o);
    MarkedRow(t, o, attrs, outcome, ALL);
    MarkedMembers(t, o, attrs, outcome, ALL);
  }

  lemma HiddenFailureIsUnsound(t: Table, o: Owner, attrs: set<string>, outcome: Outcome)
    requires Tidy(t) && HidesFailure(t, o, attrs, outcome)
    ensures !Sound(AfterRun(t, o, attrs, outcome))
  {
    HidesFailureMeans(t, o, attrs, outcome);
    WholeAfterRun(t, o, attrs, outcome);
    var b :| Recorded(attrs, outcome, b);
    RecordedIsExcluded(attrs, outcome, b);
    RunLeaves(t, o, attrs, outcome, o, b);
    RecordedIsNamed(attrs, outcome, b);
    MarkedRow(t, o, attrs, outcome, b);
    MarkedMembers(t, o, attrs, outcome, b);
    assert Says(AfterRun(t, o, attrs, outcome), o, b, false);
  }

  lemma RecordedIsNamed(attrs: set<string>, outcome: Outcome, b: string)
    requires Recorded(attrs, outcome, b)
    ensures b != ""
  {
  }

  /** A verdict on the whole object that is valid after the run stands beside valid attributes, unless a failure was
      hidden. */
  lemma RunKeepsVerdict(t: Table, o: Owner, attrs: set<string>, outcome: Outcome, p: Owner, a: string)
    requires Sound(t) && !HidesFailure(t, o, attrs, outcome)
    requires Says(AfterRun(t, o, attrs, outcome), p, ALL, true)
    ensures !Says(AfterRun(t, o, attrs, outcome), p, a, false)
  {
    RunLeaves(t, o, attrs, outcome, p, a);
    if p != o {
      OthersUntouched(t, o, attrs, outcome, p, ALL);
      assert Says(t, p, ALL, true) && !Says(t, p, a, false);
    } else {
      WholeAfterRun(t, o, attrs, outcome);
      if Breaks(t, o, attrs, outcome) {
        HidesFailureMeans(t, o, attrs, outcome);
        assert !Recorded(attrs, outcome, a);
        assert Says(t, o, ALL, true) && !Says(t, o, a, false);
      } else if a != ALL && Lookup(t, o, a).Some? {
        TidyHasNoNameless(t, o);
        MarkedMembers(t, o, attrs, outcome, a);
        MarkedRow(t, o, attrs, outcome, a);
      }
    }
  }

  /** A run keeps a sound table sound exactly unless it hides a failure. */
  lemma RunKeepsSoundExactly(t: Table, o: Owner, attrs: set<string>, outcome: Outcome)
    requires Sound(t)
    ensures Sound(AfterRun(t, o, attrs, outcome)) <==> !HidesFailure(t, o, attrs, outcome)
  {
    RunKeepsTidy(t, o, attrs, outcome);
    if HidesFailure(t, o, attrs, outcome) {
      HiddenFailureIsUnsound(t, o, attrs, outcome);
    } else {
      var after := AfterRun(t, o, attrs, outcome);
      forall p, a | Says(after, p, ALL, true) ensures !Says(after, p, a, false) {
        RunKeepsVerdict(t, o, attrs, outcome, p, a);
      }
    }
  }

  /** No run of the sequence hides a failure. */
  ghost predicate NoneHides(t: Table, runs: seq<Run>) {
    forall k :: 0 <= k < |runs| ==> !HidesIn(t, runs, k)
  }

  ghost predicate HidesIn(t: Table, runs: seq<Run>, k: nat)
    requires k < |runs|
  {
    HidesFailure(AfterRuns(t, runs[..k]), runs[k].owner, runs[k].attrs, runs[k].outcome)
  }

  ghost predicate SoundAfter(t: Table, runs: seq<Run>, k: nat)
    requires k <= |runs|
  {
    Sound(AfterRuns(t, runs[..k]))
  }

  lemma NextRun(t: Table, runs: seq<Run>, k: nat)
    requires k < |runs| && SoundAfter(t, runs, k)
    ensures SoundAfter(t, runs, k + 1) <==> !HidesIn(t, runs, k)
  {
    RunKeepsSoundExactly(AfterRuns(t, runs[..k]), runs[k].owner, runs[k].attrs, runs[k].outcome);
    assert runs[..k + 1][..k] == runs[..k];
  }

  /** Over any sequence of runs, of any classes on any objects: sound all along exactly if no run hides a failure. */
  lemma {:induction false} RunsKeepSoundExactly(t: Table, runs: seq<Run>)
    requires Sound(t)
    ensures (forall k :: 0 <= k <= |runs| ==> SoundAfter(t, runs, k)) <==> NoneHides(t, runs)
  {
    if forall k :: 0 <= k <= |runs| ==> SoundAfter(t, runs, k) {
      forall k | 0 <= k < |runs| ensures !HidesIn(t, runs, k) {
        NextRun(t, runs, k);
      }
    } else if NoneHides(t, runs) {
      var k :| 0 <= k <= |runs| && !SoundAfter(t, runs, k);
      NothingHiddenIsSound(t, runs, k);
    }
  }

  lemma {:induction false} NothingHiddenIsSound(t: Table, runs: seq<Run>, k: nat)
    requires Sound(t) && NoneHides(t, runs) && k <= |runs|
    ensures SoundAfter(t, runs, k)
  {
    if k > 0 {
      NothingHiddenIsSound(t, runs, k - 1);
      NextRun(t, runs, k - 1);
    }
  }

  /** The objects' attributes never go away: each run finds the attributes that its object always has. */
  ghost predicate Lasting(runs: seq<Run>, attrsOf: Owner -> set<string>) {
    forall i :: 0 <= i < |runs| ==> runs[i].attrs == attrsOf(runs[i].owner)
  }

  /** Then no run ever breaks, every table is sound, and the last run's errors are told if its dictionary reaches
      them. */
  lemma {:induction false} LastingRunsKeepSound(t: Table, runs: seq<Run>, attrsOf: Owner -> set<string>)
    requires Sound(t) && Lasting(runs, attrsOf) && forall p :: ReadableRows(t, p, attrsOf(p))
    ensures Sound(AfterRuns(t, runs)) && forall p :: ReadableRows(AfterRuns(t, runs), p, attrsOf(p))
    ensures runs != [] ==>
      var last, before := runs[|runs| - 1], AfterRuns(t, runs[..|runs| - 1]);
      && !Breaks(before, last.owner, last.attrs, last.outcome)
      && (ProperAttributes(last.attrs) && DistinctNames(last.outcome) && ReachesAll(last.attrs, last.outcome) ==>
          TellsErrors(before, last.owner, last.attrs, last.outcome))
  {
    if runs != [] {
      var front, last := runs[..|runs| - 1], runs[|runs| - 1];
      var before := AfterRuns(t, front);
      LastingRunsKeepSound(t, front, attrsOf);
      ReadableDoesNotBreak(before, last.owner, last.attrs, last.outcome);
      RunKeepsSoundExactly(before, last.owner, last.attrs, last.outcome);
      forall p ensures ReadableRows(AfterRuns(t, runs), p, attrsOf(p)) {
        RunKeepsReadable(before, last.owner, last.attrs, last.outcome, p, attrsOf(p));
      }
      if ProperAttributes(last.attrs) && DistinctNames(last.outcome) && ReachesAll(last.attrs, last.outcome) {
        UnbrokenClears(before, last.owner, last.attrs, last.outcome);
        ReachingTellsExactly(before, last.owner, last.attrs, last.outcome);
      }
    }
  }

  /** The audit blames one attribute. */
  function OneFailure(a: string): (outcome: Outcome) {
    FieldErrors([(a, ["is wrong"])])
  }

  lemma OneFailureRecorded(attrs: set<string>, a: string, b: string)
    requires a in attrs && a != "" && a != ALL
    ensures Excludes(attrs, OneFailure(a)) == [a] && (Recorded(attrs, OneFailure(a), b) <==> b == a)
  {
    var errors := OneFailure(a).errors;
    assert Processed(attrs, errors) == 1 && errors[..1] == errors;
    assert errors[..1][0] == errors[0] && RowFor(a) == a;
  }

  /** An object that counts as valid has lost a stored attribute; another attribute fails, and the object still
      counts as valid. */
  lemma LostAttributeHidesFailure(t: Table, o: Owner, a: string, lost: string)
    requires Sound(t) && Says(t, o, ALL, true) && Lookup(t, o, lost).Some?
    requires a != lost && a != "" && a != ALL && lost != "" && lost != ALL
    ensures Says(AfterRun(t, o, {a}, OneFailure(a)), o, ALL, true) && !Sound(AfterRun(t, o, {a}, OneFailure(a)))
  {
    OneFailureRecorded({a}, a, a);
    OneFailureRecorded({a}, a, ALL);
    LookupFinds(t, o, lost);
    BreaksExactly(t, o, {a}, OneFailure(a));
    WholeAfterRun(t, o, {a}, OneFailure(a));
    HidesFailureMeans(t, o, {a}, OneFailure(a));
    HiddenFailureIsUnsound(t, o, {a}, OneFailure(a));
  }

  /** A first run leaves a row for the attribute that failed, one for the whole object, and no other. */
  lemma FirstFailure(o: Owner, attrs: set<string>, a: string, b: string)
    requires a in attrs && a != "" && a != ALL
    ensures Sound(AfterRun([], o, attrs, OneFailure(a)))
    ensures b != ALL ==> (Lookup(AfterRun([], o, attrs, OneFailure(a)), o, b).Some? <==> b == a)
  {
    OneFailureRecorded(attrs, a, b);
    BreaksExactly([], o, attrs, OneFailure(a));
    RunKeepsSoundExactly([], o, attrs, OneFailure(a));
    RunLeaves([], o, attrs, OneFailure(a), o, b);
    assert Marked([], o, attrs, OneFailure(a)) == [];
  }

  /** A passing audit after it makes the object valid; the row stays. */
  lemma FailedThenPassed(o: Owner, attrs: set<string>, a: string)
    requires a in attrs && a != "" && a != ALL
    ensures var t := AfterRun(AfterRun([], o, attrs, OneFailure(a)), o, attrs, Pass);
      Sound(t) && Says(t, o, ALL, true) && Lookup(t, o, a).Some?
  {
    var t := AfterRun([], o, attrs, OneFailure(a));
    FirstFailure(o, attrs, a, a);
    forall r | r in t && r.owner == o && r.attribute != ALL ensures Readable(attrs, r.attribute) {
      LookupFinds(t, o, r.attribute);
      FirstFailure(o, attrs, a, r.attribute);
    }
    BreaksExactly(t, o, attrs, Pass);
    WholeAfterRun(t, o, attrs, Pass);
    RunKeepsSoundExactly(t, o, attrs, Pass);
    RunLeaves(t, o, attrs, Pass, o, a);
  }

  /** From an empty table: "x" fails, all is well, "x" is gone and "name" fails. The object still counts as valid. */
  lemma LostAttributeBreaksSound(o: Owner)
    ensures var passed := AfterRun(AfterRun([], o, {"x", "name"}, OneFailure("x")), o, {"x", "name"}, Pass);
      var t := AfterRun(passed, o, {"name"}, OneFailure("name"));
      Sound(passed) && Says(t, o, ALL, true) && !Sound(t)
  {
    assert |"x"| == 1 && |"name"| == 4 && |ALL| == 7;
    FailedThenPassed(o, {"x", "name"}, "x");
    var passed := AfterRun(AfterRun([], o, {"x", "name"}, OneFailure("x")), o, {"x", "name"}, Pass);
    LostAttributeHidesFailure(passed, o, "name", "x");
  }
}
