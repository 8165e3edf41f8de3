/** The compliance rule as it runs: a shared table, and the methods of `DataComplianceRule` that update it. */
module ComplianceRules {
  import opened Compliance

  class ComplianceTable {
    var rows: Table

    constructor ()
      ensures rows == []
    {
      rows := [];
    }

    /** `DataCompliance.objects.update_or_create(...)` */
    method UpdateOrCreate(o: Owner, a: string, v: Verdict)
      modifies this
      ensures rows == Upsert(old(rows), o, a, v)
    {
      var k := 0;
      while k < |rows| && !IsRow(rows[k], o, a)
        invariant k <= |rows| && forall i :: 0 <= i < k ==> !IsRow(rows[i], o, a)
      {
        k := k + 1;
      }
      UpsertAt(rows, o, a, v, k);
      rows := if k < |rows| then rows[..k] + [Record(o, a, v)] + rows[k + 1..] else rows + [Record(o, a, v)];
    }
  }

  predicate IsRow(r: Record, o: Owner, a: string) {
    r.owner == o && r.attribute == a
  }

  lemma {:induction false} UpsertAt(t: Table, o: Owner, a: string, v: Verdict, k: nat)
    requires k <= |t| && forall i :: 0 <= i < k ==> !IsRow(t[i], o, a)
    requires k < |t| ==> IsRow(t[k], o, a)
    ensures Upsert(t, o, a, v) ==
      if k < |t| then t[..k] + [Record(o, a, v)] + t[k + 1..] else t + [Record(o, a, v)]
  {
    if k > 0 {
      UpsertAt(t[1..], o, a, v, k - 1);
    }
  }

  /** How a run ends: normally, with the audit's error passed on, or with the error of reading an attribute that is
      gone. */
  datatype Ending = Finished | ComplianceRaised | AttributeRaised

  /** A rule object: its class name and the object it was made for, whose readable attributes are `attrs`. */
  class DataComplianceRule {
    const owner: Owner
    const attrs: set<string>
    const enforce: bool
    const table: ComplianceTable

    constructor (owner: Owner, attrs: set<string>, enforce: bool, table: ComplianceTable)
      ensures this.owner == owner && this.attrs == attrs && this.enforce == enforce && this.table == table
    {
      this.owner, this.attrs, this.enforce, this.table := owner, attrs, enforce, table;
    }

    /** Store a verdict; `ok` is false where reading the attribute raises `AttributeError`. */
    method ComplianceResult(v: Verdict, a: string) returns (ok: bool)
      modifies table
      ensures ok == Readable(attrs, a) == (a == "" || a in attrs)
      ensures RowFor(a) == if a == "" then "__all__" else a
      ensures table.rows == if ok then Upsert(old(table.rows), owner, RowFor(a), v) else old(table.rows)
    {
      if a != "" && a !in attrs {
        return false;
      }
      table.UpdateOrCreate(owner, RowFor(a), v);
      ok := true;
    }

    /** Store the messages of one entry; `ok` is false where an `AttributeError` ends it. */
    method ReportMessages(a: string, messages: seq<string>) returns (ok: bool)
      modifies table
      ensures ok == !Stops(attrs, (a, messages)) == (a == "" || a in attrs || messages == [])
      ensures table.rows == if ok then Report(old(table.rows), owner, RowFor(a), messages) else old(table.rows)
    {
      for k := 0 to |messages|
        invariant k > 0 ==> Readable(attrs, a)
        invariant table.rows == Report(old(table.rows), owner, RowFor(a), messages[..k])
      {
        assert messages[..k + 1][..k] == messages[..k];
        var stored := ComplianceResult(Verdict(false, Reported(messages[k])), a);
        if !stored {
          assert messages[..0] == [];
          return false;
        }
      }
      assert messages[..|messages|] == messages;
      ok := true;
    }

    /** Mark the stored attributes; `ok` is false where an `AttributeError` ends it. */
    method MarkExistingAttributesAsValid(exclude: seq<string>) returns (ok: bool)
      modifies table
      ensures var all := ToMark(old(table.rows), owner, exclude);
        ok == (CountReadable(attrs, all) == |all|) && table.rows == MarkReadable(old(table.rows), owner, attrs, all)
    {
      ok := MarkEach(ToMark(table.rows, owner, exclude));
    }

    method MarkEach(attributes: seq<string>) returns (ok: bool)
      modifies table
      ensures ok == (CountReadable(attrs, attributes) == |attributes|)
      ensures table.rows == MarkReadable(old(table.rows), owner, attrs, attributes)
    {
      ghost var n := CountReadable(attrs, attributes);
      for k := 0 to |attributes|
        invariant k <= n
        invariant table.rows == Mark(old(table.rows), owner, attributes[..k])
      {
        MarkStep(old(table.rows), owner, attributes, k);
        var stored := ComplianceResult(Verdict(true, AttributeIsValid), attributes[k]);
        if !stored {
          assert n == k;
          return false;
        }
      }
      assert n == |attributes|;
      ok := true;
    }

    /** The loop over the error dictionary; `ok` is false where an `AttributeError` ends it. */
    method ReportFields(errors: seq<(string, seq<string>)>) returns (ok: bool, exclude: seq<string>)
      modifies table
      ensures ok == (Processed(attrs, errors) == |errors|)
      ensures exclude == Excluded(attrs, errors)
      ensures table.rows == ReportEach(old(table.rows), owner, errors[..Processed(attrs, errors)])
    {
      exclude := [];
      ghost var n := Processed(attrs, errors);
      for k := 0 to |errors|
        invariant k <= n && exclude == Names(errors)[..k]
        invariant table.rows == ReportEach(old(table.rows), owner, errors[..k])
      {
        ReportEachStep(old(table.rows), owner, errors, k);
        NamesStep(errors, k);
        exclude := exclude + [errors[k].0];
        var stored := ReportMessages(errors[k].0, errors[k].1);
        if !stored {
          assert n == k;
          return false, exclude;
        }
      }
      assert n == |errors|;
      ok := true;
    }

    /** Run the audit's outcome through the table. */
    method Clean(outcome: Outcome) returns (ending: Ending)
      modifies table
      ensures table.rows == AfterRun(old(table.rows), owner, attrs, outcome)
      ensures ending == if Breaks(old(table.rows), owner, attrs, outcome) then AttributeRaised
        else if enforce && !outcome.Pass? then ComplianceRaised else Finished
    {
      var marked, stored;
      if outcome.Pass? {
        marked := MarkExistingAttributesAsValid([]);
        if !marked {
          return AttributeRaised;
        }
        stored := ComplianceResult(Verdict(true, AllRulesValid), "");
        return Finished;
      }
      ErrorsKeepToMark(table.rows, owner, attrs, outcome);
      var exclude := [];
      match outcome {
        case Pass =>
        case PlainErrors(messages) =>
          stored := ReportMessages("", messages);
        case FieldErrors(errors) =>
          stored, exclude := ReportFields(errors);
          if !stored {
            stored := ReportMessages("", AllMessages(errors));
          }
      }
      marked := MarkExistingAttributesAsValid(exclude);
      if !marked {
        return AttributeRaised;
      }
      stored := ComplianceResult(Verdict(false, SomeRulesInvalid), "");
      ending := if enforce then ComplianceRaised else Finished;
    }
  }

  lemma ReportEachStep(t: Table, o: Owner, errors: seq<(string, seq<string>)>, k: nat)
    requires k < |errors|
    ensures ReportEach(t, o, errors[..k + 1]) ==
      Report(ReportEach(t, o, errors[..k]), o, RowFor(errors[k].0), errors[k].1)
  {
    assert errors[..k + 1][..k] == errors[..k];
  }

  lemma MarkStep(t: Table, o: Owner, attributes: seq<string>, k: nat)
    requires k < |attributes|
    ensures Mark(t, o, attributes[..k + 1]) ==
      Upsert(Mark(t, o, attributes[..k]), o, RowFor(attributes[k]), Verdict(true, AttributeIsValid))
  {
    assert attributes[..k + 1][..k] == attributes[..k];
  }

  lemma NamesStep(errors: seq<(string, seq<string>)>, k: nat)
    requires k < |errors|
    ensures Names(errors)[..k + 1] == Names(errors)[..k] + [errors[k].0]
  {
  }
}
