/** `write_audit_log` and `write_csv`: the audit report as the sequence of
    csv rows written, each row a sequence of cell texts. */
module Audit {
  import opened Results
  import opened Records

  type CsvRow = seq<string>

  const Title := "CONSUMER CLOSED LOANS EMAIL AUDIT LOG"
  const SentHeading := "EMAILS SENT"
  const ExceptionsHeading := "EXCEPTIONS"
  const NoneMarker := "NONE"
  const EndMarker := "END"

  /** `str(bool)`, as csv writes the `EXCPYN` flag. */
  function BoolText(b: bool): string {
    if b then "True" else "False"
  }

  /** `record[field]` on a classified row has a value: the two keys the
      classifier added are always there. */
  predicate HasField(rec: AuditRecord, field: string) {
    field == ResultKey || field == ExceptionKey || field in rec.row
  }

  /** Every configured header field can be looked up on the record. */
  predicate Complete(header: seq<string>, rec: AuditRecord) {
    forall k :: 0 <= k < |header| ==> HasField(rec, header[k])
  }

  /** Every record can be rendered against the header. */
  predicate AllComplete(header: seq<string>, recs: seq<AuditRecord>) {
    forall i :: 0 <= i < |recs| ==> Complete(header, recs[i])
  }

  /** One cell of a data row. The classifier's keys overwrite any column of
      the same name, so they are looked at first. */
  function Cell(rec: AuditRecord, field: string): (r: Result<string, Fault>)
    ensures r.Ok? <==> HasField(rec, field)
    ensures r.Err? ==> r.error == MissingColumn(field)
    ensures field == ResultKey ==> r == Ok(rec.result)
    ensures field == ExceptionKey ==> r == Ok(BoolText(rec.exception))
    ensures field != ResultKey && field != ExceptionKey && field in rec.row ==> r == Ok(Render(rec.row[field]))
  {
    if field == ResultKey then Ok(rec.result)
    else if field == ExceptionKey then Ok(BoolText(rec.exception))
    else if field in rec.row then Ok(Render(rec.row[field]))
    else Err(MissingColumn(field))
  }

  /** `[record[field] for field in header]`: one cell per header field, in
      header order, or the `KeyError` of the first field the record lacks. */
  function RenderRecord(header: seq<string>, rec: AuditRecord): (r: Result<CsvRow, Fault>)
    ensures r.Ok? <==> Complete(header, rec)
    ensures r.Ok? ==> |r.value| == |header| && forall k :: 0 <= k < |header| ==> Cell(rec, header[k]) == Ok(r.value[k])
    ensures r.Err? ==> r.error.MissingColumn? && r.error.column in header && !HasField(rec, r.error.column)
    decreases |header|
  {
    if |header| == 0 then Ok([])
    else
      var first :- Cell(rec, header[0]);
      var rest :- RenderRecord(header[1..], rec);
      assert forall k :: 1 <= k < |header| ==> header[1..][k - 1] == header[k];
      Ok([first] + rest)
  }

  /** The data rows of a section, one per record in order. */
  function RenderRecords(header: seq<string>, recs: seq<AuditRecord>): (r: Result<seq<CsvRow>, Fault>)
    ensures r.Ok? <==> AllComplete(header, recs)
    ensures r.Ok? ==> |r.value| == |recs| && forall i :: 0 <= i < |recs| ==> RenderRecord(header, recs[i]) == Ok(r.value[i])
    decreases |recs|
  {
    if |recs| == 0 then Ok([])
    else
      var first :- RenderRecord(header, recs[0]);
      var rest :- RenderRecords(header, recs[1..]);
      assert forall i :: 1 <= i < |recs| ==> recs[1..][i - 1] == recs[i];
      Ok([first] + rest)
  }

  /** How many rows a section of `n` records takes. */
  function SectionLength(n: nat): nat {
    if n == 0 then 2 else n + 2
  }

  /** `write_csv`: a section with no records is a `NONE` row and a blank row;
      otherwise the header row, one row per record and a blank row. */
  function Section(header: seq<string>, recs: seq<AuditRecord>): (r: Result<seq<CsvRow>, Fault>)
    ensures |recs| == 0 ==> r == Ok([[NoneMarker], []])
    ensures r.Ok? <==> AllComplete(header, recs)
    ensures r.Ok? ==> |r.value| == SectionLength(|recs|) && r.value[|r.value| - 1] == []
    ensures r.Ok? && |recs| > 0 ==>
      && r.value[0] == header
      && forall i :: 0 <= i < |recs| ==> RenderRecord(header, recs[i]) == Ok(r.value[i + 1])
  {
    if |recs| == 0 then Ok([[NoneMarker], []])
    else
      var rows :- RenderRecords(header, recs);
      Ok([header] + rows + [[]])
  }

  /** The records whose `EXCPYN` flag equals `exception`, in input order. */
  function Filter(recs: seq<AuditRecord>, exception: bool): seq<AuditRecord>
    decreases |recs|
  {
    if |recs| == 0 then []
    else
      var last := recs[|recs| - 1];
      Filter(recs[..|recs| - 1], exception) + (if last.exception == exception then [last] else [])
  }

  /** A section holds exactly the records carrying its flag. */
  lemma {:induction false} FilterMembers(recs: seq<AuditRecord>, exception: bool)
    ensures forall x :: x in Filter(recs, exception) <==> x in recs && x.exception == exception
    decreases |recs|
  {
    if |recs| > 0 {
      var n := |recs| - 1;
      FilterMembers(recs[..n], exception);
      assert recs == recs[..n] + [recs[n]];
    }
  }

  /** Filtering keeps order: it distributes over concatenation. */
  lemma {:induction false} FilterConcat(a: seq<AuditRecord>, b: seq<AuditRecord>, exception: bool)
    ensures Filter(a + b, exception) == Filter(a, exception) + Filter(b, exception)
    decreases |b|
  {
    if |b| == 0 {
      assert a + b == a;
    } else {
      var n := |b| - 1;
      assert (a + b)[..|a + b| - 1] == a + b[..n];
      assert (a + b)[|a + b| - 1] == b[n];
      FilterConcat(a, b[..n], exception);
    }
  }

  /** Every record goes to exactly one of the two sections: together the
      sections hold each record as often as the input does. */
  lemma {:induction false} FilterPartition(recs: seq<AuditRecord>)
    ensures multiset(Filter(recs, false)) + multiset(Filter(recs, true)) == multiset(recs)
    decreases |recs|
  {
    if |recs| > 0 {
      var n := |recs| - 1;
      FilterPartition(recs[..n]);
      assert recs == recs[..n] + [recs[n]];
    }
  }

  /** A run of unflagged records all go to the "EMAILS SENT" section. */
  lemma {:induction false} NoFlags(recs: seq<AuditRecord>)
    requires forall i :: 0 <= i < |recs| ==> !recs[i].exception
    ensures Filter(recs, false) == recs && Filter(recs, true) == []
    decreases |recs|
  {
    if |recs| > 0 {
      NoFlags(recs[..|recs| - 1]);
      assert recs == recs[..|recs| - 1] + [recs[|recs| - 1]];
    }
  }

  /** A run of flagged records all go to the "EXCEPTIONS" section. */
  lemma {:induction false} AllFlags(recs: seq<AuditRecord>)
    requires forall i :: 0 <= i < |recs| ==> recs[i].exception
    ensures Filter(recs, true) == recs && Filter(recs, false) == []
    decreases |recs|
  {
    if |recs| > 0 {
      AllFlags(recs[..|recs| - 1]);
      assert recs == recs[..|recs| - 1] + [recs[|recs| - 1]];
    }
  }

  /** Records flagged from position `n` on, and only those, split there. */
  lemma FilterSplit(recs: seq<AuditRecord>, n: nat)
    requires n <= |recs|
    requires forall i :: 0 <= i < |recs| ==> (recs[i].exception <==> i >= n)
    ensures Filter(recs, false) == recs[..n] && Filter(recs, true) == recs[n..]
  {
    var head, tail := recs[..n], recs[n..];
    assert recs == head + tail;
    forall i | 0 <= i < |head| ensures !head[i].exception {
      assert head[i] == recs[i];
    }
    forall i | 0 <= i < |tail| ensures tail[i].exception {
      assert tail[i] == recs[n + i];
    }
    NoFlags(head);
    AllFlags(tail);
    FilterConcat(head, tail, false);
    FilterConcat(head, tail, true);
    assert head + [] == head && [] + tail == tail;
  }

  /** The four rows before the first section. */
  function TitleBlock(runDate: string, effDate: string): seq<CsvRow> {
    [[Title], ["RUN DATE: " + runDate], ["EFFDATE: " + effDate], []]
  }

  /** Every record is complete exactly when every record of both sections is. */
  lemma CompleteBySection(header: seq<string>, recs: seq<AuditRecord>)
    ensures AllComplete(header, recs) <==> AllComplete(header, Filter(recs, false)) && AllComplete(header, Filter(recs, true))
  {
    if AllComplete(header, recs) {
      SectionsInherit(header, recs, false);
      SectionsInherit(header, recs, true);
    }
    if AllComplete(header, Filter(recs, false)) && AllComplete(header, Filter(recs, true)) {
      forall i | 0 <= i < |recs| ensures Complete(header, recs[i]) {
        SectionHolds(header, recs, i);
      }
    }
  }

  lemma SectionsInherit(header: seq<string>, recs: seq<AuditRecord>, exception: bool)
    requires AllComplete(header, recs)
    ensures AllComplete(header, Filter(recs, exception))
  {
    var part := Filter(recs, exception);
    FilterMembers(recs, exception);
    forall i | 0 <= i < |part| ensures Complete(header, part[i]) {
      assert part[i] in recs;
      var j :| 0 <= j < |recs| && recs[j] == part[i];
    }
  }

  lemma SectionHolds(header: seq<string>, recs: seq<AuditRecord>, i: nat)
    requires i < |recs|
    requires AllComplete(header, Filter(recs, false)) && AllComplete(header, Filter(recs, true))
    ensures Complete(header, recs[i])
  {
    var part := Filter(recs, recs[i].exception);
    FilterMembers(recs, recs[i].exception);
    assert recs[i] in part;
    var j :| 0 <= j < |part| && part[j] == recs[i];
  }

  /** The report around its two rendered sections. */
  function Assemble(runDate: string, effDate: string, sent: seq<CsvRow>, flagged: seq<CsvRow>): (log: seq<CsvRow>)
    ensures
      var m := 5 + |sent|;
      && |log| == m + 2 + |flagged| + 1
      && log[..4] == TitleBlock(runDate, effDate)
      && log[4] == [SentHeading]
      && log[5..m] == sent
      && log[m] == []
      && log[m + 1] == [ExceptionsHeading]
      && log[m + 2..|log| - 1] == flagged
      && log[|log| - 1] == [EndMarker]
  {
    var log := TitleBlock(runDate, effDate) + [[SentHeading]] + sent + [[]] + [[ExceptionsHeading]] + flagged + [[EndMarker]];
    assert log[..4] == TitleBlock(runDate, effDate);
    assert log[5..5 + |sent|] == sent;
    assert log[7 + |sent|..|log| - 1] == flagged;
    log
  }

  /** `write_audit_log`: the title block, the "EMAILS SENT" section of the
      records without the exception flag, a blank row, the "EXCEPTIONS"
      section of the flagged ones, and the `END` row. It fails exactly when
      some record lacks one of the header fields. */
  function AuditLog(header: seq<string>, recs: seq<AuditRecord>, runDate: string, effDate: string): (r: Result<seq<CsvRow>, Fault>)
    ensures r.Ok? <==> AllComplete(header, recs)
    ensures r.Ok? ==>
      var log := r.value;
      var m := 5 + SectionLength(|Filter(recs, false)|);
      && |log| == m + 2 + SectionLength(|Filter(recs, true)|) + 1
      && log[..4] == TitleBlock(runDate, effDate)
      && log[4] == [SentHeading]
      && Section(header, Filter(recs, false)) == Ok(log[5..m])
      && log[m] == []
      && log[m + 1] == [ExceptionsHeading]
      && Section(header, Filter(recs, true)) == Ok(log[m + 2..|log| - 1])
      && log[|log| - 1] == [EndMarker]
  {
    CompleteBySection(header, recs);
    var sent :- Section(header, Filter(recs, false));
    var flagged :- Section(header, Filter(recs, true));
    Ok(Assemble(runDate, effDate, sent, flagged))
  }

  /** With the unflagged records first, the two sections are the two halves. */
  lemma ReportHalves(header: seq<string>, recs: seq<AuditRecord>, runDate: string, effDate: string, n: nat)
    requires n <= |recs|
    requires forall i :: 0 <= i < |recs| ==> (recs[i].exception <==> i >= n)
    requires AllComplete(header, recs)
    ensures AllComplete(header, recs[..n]) && AllComplete(header, recs[n..])
    ensures AuditLog(header, recs, runDate, effDate) ==
      Ok(Assemble(runDate, effDate, Section(header, recs[..n]).value, Section(header, recs[n..]).value))
  {
    FilterSplit(recs, n);
    CompleteBySection(header, recs);
  }

  /** The rows of a report with two non-empty sections, in reading order. */
  lemma AssembledLayout(header: seq<string>, sent: seq<AuditRecord>, flagged: seq<AuditRecord>, runDate: string, effDate: string)
    requires |sent| > 0 && |flagged| > 0
    requires AllComplete(header, sent) && AllComplete(header, flagged)
    ensures var n, total := |sent|, |sent| + |flagged|;
      var log := Assemble(runDate, effDate, Section(header, sent).value, Section(header, flagged).value);
      && |log| == total + 12
      && log[..4] == TitleBlock(runDate, effDate)
      && log[4] == [SentHeading] && log[5] == header
      && (forall i :: 0 <= i < n ==> RenderRecord(header, sent[i]) == Ok(log[6 + i]))
      && log[n + 6] == [] && log[n + 7] == []
      && log[n + 8] == [ExceptionsHeading] && log[n + 9] == header
      && (forall i :: 0 <= i < |flagged| ==> RenderRecord(header, flagged[i]) == Ok(log[n + 10 + i]))
      && log[total + 10] == [] && log[total + 11] == [EndMarker]
  {
    var n := |sent|;
    var sentRows, flaggedRows := Section(header, sent).value, Section(header, flagged).value;
    var log := Assemble(runDate, effDate, sentRows, flaggedRows);
    assert log[5..n + 7] == sentRows;
    assert log[n + 9..|log| - 1] == flaggedRows;
    forall i | 0 <= i < n ensures RenderRecord(header, sent[i]) == Ok(log[6 + i]) {
      assert log[5..n + 7][i + 1] == log[6 + i];
    }
    forall i | 0 <= i < |flagged| ensures RenderRecord(header, flagged[i]) == Ok(log[n + 10 + i]) {
      assert log[n + 9..|log| - 1][i + 1] == log[n + 10 + i];
    }
  }
}
