/** The body of `run` once the accounts are fetched: classify every account,
    then write the audit report of the classified rows. */
module Pipeline {
  import opened Results
  import opened Records
  import opened Notes
  import opened Mailer
  import opened Classifier
  import opened Audit

  /** Every header field names either one of the two keys the classifier
      adds or a column of every account. */
  predicate HeaderCovered(header: seq<string>, accts: seq<Row>) {
    forall i, k :: 0 <= i < |accts| && 0 <= k < |header| ==>
      header[k] == ResultKey || header[k] == ExceptionKey || header[k] in accts[i]
  }

  /** `process_records` followed by `write_audit_log`. The run fails exactly
      when the pass over the accounts raises, or some header field is neither
      one of the classifier's keys nor a column of some account; a report that
      is written starts with the title block and ends with `END`. */
  function Run(ctx: RunContext, header: seq<string>, accts: seq<Row>, runDate: string, effDate: string): (r: Result<seq<CsvRow>, Fault>)
    ensures r.Ok? <==> Decide(ctx, accts).Ok? && HeaderCovered(header, accts)
    ensures r.Ok? ==> |r.value| >= 12 && r.value[..4] == TitleBlock(runDate, effDate) && r.value[|r.value| - 1] == [EndMarker]
    ensures r.Ok? ==> r == AuditLog(header, ProcessRecords(ctx, accts).value, runDate, effDate)
  {
    var recs :- ProcessRecords(ctx, accts);
    CoveredMeansComplete(ctx, header, accts);
    AuditLog(header, recs, runDate, effDate)
  }

  lemma CoveredMeansComplete(ctx: RunContext, header: seq<string>, accts: seq<Row>)
    requires ProcessRecords(ctx, accts).Ok?
    ensures AllComplete(header, ProcessRecords(ctx, accts).value) <==> HeaderCovered(header, accts)
  {
    var recs := ProcessRecords(ctx, accts).value;
    assert forall i :: 0 <= i < |accts| ==> recs[i].row == accts[i];
    if HeaderCovered(header, accts) {
      forall i | 0 <= i < |recs| ensures Complete(header, recs[i]) {
        assert recs[i].row == accts[i];
      }
    }
    if AllComplete(header, recs) {
      forall i, k | 0 <= i < |accts| && 0 <= k < |header|
        ensures header[k] == ResultKey || header[k] == ExceptionKey || header[k] in accts[i]
      {
        assert Complete(header, recs[i]);
        assert HasField(recs[i], header[k]);
      }
    }
  }

  /** The "EMAILS SENT" section holds only sent and already-sent accounts, and
      the "EXCEPTIONS" section only the skipped and unsent ones. */
  lemma SectionResults(ctx: RunContext, accts: seq<Row>)
    requires ProcessRecords(ctx, accts).Ok?
    ensures forall x :: x in Filter(ProcessRecords(ctx, accts).value, false) ==>
      x.result in {SentMessage, AlreadySentMessage}
    ensures forall x :: x in Filter(ProcessRecords(ctx, accts).value, true) ==>
      x.result in {InvalidAddressMessage, HasBalanceMessage, ActiveNoteMessage, DisabledMessage, FailedMessage}
  {
    var recs := ProcessRecords(ctx, accts).value;
    FilterMembers(recs, false);
    FilterMembers(recs, true);
    forall x | x in recs ensures x.result in ResultTexts && (x.exception <==> x.result in ExceptionTexts) {
      var i :| 0 <= i < |recs| && recs[i] == x;
    }
  }

  /** One step of the pass: the ledger after `n + 1` accounts extends the one
      after `n` by the classification of account `n`. */
  lemma DecideStep(ctx: RunContext, accts: seq<Row>, n: nat)
    requires n < |accts| && Decide(ctx, accts[..n]).Ok?
    requires Classify(ctx, Decide(ctx, accts[..n]).value.seen, accts[n], n).Ok?
    ensures
      var prev := Decide(ctx, accts[..n]).value;
      var d := Classify(ctx, prev.seen, accts[n], n).value;
      Decide(ctx, accts[..n + 1]) ==
        Ok(Ledger(prev.decisions + [d], if d.Attempted? then prev.seen + {EmailOf(accts[n])} else prev.seen))
  {
    assert accts[..n + 1][..n] == accts[..n];
    assert accts[..n + 1][n] == accts[n];
  }

  /** The closed-account run of the test suite: eight accounts with distinct
      addresses, all carrying a member name and e-mail date; account 5 has an
      invalid address, account 6 a balance of 1000, account 7 an 8FDI note
      whose inactive date lies on a later day, and no other account an
      inactive date. Sending is enabled and the transport returns normally. */
  predicate TestAccounts(ctx: RunContext, accts: seq<Row>) {
    && |accts| == 8
    && !ctx.settings.localEnvironment && SendEmailEnabled(ctx.settings.sendEmailYn)
    && (forall i :: 0 <= i < 8 ==> ctx.transportOk(i))
    && (forall i :: 0 <= i < 8 ==> MemberNameColumn in accts[i] && EmailDateColumn in accts[i])
    && (forall i, j :: 0 <= i < j < 8 ==> EmailOf(accts[i]) != EmailOf(accts[j]))
    && (forall i :: 0 <= i < 8 && i != 5 ==> ValidateEmail(EmailOf(accts[i]), ctx.acceptsAddress))
    && !ValidateEmail(EmailOf(accts[5]), ctx.acceptsAddress)
    && (forall i :: 0 <= i < 8 && i != 6 ==> Get(accts[i], BalanceColumn) == Number(0))
    && Get(accts[6], BalanceColumn) == Number(1000)
    && (forall i :: 0 <= i < 7 ==> Get(accts[i], InactiveDateColumn) == Null)
    && Get(accts[7], NoteClassColumn) == Text(FdiNoteClass)
    && Get(accts[7], InactiveDateColumn).Text? && Get(accts[7], InactiveDateColumn).text != ""
    && ctx.parseDate(Get(accts[7], InactiveDateColumn).text).Some?
    && ctx.parseDate(Get(accts[7], InactiveDateColumn).text).value > ctx.clock(7).day
  }

  /** With distinct addresses, no account meets its own address in the set
      of addresses already attempted. */
  lemma FreshAddress(ctx: RunContext, accts: seq<Row>, n: nat)
    requires n < |accts| && Decide(ctx, accts[..n]).Ok?
    requires forall i, j :: 0 <= i < j < |accts| ==> EmailOf(accts[i]) != EmailOf(accts[j])
    ensures EmailOf(accts[n]) !in Decide(ctx, accts[..n]).value.seen
  {
    SeenMeaning(ctx, accts[..n]);
    forall j | 0 <= j < n ensures EmailOf(accts[..n][j]) != EmailOf(accts[n]) {
      assert accts[..n][j] == accts[j];
    }
  }

  /** The notice that goes out to account `i` of the test run. */
  function Delivered(ctx: RunContext, accts: seq<Row>, i: nat): Disposition
    requires i < |accts|
  {
    Attempted(SendResult(true, SentMessage, Some(Recipient(ctx.settings, EmailOf(accts[i])))))
  }

  /** Accounts 0-4 of the test run are each sent a notice. */
  lemma TestRunSends(ctx: RunContext, accts: seq<Row>)
    requires TestAccounts(ctx, accts)
    ensures Decide(ctx, accts[..5]).Ok?
    ensures Decide(ctx, accts[..5]).value.decisions == seq(5, k requires 0 <= k < 5 => Delivered(ctx, accts, k))
  {
    assert accts[..0] == [];
    var i := 0;
    while i < 5
      invariant 0 <= i <= 5
      invariant Decide(ctx, accts[..i]).Ok?
      invariant Decide(ctx, accts[..i]).value.decisions == seq(i, k requires 0 <= k < i => Delivered(ctx, accts, k))
    {
      FreshAddress(ctx, accts, i);
      DecideStep(ctx, accts, i);
      i := i + 1;
    }
  }

  /** A skipped account extends the decisions without touching the set of
      addresses attempted. */
  lemma SkipStep(ctx: RunContext, accts: seq<Row>, n: nat, d: Disposition)
    requires n < |accts| && Decide(ctx, accts[..n]).Ok? && !d.Attempted?
    requires Classify(ctx, Decide(ctx, accts[..n]).value.seen, accts[n], n) == Ok(d)
    ensures Decide(ctx, accts[..n + 1]).Ok?
    ensures Decide(ctx, accts[..n + 1]).value.decisions == Decide(ctx, accts[..n]).value.decisions + [d]
  {
    DecideStep(ctx, accts, n);
  }

  /** Accounts 5-7 of the test run are skipped, for the address, the balance
      and the note in turn. */
  lemma TestRunSkips(ctx: RunContext, accts: seq<Row>)
    requires TestAccounts(ctx, accts)
    ensures Decide(ctx, accts).Ok? && Decide(ctx, accts[..5]).Ok?
    ensures Decide(ctx, accts).value.decisions ==
      Decide(ctx, accts[..5]).value.decisions + [InvalidAddress, HasBalance, ActiveNote]
  {
    TestRunSends(ctx, accts);
    var d5 := Decide(ctx, accts[..5]).value.decisions;
    assert ValidateEmail(EmailOf(accts[6]), ctx.acceptsAddress) && ValidateEmail(EmailOf(accts[7]), ctx.acceptsAddress);
    assert Get(accts[7], BalanceColumn) == Number(0);
    FreshAddress(ctx, accts, 5);
    SkipStep(ctx, accts, 5, InvalidAddress);
    FreshAddress(ctx, accts, 6);
    SkipStep(ctx, accts, 6, HasBalance);
    FreshAddress(ctx, accts, 7);
    SkipStep(ctx, accts, 7, ActiveNote);
    assert accts[..8] == accts;
  }

  lemma {:induction false} TransportCallsCount(ds: seq<Disposition>, n: nat)
    requires n <= |ds|
    requires forall k :: 0 <= k < n ==> ds[k].Attempted? && ds[k].send.transported.Some?
    requires forall k :: n <= k < |ds| ==> !ds[k].Attempted?
    ensures TransportCalls(ds) == n
    decreases |ds|
  {
    if |ds| > 0 {
      var m := |ds| - 1;
      TransportCallsCount(ds[..m], if n <= m then n else m);
    }
  }

  /** The decisions of the test run, and the five transport calls. */
  lemma TestRunDecisions(ctx: RunContext, accts: seq<Row>)
    requires TestAccounts(ctx, accts)
    ensures Decide(ctx, accts).Ok?
    ensures var ds := Decide(ctx, accts).value.decisions;
      && |ds| == 8
      && (forall k :: 0 <= k < 5 ==> ds[k] == Delivered(ctx, accts, k))
      && ds[5] == InvalidAddress && ds[6] == HasBalance && ds[7] == ActiveNote
      && TransportCalls(ds) == 5
  {
    TestRunSends(ctx, accts);
    TestRunSkips(ctx, accts);
    TransportCallsCount(Decide(ctx, accts).value.decisions, 5);
  }

  /** The test run: five notices go out, the report lists accounts 0-4 under
      "EMAILS SENT" and accounts 5-7 under "EXCEPTIONS". */
  lemma TestRun(ctx: RunContext, accts: seq<Row>)
    requires TestAccounts(ctx, accts)
    ensures Decide(ctx, accts).Ok?
    ensures TransportCalls(Decide(ctx, accts).value.decisions) == 5
    ensures ProcessRecords(ctx, accts).Ok?
    ensures var recs := ProcessRecords(ctx, accts).value;
      && (forall i :: 0 <= i < 5 ==> recs[i].result == SentMessage && !recs[i].exception)
      && recs[5].result == InvalidAddressMessage && recs[5].exception
      && recs[6].result == HasBalanceMessage && recs[6].exception
      && recs[7].result == ActiveNoteMessage && recs[7].exception
      && Filter(recs, false) == recs[..5]
      && Filter(recs, true) == recs[5..]
  {
    TestRunDecisions(ctx, accts);
    var recs := ProcessRecords(ctx, accts).value;
    assert |recs| == 8;
    FilterSplit(recs, 5);
  }

  /** The report of the test run, read back row by row: the title block, the
      "EMAILS SENT" heading, the header and accounts 0-4, two blank rows, the
      "EXCEPTIONS" heading, the header and accounts 5-7, a blank row and `END`.
      The header may name the classifier's keys as well as account columns. */
  lemma TestRunReport(ctx: RunContext, accts: seq<Row>, header: seq<string>, runDate: string, effDate: string)
    requires TestAccounts(ctx, accts)
    requires HeaderCovered(header, accts)
    ensures Run(ctx, header, accts, runDate, effDate).Ok?
    ensures var log := Run(ctx, header, accts, runDate, effDate).value;
      var recs := ProcessRecords(ctx, accts).value;
      var sent, flagged := recs[..5], recs[5..];
      && |log| == 20
      && log[..4] == TitleBlock(runDate, effDate)
      && log[4] == [SentHeading] && log[5] == header
      && (forall i :: 0 <= i < 5 ==> RenderRecord(header, sent[i]) == Ok(log[6 + i]))
      && log[11] == [] && log[12] == []
      && log[13] == [ExceptionsHeading] && log[14] == header
      && (forall i :: 0 <= i < 3 ==> RenderRecord(header, flagged[i]) == Ok(log[15 + i]))
      && log[18] == [] && log[19] == [EndMarker]
  {
    TestRun(ctx, accts);
    var recs := ProcessRecords(ctx, accts).value;
    CoveredMeansComplete(ctx, header, accts);
    ReportHalves(header, recs, runDate, effDate, 5);
    AssembledLayout(header, recs[..5], recs[5..], runDate, effDate);
  }

  /** A data cell of a column the account carries, other than the two keys
      the classifier adds, renders that column's value. */
  lemma ColumnCell(ctx: RunContext, accts: seq<Row>, i: nat, field: string)
    requires ProcessRecords(ctx, accts).Ok? && i < |accts|
    requires field in accts[i] && field != ResultKey && field != ExceptionKey
    ensures Cell(ProcessRecords(ctx, accts).value[i], field) == Ok(Render(accts[i][field]))
  {
  }

  /** The `RESULT` cell of a report row is the text of the account's
      decision, and its `EXCPYN` cell is "True" exactly for the five
      exception texts. */
  lemma ClassifierCells(ctx: RunContext, accts: seq<Row>, i: nat)
    requires ProcessRecords(ctx, accts).Ok? && i < |accts|
    ensures var rec := ProcessRecords(ctx, accts).value[i];
      var d := Decide(ctx, accts).value.decisions[i];
      && Cell(rec, ResultKey) == Ok(ResultText(d))
      && Cell(rec, ExceptionKey) == Ok(BoolText(IsException(d)))
      && (Cell(rec, ExceptionKey) == Ok("True") <==> ResultText(d) in ExceptionTexts)
  {
  }
}
