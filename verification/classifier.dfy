/** `process_records`: one pass over the closed accounts, in query order,
    deciding for each what happens to it and threading through the pass the
    set of addresses a send has been attempted for. */
module Classifier {
  import opened Results
  import opened Records
  import opened Notes
  import opened Mailer

  /** What the decisions depend on besides the rows: the send settings, the
      address-syntax verdict of the validator library on a non-empty value,
      `strptime`, the clock reading taken when account `i` reaches the note
      check, and whether the transport returns normally for account `i`. */
  datatype RunContext = RunContext(
    settings: SendSettings,
    acceptsAddress: Value -> bool,
    parseDate: string -> Option<int>,
    clock: nat -> Moment,
    transportOk: nat -> bool)

  const AlreadySentMessage := "Email Already Sent"
  const InvalidAddressMessage := "Email Address Invalid"
  const HasBalanceMessage := "Account Has Balance"
  const ActiveNoteMessage := "Existing Active 8FDI Note"

  /** Every `RESULT` text the pass can write. */
  const ResultTexts := {AlreadySentMessage, InvalidAddressMessage, HasBalanceMessage, ActiveNoteMessage,
                        SentMessage, DisabledMessage, FailedMessage}

  /** The `RESULT` texts that come with `EXCPYN` set. */
  const ExceptionTexts := {InvalidAddressMessage, HasBalanceMessage, ActiveNoteMessage, DisabledMessage, FailedMessage}

  /** The outcome for one account: one of the four skips, or a send attempt
      with what `send_email` returned. */
  datatype Disposition =
    | AlreadySent
    | InvalidAddress
    | HasBalance
    | ActiveNote
    | Attempted(send: SendResult)

  function ResultText(d: Disposition): string {
    match d
    case AlreadySent => AlreadySentMessage
    case InvalidAddress => InvalidAddressMessage
    case HasBalance => HasBalanceMessage
    case ActiveNote => ActiveNoteMessage
    case Attempted(s) => s.message
  }

  function IsException(d: Disposition): bool {
    match d
    case AlreadySent => false
    case Attempted(s) => !s.successful
    case _ => true
  }

  /** A disposition that `send_email` could have produced. */
  predicate WellFormed(d: Disposition) {
    d.Attempted? ==>
      && d.send.message in {SentMessage, DisabledMessage, FailedMessage}
      && (d.send.successful <==> d.send.message == SentMessage)
  }

  /** `validate_email`: an empty or missing address is invalid without asking
      the validator library. */
  predicate ValidateEmail(email: Value, acceptsAddress: Value -> bool) {
    Truthy(email) && acceptsAddress(email)
  }

  /** A missing or empty address is rejected before the library is asked;
      any other address is judged by the library alone. */
  lemma ValidateEmailGuard(email: Value, acceptsAddress: Value -> bool)
    ensures email == Null || email == Text("") ==> !ValidateEmail(email, acceptsAddress)
    ensures Truthy(email) ==> (ValidateEmail(email, acceptsAddress) <==> acceptsAddress(email))
  {
  }

  /** `(balance or 0) != 0`. */
  predicate HasNonzeroBalance(balance: Value) {
    (if Truthy(balance) then balance else Number(0)) != Number(0)
  }

  /** The balance test holds exactly for truthy values: a missing or `None`
      balance counts as zero. */
  lemma BalanceMeaning(balance: Value)
    ensures HasNonzeroBalance(balance) <==> Truthy(balance)
    ensures balance == Null ==> !HasNonzeroBalance(balance)
    ensures balance.Number? ==> (HasNonzeroBalance(balance) <==> balance.number != 0)
  {
  }

  function EmailOf(row: Row): Value {
    Get(row, EmailColumn)
  }

  /** The rule chain for one account, first match winning: repeated address,
      invalid address, nonzero balance, active 8FDI note, otherwise a send. */
  function Classify(ctx: RunContext, seen: set<Value>, row: Row, index: nat): (r: Result<Disposition, Fault>)
    ensures r == Ok(AlreadySent) <==> EmailOf(row) in seen
    ensures r == Ok(InvalidAddress) <==> EmailOf(row) !in seen && !ValidateEmail(EmailOf(row), ctx.acceptsAddress)
    ensures r == Ok(HasBalance) <==>
      && EmailOf(row) !in seen && ValidateEmail(EmailOf(row), ctx.acceptsAddress)
      && HasNonzeroBalance(Get(row, BalanceColumn))
    ensures r == Ok(ActiveNote) <==>
      && EmailOf(row) !in seen && ValidateEmail(EmailOf(row), ctx.acceptsAddress)
      && !HasNonzeroBalance(Get(row, BalanceColumn))
      && IsFdi(row, ctx.clock(index), ctx.parseDate) == Ok(true)
    ensures (r.Ok? && r.value.Attempted?) || r.Err? ==>
      && EmailOf(row) !in seen && ValidateEmail(EmailOf(row), ctx.acceptsAddress)
      && !HasNonzeroBalance(Get(row, BalanceColumn))
      && IsFdi(row, ctx.clock(index), ctx.parseDate) != Ok(true)
    ensures r.Ok? && r.value.Attempted? ==>
      && IsFdi(row, ctx.clock(index), ctx.parseDate) == Ok(false)
      && SendEmail(ctx.settings, row, ctx.transportOk(index)) == Ok(r.value.send)
    ensures r.Ok? ==> WellFormed(r.value)
    ensures (&& EmailOf(row) !in seen && ValidateEmail(EmailOf(row), ctx.acceptsAddress)
             && !HasNonzeroBalance(Get(row, BalanceColumn))
             && IsFdi(row, ctx.clock(index), ctx.parseDate).Err?) ==>
      r == Err(IsFdi(row, ctx.clock(index), ctx.parseDate).error)
    ensures (&& EmailOf(row) !in seen && ValidateEmail(EmailOf(row), ctx.acceptsAddress)
             && !HasNonzeroBalance(Get(row, BalanceColumn))
             && IsFdi(row, ctx.clock(index), ctx.parseDate) == Ok(false)) ==>
      var send := SendEmail(ctx.settings, row, ctx.transportOk(index));
      r == if send.Ok? then Ok(Attempted(send.value)) else Err(send.error)
  {
    var email := EmailOf(row);
    if email in seen then Ok(AlreadySent)
    else if !ValidateEmail(email, ctx.acceptsAddress) then Ok(InvalidAddress)
    else if HasNonzeroBalance(Get(row, BalanceColumn)) then Ok(HasBalance)
    else
      var fdi :- IsFdi(row, ctx.clock(index), ctx.parseDate);
      if fdi then Ok(ActiveNote)
      else
        var send :- SendEmail(ctx.settings, row, ctx.transportOk(index));
        Ok(Attempted(send))
  }

  /** The state threaded through the pass: the dispositions so far and the
      addresses a send was attempted for. */
  datatype Ledger = Ledger(decisions: seq<Disposition>, seen: set<Value>)

  /** Some account before position `n` had a send attempted for `email`. */
  ghost predicate AttemptedBefore(accts: seq<Row>, decisions: seq<Disposition>, n: nat, email: Value)
    requires n <= |accts| && n <= |decisions|
  {
    exists j :: 0 <= j < n && decisions[j].Attempted? && EmailOf(accts[j]) == email
  }

  /** The loop of `process_records`, as a fold over the accounts in order. The
      first account that raises aborts the whole pass. */
  function Decide(ctx: RunContext, accts: seq<Row>): (r: Result<Ledger, Fault>)
    ensures r.Ok? ==> |r.value.decisions| == |accts|
    ensures r.Ok? ==> forall i :: 0 <= i < |accts| ==> WellFormed(r.value.decisions[i])
    decreases |accts|
  {
    if |accts| == 0 then Ok(Ledger([], {}))
    else
      var n := |accts| - 1;
      var prev :- Decide(ctx, accts[..n]);
      var d :- Classify(ctx, prev.seen, accts[n], n);
      var seen := if d.Attempted? then prev.seen + {EmailOf(accts[n])} else prev.seen;
      Ok(Ledger(prev.decisions + [d], seen))
  }

  /** Account `k` is where the pass raises: every account before it was
      decided, and classifying account `k` against the addresses attempted so
      far raises. */
  predicate FailsAt(ctx: RunContext, accts: seq<Row>, k: nat)
    requires k < |accts|
  {
    var prev := Decide(ctx, accts[..k]);
    prev.Ok? && Classify(ctx, prev.value.seen, accts[k], k).Err?
  }

  /** Whether an account fails does not depend on the accounts after it. */
  lemma FailsAtPrefix(ctx: RunContext, accts: seq<Row>, n: nat, k: nat)
    requires k < n <= |accts|
    ensures FailsAt(ctx, accts, k) <==> FailsAt(ctx, accts[..n], k)
  {
    assert accts[..n][..k] == accts[..k];
    assert accts[..n][k] == accts[k];
  }

  /** Once a prefix of the accounts has raised, the rest of the pass is skipped. */
  lemma DecideAfterFault(ctx: RunContext, accts: seq<Row>)
    requires |accts| > 0 && Decide(ctx, accts[..|accts| - 1]).Err?
    ensures Decide(ctx, accts) == Decide(ctx, accts[..|accts| - 1])
  {
  }

  /** With every earlier account decided, the pass raises exactly when the
      last account does, and with its fault. */
  lemma DecideLast(ctx: RunContext, accts: seq<Row>)
    requires |accts| > 0 && Decide(ctx, accts[..|accts| - 1]).Ok?
    ensures Decide(ctx, accts).Err? <==> FailsAt(ctx, accts, |accts| - 1)
    ensures FailsAt(ctx, accts, |accts| - 1) ==>
      Decide(ctx, accts) == Err(Classify(ctx, Decide(ctx, accts[..|accts| - 1]).value.seen, accts[|accts| - 1], |accts| - 1).error)
  {
  }

  /** A pass in which account `k` raises fails with that account's fault. */
  lemma {:induction false} DecideFault(ctx: RunContext, accts: seq<Row>, k: nat)
    requires k < |accts| && FailsAt(ctx, accts, k)
    ensures Decide(ctx, accts) == Err(Classify(ctx, Decide(ctx, accts[..k]).value.seen, accts[k], k).error)
    decreases |accts|
  {
    var n := |accts| - 1;
    if k == n {
      DecideLast(ctx, accts);
    } else {
      FailsAtPrefix(ctx, accts, n, k);
      DecideFault(ctx, accts[..n], k);
      assert accts[..n][..k] == accts[..k];
      assert accts[..n][k] == accts[k];
      DecideAfterFault(ctx, accts);
    }
  }

  /** The pass aborts exactly when some account raises while it is
      classified; `DecideFault` gives the fault and `FailsAtOnce` shows that
      account to be the only one. Sends already made for the accounts before
      it are not undone. */
  lemma {:induction false} DecideFails(ctx: RunContext, accts: seq<Row>)
    ensures Decide(ctx, accts).Err? <==> exists k :: 0 <= k < |accts| && FailsAt(ctx, accts, k)
    decreases |accts|
  {
    if |accts| > 0 {
      var n := |accts| - 1;
      DecideFails(ctx, accts[..n]);
      if Decide(ctx, accts[..n]).Err? {
        var k :| 0 <= k < n && FailsAt(ctx, accts[..n], k);
        FailsAtPrefix(ctx, accts, n, k);
        DecideAfterFault(ctx, accts);
      } else {
        forall k | 0 <= k < n ensures !FailsAt(ctx, accts, k) {
          FailsAtPrefix(ctx, accts, n, k);
        }
        DecideLast(ctx, accts);
      }
    }
  }

  /** At most one account raises: once one has, the later ones are never
      classified. */
  lemma FailsAtOnce(ctx: RunContext, accts: seq<Row>, j: nat, k: nat)
    requires j < k < |accts| && FailsAt(ctx, accts, j)
    ensures !FailsAt(ctx, accts, k)
  {
    FailsAtPrefix(ctx, accts, k, j);
    DecideFault(ctx, accts[..k], j);
  }

  /** `AttemptedBefore` looks only at the first `i` accounts and decisions. */
  lemma AttemptedBeforeAgrees(accts: seq<Row>, ds: seq<Disposition>, accts': seq<Row>, ds': seq<Disposition>, i: nat)
    requires i <= |accts| && i <= |ds| && i <= |accts'| && i <= |ds'|
    requires forall j :: 0 <= j < i ==> accts[j] == accts'[j] && ds[j] == ds'[j]
    ensures forall e :: AttemptedBefore(accts, ds, i, e) <==> AttemptedBefore(accts', ds', i, e)
  {
    forall e ensures AttemptedBefore(accts, ds, i, e) ==> AttemptedBefore(accts', ds', i, e) {
      if AttemptedBefore(accts, ds, i, e) {
        var j :| 0 <= j < i && ds[j].Attempted? && EmailOf(accts[j]) == e;
        assert ds'[j].Attempted? && EmailOf(accts'[j]) == e;
      }
    }
    forall e ensures AttemptedBefore(accts', ds', i, e) ==> AttemptedBefore(accts, ds, i, e) {
      if AttemptedBefore(accts', ds', i, e) {
        var j :| 0 <= j < i && ds'[j].Attempted? && EmailOf(accts'[j]) == e;
        assert ds[j].Attempted? && EmailOf(accts[j]) == e;
      }
    }
  }

  /** One more account adds its address exactly when a send was attempted. */
  lemma AttemptedBeforeStep(accts: seq<Row>, ds: seq<Disposition>, n: nat)
    requires n < |accts| && n < |ds|
    ensures forall e :: AttemptedBefore(accts, ds, n + 1, e) <==>
      AttemptedBefore(accts, ds, n, e) || (ds[n].Attempted? && EmailOf(accts[n]) == e)
  {
    forall e | AttemptedBefore(accts, ds, n + 1, e) && !(ds[n].Attempted? && EmailOf(accts[n]) == e)
      ensures AttemptedBefore(accts, ds, n, e)
    {
      var j :| 0 <= j < n + 1 && ds[j].Attempted? && EmailOf(accts[j]) == e;
    }
  }

  /** The set threaded through the pass holds exactly the addresses of the
      accounts a send was attempted for. */
  lemma {:induction false} SeenMeaning(ctx: RunContext, accts: seq<Row>)
    requires Decide(ctx, accts).Ok?
    ensures forall e :: e in Decide(ctx, accts).value.seen <==>
      AttemptedBefore(accts, Decide(ctx, accts).value.decisions, |accts|, e)
    decreases |accts|
  {
    if |accts| > 0 {
      var n := |accts| - 1;
      var prev := Decide(ctx, accts[..n]).value;
      var ds := Decide(ctx, accts).value.decisions;
      SeenMeaning(ctx, accts[..n]);
      assert ds == prev.decisions + [ds[n]];
      AttemptedBeforeAgrees(accts[..n], prev.decisions, accts, ds, n);
      AttemptedBeforeStep(accts, ds, n);
    }
  }

  /** Deciding a prefix of the accounts gives a prefix of the decisions. */
  lemma {:induction false} DecidePrefix(ctx: RunContext, accts: seq<Row>, k: nat)
    requires Decide(ctx, accts).Ok? && k <= |accts|
    ensures Decide(ctx, accts[..k]).Ok?
    ensures Decide(ctx, accts[..k]).value.decisions == Decide(ctx, accts).value.decisions[..k]
    decreases |accts|
  {
    if k == |accts| {
      assert accts[..k] == accts;
    } else {
      var n := |accts| - 1;
      assert accts[..n][..k] == accts[..k];
      DecidePrefix(ctx, accts[..n], k);
    }
  }

  /** Account `i` is classified against the addresses attempted before it. */
  lemma DecisionAt(ctx: RunContext, accts: seq<Row>, i: nat)
    requires Decide(ctx, accts).Ok? && i < |accts|
    ensures Decide(ctx, accts[..i]).Ok?
    ensures forall e :: e in Decide(ctx, accts[..i]).value.seen <==>
      AttemptedBefore(accts, Decide(ctx, accts).value.decisions, i, e)
    ensures Classify(ctx, Decide(ctx, accts[..i]).value.seen, accts[i], i) == Ok(Decide(ctx, accts).value.decisions[i])
  {
    var all := Decide(ctx, accts).value.decisions;
    DecidePrefix(ctx, accts, i + 1);
    DecidePrefix(ctx, accts, i);
    var upto := accts[..i + 1];
    assert upto[..i] == accts[..i];
    assert upto[i] == accts[i];
    var prev := Decide(ctx, accts[..i]).value;
    SeenMeaning(ctx, accts[..i]);
    AttemptedBeforeAgrees(accts[..i], prev.decisions, accts, all, i);
  }


  /** An account is skipped as "already sent" exactly when an earlier account
      with the same address had a send attempted, whatever that send's outcome. */
  lemma AlreadySentExactlyForRepeats(ctx: RunContext, accts: seq<Row>, i: nat)
    requires Decide(ctx, accts).Ok? && i < |accts|
    ensures Decide(ctx, accts).value.decisions[i] == AlreadySent <==>
      exists j :: 0 <= j < i && Decide(ctx, accts).value.decisions[j].Attempted? && EmailOf(accts[j]) == EmailOf(accts[i])
  {
    DecisionAt(ctx, accts, i);
  }

  /** At most one send is attempted per distinct address in a pass. */
  lemma AtMostOneAttemptPerAddress(ctx: RunContext, accts: seq<Row>, i: nat, j: nat)
    requires Decide(ctx, accts).Ok? && i < j < |accts|
    requires Decide(ctx, accts).value.decisions[i].Attempted?
    requires Decide(ctx, accts).value.decisions[j].Attempted?
    ensures EmailOf(accts[i]) != EmailOf(accts[j])
  {
    AlreadySentExactlyForRepeats(ctx, accts, j);
  }

  /** Only a non-empty address the validator accepts is ever marked as sent. */
  lemma SeenAddressesAreValid(ctx: RunContext, accts: seq<Row>, e: Value)
    requires Decide(ctx, accts).Ok? && e in Decide(ctx, accts).value.seen
    ensures ValidateEmail(e, ctx.acceptsAddress)
  {
    var ds := Decide(ctx, accts).value.decisions;
    SeenMeaning(ctx, accts);
    var j :| 0 <= j < |accts| && ds[j].Attempted? && EmailOf(accts[j]) == e;
    DecisionAt(ctx, accts, j);
  }

  function Stamp(row: Row, d: Disposition): AuditRecord {
    AuditRecord(row, ResultText(d), IsException(d))
  }

  /** `process_records`: every account gets exactly one `RESULT` and its
      `EXCPYN` flag, its other columns left as they were. The flag is set for
      the invalid-address, balance and note skips and for a send that did not
      go out, and for nothing else. */
  function ProcessRecords(ctx: RunContext, accts: seq<Row>): (r: Result<seq<AuditRecord>, Fault>)
    ensures r.Ok? <==> Decide(ctx, accts).Ok?
    ensures r.Ok? ==> |r.value| == |accts|
    ensures r.Ok? ==> forall i :: 0 <= i < |accts| ==>
      && r.value[i].row == accts[i]
      && r.value[i].result == ResultText(Decide(ctx, accts).value.decisions[i])
      && r.value[i].result in ResultTexts
      && (r.value[i].exception <==> r.value[i].result in ExceptionTexts)
  {
    var ledger :- Decide(ctx, accts);
    Ok(seq(|accts|, i requires 0 <= i < |accts| => Stamp(accts[i], ledger.decisions[i])))
  }

  /** The number of times the transport was invoked. */
  function TransportCalls(decisions: seq<Disposition>): nat
    decreases |decisions|
  {
    if |decisions| == 0 then 0
    else
      var last := decisions[|decisions| - 1];
      TransportCalls(decisions[..|decisions| - 1]) + if last.Attempted? && last.send.transported.Some? then 1 else 0
  }
}
