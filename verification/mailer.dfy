/** The decision whether, and to whom, a member notice is handed to the mail
    transport, and what the classifier records about it. */
module Mailer {
  import opened Results
  import opened Strings
  import opened Records

  /** The run's settings that bear on sending: whether the job runs in a
      local development environment (no scheduler installation found), the
      `SEND_EMAIL_YN` argument, and the optional `TEST_EMAIL_ADDR` override. */
  datatype SendSettings = SendSettings(localEnvironment: bool, sendEmailYn: string, testEmailAddr: Option<string>)

  const SentMessage := "Email Sent"
  const DisabledMessage := "Email Send Disabled"
  const FailedMessage := "Email Failed"

  /** What `send_email` returns, together with the recipient that was handed
      to the transport (`None` when the transport was not touched). */
  datatype SendResult = SendResult(successful: bool, message: string, transported: Option<Value>)

  /** `SEND_EMAIL_YN.upper() == "Y"`. */
  function SendEmailEnabled(sendEmailYn: string): bool {
    Upper(sendEmailYn) == "Y"
  }

  /** The toggle is on for exactly the two spellings of yes. */
  lemma SendEmailEnabledMeaning(sendEmailYn: string)
    ensures SendEmailEnabled(sendEmailYn) <==> sendEmailYn == "Y" || sendEmailYn == "y"
  {
    if SendEmailEnabled(sendEmailYn) {
      assert |sendEmailYn| == 1;
      assert Upper(sendEmailYn)[0] == UpperChar(sendEmailYn[0]);
      assert UpperChar(sendEmailYn[0]) == 'Y';
      assert sendEmailYn == [sendEmailYn[0]];
    } else {
      assert Upper("Y") == "Y" && Upper("y") == "Y";
    }
  }

  /** The address the notice goes to: the override when one is configured
      (a non-empty text), the account's address otherwise. */
  function Recipient(settings: SendSettings, email: Value): (to: Value)
    ensures settings.testEmailAddr.Some? && settings.testEmailAddr.value != "" ==> to == Text(settings.testEmailAddr.value)
    ensures settings.testEmailAddr.None? || settings.testEmailAddr.value == "" ==> to == email
  {
    match settings.testEmailAddr
    case Some(addr) => if addr != "" then Text(addr) else email
    case None => email
  }

  /** `send_email` for one account row. The notice body is rendered first,
      which subscripts `MEMBERNAME` and `EMAILDATE` and so raises on a row
      lacking either, whether or not sending is enabled. Then the send is
      skipped when the job runs locally or the toggle is off; otherwise the
      transport runs, `transportOk` telling whether it returned normally. */
  function SendEmail(settings: SendSettings, row: Row, transportOk: bool): (r: Result<SendResult, Fault>)
    ensures r.Err? <==> MemberNameColumn !in row || EmailDateColumn !in row
    ensures r.Err? ==> r.error == MissingColumn(if MemberNameColumn !in row then MemberNameColumn else EmailDateColumn)
    ensures r.Ok? ==> (r.value.successful <==> r.value.message == SentMessage)
    ensures r.Ok? ==> r.value.message in {SentMessage, DisabledMessage, FailedMessage}
    ensures r.Ok? ==>
      (r.value.message == DisabledMessage <==> settings.localEnvironment || !SendEmailEnabled(settings.sendEmailYn))
    ensures r.Ok? ==> (r.value.transported.None? <==> r.value.message == DisabledMessage)
    ensures r.Ok? && r.value.transported.Some? ==>
      && r.value.transported.value == Recipient(settings, Get(row, EmailColumn))
      && (r.value.successful <==> transportOk)
  {
    var to := Recipient(settings, Get(row, EmailColumn));
    if MemberNameColumn !in row then Err(MissingColumn(MemberNameColumn))
    else if EmailDateColumn !in row then Err(MissingColumn(EmailDateColumn))
    else if settings.localEnvironment || !SendEmailEnabled(settings.sendEmailYn) then
      Ok(SendResult(false, DisabledMessage, None))
    else if transportOk then
      Ok(SendResult(true, SentMessage, Some(to)))
    else
      Ok(SendResult(false, FailedMessage, Some(to)))
  }
}
