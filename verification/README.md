# Closed consumer loan e-mail job, modelled in Dafny

`cns_closed_accts_email.py` is a batch job. It fetches the consumer loan
accounts closed in a window, limited to a configured list of minor codes.
Each account is then either sent a "your loan is closed" notice or skipped
for a reason. Finally the job writes a CSV audit report that lists the
accounts in two sections: "EMAILS SENT" and "EXCEPTIONS".

This project models the deterministic core of the job as pure functions:

- **`MinorCodes`** models `format_minor_codes`, which turns the
  comma-separated `MINOR_CODES` argument into the quoted list spliced into
  the query's `IN` clause. `Strings` supplies the Python `str` operations it
  uses: `split`, `strip`, `upper` and `join`.
- **`Notes`** models `is_fdi`, the active 8FDI note test. "Now" and
  `strptime` are parameters.
- **`Mailer`** models `send_email` and `send_email_enabled`:
  - whether the notice is handed to the transport, and to whom;
  - the `(successful, message)` pair the function returns.

  The transport's outcome is a parameter.
- **`Classifier`** models `process_records`, the first-match rule chain:
  1. already sent;
  2. invalid address;
  3. balance;
  4. active 8FDI note;
  5. send.

  The set of attempted addresses is threaded through a fold over the
  accounts. Each row gets its `RESULT` text and `EXCPYN` flag.
- **`Audit`** models `write_audit_log` and `write_csv`: the report as a
  sequence of CSV rows.
- **`Pipeline`** joins the two steps, as `run` does. It also states the
  eight-account run that the job's test suite checks.

A row is a map from column name to `Value`, where `Value` is `None`, a
`str` or an `int`. A Python exception that escapes and aborts the run is an
`Err(Fault)`. `Fault` has two constructors, which cover three situations:

- `BadInactiveDate`: an 8FDI note whose inactive date is not text or does
  not parse, so that `strptime` raises (line 251);
- `MissingColumn`: a row that lacks `MEMBERNAME` or `EMAILDATE` when its
  notice is rendered (lines 293-294);
- `MissingColumn`: a classified row that lacks a configured report column
  (line 224).

The first two are raised inside `process_records`. The pass then stops at
that account. Notices already sent for earlier accounts stay sent, and
`write_audit_log` is never reached, so no report lists them.
`Classifier.DecideFails` and `Classifier.DecideFault` state this.

The outside world enters only through parameters:

- the send settings: the `SEND_EMAIL_YN` toggle, the `TEST_EMAIL_ADDR`
  override and the local-environment flag;
- the address verdict of the `email_validator` library;
- `strptime`, as a function from text to an optional moment;
- the clock reading for each account;
- the transport outcome for each account;
- the configured `csv_header`;
- the run date and the `EFFDATE` argument.

### Behaviours of the code worth knowing

- **Same-day inactive dates.** `is_fdi` compares midnight of the inactive
  date with the current date and time (line 252). So an 8FDI note whose
  inactive date is today counts as inactive, except at exactly midnight.
  `Notes.ActiveByDay` states this.
- **Repeated addresses.** Accounts are matched on `EMAILADDR` alone. In the
  test suite's run the eight accounts have eight distinct addresses, and
  account 5 is skipped because its address is invalid.
- **When the address is recorded.** The address is added to the
  attempted-address set after `send_email` returns (line 184). It is added
  whatever the outcome: sent, disabled or failed.
- **Missing name columns.** The notice body is rendered before the
  disabled check (lines 263-268). So a row without `MEMBERNAME` or
  `EMAILDATE` aborts the run even when sending is disabled.

## Model

| member | source | states |
|---|---|---|
| MinorCodes.FormatMinorCodes | cns_closed_accts_email.py:325-331 | the list is empty exactly when the value is empty; otherwise the comma pieces of the list are, one for one, the comma pieces of the value, each stripped, upper-cased and single-quoted |
| MinorCodes.FormatJoined | cns_closed_accts_email.py:329-331 | formatting a value written out from comma-free codes gives the comma-join of the codes' quoted forms |
| MinorCodes.FormatItems | cns_closed_accts_email.py:329-330 | there is one item per comma-separated piece, and item k is `'` + upper(strip(piece k)) + `'` |
| MinorCodes.FormatDependsOnlyOnNormalized | cns_closed_accts_email.py:330 | two non-empty values whose pieces agree after strip and upper format identically |
| MinorCodes.FormatIgnoresCase | cns_closed_accts_email.py:330 | upper-casing the value first does not change the list |
| MinorCodes.FormatIgnoresPadding | cns_closed_accts_email.py:330 | whitespace around any of the codes does not change the list, provided the value is non-empty |
| MinorCodesExamples.FormatLowerCaseList | test_cns_closed_accts_email.py:247-250 | `nacl,nail,uaoe,uacl,inrv,inau` formats to `'NACL','NAIL','UAOE','UACL','INRV','INAU'` |
| MinorCodesExamples.FormatUpperCaseList | test_cns_closed_accts_email.py:252-255 | the upper-case list formats to the same quoted list |
| MinorCodesExamples.FormatMessyWhitespace | test_cns_closed_accts_email.py:257-260 | the list padded with spaces, tabs and newlines formats to the same quoted list |
| MinorCodesExamples.FormatEmptyList | test_cns_closed_accts_email.py:262 | the empty value formats to the empty list |
| Notes.IsFdi | cns_closed_accts_email.py:242-252 | the note is active exactly when: the class is `8FDI`, the inactive date is a non-empty text, that text parses, and its midnight is not before now. A different class or an empty date gives false. A truthy date that is not text or does not parse aborts the run |
| Notes.ActiveByDay | cns_closed_accts_email.py:251-252 | a later inactive day is active and an earlier one is not; the current day is active only when now is exactly midnight |
| Mailer.SendEmailEnabledMeaning | cns_closed_accts_email.py:339-340 | sending is enabled for exactly `Y` and `y` |
| Mailer.Recipient | cns_closed_accts_email.py:257-259 | a non-empty test address replaces the account's address; otherwise the account's address is used |
| Mailer.SendEmail | cns_closed_accts_email.py:255-275 | the call aborts exactly when `MEMBERNAME` or `EMAILDATE` is missing, naming the first one missing. Otherwise the message is one of Sent, Send Disabled or Failed. It is Disabled exactly when the environment is local or the toggle is off, and then the transport is not used. When the transport is used, it gets the chosen recipient, and the send is successful exactly when the transport returns normally. Successful means exactly "Email Sent" |
| Classifier.ValidateEmailGuard | cns_closed_accts_email.py:231-239 | a missing or empty address is invalid; any other address is as valid as the library says |
| Classifier.BalanceMeaning | cns_closed_accts_email.py:172 | `(balance or 0) != 0` holds exactly for truthy balances; `None` counts as zero |
| Classifier.Classify | cns_closed_accts_email.py:163-186 | the rules apply in order and the first match wins: seen address, then invalid address, then nonzero balance, then active note. A note check that raises aborts with its fault. When no rule matches, a send is attempted, and the outcome is what `send_email` returned, or its fault when it raises. Every outcome is well formed |
| Classifier.Decide | cns_closed_accts_email.py:158-186 | one well-formed decision per account |
| Classifier.FailsAtPrefix | cns_closed_accts_email.py:159-186 | whether account k raises depends only on accounts 0 to k |
| Classifier.DecideFails | cns_closed_accts_email.py:159-186 | the pass aborts exactly when some account k raises while it is classified against the addresses attempted for accounts 0 to k-1, which were all decided |
| Classifier.DecideFault | cns_closed_accts_email.py:159-186 | when account k raises, the pass fails with that account's fault |
| Classifier.FailsAtOnce | cns_closed_accts_email.py:159-186 | at most one account raises, since the accounts after it are never classified |
| Classifier.SeenMeaning | cns_closed_accts_email.py:183-184 | after the pass, the attempted-address set holds exactly the addresses of the accounts a send was attempted for |
| Classifier.DecisionAt | cns_closed_accts_email.py:159-186 | account i is classified against the set of addresses attempted for accounts 0 to i-1 |
| Classifier.AlreadySentExactlyForRepeats | cns_closed_accts_email.py:163-165 | an account is "Email Already Sent" exactly when an earlier account with the same address had a send attempted, whatever that send's outcome |
| Classifier.AtMostOneAttemptPerAddress | cns_closed_accts_email.py:182-184 | no two accounts with the same address both have a send attempted |
| Classifier.SeenAddressesAreValid | cns_closed_accts_email.py:167-184 | only a non-empty address the validator accepts is ever recorded as attempted |
| Classifier.ProcessRecords | cns_closed_accts_email.py:155-186 | the pass fails exactly when the fold does. Otherwise it returns one record per account, with the row unchanged and the decision's `RESULT` text, which is one of the seven texts. `EXCPYN` is set exactly for: invalid address, balance, note, send disabled and send failed |
| Audit.Cell | cns_closed_accts_email.py:224 | a cell can be looked up exactly when the field is `RESULT`, `EXCPYN` or a column of the row; otherwise the failure names that field. `RESULT` gives the result text and `EXCPYN` gives `True` or `False`; both take precedence over a column of the same name. Any other column gives its rendered value |
| Audit.RenderRecord | cns_closed_accts_email.py:224 | a data row has one cell per header field, in header order. It fails exactly when some field cannot be looked up, and the failure names a header field the record lacks |
| Audit.RenderRecords | cns_closed_accts_email.py:223-224 | one data row per record, in order; fails exactly when some record is incomplete |
| Audit.Section | cns_closed_accts_email.py:219-228 | an empty section is `NONE` and a blank row. A non-empty one is the header row, the data rows in order, then a blank row. It fails exactly when some record is incomplete |
| Audit.FilterMembers | cns_closed_accts_email.py:202-207 | a section holds exactly the records whose flag matches it |
| Audit.FilterConcat | cns_closed_accts_email.py:202 | sectioning distributes over concatenation, so input order is kept within each section |
| Audit.FilterPartition | cns_closed_accts_email.py:202-207 | the two sections together hold every record exactly as often as the input does |
| Audit.FilterSplit | cns_closed_accts_email.py:202-207 | when the unflagged records all come first, the sections are the two halves of the input |
| Audit.CompleteBySection | cns_closed_accts_email.py:203-208 | every record is complete exactly when every record of both sections is |
| Audit.Assemble | cns_closed_accts_email.py:196-210 | the report is: the title block, `EMAILS SENT`, the sent section, a blank row, `EXCEPTIONS`, the exception section, then `END` |
| Audit.AuditLog | cns_closed_accts_email.py:189-210 | the report fails exactly when some record lacks a header field. Otherwise it is the title block and the headings, with the sent section and the exception section at the stated positions, and it ends with `END` |
| Audit.ReportHalves | cns_closed_accts_email.py:202-208 | when the unflagged records come first, the report is assembled from the sections of the two halves |
| Audit.AssembledLayout | cns_closed_accts_email.py:196-210 | with both sections non-empty, gives the row index of every heading, header, data row and blank row |
| Pipeline.Run | cns_closed_accts_email.py:56-57 | the run fails exactly when the pass raises, or when a header field is neither a classifier key nor a column of every account. A report that is written opens with the title block and closes with `END` |
| Pipeline.CoveredMeansComplete | cns_closed_accts_email.py:221-224 | the classified records are complete exactly when every header field is a classifier key or a column of every account |
| Pipeline.SectionResults | cns_closed_accts_email.py:201-208 | the sent section holds only "Email Sent" and "Email Already Sent" rows; the exception section holds only the other five results |
| Pipeline.ColumnCell | cns_closed_accts_email.py:224 | a report cell for an account's own column is that column's value as the csv writer renders it |
| Pipeline.ClassifierCells | cns_closed_accts_email.py:160-186 | a report row's `RESULT` cell is the text of the account's decision; its `EXCPYN` cell is the decision's flag, and it is `True` exactly for the five exception texts |
| Pipeline.TestRunDecisions | test_cns_closed_accts_email.py:174-175 | in the test run, accounts 0-4 are sent notices and accounts 5, 6 and 7 are skipped for address, balance and note; the transport is used five times |
| Pipeline.TestRun | test_cns_closed_accts_email.py:149-178 | in the test run, accounts 0-4 are "Email Sent" without the flag; 5, 6 and 7 carry the flag with their skip reasons; the sent section is accounts 0-4 and the exception section is 5-7 |
| Pipeline.TestRunReport | test_cns_closed_accts_email.py:181-216 | for any header whose fields are each a classifier key or a column of every account, the report of the test run has 20 rows, in the order the test reads them back |

## Left out

- SMTP transport, message building and the Jinja template (`send_smtp_request`, `generate_email_message`, `generate_email_content`). These are network and foreign libraries.
  - The transport is reduced to whether it returns normally for account `i`.
  - Template rendering is reduced to its two `KeyError`s on `MEMBERNAME` and `EMAILDATE`.
  - Other template errors are not modelled.
- The `email_validator` library: an uninterpreted predicate `acceptsAddress`. Only the empty-or-missing guard in `validate_email` is local logic.
- Database access and the query text (`get_closed_accounts`, `execute_sql_select`, `dna_db_connect`). This is I/O through the Oracle driver. The accounts are the input sequence, and the formatted minor-code list is not spliced into a query.
- Clock, time zone and date parsing (`today_date`, `datetime.now`, `strptime`). These become the `runDate` text, the per-account `clock` reading and the `parseDate` function.
- `is_local_environment` reads an environment variable. It becomes the `localEnvironment` setting.
- Configuration plumbing: argument parsing, the AppWorx enum and YAML loading. The configured `csv_header` is the `header` input, and a configuration without that key is not modelled.
- CSV quoting and file writing. Rows are sequences of cell texts. The partial file left behind when a fault aborts the report is not modelled either.
- Notices sent before a run aborts. A failed pass returns only its fault, not the sends already made. `Classifier.DecideFails` places them: they are the attempted sends among the accounts before the one that raised.
- Progress messages printed to standard output.
- Column values other than `None`, `str` and `int`, such as the `Decimal`, `float` or `datetime` values a driver may return. `Value` has those three cases only.
- Strings.Upper: upper-cases the ASCII letters only. Python's `str.upper` also maps the other cased Unicode letters, some of them to two characters. MinorCodes.Normalize and everything built on it inherit this.
- MinorCodes.FormatMinorCodes: takes a string. The `None` input the Python guard would also map to the empty list is not modelled, because the argument is always a string.
- The job has no batch update of the accounts, no commit or rollback mode, no full-cleanup selection and no guard against an existing output file. The report file is opened for writing and overwritten.
