/** The closed-account rows the job works on, as the database driver hands
    them over: one mapping from column name to value per account. */
module Records {
  import opened Strings

  /** A column value: Python `None`, a `str`, or an `int`. */
  datatype Value = Null | Text(text: string) | Number(number: int)

  type Row = map<string, Value>

  const EmailColumn := "EMAILADDR"
  const BalanceColumn := "BALANCE"
  const NoteClassColumn := "FDI_NOTECLASSCD"
  const InactiveDateColumn := "FDI_INACTIVE_DATE"
  const MemberNameColumn := "MEMBERNAME"
  const EmailDateColumn := "EMAILDATE"

  /** The two keys the classifier adds to every row. */
  const ResultKey := "RESULT"
  const ExceptionKey := "EXCPYN"

  /** `row.get(column)`: a missing column reads as `None`. */
  function Get(row: Row, column: string): Value {
    if column in row then row[column] else Null
  }

  /** Python truthiness of a value. */
  predicate Truthy(v: Value) {
    match v
    case Null => false
    case Text(s) => s != ""
    case Number(n) => n != 0
  }

  /** `str(value)` as the csv writer renders it (`None` is written empty). */
  function Render(v: Value): string {
    match v
    case Null => ""
    case Text(s) => s
    case Number(n) => IntToString(n)
  }

  /** What can be raised while the accounts are processed or reported, and
      aborts the run. */
  datatype Fault =
    | BadInactiveDate(value: Value)   // `strptime` rejects the note's inactive date
    | MissingColumn(column: string)   // `row[column]` on a column the row lacks

  /** A row after classification: the row itself, untouched, with the
      `RESULT` text and the `EXCPYN` flag that were added to it. */
  datatype AuditRecord = AuditRecord(row: Row, result: string, exception: bool)
}
