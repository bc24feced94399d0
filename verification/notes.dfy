/** The "existing active 8FDI note" test. */
module Notes {
  import opened Results
  import opened Records

  /** A naive local date-time: a day number and the microseconds elapsed
      since that day's midnight (the resolution of Python's `datetime`). */
  datatype Moment = Moment(day: int, micros: nat)

  predicate AtOrAfter(a: Moment, b: Moment) {
    a.day > b.day || (a.day == b.day && a.micros >= b.micros)
  }

  /** What `strptime` returns for a date: that day at 00:00:00.000000. */
  function Midnight(day: int): Moment {
    Moment(day, 0)
  }

  const FdiNoteClass := "8FDI"

  /** Whether the account carries an active 8FDI note. `now` is the clock
      reading taken for this check, and `parseDate` is `strptime` with the
      `%m/%d/%Y` format, giving the day of a well-formed date and `None` where
      `strptime` raises. A raise is not caught here: it aborts the run. */
  function IsFdi(row: Row, now: Moment, parseDate: string -> Option<int>): (r: Result<bool, Fault>)
    ensures Get(row, NoteClassColumn) != Text(FdiNoteClass) ==> r == Ok(false)
    ensures !Truthy(Get(row, InactiveDateColumn)) ==> r == Ok(false)
    ensures r == Ok(true) <==>
      && Get(row, NoteClassColumn) == Text(FdiNoteClass)
      && Get(row, InactiveDateColumn).Text?
      && Get(row, InactiveDateColumn).text != ""
      && parseDate(Get(row, InactiveDateColumn).text).Some?
      && var day := parseDate(Get(row, InactiveDateColumn).text).value;
         day > now.day || (day == now.day && now.micros == 0)
    ensures r.Err? <==>
      && Get(row, NoteClassColumn) == Text(FdiNoteClass)
      && Truthy(Get(row, InactiveDateColumn))
      && (!Get(row, InactiveDateColumn).Text? || parseDate(Get(row, InactiveDateColumn).text).None?)
    ensures r.Err? ==> r.error == BadInactiveDate(Get(row, InactiveDateColumn))
  {
    if Get(row, NoteClassColumn) != Text(FdiNoteClass) then Ok(false)
    else
      var inactive := Get(row, InactiveDateColumn);
      if !Truthy(inactive) then Ok(false)
      else
        match inactive
        case Text(s) =>
          (match parseDate(s)
           case None => Err(BadInactiveDate(inactive))
           case Some(day) => Ok(AtOrAfter(Midnight(day), now)))
        case _ => Err(BadInactiveDate(inactive))
  }

  /** An inactive date on a later day than today keeps the note active, one on
      an earlier day does not, and one on today's date does only at the very
      instant of midnight. */
  lemma ActiveByDay(row: Row, now: Moment, parseDate: string -> Option<int>, day: int)
    requires Get(row, NoteClassColumn) == Text(FdiNoteClass)
    requires Get(row, InactiveDateColumn).Text? && Get(row, InactiveDateColumn).text != ""
    requires parseDate(Get(row, InactiveDateColumn).text) == Some(day)
    ensures day > now.day ==> IsFdi(row, now, parseDate) == Ok(true)
    ensures day < now.day ==> IsFdi(row, now, parseDate) == Ok(false)
    ensures day == now.day ==> (IsFdi(row, now, parseDate) == Ok(true) <==> now.micros == 0)
  {
  }
}
