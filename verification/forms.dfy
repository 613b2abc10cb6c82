/** The renewal form: one date field whose value must fall between today
    and four weeks from today. */
module Forms {
  import opened Optional
  import opened Calendar

  /** How far ahead a renewal may reach. */
  const MaxRenewalWeeks: int := 4

  /** Why a submitted renewal date was refused. `Unreadable` is the date
      field's own failure: the value was missing or not a date. */
  datatype RenewalError = RenewalInPast | RenewalTooFar | Unreadable

  datatype Cleaned = Accepted(date: Day) | Rejected(error: RenewalError)

  /** The dates a renewal may set: today through 28 days from today. */
  ghost predicate InRenewalWindow(today: Day, d: Day) {
    0 <= d - today <= 28
  }

  /** `RenewBookForm.clean_renewal_date`: the past is checked first, then
      the four-week limit; an accepted date comes back unchanged. */
  function CleanRenewalDate(today: Day, date: Day): (r: Cleaned)
    ensures r.Accepted? <==> InRenewalWindow(today, date)
    ensures r.Accepted? ==> r.date == date
    ensures r.Rejected? ==> r.error != Unreadable
  {
    if date < today then Rejected(RenewalInPast)
    else if date > AddWeeks(today, MaxRenewalWeeks) then Rejected(RenewalTooFar)
    else Accepted(date)
  }

  /** Each refused date gets the error for the side of the window it lies on,
      and only that one. */
  lemma RenewalErrorsBySide(today: Day, date: Day)
    ensures date < today <==> CleanRenewalDate(today, date) == Rejected(RenewalInPast)
    ensures date > today + 28 <==> CleanRenewalDate(today, date) == Rejected(RenewalTooFar)
  {
  }

  /** Both ends of the window are accepted, and the days just outside are not. */
  lemma RenewalWindowBoundaries(today: Day)
    ensures CleanRenewalDate(today, today) == Accepted(today)
    ensures CleanRenewalDate(today, today + 28) == Accepted(today + 28)
    ensures CleanRenewalDate(today, today - 1).Rejected?
    ensures CleanRenewalDate(today, today + 29).Rejected?
  {
  }

  /** `RenewBookForm(data).is_valid()`: the field must first read as a date,
      then the renewal check applies. */
  function ValidateRenewal(today: Day, field: Option<Day>): (r: Cleaned)
    ensures field.None? ==> r == Rejected(Unreadable)
    ensures r.Accepted? <==> field.Some? && InRenewalWindow(today, field.value)
    ensures r.Accepted? ==> r.date == field.value
  {
    match field
    case None => Rejected(Unreadable)
    case Some(d) => CleanRenewalDate(today, d)
  }

}
