/**
 * The client form for a new weekly book: it proposes a title from the start
 * date, fills in the end date six days later and keeps a day count.
 * Dates are `YYYY-MM-DD` strings, read as midnight UTC.
 */
module BookForm {
  import opened Text
  import opened Calendar
  import opened Validation

  /** `newBookSchema`: the form's own check before it posts. */
  predicate NewBookSchema(title: string, startDate: string, endDate: string, durationDays: JsNumber) {
    |title| >= 1 && |startDate| >= 1 && |endDate| >= 1 && PositiveIntNumber(durationDays)
  }

  /**
   * The day count `ceil(|end - start| / day) + 1`; NaN when either date does
   * not parse.
   */
  function DurationOf(start: string, end: string): (n: JsNumber)
    ensures n.Num? <==> ParseDateText(start).Some? && ParseDateText(end).Some?
    ensures n.Num? ==> n.value >= 1.0 && n.value == n.value.Floor as real
    ensures n.Num? ==> n.value as int - 1 == Abs(ParseDateText(end).value - ParseDateText(start).value)
  {
    match (ParseDateText(start), ParseDateText(end))
    case (Some(s), Some(e)) =>
      InclusiveDaysOfDays(s, e);
      Num(InclusiveDays(DayStart(s), DayStart(e)) as real)
    case _ => NaN
  }

  lemma DurationSymmetric(start: string, end: string)
    ensures DurationOf(start, end) == DurationOf(end, start)
  {
    if DurationOf(start, end).Num? {
      InclusiveDaysSymmetric(DayStart(ParseDateText(start).value), DayStart(ParseDateText(end).value));
    }
  }

  /**
   * The title the form proposes: `Week {n} - {Month} - {Year}` of the start
   * date, or the text JavaScript renders for an invalid date.
   */
  function GeneratedTitle(start: string): (t: string)
    ensures ParseDateText(start).Some? ==> t == WeekTitle(ParseDateText(start).value)
    ensures !BookTitleValid(t)
  {
    match ParseDateText(start)
    case Some(d) =>
      WeekTitleRejected(d);
      WeekTitle(d)
    case None =>
      NoWeekNumberRejected("Week NaN - Invalid Date - NaN");
      "Week NaN - Invalid Date - NaN"
  }

  class NewBookForm {
    var title: string
    var startDate: string
    var endDate: string
    var durationDays: JsNumber
    var autoTitle: string

    constructor ()
      ensures title == "" && startDate == "" && endDate == "" && autoTitle == ""
      ensures durationDays == Num(7.0)
    {
      title, startDate, endDate, autoTitle := "", "", "", "";
      durationDays := Num(7.0);
    }

    /**
     * `handleStartDateChange`: fill the end date with the start date plus six
     * days.  An unparsable start makes the date formatting throw, so nothing
     * is written.  The handler replaces the form library's own change
     * handler, and it writes only the end date.
     */
    method HandleStartDateChange(value: string)
      modifies this`endDate
      ensures ParseDateText(value).Some? ==> endDate == FormatIsoDate(ParseDateText(value).value + 6)
      ensures ParseDateText(value).None? ==> endDate == old(endDate)
    {
      if value != "" {
        var start := ParseDateText(value);
        if start.Some? {
          endDate := FormatIsoDate(start.value + 6);
        }
      }
    }

    /** The effect on the start date: regenerate the title and overwrite the title field. */
    method SyncTitle()
      modifies this`title, this`autoTitle
      ensures startDate != "" ==> title == GeneratedTitle(startDate) && autoTitle == title
      ensures startDate == "" ==> title == old(title) && autoTitle == old(autoTitle)
    {
      if startDate != "" {
        var generated := GeneratedTitle(startDate);
        autoTitle := generated;
        title := generated;
      }
    }

    /** The effect on both dates: recompute the day count when both are filled in. */
    method SyncDuration()
      modifies this`durationDays
      ensures startDate != "" && endDate != "" ==> durationDays == DurationOf(startDate, endDate)
      ensures !(startDate != "" && endDate != "") ==> durationDays == old(durationDays)
    {
      if startDate != "" && endDate != "" {
        durationDays := DurationOf(startDate, endDate);
      }
    }
  }

  /**
   * The end date the form fills in lies six days after the start, so the
   * computed day count is 7, the form's default.
   */
  lemma AutoEndDateGivesSevenDays(d: Day)
    requires ToCivil(d + 6).year <= 9999
    ensures DurationOf(FormatIsoDate(d), FormatIsoDate(d + 6)) == Num(7.0)
  {
    ToCivilYearGrows(d, d + 6);
    ParseFormatIsoDate(ToCivil(d));
    ParseFormatIsoDate(ToCivil(d + 6));
    WeekLastsSevenDays(d);
  }

  /** Every title the form generates fails the title pattern the new-book page enforces. */
  lemma GeneratedTitleRejected(start: string)
    ensures !BookTitleValid(GeneratedTitle(start))
  {
  }

  /**
   * `newBookSchema` is weaker than `bookCreateSchema`: every body the server
   * accepts passes the form, but a 101-character title passes the form and
   * is refused by the server.
   */
  lemma NewBookSchemaWeaker(x: BookCreateInput)
    ensures BookCreate(x).Some? ==> NewBookSchema(x.title, x.startDate, x.endDate, Num(x.durationDays))
    ensures var long := BookCreateInput(seq(101, i => 'a'), "2025-07-07", "2025-07-13", 7.0);
      NewBookSchema(long.title, long.startDate, long.endDate, Num(long.durationDays)) && BookCreate(long).None?
  {
  }
}
