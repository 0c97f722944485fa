/**
 * The dashboard page for a new book: the day count follows the two date
 * fields, and submission is stopped unless the title follows the pattern
 * `Week [number] of [Month] - [Month] - [Year]`.
 */
module NewBookPage {
  import opened Text
  import opened Calendar
  import opened Validation
  import opened BookForm

  const TitleFormatMessage: string :=
    "Book title must follow format: Week [number] of [Month] - [Month] - [Year]"

  /** Form state; a field the user has not touched is the empty string. */
  class NewBookPageForm {
    var title: string
    var startDate: string
    var endDate: string
    var durationDays: JsNumber

    constructor ()
      ensures title == "" && startDate == "" && endDate == ""
      ensures durationDays == Num(7.0)
    {
      title, startDate, endDate := "", "", "";
      durationDays := Num(7.0);
    }

    /** `calculateDuration`: only when both dates are filled in. */
    method CalculateDuration(start: string, end: string)
      modifies this`durationDays
      ensures start != "" && end != "" ==> durationDays == DurationOf(start, end)
      ensures !(start != "" && end != "") ==> durationDays == old(durationDays)
    {
      if start != "" && end != "" {
        durationDays := DurationOf(start, end);
      }
    }

    /** The start field's change handler: record the value, then recount if an end date is set. */
    method OnStartDateChange(value: string)
      modifies this`startDate, this`durationDays
      ensures startDate == value
      ensures old(endDate) != "" && value != "" ==> durationDays == DurationOf(value, endDate)
      ensures !(old(endDate) != "" && value != "") ==> durationDays == old(durationDays)
      ensures DurationIsCount()
    {
      startDate := value;
      if endDate != "" {
        CalculateDuration(value, endDate);
      }
    }

    /** The end field's change handler: record the value, then recount if a start date is set. */
    method OnEndDateChange(value: string)
      modifies this`endDate, this`durationDays
      ensures endDate == value
      ensures old(startDate) != "" && value != "" ==> durationDays == DurationOf(startDate, value)
      ensures !(old(startDate) != "" && value != "") ==> durationDays == old(durationDays)
      ensures DurationIsCount()
    {
      endDate := value;
      if startDate != "" {
        CalculateDuration(startDate, value);
      }
    }

    /** Both dates are filled in and parse. */
    predicate DatesParse()
      reads this
    {
      startDate != "" && endDate != "" && ParseDateText(startDate).Some? && ParseDateText(endDate).Some?
    }

    /** The day count matches the two dates. */
    predicate DurationIsCount()
      reads this
    {
      DatesParse() ==> durationDays == DurationOf(startDate, endDate)
    }
  }

  /** The JSON body the page posts; a date that does not parse is serialized as `null`. */
  datatype PostBody = PostBody(title: string, startDate: Option<string>, endDate: Option<string>, durationDays: int)

  datatype SubmitOutcome = TitleFormatError(message: string) | Post(body: PostBody)

  /** `JSON.stringify(new Date(s))` */
  function SerializeDate(s: string): (r: Option<string>)
    ensures r.Some? <==> ParseDateText(s).Some?
  {
    match ParseDateText(s)
    case Some(d) => Some(TimestampText(d))
    case None => None
  }

  /**
   * `onSubmit`, reached once `bookCreateSchema` has accepted the fields:
   * stop with the format message unless the title follows the pattern,
   * otherwise post the fields with both dates converted to timestamps.
   */
  function Submit(data: BookCreateData): (r: SubmitOutcome)
    ensures r.TitleFormatError? <==> !BookTitleValid(data.title)
    ensures r.TitleFormatError? ==> r.message == TitleFormatMessage
    ensures r.Post? ==>
      && r.body.title == data.title && r.body.durationDays == data.durationDays
      && r.body.startDate == SerializeDate(data.startDate)
      && r.body.endDate == SerializeDate(data.endDate)
  {
    if !BookTitleValid(data.title) then TitleFormatError(TitleFormatMessage)
    else Post(PostBody(data.title, SerializeDate(data.startDate), SerializeDate(data.endDate), data.durationDays))
  }

  /**
   * A start date picked in the form (`YYYY-MM-DD`) is posted as a timestamp
   * that the server reads back as the same day.
   */
  lemma PostedDatesRoundTrip(data: BookCreateData, d: Day)
    requires ToCivil(d).year <= 9999
    ensures var picked := data.(startDate := FormatIsoDate(d));
      && ParseDateText(picked.startDate) == Some(d)
      && (Submit(picked).Post? ==>
            Submit(picked).body.startDate == Some(TimestampText(d)) && ParseDateText(TimestampText(d)) == Some(d))
  {
    ParseFormatIsoDate(ToCivil(d));
    ParseTimestampText(ToCivil(d));
  }

  /** The page refuses every title the scheduler or the new-book form generates. */
  lemma GeneratedTitlesNeverPosted(data: BookCreateData, d: Day)
    requires data.title == WeekTitle(d)
    ensures Submit(data) == TitleFormatError(TitleFormatMessage)
  {
    WeekTitleRejected(d);
  }
}
