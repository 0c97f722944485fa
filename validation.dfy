/**
 * The request schemas of the portal as predicates on parsed JSON bodies, and a
 * recognizer for the book-title pattern
 *   `^Week \d+ of [A-Za-z]+ - [A-Za-z]+ - \d{4}$`.
 * A body whose fields have the wrong JSON type is not modelled: every field is
 * already of the type the schema names, and an optional field is an `Option`.
 */
module Validation {
  import opened Text
  import opened Calendar
  import opened Domain

  /** `z.enum(['ADMIN', 'USER'])` */
  function ParseRole(s: string): (r: Option<Role>)
    ensures r == Some(ADMIN) <==> s == "ADMIN"
    ensures r == Some(Role.USER) <==> s == "USER"
    ensures r.None? <==> s != "ADMIN" && s != "USER"
  {
    if s == "ADMIN" then Some(ADMIN) else if s == "USER" then Some(Role.USER) else None
  }

  /** `z.enum(['ACTIVE', 'BANNED', 'REMOVED'])` */
  function ParseUserStatus(s: string): (r: Option<UserStatus>)
    ensures r == Some(UserStatus.ACTIVE) <==> s == "ACTIVE"
    ensures r == Some(BANNED) <==> s == "BANNED"
    ensures r == Some(REMOVED) <==> s == "REMOVED"
    ensures r.None? <==> s != "ACTIVE" && s != "BANNED" && s != "REMOVED"
  {
    if s == "ACTIVE" then Some(UserStatus.ACTIVE)
    else if s == "BANNED" then Some(BANNED)
    else if s == "REMOVED" then Some(REMOVED)
    else None
  }

  /** `z.enum(['ACTIVE', 'INACTIVE', 'CLOSED'])`; also the spelling Prisma accepts for a book status. */
  function ParseBookStatus(s: string): (r: Option<BookStatus>)
    ensures r == Some(BookStatus.ACTIVE) <==> s == "ACTIVE"
    ensures r == Some(INACTIVE) <==> s == "INACTIVE"
    ensures r == Some(CLOSED) <==> s == "CLOSED"
    ensures r.None? <==> s != "ACTIVE" && s != "INACTIVE" && s != "CLOSED"
  {
    if s == "ACTIVE" then Some(BookStatus.ACTIVE)
    else if s == "INACTIVE" then Some(INACTIVE)
    else if s == "CLOSED" then Some(CLOSED)
    else None
  }

  /** `z.number().int().positive()` */
  predicate PositiveInt(x: real) { x == x.Floor as real && x > 0.0 }

  /** A JavaScript number held in form state: a finite value, or NaN from arithmetic on an invalid date. */
  datatype JsNumber = Num(value: real) | NaN

  /** `z.number().int().positive()` on form state: zod rejects NaN. */
  predicate PositiveIntNumber(n: JsNumber) { n.Num? && PositiveInt(n.value) }

  // ---- userCreateSchema -------------------------------------------------

  datatype UserCreateInput = UserCreateInput(
    username: string, name: string, email: string, password: string, role: Option<string>)

  datatype UserCreateData = UserCreateData(
    username: string, name: string, email: string, password: string, role: Role)

  /**
   * `userCreateSchema.parse`; `isEmail` stands for zod's e-mail check.
   */
  function UserCreate(isEmail: string -> bool, x: UserCreateInput): (r: Option<UserCreateData>)
    ensures r.Some? <==>
      && 3 <= |x.username| <= 20
      && 2 <= |x.name| <= 50
      && isEmail(x.email)
      && 6 <= |x.password|
      && (x.role.None? || x.role.value == "ADMIN" || x.role.value == "USER")
    ensures r.Some? ==>
      && r.value.username == x.username && r.value.name == x.name
      && r.value.email == x.email && r.value.password == x.password
      && (x.role.None? ==> r.value.role == Role.USER)
      && (x.role.Some? ==> Some(r.value.role) == ParseRole(x.role.value))
  {
    if !(3 <= |x.username| <= 20 && 2 <= |x.name| <= 50 && isEmail(x.email) && 6 <= |x.password|) then None
    else
      match x.role
      case None => Some(UserCreateData(x.username, x.name, x.email, x.password, Role.USER))
      case Some(s) =>
        match ParseRole(s)
        case None => None
        case Some(role) => Some(UserCreateData(x.username, x.name, x.email, x.password, role))
  }

  // ---- userUpdateSchema -------------------------------------------------

  datatype UserUpdateInput = UserUpdateInput(name: string, email: string, role: string, status: string)

  datatype UserUpdateData = UserUpdateData(name: string, email: string, role: Role, status: UserStatus)

  function UserUpdate(isEmail: string -> bool, x: UserUpdateInput): (r: Option<UserUpdateData>)
    ensures r.Some? <==>
      2 <= |x.name| <= 50 && isEmail(x.email) && ParseRole(x.role).Some? && ParseUserStatus(x.status).Some?
    ensures r.Some? ==>
      && r.value.name == x.name && r.value.email == x.email
      && Some(r.value.role) == ParseRole(x.role) && Some(r.value.status) == ParseUserStatus(x.status)
  {
    if 2 <= |x.name| <= 50 && isEmail(x.email) && ParseRole(x.role).Some? && ParseUserStatus(x.status).Some? then
      Some(UserUpdateData(x.name, x.email, ParseRole(x.role).value, ParseUserStatus(x.status).value))
    else None
  }

  // ---- bookCreateSchema / bookUpdateSchema ------------------------------

  datatype BookCreateInput = BookCreateInput(
    title: string, startDate: string, endDate: string, durationDays: real)

  datatype BookCreateData = BookCreateData(
    title: string, startDate: string, endDate: string, durationDays: int)

  function BookCreate(x: BookCreateInput): (r: Option<BookCreateData>)
    ensures r.Some? <==>
      1 <= |x.title| <= 100 && |x.startDate| >= 1 && |x.endDate| >= 1 && PositiveInt(x.durationDays)
    ensures r.Some? ==>
      && r.value.title == x.title && r.value.startDate == x.startDate && r.value.endDate == x.endDate
      && r.value.durationDays as real == x.durationDays && r.value.durationDays >= 1
  {
    if 1 <= |x.title| <= 100 && |x.startDate| >= 1 && |x.endDate| >= 1 && PositiveInt(x.durationDays) then
      Some(BookCreateData(x.title, x.startDate, x.endDate, x.durationDays.Floor))
    else None
  }

  datatype BookUpdateInput = BookUpdateInput(title: string, startDate: string, endDate: string, status: string)

  datatype BookUpdateData = BookUpdateData(title: string, startDate: string, endDate: string, status: BookStatus)

  function BookUpdate(x: BookUpdateInput): (r: Option<BookUpdateData>)
    ensures r.Some? <==>
      1 <= |x.title| <= 100 && |x.startDate| >= 1 && |x.endDate| >= 1 && ParseBookStatus(x.status).Some?
    ensures r.Some? ==>
      && r.value.title == x.title && r.value.startDate == x.startDate && r.value.endDate == x.endDate
      && Some(r.value.status) == ParseBookStatus(x.status)
  {
    if 1 <= |x.title| <= 100 && |x.startDate| >= 1 && |x.endDate| >= 1 && ParseBookStatus(x.status).Some? then
      Some(BookUpdateData(x.title, x.startDate, x.endDate, ParseBookStatus(x.status).value))
    else None
  }

  // ---- transactionCreateSchema / transactionUpdateSchema ----------------

  datatype TransactionCreateInput = TransactionCreateInput(
    bookId: Id, transactionDate: string,
    amountGained: Option<real>, amountSpent: Option<real>, note: Option<string>)

  datatype TransactionData = TransactionData(
    bookId: Id, transactionDate: string, amountGained: real, amountSpent: real, note: Option<string>)

  /** A missing amount defaults to 0; a present one must be at least 0. */
  function AmountOrZero(a: Option<real>): real {
    if a.Some? then a.value else 0.0
  }

  function TransactionCreate(x: TransactionCreateInput): (r: Option<TransactionData>)
    ensures r.Some? <==>
      |x.transactionDate| >= 1
      && (x.amountGained.None? || x.amountGained.value >= 0.0)
      && (x.amountSpent.None? || x.amountSpent.value >= 0.0)
    ensures r.Some? ==>
      && r.value.bookId == x.bookId && r.value.transactionDate == x.transactionDate
      && r.value.note == x.note
      && r.value.amountGained >= 0.0 && r.value.amountSpent >= 0.0
      && (x.amountGained.None? ==> r.value.amountGained == 0.0)
      && (x.amountGained.Some? ==> r.value.amountGained == x.amountGained.value)
      && (x.amountSpent.None? ==> r.value.amountSpent == 0.0)
      && (x.amountSpent.Some? ==> r.value.amountSpent == x.amountSpent.value)
  {
    if |x.transactionDate| >= 1 && AmountOrZero(x.amountGained) >= 0.0 && AmountOrZero(x.amountSpent) >= 0.0 then
      Some(TransactionData(x.bookId, x.transactionDate,
        AmountOrZero(x.amountGained), AmountOrZero(x.amountSpent), x.note))
    else None
  }

  datatype TransactionUpdateInput = TransactionUpdateInput(
    transactionDate: string, amountGained: real, amountSpent: real, note: Option<string>)

  /** Both amounts are required here: there is no default. */
  predicate TransactionUpdateValid(x: TransactionUpdateInput) {
    |x.transactionDate| >= 1 && x.amountGained >= 0.0 && x.amountSpent >= 0.0
  }

  /** Every valid update body is also a valid create body once its amounts are supplied. */
  lemma UpdateBodyIsCreateBody(x: TransactionUpdateInput, bookId: Id)
    requires TransactionUpdateValid(x)
    ensures TransactionCreate(TransactionCreateInput(bookId, x.transactionDate,
      Some(x.amountGained), Some(x.amountSpent), x.note))
      == Some(TransactionData(bookId, x.transactionDate, x.amountGained, x.amountSpent, x.note))
  {
  }

  // ---- bookTitleSchema --------------------------------------------------

  /** The four variable parts of a title: week number, two month words, year. */
  datatype TitleParts = TitleParts(week: string, first: string, second: string, year: string)

  predicate WellFormed(p: TitleParts) {
    && |p.week| >= 1 && AllDigits(p.week)
    && |p.first| >= 1 && AllLetters(p.first)
    && |p.second| >= 1 && AllLetters(p.second)
    && |p.year| == 4 && AllDigits(p.year)
  }

  function RenderTitle(p: TitleParts): string {
    "Week " + (p.week + " of " + (p.first + " - " + (p.second + " - " + p.year)))
  }

  /** The language of the title pattern: every rendering of well-formed parts. */
  ghost predicate MatchesTitlePattern(s: string) {
    exists p :: WellFormed(p) && RenderTitle(p) == s
  }

  /** Tail of the pattern after the first month word and ` - `: `[A-Za-z]+ - \d{4}`. */
  function ParseYearTail(s: string): (r: Option<(string, string)>)
    ensures r.Some? ==>
      |r.value.0| >= 1 && AllLetters(r.value.0) && |r.value.1| == 4 && AllDigits(r.value.1)
      && s == r.value.0 + " - " + r.value.1
  {
    var n := LetterRun(s);
    if n == 0 || !StartsWith(s[n..], " - ") then None else
    var y := s[n..][3..];
    if |y| != 4 || !AllDigits(y) then None else
    JoinSplit(s, n, " - ");
    Some((s[..n], y))
  }

  /** Tail of the pattern after ` of `: `[A-Za-z]+ - [A-Za-z]+ - \d{4}`. */
  function ParseMonthsTail(s: string): (r: Option<(string, string, string)>)
    ensures r.Some? ==>
      |r.value.0| >= 1 && AllLetters(r.value.0)
      && |r.value.1| >= 1 && AllLetters(r.value.1) && |r.value.2| == 4 && AllDigits(r.value.2)
      && s == r.value.0 + " - " + (r.value.1 + " - " + r.value.2)
  {
    var m := LetterRun(s);
    if m == 0 || !StartsWith(s[m..], " - ") then None else
    var rest := s[m..][3..];
    JoinSplit(s, m, " - ");
    match ParseYearTail(rest)
    case None => None
    case Some(t) => Some((s[..m], t.0, t.1))
  }

  /** Tail of the pattern after `Week `: `\d+ of ...`. */
  function ParseWeekTail(s: string): (r: Option<TitleParts>)
    ensures r.Some? ==>
      WellFormed(r.value)
      && s == r.value.week + " of " + (r.value.first + " - " + (r.value.second + " - " + r.value.year))
  {
    var k := DigitRun(s);
    if k == 0 || !StartsWith(s[k..], " of ") then None else
    var rest := s[k..][4..];
    JoinSplit(s, k, " of ");
    match ParseMonthsTail(rest)
    case None => None
    case Some(t) => Some(TitleParts(s[..k], t.0, t.1, t.2))
  }

  /**
   * A left-to-right scanner for the title pattern.  Each `\d+` and
   * `[A-Za-z]+` runs up to a space, so greedy matching never needs to back off.
   */
  function ParseTitle(s: string): (r: Option<TitleParts>)
    ensures r.Some? ==> WellFormed(r.value) && RenderTitle(r.value) == s
  {
    if !StartsWith(s, "Week ") then None else
    PrefixSplit(s, "Week ");
    ParseWeekTail(s[5..])
  }

  /** `bookTitleSchema.safeParse(s).success` */
  predicate BookTitleValid(s: string) { ParseTitle(s).Some? }

  lemma ParseYearTailOf(second: string, year: string)
    requires |second| >= 1 && AllLetters(second) && |year| == 4 && AllDigits(year)
    ensures ParseYearTail(second + " - " + year) == Some((second, year))
  {
    SplitJoin(second, " - ", year);
    LetterRunOf(second, " - " + year);
  }

  lemma ParseMonthsTailOf(first: string, second: string, year: string)
    requires |first| >= 1 && AllLetters(first)
    requires |second| >= 1 && AllLetters(second) && |year| == 4 && AllDigits(year)
    ensures ParseMonthsTail(first + " - " + (second + " - " + year)) == Some((first, second, year))
  {
    var tail := second + " - " + year;
    var s := first + " - " + tail;
    var m := |first|;
    SplitJoin(first, " - ", tail);
    LetterRunOf(first, " - " + tail);
    assert LetterRun(s) == m;
    assert s[..m] == first;
    assert s[m..][3..] == tail;
    ParseYearTailOf(second, year);
    assert ParseYearTail(tail) == Some((second, year));
  }

  lemma ParseWeekTailOf(p: TitleParts)
    requires WellFormed(p)
    ensures ParseWeekTail(p.week + " of " + (p.first + " - " + (p.second + " - " + p.year))) == Some(p)
  {
    var tail := p.first + " - " + (p.second + " - " + p.year);
    var s := p.week + " of " + tail;
    var k := |p.week|;
    SplitJoin(p.week, " of ", tail);
    DigitRunOf(p.week, " of " + tail);
    assert DigitRun(s) == k;
    assert s[k..][4..] == tail;
    ParseMonthsTailOf(p.first, p.second, p.year);
    assert ParseMonthsTail(tail) == Some((p.first, p.second, p.year));
  }

  lemma ParseRenderTitle(p: TitleParts)
    requires WellFormed(p)
    ensures ParseTitle(RenderTitle(p)) == Some(p)
  {
    var tail := p.week + " of " + (p.first + " - " + (p.second + " - " + p.year));
    assert RenderTitle(p)[5..] == tail;
    ParseWeekTailOf(p);
  }

  /** The recognizer accepts exactly the strings of the title pattern. */
  lemma BookTitleValidMatches(s: string)
    ensures BookTitleValid(s) <==> MatchesTitlePattern(s)
  {
    if MatchesTitlePattern(s) {
      var p :| WellFormed(p) && RenderTitle(p) == s;
      ParseRenderTitle(p);
    }
  }

  /** A title whose text after `Week ` does not begin with a digit is rejected. */
  lemma NoWeekNumberRejected(s: string)
    requires |s| > 5 && !IsDigit(s[5])
    ensures !BookTitleValid(s)
  {
    if StartsWith(s, "Week ") {
      assert s[5..][0] == s[5];
      assert DigitRun(s[5..]) == 0;
    }
  }

  /**
   * A title whose week number is followed by ` - ` instead of ` of ` is
   * rejected, whatever comes after it.
   */
  lemma WithoutOfRejected(week: string, rest: string)
    requires |week| >= 1 && AllDigits(week)
    requires StartsWith(rest, " - ")
    ensures !BookTitleValid("Week " + (week + rest))
  {
    var s := "Week " + (week + rest);
    assert s[5..] == week + rest;
    DigitRunOf(week, rest);
    assert (week + rest)[|week|..] == rest;
    assert rest[1] != " of "[1];
  }

  lemma ExampleTitleAccepted()
    ensures BookTitleValid("Week 1 of July - July - 2025")
  {
    var p := TitleParts("1", "July", "July", "2025");
    assert RenderTitle(p) == "Week 1 of July - July - 2025";
    ParseRenderTitle(p);
  }

  lemma ExampleTitleRejected()
    ensures !BookTitleValid("Week 5 - July - 2025")
  {
    assert "Week 5 - July - 2025" == "Week " + ("5" + " - July - 2025");
    WithoutOfRejected("5", " - July - 2025");
  }

  /**
   * The titles the scheduler and the new-book form generate,
   * `Week {n} - {Month} - {Year}`, never satisfy the title pattern.
   */
  lemma WeekTitleRejected(n: Day)
    ensures !BookTitleValid(WeekTitle(n))
  {
    var c := ToCivil(n);
    var rest := " - " + (MonthName(c.month) + (" - " + NatStr(c.year)));
    SplitJoin([], " - ", MonthName(c.month) + (" - " + NatStr(c.year)));
    WithoutOfRejected(NatStr(WeekNumber(n)), rest);
  }
}
