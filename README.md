# Garaadsom book shop: a verified model of the book lifecycle

Garaadsom is a web portal for keeping weekly financial records. An
administrator opens a time-boxed **book**, which is one reporting week. Members
record **transactions** (an amount gained and an amount spent) against the book
that is currently ACTIVE. Every change is written to an **action log**. A
**scheduler** closes books whose end date has passed and opens the next
seven-day book.

This Dafny project models the core of that portal:

- the scheduler;
- the HTTP handlers that create and list books and transactions;
- self-registration;
- the request schemas and the book-title pattern;
- the two client forms that create a book;
- the admin history page.

The database is a `Store.Db` object. It holds one sequence per table plus a
counter that hands out row ids. The invariant `Store.Db.Valid` says that:

- row ids increase;
- at most one book is ACTIVE;
- usernames and emails are unique;
- every transaction is dated within its book.

Every handler that writes is proved to preserve this invariant.

Modules, in dependency order:

- `Text`: characters, digit strings, `includes`.
- `Calendar`: UTC day numbers, the civil calendar from 1970 on, `YYYY-MM-DD`
  parsing and formatting, the portal's week number and generated title, and
  the inclusive day count.
- `Query`: the shapes of the database queries (`where`, `orderBy`, `take`).
- `Domain`: the records.
- `Store`: the database and its invariants.
- `Validation`: the zod schemas and a scanner for the title pattern.
- `BooksRoute`, `TransactionsRoute` and `SignupRoute`: the API handlers.
- `Scheduler`: the scheduler.
- `BookForm`: the new-book form component.
- `NewBookPage`: the new-book page.
- `History`: the history page.

The portal's access rules describe transaction listing as limited to a
non-admin's own records unless an admin supplies a `userId` filter. The code
disagrees: `src/app/api/transactions/route.ts` honours a `userId` parameter
from any signed-in user. The model follows the
code; see `TransactionsRoute.UserParamHonoured`.

Generated titles have the form `Week {n} - {Month} - {Year}`. The title
pattern the new-book page enforces requires `Week {n} of {Month} - {Month} - {Year}`.
No generated title matches that pattern. This is proved:

- `Validation.WeekTitleRejected` for the scheduler's titles;
- `BookForm.GeneratedTitleRejected` for the form's titles;
- `NewBookPage.GeneratedTitlesNeverPosted` for the page's submission.

## Model

| member | source | states |
|---|---|---|
| Calendar.CeilDiv | src/components/books/new-book-form.tsx:76 | `Math.ceil(a / b)`: the least multiple count covering `a` |
| Calendar.WeekNumber | src/lib/scheduler.ts:125-130 | `getWeekNumber`: ceil((days since January 1st + weekday of January 1st + 1) / 7), taken in UTC; every date's week number lies between 1 and 54 |
| Calendar.WeekNumberSteps | src/lib/scheduler.ts:125-130 | January 1st is in week 1; from one day to the next, the week number stays the same or goes up by one |
| Calendar.MonthName | src/lib/scheduler.ts:79-81 | the long English month name: at least three letters and nothing else |
| Calendar.FormatIsoDate | src/components/books/new-book-form.tsx:96 | `toISOString().split('T')[0]`: ten characters, four digits, `-`, two digits, `-`, two digits; its meaning is fixed by the round trips `ParseFormatIsoDate` and `FormatParseIsoDate` |
| Calendar.WeekTitle | src/lib/scheduler.ts:78-83 | the title template `Week N - Month - YYYY` for a day: it begins with `Week `, then the day's week number and ` - ` |
| Calendar.InclusiveDays | src/app/dashboard/books/new/page.tsx:53-56 | `Math.ceil(Math.abs(end - start) / day) + 1`: d - 1 whole days cover the gap and d - 2 do not; the count is 1 exactly when the instants are equal |
| Calendar.ParseIsoDate | src/app/api/books/route.ts:38-39 | `new Date` on a date-only string, restricted to the strict `YYYY-MM-DD` form naming a real calendar date; every other string is an invalid date |
| Calendar.ParseFormatIsoDate | src/components/books/new-book-form.tsx:93-96 | formatting a date and parsing the text gives back the same day, for every date from 1970 through 9999 |
| Calendar.FormatParseIsoDate | src/components/books/new-book-form.tsx:93-96 | parsing an accepted date string and formatting the day gives back the same string |
| Calendar.ParsedIsoYear | src/app/api/books/route.ts:38-39 | a date read from `YYYY-MM-DD` has a year of at most 9999 |
| Calendar.ParseDateText | src/app/api/transactions/route.ts:35 | the date strings a body carries: date-only, or a full timestamp at midnight UTC; anything else is rejected |
| Calendar.ParseTimestampText | src/app/dashboard/books/new/page.tsx:81-85 | the timestamp the page serializes for a date from 1970 through 9999 is read back by the server as that day |
| Calendar.InclusiveDaysSymmetric | src/components/books/new-book-form.tsx:75-76 | the day count ignores the order of the two dates, is at least 1, and is 1 for equal dates |
| Calendar.InclusiveDaysOfDays | src/app/dashboard/books/new/page.tsx:56-57 | for two calendar dates the count is the distance in days plus one, so both ends are counted |
| Calendar.WeekLastsSevenDays | src/components/books/new-book-form.tsx:95 | an end date six days after the start gives a seven-day count |
| Query.Filter | src/app/api/transactions/route.ts:110-117 | `where`: at most as many rows; a row is kept iff it is stored and satisfies the filter |
| Query.FilterKeepsOrder | src/app/api/books/route.ts:85-92 | filtering keeps the stored order of rows |
| Query.Reverse | src/app/api/books/route.ts:87 | creation time descending: the same rows (as a multiset) in the opposite order |
| Query.Take | src/app/dashboard/history/page.tsx:39 | `take: n`: the first `n` rows, or all rows if there are fewer |
| Query.SortBy | src/lib/scheduler.ts:201 | `orderBy`: a permutation of the rows, in ascending key order |
| Query.FilterAll | src/app/api/transactions/route.ts:97-108 | an empty `where` returns the whole table |
| Query.FilterNone | src/lib/scheduler.ts:11-18 | a filter that no row satisfies returns nothing |
| Store.FindBook | src/app/api/transactions/route.ts:19-21 | `findUnique` by id: the result is a stored book with that id; `None` iff there is no such book |
| Store.FindActiveBook | src/app/api/books/route.ts:23-25 | `findFirst` of status ACTIVE: the result is a stored ACTIVE book; `None` iff there is no ACTIVE book |
| Store.Db.constructor | src/app/api/books/route.ts:3 | the database client every handler shares, starting empty: an empty database satisfies every invariant |
| Store.Db.NewId | src/app/api/books/route.ts:35-44 | a fresh id, larger than every id handed out before |
| Store.FindBookById | src/app/api/transactions/route.ts:19-21 | with increasing ids, looking up a stored book's id finds that book |
| Store.FindBookAppend | src/app/api/books/route.ts:35-44 | inserting a book never changes what an existing id finds |
| Store.FindBookSameSchedule | src/lib/scheduler.ts:34-37 | changing only book statuses keeps every lookup, with the same period |
| Store.TransactionsWithinSameSchedule | src/app/api/transactions/route.ts:35-44 | "every transaction is dated within its book" survives status changes |
| Store.TransactionsWithinAppend | src/app/api/transactions/route.ts:35-44 | "every transaction is dated within its book" survives inserting a book |
| Store.InsertWhenNoneActive | src/app/api/books/route.ts:23-44 | inserting a book while none is ACTIVE keeps at most one ACTIVE book |
| Validation.ParseRole | src/lib/validations.ts:9 | `z.enum(['ADMIN','USER'])`: accepts exactly the two role names |
| Validation.ParseUserStatus | src/lib/validations.ts:16 | accepts exactly ACTIVE, BANNED and REMOVED |
| Validation.ParseBookStatus | src/lib/validations.ts:36 | accepts exactly ACTIVE, INACTIVE and CLOSED |
| Validation.UserCreate | src/lib/validations.ts:4-10 | accepted iff username has 3-20 characters, name 2-50, a valid email, a password of at least 6 and a valid or missing role; fields are kept; role defaults to USER |
| Validation.UserUpdate | src/lib/validations.ts:12-17 | accepted iff name has 2-50 characters, a valid email, a valid role and a valid status; fields are kept |
| Validation.BookCreate | src/lib/validations.ts:25-30 | accepted iff the title has 1-100 characters, both dates are non-empty and the duration is a positive integer; fields are kept |
| Validation.BookUpdate | src/lib/validations.ts:32-37 | accepted iff the title has 1-100 characters, both dates are non-empty and the status is valid; fields are kept |
| Validation.TransactionCreate | src/lib/validations.ts:40-46 | accepted iff the date is non-empty and any given amount is at least 0; missing amounts become 0 |
| Validation.TransactionUpdateValid | src/lib/validations.ts:48-53 | `transactionUpdateSchema`: a non-empty date, and both amounts present and at least 0 |
| Validation.UpdateBodyIsCreateBody | src/lib/validations.ts:48-53 | every valid update body is a valid create body, with the same fields |
| Validation.ParseTitle | src/lib/validations.ts:56-61 | a title is accepted only as the rendering of well-formed parts (digits, letters, letters, four digits) |
| Validation.ParseRenderTitle | src/lib/validations.ts:56-61 | every rendering of well-formed parts is accepted and parses back to those parts |
| Validation.BookTitleValid | src/lib/validations.ts:56-61 | `bookTitleSchema`: the title parses as `Week N of Month - Month - YYYY`; `Validation.BookTitleValidMatches` shows this is exactly the language of the regex |
| Validation.BookTitleValidMatches | src/lib/validations.ts:59 | the recognizer accepts exactly the language of `^Week \d+ of [A-Za-z]+ - [A-Za-z]+ - \d{4}$` |
| Validation.WithoutOfRejected | src/lib/validations.ts:59 | a title whose week number is followed by ` - ` instead of ` of ` is rejected |
| Validation.NoWeekNumberRejected | src/lib/validations.ts:59 | a title without a digit right after `Week ` is rejected, such as the one generated for an invalid date |
| Validation.ExampleTitleAccepted | src/lib/validations.ts:55-61 | "Week 1 of July - July - 2025" is accepted |
| Validation.ExampleTitleRejected | src/lib/validations.ts:55-61 | "Week 5 - July - 2025" is rejected |
| Validation.WeekTitleRejected | src/lib/scheduler.ts:78-83 | no title the scheduler generates satisfies the title pattern |
| BooksRoute.CreateBook | src/app/api/books/route.ts:7-70 | 401 without a session, 403 for a non-admin, 400 on a schema failure, 400 while a book is ACTIVE, 400 on an unparsable date, with nothing written on any failure; otherwise 201 with the new ACTIVE book created by the caller, appended with its log entry; keeps at most one ACTIVE book and every store invariant |
| BooksRoute.ListBooks | src/app/api/books/route.ts:72-102 | 401 without a session; 500 for a status that is not a book status; otherwise exactly the books of the requested status (all books when no status is given) |
| BooksRoute.ListBooksNewestFirst | src/app/api/books/route.ts:85-92 | the listing is ordered newest first: ids strictly decrease |
| TransactionsRoute.CreateTransaction | src/app/api/transactions/route.ts:7-82 | 401, 400 (schema), 404 (no book), 400 (book not ACTIVE), 400 (unparsable date), 400 (outside the book's period), in the handler's order, with nothing written on any failure; otherwise 201 with the caller's transaction and its log entry; keeps every transaction within its book and every store invariant |
| TransactionsRoute.WithinPeriod | src/app/api/transactions/route.ts:41 | the period check: the date is neither before the book's start day nor after its end day, both ends included |
| TransactionsRoute.BuildWhere | src/app/api/transactions/route.ts:97-108 | the book filter when given; the user filter when given, for any role; otherwise a non-admin is limited to their own id |
| TransactionsRoute.ListTransactions | src/app/api/transactions/route.ts:84-127 | 401 iff there is no session; otherwise a permutation of the matching rows, latest transaction date first |
| TransactionsRoute.NonAdminSeesOwn | src/app/api/transactions/route.ts:105-108 | without a `userId` parameter, a non-admin sees only their own transactions |
| TransactionsRoute.UserParamHonoured | src/app/api/transactions/route.ts:103-104 | with a `userId` parameter, any caller sees exactly that user's transactions |
| TransactionsRoute.AdminSeesAll | src/app/api/transactions/route.ts:97-108 | an admin without parameters sees every transaction |
| SignupRoute.WithoutPasswordKeepsFields | src/app/api/auth/signup/route.ts:55-57 | the response determines every stored field except the password hash |
| SignupRoute.Signup | src/app/api/auth/signup/route.ts:7-70 | 400 on a schema failure; 400 if the username or email is taken; nothing written on failure; otherwise 201 with the new ACTIVE user minus its hash, plus a USER_CREATED entry; keeps logins unique and every store invariant |
| Scheduler.IsExpired | src/lib/scheduler.ts:11-16 | the filter of the expiry query: ACTIVE, and the end date (midnight UTC of its day) before `now` |
| Scheduler.ExpiredBooks | src/lib/scheduler.ts:11-18 | exactly the ACTIVE books whose end date is before `now` |
| Scheduler.CloseIds | src/lib/scheduler.ts:34-37 | `update` to CLOSED by id: the listed ids are closed and every other row is unchanged |
| Scheduler.CloseExpired | src/lib/scheduler.ts:6-29 | after one pass, each expired book is CLOSED and every other book is unchanged |
| Scheduler.ClosingLogs | src/lib/scheduler.ts:40-48 | one "Book automatically closed" entry per closed book, in closing order |
| Scheduler.CloseBook | src/lib/scheduler.ts:32-55 | an unknown id changes nothing; otherwise that book becomes CLOSED, with one system log entry, and nothing else changes; the database invariant is preserved |
| Scheduler.CloseIdsKeepsStore | src/lib/scheduler.ts:33-36 | closing books by id keeps ids bounded and increasing, at most one ACTIVE book, and every transaction inside its book |
| Scheduler.CheckAndCloseExpiredBooks | src/lib/scheduler.ts:6-29 | the loop closes exactly the expired books and logs each in turn, returns their number, and keeps every store invariant |
| Scheduler.CloseExpiredIdempotent | src/lib/scheduler.ts:6-29 | a second pass with the same clock finds nothing and changes nothing |
| Scheduler.CloseExpiredKeepsInvariants | src/lib/scheduler.ts:20-22 | auto-closing changes only statuses, never adds an ACTIVE book, and keeps transactions within their books |
| Scheduler.ClosesDuringLastDay | src/lib/scheduler.ts:14-16 | a book is already expired during its own last day, while that day still passes the transaction period check |
| Scheduler.NextBook | src/lib/scheduler.ts:70-104 | the next book starts the day after the last one ends and ends six days later; it lasts 7 days, is ACTIVE, is created by the system and is titled with the week title of its start day |
| Scheduler.GenerateNextBook | src/lib/scheduler.ts:58-122 | nothing happens if there are no books or one is ACTIVE; otherwise the next book after the most recently created one is appended and logged; keeps at most one ACTIVE book and every store invariant |
| Scheduler.NextBookIsOneWeek | src/lib/scheduler.ts:70-78 | the generated book covers seven calendar days, and its week number lies between 1 and 54 |
| Scheduler.NotificationRecipients | src/lib/scheduler.ts:133-144 | nobody for an unknown book; otherwise exactly the ACTIVE users |
| Scheduler.OverdueBooks | src/lib/scheduler.ts:190-209 | a permutation of the expired books, latest end date first |
| Scheduler.NoOverdueAfterClose | src/lib/scheduler.ts:190-209 | after a closing pass with the same clock, no book is overdue |
| Scheduler.StartingSoon | src/lib/scheduler.ts:172-178 | exactly the books that start between `now` and 28 days later |
| Scheduler.UpcomingBooks | src/lib/scheduler.ts:166-187 | a permutation of those books, earliest start first |
| BookForm.DurationOf | src/components/books/new-book-form.tsx:71-79 | a number iff both dates parse; it is then an integer of at least 1, equal to the distance in days plus one; NaN otherwise |
| BookForm.DurationSymmetric | src/components/books/new-book-form.tsx:75 | the day count ignores the order of the two dates |
| BookForm.GeneratedTitle | src/components/books/new-book-form.tsx:57-68 | the scheduler's `Week {n} - {Month} - {Year}` title of the start date; every generated title fails the title pattern |
| BookForm.NewBookForm.constructor | src/components/books/new-book-form.tsx:45-50 | empty fields and a duration of 7 |
| BookForm.NewBookForm.HandleStartDateChange | src/components/books/new-book-form.tsx:90-98 | sets the end date to the start date plus six days when the start parses; writes nothing else |
| BookForm.NewBookForm.SyncTitle | src/components/books/new-book-form.tsx:57-68 | when a start date is set, the title and the proposed title both become the generated title |
| BookForm.NewBookForm.SyncDuration | src/components/books/new-book-form.tsx:71-79 | when both dates are set, the duration becomes their day count |
| BookForm.AutoEndDateGivesSevenDays | src/components/books/new-book-form.tsx:89-98 | the end date that is filled in gives a day count of 7, the form's default |
| BookForm.GeneratedTitleRejected | src/components/books/new-book-form.tsx:64 | no title the form generates satisfies the title pattern |
| BookForm.NewBookSchema | src/components/books/new-book-form.tsx:22-27 | `newBookSchema`: a non-empty title, non-empty dates and a positive integer day count |
| BookForm.NewBookSchemaWeaker | src/components/books/new-book-form.tsx:22-27 | every body the server schema accepts passes the form schema, but a 101-character title passes the form and is refused by the server |
| NewBookPage.NewBookPageForm.constructor | src/app/dashboard/books/new/page.tsx:43-45 | the duration starts at 7 |
| NewBookPage.NewBookPageForm.CalculateDuration | src/app/dashboard/books/new/page.tsx:52-60 | recomputes the duration only when both dates are non-empty |
| NewBookPage.NewBookPageForm.OnStartDateChange | src/app/dashboard/books/new/page.tsx:159-164 | records the start date and recounts if an end date is set; afterwards the count matches any two dates that parse |
| NewBookPage.NewBookPageForm.OnEndDateChange | src/app/dashboard/books/new/page.tsx:180-185 | records the end date and recounts if a start date is set; afterwards the count matches any two dates that parse |
| NewBookPage.SerializeDate | src/app/dashboard/books/new/page.tsx:83-84 | a timestamp iff the date parses, otherwise JSON `null` |
| NewBookPage.Submit | src/app/dashboard/books/new/page.tsx:62-86 | stops with the format message iff the title fails the pattern; otherwise posts the title, the duration and both dates as timestamps |
| NewBookPage.PostedDatesRoundTrip | src/app/dashboard/books/new/page.tsx:81-85 | a start date picked in the form is posted as a timestamp the server reads back as the same day |
| NewBookPage.GeneratedTitlesNeverPosted | src/app/dashboard/books/new/page.tsx:68-74 | a title in the scheduler's format is always stopped by the page |
| History.AdminGate | src/app/dashboard/history/page.tsx:26-32 | without a session, redirect to sign-in; a non-admin, redirect to the dashboard; an admin sees the page |
| History.RecentLogs | src/app/dashboard/history/page.tsx:34-40 | at most 100 entries, newest first, including every one of the last 100 |
| History.HistoryPage | src/app/dashboard/history/page.tsx:23-40 | a listing iff the gate admits the caller, and the listing is the recent logs |
| History.ReplaceUnderscores | src/app/dashboard/history/page.tsx:77 | each `_` becomes a space; nothing else changes |
| History.LowerAll | src/app/dashboard/history/page.tsx:78 | each character is lower-cased |
| History.CapitalizeWords | src/app/dashboard/history/page.tsx:79 | exactly the characters at a word start are upper-cased |
| History.FormatActionType | src/app/dashboard/history/page.tsx:75-80 | same length, no underscores, and a space exactly where the name had `_` or a space |
| History.FormatLetterAt | src/app/dashboard/history/page.tsx:75-80 | a letter of the name comes out upper case where a word starts and lower case elsewhere |
| History.FormatTwoWords | src/app/dashboard/history/page.tsx:75-80 | `A_B` for two letter words renders as the two words capitalized and joined by a space |
| History.ActionColor | src/app/dashboard/history/page.tsx:62-73 | green if CREATED occurs; else blue for UPDATED; else red for DELETED, BANNED or REMOVED; else yellow for CLOSED; else gray |
| History.Verb | src/app/dashboard/history/page.tsx:62-73 | the colour word each action name contains, and where it occurs |
| History.ColouredByWord | src/app/dashboard/history/page.tsx:62-73 | a name containing one of the six colour words is not gray, and one containing CREATED is green |
| History.ActionsAreColoured | src/app/dashboard/history/page.tsx:62-73 | no logged action type is gray, and every creation is green |
| History.ActionIcon | src/app/dashboard/history/page.tsx:42-60 | the book icon for the three book actions, the user icon for the four user actions, the dollar icon for the three transaction actions, otherwise the history icon |
| History.Subject | src/app/dashboard/history/page.tsx:42-60 | the record type an action is about is the prefix of its name |
| History.IconFollowsSubject | src/app/dashboard/history/page.tsx:42-60 | every action type gets the icon of its record type; none falls through to the history icon |

## Left out

- Time zones and locales: every date is read and formatted in UTC. The week
  number, month name and year are taken in UTC, while the source uses local
  time (`new Date(y, 0, 1)`, `getFullYear`, `toLocaleDateString`).
- Dates before 1970 and years after 9999 are not modelled. Neither are
  timestamps that are not midnight UTC, or the lenient date strings
  JavaScript also accepts; `Calendar.ParseDateText` rejects all of these.
- Calendar.ParseIsoDate: accepts only the strict `YYYY-MM-DD` form with a
  real calendar date. JavaScript engines are more lenient, and the model
  treats these strings as invalid dates: a day of 29 to 31 past the month's
  end, which V8 rolls over into the next month (`2025-02-30` is 2 March), and
  the short forms `YYYY` and `YYYY-MM`. For such a date the model's book and
  transaction handlers answer 400 where the source goes on.
- `setDate(+1)`, `setDate(+6)` and `+28` days are day arithmetic on day numbers.
- Timers: the hourly and daily `setInterval` ticks of `scheduleBookManagement`
  and their console output are left out. The clock is the parameter `now`.
- Concurrency: requests and ticks run one at a time on one store. No
  interleaving is modelled.
- Failure paths for the database and the action log: no write fails. The
  `catch` blocks that log and fall back (`return 0`, `return null`, `[]`, 500)
  are not modelled, except where the model itself produces the error: an
  invalid date, or an invalid status filter.
- Scheduler.CheckAndCloseExpiredBooks: requires that book ids are unique, which
  the database guarantees as a primary key.
- Store.Db.NewId: Prisma's generated string ids and `createdAt` timestamps are
  replaced by one increasing counter. Ordering by `createdAt` is ordering by
  creation, that is, row order.
- Validation messages: every zod error is the constant `ValidationFailed`, and
  an invalid date is the constant `InvalidDate`. The actual message texts are
  not modelled.
- The zod email check is the parameter `isEmail`, and the bcrypt hash is the
  parameter `passwordHash`.
- JSON bodies with fields of the wrong type are not modelled. A `bookId` is a
  numeric id, not a string.
- `userLoginSchema` (two unconstrained strings) is not modelled: it accepts
  every pair of strings, and the sign-in handler that uses it is not part of
  this model.
- String lengths are counted in Dafny characters, not UTF-16 code units.
  Case conversion covers ASCII only.
- The transaction log text interpolates two JavaScript numbers. The model
  keeps the two amounts (`Domain.AmountsDetail`) rather than their decimal
  rendering.
- The signup handler's hard-coded actor id is `Domain.RegistrationActor`.
- Notifications: only the choice of recipients is modelled. The message itself
  goes to the console.
- BookForm.NewBookForm.HandleStartDateChange: the start field's own `onChange`
  is replaced by this handler. Whether the form library still records the
  typed start date is not modelled; `SyncTitle` and `SyncDuration` take
  whatever start date the form holds.
- Fields the new-book page leaves `undefined` are the empty string; both are
  falsy for the page's checks.
- Rendering: the page markup, the PDF export, seeding scripts and
  authentication internals are left out. A session is given as an `Option<Session>`.
- History.FormatTwoWords: covers names of two letter words, which is every
  action type. Other names are described character by character, by
  `History.FormatActionType` and `History.FormatLetterAt`.
- History.ActionsAreColoured: states that no action type is gray and that
  creations are green. It does not give the exact colour of each other action
  type.
