/**
 * The book scheduler: closing expired books, generating the next weekly
 * book, choosing notification recipients, and the overdue and upcoming
 * queries.  The clock is the parameter `now`, in milliseconds.
 */
module Scheduler {
  import opened Text
  import opened Calendar
  import opened Query
  import opened Domain
  import opened Store
  import TransactionsRoute

  /** ACTIVE, and the stored end date (midnight UTC of its day) is before `now`. */
  predicate IsExpired(b: Book, now: Instant) {
    b.status.ACTIVE? && DayStart(b.endDate) < now
  }

  /** The rows `findMany` returns for `status: 'ACTIVE', endDate: { lt: now }`. */
  function ExpiredBooks(bs: seq<Book>, now: Instant): (r: seq<Book>)
    ensures |r| <= |bs|
    ensures forall b :: b in r <==> b in bs && IsExpired(b, now)
  {
    Filter(bs, b => IsExpired(b, now))
  }

  function Closed(b: Book): Book { b.(status := CLOSED) }

  /** The book table after every row whose id is in `ids` is set to CLOSED. */
  function CloseIds(bs: seq<Book>, ids: set<Id>): (r: seq<Book>)
    ensures |r| == |bs|
    ensures forall i :: 0 <= i < |bs| ==> r[i] == if bs[i].id in ids then Closed(bs[i]) else bs[i]
  {
    if bs == [] then []
    else [if bs[0].id in ids then Closed(bs[0]) else bs[0]] + CloseIds(bs[1..], ids)
  }

  /**
   * What one pass of auto-closing does to the book table: every expired book
   * is CLOSED, every other book is left as it was.
   */
  function CloseExpired(bs: seq<Book>, now: Instant): (r: seq<Book>)
    ensures |r| == |bs|
    ensures forall i :: 0 <= i < |bs| ==> r[i] == if IsExpired(bs[i], now) then Closed(bs[i]) else bs[i]
  {
    if bs == [] then []
    else [if IsExpired(bs[0], now) then Closed(bs[0]) else bs[0]] + CloseExpired(bs[1..], now)
  }

  /** The log entry of an automatic close. */
  function ClosingLog(b: Book): ActionLog {
    ActionLog(SystemActor, BOOK_CLOSED, BOOK, b.id, Text("Book automatically closed: " + b.title))
  }

  /** One closing entry per book, in the order the books are closed. */
  function ClosingLogs(es: seq<Book>): (r: seq<ActionLog>)
    ensures |r| == |es|
    ensures forall i :: 0 <= i < |es| ==> r[i] == ClosingLog(es[i])
  {
    if es == [] then [] else ClosingLogs(es[..|es| - 1]) + [ClosingLog(es[|es| - 1])]
  }

  function IdSet(es: seq<Book>): set<Id> {
    set e | e in es :: e.id
  }

  /** Every book id is a primary key. */
  predicate UniqueBookIds(bs: seq<Book>) {
    forall i, j :: 0 <= i < |bs| && 0 <= j < |bs| && bs[i].id == bs[j].id ==> i == j
  }

  lemma IncreasingIdsUnique(bs: seq<Book>)
    requires BookIdsIncrease(bs)
    ensures UniqueBookIds(bs)
  {
  }

  /** With unique ids, looking up a stored book's id finds that book. */
  lemma {:induction false} FindStoredBook(bs: seq<Book>, i: int)
    requires UniqueBookIds(bs) && 0 <= i < |bs|
    ensures FindBook(bs, bs[i].id) == Some(bs[i])
  {
    if i > 0 {
      assert bs[0].id != bs[i].id;
      assert UniqueBookIds(bs[1..]) by {
        forall a, b | 0 <= a < |bs| - 1 && 0 <= b < |bs| - 1 && bs[1..][a].id == bs[1..][b].id
          ensures a == b
        {
          assert bs[a + 1].id == bs[b + 1].id;
        }
      }
      FindStoredBook(bs[1..], i - 1);
    }
  }

  /** Closing rows never changes which id finds which row, nor its title. */
  lemma {:induction false} FindBookCloseIds(bs: seq<Book>, ids: set<Id>, id: Id)
    ensures FindBook(CloseIds(bs, ids), id).Some? == FindBook(bs, id).Some?
    ensures FindBook(bs, id).Some? ==>
      FindBook(CloseIds(bs, ids), id).value.id == FindBook(bs, id).value.id
      && FindBook(CloseIds(bs, ids), id).value.title == FindBook(bs, id).value.title
  {
    if bs != [] {
      assert CloseIds(bs, ids)[1..] == CloseIds(bs[1..], ids);
      FindBookCloseIds(bs[1..], ids, id);
    }
  }

  /**
   * `closeBook`: set one book to CLOSED and log it.  An id that finds no book
   * makes the update fail: nothing changes and no book is returned.
   */
  method CloseBook(db: Db, id: Id) returns (r: Option<Book>)
    modifies db
    ensures FindBook(old(db.books), id).None? ==> r.None? && unchanged(db)
    ensures FindBook(old(db.books), id).Some? ==>
      && r == Some(Closed(FindBook(old(db.books), id).value))
      && db.books == CloseIds(old(db.books), {id})
      && db.logs == old(db.logs) + [ClosingLog(r.value)]
      && db.users == old(db.users) && db.transactions == old(db.transactions)
      && db.nextId == old(db.nextId)
    ensures old(db.Valid()) ==> db.Valid()
  {
    var found := FindBook(db.books, id);
    if found.None? {
      return None;
    }
    if db.Valid() {
      CloseIdsKeepsStore(db.books, db.transactions, db.nextId, {id});
    }
    var book := Closed(found.value);
    db.books := CloseIds(db.books, {id});
    db.logs := db.logs + [ClosingLog(book)];
    r := Some(book);
    assert db.users == old(db.users) && db.transactions == old(db.transactions) && db.nextId == old(db.nextId);
  }

  /** Closing rows by id keeps the schedule: only statuses change. */
  lemma CloseIdsSameSchedule(bs: seq<Book>, ids: set<Id>)
    ensures SameSchedule(bs, CloseIds(bs, ids))
  {
  }

  /** Closing rows never adds an ACTIVE book. */
  lemma CloseIdsAtMostOneActive(bs: seq<Book>, ids: set<Id>)
    requires AtMostOneActive(bs)
    ensures AtMostOneActive(CloseIds(bs, ids))
  {
  }

  /** Under unique ids, closing the expired books by id is `CloseExpired`. */
  lemma CloseExpiredByIds(bs: seq<Book>, now: Instant)
    requires UniqueBookIds(bs)
    ensures CloseIds(bs, IdSet(ExpiredBooks(bs, now))) == CloseExpired(bs, now)
  {
    var es := ExpiredBooks(bs, now);
    forall i | 0 <= i < |bs|
      ensures (bs[i].id in IdSet(es)) == IsExpired(bs[i], now)
    {
      if bs[i].id in IdSet(es) {
        var e :| e in es && e.id == bs[i].id;
        var j :| 0 <= j < |bs| && bs[j] == e;
      }
    }
  }

  lemma IdSetSnoc(es: seq<Book>, k: int)
    requires 0 <= k < |es|
    ensures IdSet(es[..k + 1]) == IdSet(es[..k]) + {es[k].id}
  {
    assert es[..k + 1] == es[..k] + [es[k]];
  }

  lemma CloseIdsTwice(bs: seq<Book>, ids: set<Id>, id: Id)
    ensures CloseIds(CloseIds(bs, ids), {id}) == CloseIds(bs, ids + {id})
  {
    var a, b := CloseIds(CloseIds(bs, ids), {id}), CloseIds(bs, ids + {id});
    assert forall j :: 0 <= j < |bs| ==> a[j] == b[j];
  }

  /**
   * One iteration of the closing loop: the next expired book is still found
   * under its id, closing it extends the closed set, and its log entry names it.
   */
  lemma CloseStep(books0: seq<Book>, expired: seq<Book>, k: int, current: seq<Book>)
    requires UniqueBookIds(books0) && 0 <= k < |expired| && expired[k] in books0
    requires current == CloseIds(books0, IdSet(expired[..k]))
    ensures FindBook(current, expired[k].id).Some?
    ensures ClosingLog(Closed(FindBook(current, expired[k].id).value)) == ClosingLog(expired[k])
    ensures CloseIds(current, {expired[k].id}) == CloseIds(books0, IdSet(expired[..k + 1]))
  {
    var e := expired[k];
    var i :| 0 <= i < |books0| && books0[i] == e;
    FindStoredBook(books0, i);
    FindBookCloseIds(books0, IdSet(expired[..k]), e.id);
    IdSetSnoc(expired, k);
    CloseIdsTwice(books0, IdSet(expired[..k]), e.id);
  }

  lemma ClosingLogsSnoc(logs0: seq<ActionLog>, es: seq<Book>, k: int, logs: seq<ActionLog>)
    requires 0 <= k < |es| && logs == logs0 + ClosingLogs(es[..k])
    ensures logs + [ClosingLog(es[k])] == logs0 + ClosingLogs(es[..k + 1])
  {
    assert es[..k + 1][..k] == es[..k];
  }

  /** Closing books by id keeps every store invariant about books. */
  lemma CloseIdsKeepsStore(bs: seq<Book>, ts: seq<Transaction>, nextId: Id, ids: set<Id>)
    requires forall i :: 0 <= i < |bs| ==> bs[i].id < nextId
    requires BookIdsIncrease(bs) && AtMostOneActive(bs) && TransactionsWithinBooks(ts, bs)
    ensures var c := CloseIds(bs, ids);
      && (forall i :: 0 <= i < |c| ==> c[i].id < nextId)
      && BookIdsIncrease(c) && AtMostOneActive(c) && TransactionsWithinBooks(ts, c)
  {
    CloseIdsSameSchedule(bs, ids);
    CloseIdsAtMostOneActive(bs, ids);
    TransactionsWithinSameSchedule(ts, bs, CloseIds(bs, ids));
  }

  /** Auto-closing keeps every store invariant about books. */
  lemma CloseExpiredKeepsStore(bs: seq<Book>, ts: seq<Transaction>, nextId: Id, now: Instant)
    requires forall i :: 0 <= i < |bs| ==> bs[i].id < nextId
    requires BookIdsIncrease(bs) && AtMostOneActive(bs) && TransactionsWithinBooks(ts, bs)
    ensures var c := CloseExpired(bs, now);
      && (forall i :: 0 <= i < |c| ==> c[i].id < nextId)
      && BookIdsIncrease(c) && AtMostOneActive(c) && TransactionsWithinBooks(ts, c)
  {
    CloseExpiredKeepsInvariants(bs, ts, now);
  }

  /**
   * `checkAndCloseExpiredBooks`: close every expired book one by one, logging
   * each, and return how many there were.
   */
  method CheckAndCloseExpiredBooks(db: Db, now: Instant) returns (count: nat)
    requires UniqueBookIds(db.books)
    modifies db
    ensures count == |ExpiredBooks(old(db.books), now)|
    ensures db.books == CloseExpired(old(db.books), now)
    ensures db.logs == old(db.logs) + ClosingLogs(ExpiredBooks(old(db.books), now))
    ensures db.users == old(db.users) && db.transactions == old(db.transactions)
    ensures db.nextId == old(db.nextId)
    ensures old(db.Valid()) ==> db.Valid()
  {
    var expired := ExpiredBooks(db.books, now);
    ghost var books0, logs0, users0, transactions0, nextId0 := db.books, db.logs, db.users, db.transactions, db.nextId;
    for k := 0 to |expired|
      invariant db.books == CloseIds(books0, IdSet(expired[..k]))
      invariant db.logs == logs0 + ClosingLogs(expired[..k])
      invariant db.users == users0 && db.transactions == transactions0 && db.nextId == nextId0
    {
      assert expired[k] in books0;
      CloseStep(books0, expired, k, db.books);
      ClosingLogsSnoc(logs0, expired, k, db.logs);
      var closed := CloseBook(db, expired[k].id);
    }
    assert expired[..|expired|] == expired;
    CloseExpiredByIds(books0, now);
    assert db.users == old(db.users) && db.transactions == old(db.transactions) && db.nextId == old(db.nextId);
    if old(db.Valid()) {
      CloseExpiredKeepsStore(books0, db.transactions, db.nextId, now);
    }
    count := |expired|;
  }

  /** A second pass with the same clock finds nothing to close. */
  lemma CloseExpiredIdempotent(bs: seq<Book>, now: Instant)
    ensures ExpiredBooks(CloseExpired(bs, now), now) == []
    ensures CloseExpired(CloseExpired(bs, now), now) == CloseExpired(bs, now)
  {
    FilterNone(CloseExpired(bs, now), b => IsExpired(b, now));
  }

  /** Auto-closing changes nothing but statuses, and never adds an ACTIVE book. */
  lemma CloseExpiredKeepsInvariants(bs: seq<Book>, ts: seq<Transaction>, now: Instant)
    ensures SameSchedule(bs, CloseExpired(bs, now))
    ensures AtMostOneActive(bs) ==> AtMostOneActive(CloseExpired(bs, now))
    ensures TransactionsWithinBooks(ts, bs) ==> TransactionsWithinBooks(ts, CloseExpired(bs, now))
  {
    if TransactionsWithinBooks(ts, bs) {
      TransactionsWithinSameSchedule(ts, bs, CloseExpired(bs, now));
    }
  }

  /**
   * The stored end date is midnight at the start of the book's last day, so
   * a book is closed during its own last day, while a transaction dated that
   * day would still pass the period check.
   */
  lemma ClosesDuringLastDay(b: Book, now: Instant)
    requires b.status.ACTIVE? && b.startDate <= b.endDate
    requires DayStart(b.endDate) < now < DayStart(b.endDate + 1)
    ensures IsExpired(b, now)
    ensures TransactionsRoute.WithinPeriod(b.endDate, b)
  {
  }

  /** The book `generateNextBook` creates after `last`. */
  function NextBook(last: Book, id: Id): (b: Book)
    ensures b.startDate == last.endDate + 1 && b.endDate == b.startDate + 6
    ensures b.durationDays == 7 && b.status.ACTIVE? && b.createdBy == SystemActor
    ensures b.id == id && b.title == WeekTitle(b.startDate)
  {
    var start := last.endDate + 1;
    Book(id, WeekTitle(start), start, start + 6, 7, BookStatus.ACTIVE, SystemActor)
  }

  /**
   * `generateNextBook`: after the most recently created book, open the next
   * seven-day book, unless there is no book at all or one is still ACTIVE.
   */
  method GenerateNextBook(db: Db) returns (r: Option<Book>)
    modifies db
    ensures old(db.books) == [] ==> r.None? && unchanged(db)
    ensures FindActiveBook(old(db.books)).Some? ==> r.None? && unchanged(db)
    ensures r.Some? <==> old(db.books) != [] && FindActiveBook(old(db.books)).None?
    ensures r.Some? ==>
      && r.value == NextBook(old(db.books)[|old(db.books)| - 1], old(db.nextId))
      && db.books == old(db.books) + [r.value]
      && db.logs == old(db.logs) + [ActionLog(SystemActor, BOOK_CREATED, BOOK, r.value.id,
           Text("Auto-generated book: " + r.value.title))]
      && db.users == old(db.users) && db.transactions == old(db.transactions)
      && db.nextId == old(db.nextId) + 1
    ensures AtMostOneActive(db.books) <== AtMostOneActive(old(db.books))
    ensures old(db.Valid()) ==> db.Valid()
  {
    if db.books == [] {
      return None;
    }
    var last := db.books[|db.books| - 1];
    if FindActiveBook(db.books).Some? {
      return None;
    }
    ghost var wasValid := db.Valid();
    var id := db.NewId();
    var book := NextBook(last, id);
    InsertWhenNoneActive(db.books, book);
    if wasValid {
      TransactionsWithinAppend(db.transactions, db.books, book);
    }
    db.books := db.books + [book];
    db.logs := db.logs + [ActionLog(SystemActor, BOOK_CREATED, BOOK, id,
      Text("Auto-generated book: " + book.title))];
    r := Some(book);
  }

  /** The generated book spans seven calendar days and its week number is in range. */
  lemma NextBookIsOneWeek(last: Book, id: Id)
    ensures InclusiveDays(DayStart(NextBook(last, id).startDate), DayStart(NextBook(last, id).endDate)) == 7
    ensures 1 <= WeekNumber(NextBook(last, id).startDate) <= 54
  {
    WeekLastsSevenDays(last.endDate + 1);
  }

  /** The users `sendNewBookNotifications` addresses: all ACTIVE users, or nobody if the book is missing. */
  function NotificationRecipients(books: seq<Book>, users: seq<User>, bookId: Id): (r: seq<User>)
    ensures FindBook(books, bookId).None? ==> r == []
    ensures FindBook(books, bookId).Some? ==>
      forall u :: u in r <==> u in users && u.status == UserStatus.ACTIVE
    ensures |r| <= |users|
  {
    if FindBook(books, bookId).None? then []
    else Filter(users, (u: User) => u.status == UserStatus.ACTIVE)
  }

  function LaterEnd(b: Book): int { 0 - b.endDate as int }

  /** `getOverdueBooks`: the expired books, latest end date first. */
  function OverdueBooks(bs: seq<Book>, now: Instant): (r: seq<Book>)
    ensures multiset(r) == multiset(ExpiredBooks(bs, now))
    ensures forall b :: b in r <==> b in bs && IsExpired(b, now)
    ensures Ascending(r, LaterEnd)
  {
    var r := SortBy(ExpiredBooks(bs, now), LaterEnd);
    assert forall b :: b in r <==> b in multiset(ExpiredBooks(bs, now));
    r
  }

  /** Once the expired books are closed, none is overdue. */
  lemma NoOverdueAfterClose(bs: seq<Book>, now: Instant)
    ensures OverdueBooks(CloseExpired(bs, now), now) == []
  {
    CloseExpiredIdempotent(bs, now);
  }

  const FourWeeksMs: int := 28 * MsPerDay

  predicate StartsWithinFourWeeks(b: Book, now: Instant) {
    now <= DayStart(b.startDate) <= now + FourWeeksMs
  }

  function StartKey(b: Book): int { b.startDate }

  /** The rows `findMany` returns for `startDate: { gte: now, lte: now + 28 days }`. */
  function StartingSoon(bs: seq<Book>, now: Instant): (r: seq<Book>)
    ensures forall b :: b in r <==> b in bs && StartsWithinFourWeeks(b, now)
  {
    Filter(bs, b => StartsWithinFourWeeks(b, now))
  }

  /** `getUpcomingBooks`: books starting in the next 28 days, earliest first. */
  function UpcomingBooks(bs: seq<Book>, now: Instant): (r: seq<Book>)
    ensures multiset(r) == multiset(StartingSoon(bs, now))
    ensures forall b :: b in r <==> b in bs && StartsWithinFourWeeks(b, now)
    ensures Ascending(r, StartKey)
  {
    var r := SortBy(StartingSoon(bs, now), StartKey);
    assert forall b :: b in r <==> b in multiset(StartingSoon(bs, now));
    r
  }
}
