/**
 * `/api/transactions`: recording a transaction against the ACTIVE book (POST)
 * and listing transactions (GET).
 */
module TransactionsRoute {
  import opened Text
  import opened Calendar
  import opened Query
  import opened Domain
  import opened Store
  import opened Validation

  const Unauthorized: string := "Unauthorized"
  const BookNotFound: string := "Book not found"
  const BookInactive: string := "Cannot add transactions to inactive books"
  const OutsidePeriod: string := "Transaction date must be within the book period"

  /** The inclusive range check of the handler: neither before the start nor after the end. */
  predicate WithinPeriod(d: Day, b: Book) {
    !(d < b.startDate || d > b.endDate)
  }

  /**
   * POST /api/transactions.  An unparsable date slips past the range check
   * (comparisons with an invalid date are false) and makes the insert fail.
   */
  method CreateTransaction(db: Db, session: Option<Session>, body: TransactionCreateInput)
    returns (reply: Reply<Transaction>)
    modifies db
    ensures session.None? ==> reply == Failure(401, Unauthorized)
    ensures session.Some? && TransactionCreate(body).None? ==> reply == Failure(400, ValidationFailed)
    ensures (session.Some? && TransactionCreate(body).Some? && FindBook(old(db.books), body.bookId).None?) ==>
      reply == Failure(404, BookNotFound)
    ensures (session.Some? && TransactionCreate(body).Some? && FindBook(old(db.books), body.bookId).Some?
      && !FindBook(old(db.books), body.bookId).value.status.ACTIVE?) ==>
      reply == Failure(400, BookInactive)
    ensures (session.Some? && TransactionCreate(body).Some? && FindBook(old(db.books), body.bookId).Some?
      && FindBook(old(db.books), body.bookId).value.status.ACTIVE?
      && ParseDateText(body.transactionDate).None?) ==>
      reply == Failure(400, InvalidDate)
    ensures (session.Some? && TransactionCreate(body).Some? && FindBook(old(db.books), body.bookId).Some?
      && FindBook(old(db.books), body.bookId).value.status.ACTIVE?
      && ParseDateText(body.transactionDate).Some?
      && !WithinPeriod(ParseDateText(body.transactionDate).value, FindBook(old(db.books), body.bookId).value)) ==>
      reply == Failure(400, OutsidePeriod)
    ensures reply.Failure? ==> unchanged(db)
    ensures reply.Success? ==>
      && session.Some? && TransactionCreate(body).Some?
      && FindBook(old(db.books), body.bookId).Some?
      && FindBook(old(db.books), body.bookId).value.status.ACTIVE?
      && ParseDateText(body.transactionDate).Some?
      && WithinPeriod(ParseDateText(body.transactionDate).value, FindBook(old(db.books), body.bookId).value)
    ensures reply.Success? ==>
      && reply.code == 201
      && reply.body == Transaction(old(db.nextId), session.value.userId, body.bookId,
           ParseDateText(body.transactionDate).value,
           TransactionCreate(body).value.amountGained, TransactionCreate(body).value.amountSpent, body.note)
      && db.transactions == old(db.transactions) + [reply.body]
      && db.logs == old(db.logs) + [ActionLog(UserActor(session.value.userId), TRANSACTION_CREATED,
           TRANSACTION, reply.body.id,
           AmountsDetail(TransactionCreate(body).value.amountGained, TransactionCreate(body).value.amountSpent))]
      && db.books == old(db.books) && db.users == old(db.users) && db.nextId == old(db.nextId) + 1
    ensures (session.Some? && TransactionCreate(body).Some? && FindBook(old(db.books), body.bookId).Some?
      && FindBook(old(db.books), body.bookId).value.status.ACTIVE?
      && ParseDateText(body.transactionDate).Some?
      && WithinPeriod(ParseDateText(body.transactionDate).value, FindBook(old(db.books), body.bookId).value)) ==>
      reply.Success?
    ensures TransactionsWithinBooks(old(db.transactions), old(db.books)) ==>
      TransactionsWithinBooks(db.transactions, db.books)
    ensures old(db.Valid()) ==> db.Valid()
  {
    if session.None? {
      return Failure(401, Unauthorized);
    }
    var data := TransactionCreate(body);
    if data.None? {
      return Failure(400, ValidationFailed);
    }
    var book := FindBook(db.books, data.value.bookId);
    if book.None? {
      return Failure(404, BookNotFound);
    }
    if !book.value.status.ACTIVE? {
      return Failure(400, BookInactive);
    }
    var date := ParseDateText(data.value.transactionDate);
    if date.Some? && !WithinPeriod(date.value, book.value) {
      return Failure(400, OutsidePeriod);
    }
    if date.None? {
      return Failure(400, InvalidDate);
    }
    var id := db.NewId();
    var t := Transaction(id, session.value.userId, data.value.bookId, date.value,
      data.value.amountGained, data.value.amountSpent, data.value.note);
    assert DatedWithinBook(t, db.books);
    db.transactions := db.transactions + [t];
    db.logs := db.logs + [ActionLog(UserActor(session.value.userId), TRANSACTION_CREATED, TRANSACTION, id,
      AmountsDetail(data.value.amountGained, data.value.amountSpent))];
    reply := Success(201, t);
  }

  /** The `bookId` and `userId` query parameters; an empty parameter counts as absent. */
  datatype TransactionQuery = TransactionQuery(bookId: Option<Id>, userId: Option<Id>)

  /** The `where` object the handler builds: an optional equality on each column. */
  datatype Where = Where(bookId: Option<Id>, userId: Option<Id>)

  /**
   * The `where` clause: the book filter when given; the user filter when
   * given, whatever the caller's role; otherwise a non-admin is restricted
   * to their own records.
   */
  function BuildWhere(session: Session, q: TransactionQuery): (w: Where)
    ensures w.bookId == q.bookId
    ensures q.userId.Some? ==> w.userId == q.userId
    ensures q.userId.None? && session.role == ADMIN ==> w.userId.None?
    ensures q.userId.None? && session.role != ADMIN ==> w.userId == Some(session.userId)
  {
    var w := Where(None, None);
    var w := if q.bookId.Some? then w.(bookId := q.bookId) else w;
    if q.userId.Some? then w.(userId := q.userId)
    else if session.role != ADMIN then w.(userId := Some(session.userId))
    else w
  }

  predicate Matches(w: Where, t: Transaction) {
    (w.bookId.None? || t.bookId == w.bookId.value) && (w.userId.None? || t.userId == w.userId.value)
  }

  function Newer(t: Transaction): int { 0 - t.transactionDate as int }

  /** GET /api/transactions: the matching rows, latest transaction date first. */
  function ListTransactions(session: Option<Session>, q: TransactionQuery, ts: seq<Transaction>)
    : (r: Reply<seq<Transaction>>)
    ensures session.None? <==> r == Failure(401, Unauthorized)
    ensures r.Success? ==> r.code == 200
    ensures r.Success? ==> multiset(r.body) == multiset(Filter(ts, t => Matches(BuildWhere(session.value, q), t)))
    ensures r.Success? ==> forall t :: t in r.body <==> t in ts && Matches(BuildWhere(session.value, q), t)
    ensures r.Success? ==> Ascending(r.body, Newer)
  {
    if session.None? then Failure(401, Unauthorized)
    else
      var rows := Filter(ts, t => Matches(BuildWhere(session.value, q), t));
      var sorted := SortBy(rows, Newer);
      assert forall t :: t in sorted <==> t in multiset(rows);
      Success(200, sorted)
  }

  /** Without a `userId` parameter, a non-admin sees only their own transactions. */
  lemma NonAdminSeesOwn(s: Session, q: TransactionQuery, ts: seq<Transaction>)
    requires s.role != ADMIN && q.userId.None?
    ensures forall t :: t in ListTransactions(Some(s), q, ts).body ==> t.userId == s.userId
  {
  }

  /**
   * The `userId` parameter is honoured for every role: a non-admin asking
   * for another user's id sees that user's transactions.
   */
  lemma UserParamHonoured(s: Session, other: Id, ts: seq<Transaction>)
    ensures forall t :: (t in ListTransactions(Some(s), TransactionQuery(None, Some(other)), ts).body
      <==> t in ts && t.userId == other)
  {
  }

  /** An admin without parameters sees every transaction. */
  lemma AdminSeesAll(s: Session, ts: seq<Transaction>)
    requires s.role == ADMIN
    ensures multiset(ListTransactions(Some(s), TransactionQuery(None, None), ts).body) == multiset(ts)
  {
    FilterAll(ts, t => Matches(BuildWhere(s, TransactionQuery(None, None)), t));
  }
}
