/**
 * `/api/books`: creating a weekly book (POST) and listing books (GET).
 */
module BooksRoute {
  import opened Text
  import opened Calendar
  import opened Query
  import opened Domain
  import opened Store
  import opened Validation

  const Unauthorized: string := "Unauthorized"
  const Forbidden: string := "Forbidden"
  const ActiveBookExists: string := "There is already an active book. Please close it first."
  const InternalError: string := "Internal server error"

  /** Every condition POST checks before it writes anything. */
  predicate CreateAdmitted(session: Option<Session>, body: BookCreateInput, books: seq<Book>) {
    && session.Some? && session.value.role == ADMIN
    && BookCreate(body).Some?
    && FindActiveBook(books).None?
    && ParseDateText(body.startDate).Some? && ParseDateText(body.endDate).Some?
  }

  /**
   * POST /api/books.  The guards run in the handler's order: session (401),
   * role (403), schema (400), an ACTIVE book already present (400), and last
   * the date conversion the database insert performs (400).
   */
  method CreateBook(db: Db, session: Option<Session>, body: BookCreateInput) returns (reply: Reply<Book>)
    modifies db
    ensures session.None? ==> reply == Failure(401, Unauthorized)
    ensures session.Some? && session.value.role != ADMIN ==> reply == Failure(403, Forbidden)
    ensures session.Some? && session.value.role == ADMIN && BookCreate(body).None? ==>
      reply == Failure(400, ValidationFailed)
    ensures (session.Some? && session.value.role == ADMIN && BookCreate(body).Some?
      && FindActiveBook(old(db.books)).Some?) ==>
      reply == Failure(400, ActiveBookExists)
    ensures (session.Some? && session.value.role == ADMIN && BookCreate(body).Some?
      && FindActiveBook(old(db.books)).None?
      && (ParseDateText(body.startDate).None? || ParseDateText(body.endDate).None?)) ==>
      reply == Failure(400, InvalidDate)
    ensures reply.Failure? ==> unchanged(db)
    ensures reply.Success? <==> CreateAdmitted(session, body, old(db.books))
    ensures reply.Success? ==>
      && reply.code == 201
      && reply.body == Book(old(db.nextId), body.title,
           ParseDateText(body.startDate).value, ParseDateText(body.endDate).value,
           BookCreate(body).value.durationDays, BookStatus.ACTIVE, UserActor(session.value.userId))
      && db.books == old(db.books) + [reply.body]
      && db.logs == old(db.logs) + [ActionLog(UserActor(session.value.userId), BOOK_CREATED, BOOK,
           reply.body.id, Text("Created book: " + body.title))]
      && db.users == old(db.users) && db.transactions == old(db.transactions)
      && db.nextId == old(db.nextId) + 1
    ensures AtMostOneActive(old(db.books)) ==> AtMostOneActive(db.books)
    ensures old(db.Valid()) ==> db.Valid()
  {
    if session.None? {
      return Failure(401, Unauthorized);
    }
    if session.value.role != ADMIN {
      return Failure(403, Forbidden);
    }
    var data := BookCreate(body);
    if data.None? {
      return Failure(400, ValidationFailed);
    }
    if FindActiveBook(db.books).Some? {
      return Failure(400, ActiveBookExists);
    }
    var start, end := ParseDateText(data.value.startDate), ParseDateText(data.value.endDate);
    if start.None? || end.None? {
      return Failure(400, InvalidDate);
    }
    ghost var wasValid := db.Valid();
    var id := db.NewId();
    var book := Book(id, data.value.title, start.value, end.value, data.value.durationDays,
      BookStatus.ACTIVE, UserActor(session.value.userId));
    InsertWhenNoneActive(db.books, book);
    if wasValid {
      TransactionsWithinAppend(db.transactions, db.books, book);
    }
    db.books := db.books + [book];
    db.logs := db.logs + [ActionLog(UserActor(session.value.userId), BOOK_CREATED, BOOK, id,
      Text("Created book: " + book.title))];
    reply := Success(201, book);
  }

  /** The `status` query parameter, when present and non-empty. */
  predicate StatusRequested(status: Option<string>) {
    status.Some? && status.value != ""
  }

  /**
   * GET /api/books: all books, or those of the requested status, newest
   * first.  A status that is not a book status makes the query fail (500).
   */
  function ListBooks(session: Option<Session>, status: Option<string>, books: seq<Book>): (r: Reply<seq<Book>>)
    ensures session.None? ==> r == Failure(401, Unauthorized)
    ensures session.Some? && StatusRequested(status) && ParseBookStatus(status.value).None? ==>
      r == Failure(500, InternalError)
    ensures r.Success? <==>
      session.Some? && (!StatusRequested(status) || ParseBookStatus(status.value).Some?)
    ensures r.Success? ==> r.code == 200 && |r.body| <= |books|
    ensures r.Success? ==> forall b :: b in r.body <==>
      b in books && (StatusRequested(status) ==> Some(b.status) == ParseBookStatus(status.value))
  {
    if session.None? then Failure(401, Unauthorized)
    else if !StatusRequested(status) then Success(200, Reverse(books))
    else match ParseBookStatus(status.value)
      case None => Failure(500, InternalError)
      case Some(st) => Success(200, Reverse(Filter(books, (b: Book) => b.status == st)))
  }

  /** Books are listed newest first: ids strictly decrease down the list. */
  lemma ListBooksNewestFirst(session: Option<Session>, status: Option<string>, books: seq<Book>)
    requires BookIdsIncrease(books)
    requires ListBooks(session, status, books).Success?
    ensures BookIdsDecrease(ListBooks(session, status, books).body)
  {
    if StatusRequested(status) {
      var st := ParseBookStatus(status.value).value;
      FilterKeepsOrder(books, (b: Book) => b.status == st, (b: Book) => b.id);
    }
  }

  predicate BookIdsDecrease(bs: seq<Book>) {
    forall i, j :: 0 <= i < j < |bs| ==> bs[i].id > bs[j].id
  }
}
