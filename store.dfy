/**
 * The database as one sequential in-memory store.  Each table is a sequence
 * of rows in creation order; one counter hands out fresh row ids.
 */
module Store {
  import opened Text
  import opened Calendar
  import opened Domain

  /** `findUnique({ where: { id } })` on the book table. */
  function FindBook(bs: seq<Book>, id: Id): (r: Option<Book>)
    ensures r.Some? ==> r.value in bs && r.value.id == id
    ensures r.None? <==> forall b :: b in bs ==> b.id != id
  {
    if bs == [] then None
    else if bs[0].id == id then Some(bs[0])
    else FindBook(bs[1..], id)
  }

  /** `findFirst({ where: { status: 'ACTIVE' } })` on the book table. */
  function FindActiveBook(bs: seq<Book>): (r: Option<Book>)
    ensures r.Some? ==> r.value in bs && r.value.status.ACTIVE?
    ensures r.None? <==> forall b :: b in bs ==> !b.status.ACTIVE?
  {
    if bs == [] then None
    else if bs[0].status.ACTIVE? then Some(bs[0])
    else FindActiveBook(bs[1..])
  }

  /** The system-wide rule: at most one book is ACTIVE. */
  predicate AtMostOneActive(bs: seq<Book>) {
    forall i, j :: 0 <= i < |bs| && 0 <= j < |bs| && bs[i].status.ACTIVE? && bs[j].status.ACTIVE? ==> i == j
  }

  predicate BookIdsIncrease(bs: seq<Book>) {
    forall i, j :: 0 <= i < j < |bs| ==> bs[i].id < bs[j].id
  }

  predicate UserIdsIncrease(us: seq<User>) {
    forall i, j :: 0 <= i < j < |us| ==> us[i].id < us[j].id
  }

  predicate TransactionIdsIncrease(ts: seq<Transaction>) {
    forall i, j :: 0 <= i < j < |ts| ==> ts[i].id < ts[j].id
  }

  /** No two users share a username, and no two share an email. */
  predicate UniqueLogins(us: seq<User>) {
    forall i, j :: 0 <= i < j < |us| ==> us[i].username != us[j].username && us[i].email != us[j].email
  }

  /** The transaction's book exists and its date lies within that book's period. */
  predicate DatedWithinBook(t: Transaction, bs: seq<Book>) {
    match FindBook(bs, t.bookId)
    case None => false
    case Some(b) => b.startDate <= t.transactionDate <= b.endDate
  }

  predicate TransactionsWithinBooks(ts: seq<Transaction>, bs: seq<Book>) {
    forall k :: 0 <= k < |ts| ==> DatedWithinBook(ts[k], bs)
  }

  /** Two book tables that differ at most in the books' statuses. */
  predicate SameSchedule(bs: seq<Book>, cs: seq<Book>) {
    |bs| == |cs| &&
    forall i :: 0 <= i < |bs| ==>
      cs[i] == bs[i].(status := cs[i].status)
  }

  class Db {
    var users: seq<User>
    var books: seq<Book>
    var transactions: seq<Transaction>
    var logs: seq<ActionLog>
    var nextId: Id

    ghost predicate Valid()
      reads this
    {
      && (forall i :: 0 <= i < |users| ==> users[i].id < nextId)
      && (forall i :: 0 <= i < |books| ==> books[i].id < nextId)
      && (forall i :: 0 <= i < |transactions| ==> transactions[i].id < nextId)
      && UserIdsIncrease(users)
      && BookIdsIncrease(books)
      && TransactionIdsIncrease(transactions)
      && AtMostOneActive(books)
      && UniqueLogins(users)
      && TransactionsWithinBooks(transactions, books)
    }

    constructor ()
      ensures Valid()
      ensures users == [] && books == [] && transactions == [] && logs == []
    {
      users, books, transactions, logs := [], [], [], [];
      nextId := 0;
    }

    /** A fresh id: larger than every id handed out before. */
    method NewId() returns (id: Id)
      modifies this`nextId
      ensures id == old(nextId) && nextId == id + 1
    {
      id := nextId;
      nextId := nextId + 1;
    }
  }

  /** Among books with distinct ids, looking a book up by its id finds that book. */
  lemma FindBookById(bs: seq<Book>, j: int)
    requires BookIdsIncrease(bs) && 0 <= j < |bs|
    ensures FindBook(bs, bs[j].id) == Some(bs[j])
  {
    if j > 0 {
      assert bs[1..][j - 1] == bs[j];
      FindBookById(bs[1..], j - 1);
    }
  }

  /** Appending a row never changes what an existing id finds. */
  lemma {:induction false} FindBookAppend(bs: seq<Book>, b: Book, id: Id)
    requires FindBook(bs, id).Some?
    ensures FindBook(bs + [b], id) == FindBook(bs, id)
  {
    if bs[0].id != id {
      assert (bs + [b])[1..] == bs[1..] + [b];
      FindBookAppend(bs[1..], b, id);
    }
  }

  /** Changing only statuses keeps every book found under the same id with the same period. */
  lemma {:induction false} FindBookSameSchedule(bs: seq<Book>, cs: seq<Book>, id: Id)
    requires SameSchedule(bs, cs)
    ensures FindBook(cs, id).None? == FindBook(bs, id).None?
    ensures FindBook(bs, id).Some? ==>
      FindBook(cs, id).value == FindBook(bs, id).value.(status := FindBook(cs, id).value.status)
  {
    if bs != [] {
      assert SameSchedule(bs[1..], cs[1..]);
      FindBookSameSchedule(bs[1..], cs[1..], id);
    }
  }

  lemma TransactionsWithinSameSchedule(ts: seq<Transaction>, bs: seq<Book>, cs: seq<Book>)
    requires SameSchedule(bs, cs) && TransactionsWithinBooks(ts, bs)
    ensures TransactionsWithinBooks(ts, cs)
  {
    forall k | 0 <= k < |ts| ensures DatedWithinBook(ts[k], cs) {
      FindBookSameSchedule(bs, cs, ts[k].bookId);
    }
  }

  lemma TransactionsWithinAppend(ts: seq<Transaction>, bs: seq<Book>, b: Book)
    requires TransactionsWithinBooks(ts, bs)
    ensures TransactionsWithinBooks(ts, bs + [b])
  {
    forall k | 0 <= k < |ts| ensures DatedWithinBook(ts[k], bs + [b]) {
      FindBookAppend(bs, b, ts[k].bookId);
    }
  }

  /**
   * Inserting a book while no book is ACTIVE keeps at most one ACTIVE book,
   * whatever the status of the inserted book.
   */
  lemma InsertWhenNoneActive(bs: seq<Book>, b: Book)
    requires FindActiveBook(bs).None?
    ensures AtMostOneActive(bs + [b])
  {
  }
}
