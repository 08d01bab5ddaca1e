/**
 * The lending state machine of the library database as functions on the value of
 * its two collections. The class in module LibraryDatabase is proved to step
 * exactly as these functions say; the lemmas in LendingProperties are about them.
 */
module Lending {

  import opened Records
  import opened Wrappers

  /**
   * The `books` and `loans` collections, keyed by document id, and the id the next
   * insert receives. Books and loans are issued ids from the one counter, as
   * ObjectIds are unique across collections.
   */
  datatype Tables = Tables(books: map<Id, Book>, loans: map<Id, Loan>, nextId: nat)

  /** Every id issued so far lies below `nextId`, so `nextId` is fresh in both collections. */
  predicate WellFormed(t: Tables)
  {
    && (forall id :: id in t.books ==> id < t.nextId)
    && (forall id :: id in t.loans ==> id < t.nextId)
  }

  datatype CreateResult = CreateResult(tables: Tables, id: Id)

  datatype LoanResult = LoanResult(tables: Tables, loanId: Option<Id>)

  datatype ReturnResult = ReturnResult(tables: Tables, ok: bool)

  /**
   * `create_book`: insert a new book whose available count starts at its quantity,
   * and answer its fresh id. Nothing else changes.
   */
  function CreateBook(t: Tables, title: string, author: string, isbn: string, quantity: int): (r: CreateResult)
    requires WellFormed(t)
    ensures WellFormed(r.tables)
    ensures r.id !in t.books && r.id !in t.loans
    ensures r.tables.books.Keys == t.books.Keys + {r.id}
    ensures r.tables.books[r.id].available == r.tables.books[r.id].quantity == quantity
    ensures r.tables.books[r.id] == Book(title, author, isbn, quantity, quantity)
    ensures forall b :: b in t.books ==> r.tables.books[b] == t.books[b]
    ensures r.tables.loans == t.loans
  {
    var id := t.nextId;
    CreateResult(Tables(t.books[id := Book(title, author, isbn, quantity, quantity)], t.loans, id + 1), id)
  }

  /**
   * `loan_book`: when the book is unknown or has no copy available, answer None and
   * change nothing. Otherwise take one copy from that book, and only that book, and
   * record one new active loan due `days` days from `now`, answering its fresh id.
   */
  function LoanBook(t: Tables, userId: Id, bookId: Id, now: int, days: int := DefaultLoanDays): (r: LoanResult)
    requires WellFormed(t)
    ensures WellFormed(r.tables)
    ensures r.loanId.Some? <==> bookId in t.books && t.books[bookId].available >= 1
    ensures r.loanId.None? ==> r.tables == t
    ensures r.loanId.Some? ==>
      var id := r.loanId.value;
      && id !in t.loans && id !in t.books
      && r.tables.books.Keys == t.books.Keys
      && r.tables.books[bookId].available == t.books[bookId].available - 1 >= 0
      && r.tables.books[bookId] == t.books[bookId].(available := r.tables.books[bookId].available)
      && (forall b :: b in t.books && b != bookId ==> r.tables.books[b] == t.books[b])
      && r.tables.loans.Keys == t.loans.Keys + {id}
      && r.tables.loans[id] == Loan(userId, bookId, now, now + days * SecondsPerDay, Active)
      && (forall l :: l in t.loans ==> r.tables.loans[l] == t.loans[l])
  {
    if bookId !in t.books || t.books[bookId].available < 1 then
      LoanResult(t, None)
    else
      var book := t.books[bookId];
      var loan := Loan(userId, bookId, now, now + days * SecondsPerDay, Active);
      var id := t.nextId;
      var books := t.books[bookId := book.(available := book.available - 1)];
      LoanResult(Tables(books, t.loans[id := loan], id + 1), Some(id))
  }

  /**
   * `return_book`: when the loan is unknown, answer false and change nothing.
   * Otherwise credit one copy back to the loan's book (if that book is still in the
   * catalogue), mark the loan returned at `now`, and answer true. The loan's current
   * status is not consulted: a loan already returned is credited again.
   */
  function ReturnBook(t: Tables, loanId: Id, now: int): (r: ReturnResult)
    ensures WellFormed(t) ==> WellFormed(r.tables)
    ensures r.ok <==> loanId in t.loans
    ensures !r.ok ==> r.tables == t
    ensures r.ok ==>
      var loan := t.loans[loanId];
      && r.tables.nextId == t.nextId
      && r.tables.loans.Keys == t.loans.Keys
      && r.tables.loans[loanId] == Loan(loan.userId, loan.bookId, loan.loanDate, now, Returned)
      && (forall l :: l in t.loans && l != loanId ==> r.tables.loans[l] == t.loans[l])
      && r.tables.books.Keys == t.books.Keys
      && (loan.bookId in t.books ==>
            && r.tables.books[loan.bookId].available == t.books[loan.bookId].available + 1
            && r.tables.books[loan.bookId] == t.books[loan.bookId].(available := r.tables.books[loan.bookId].available))
      && (forall b :: b in t.books && b != loan.bookId ==> r.tables.books[b] == t.books[b])
  {
    if loanId !in t.loans then
      ReturnResult(t, false)
    else
      var loan := t.loans[loanId];
      var books :=
        if loan.bookId in t.books then
          var book := t.books[loan.bookId];
          t.books[loan.bookId := book.(available := book.available + 1)]
        else
          t.books;
      var loans := t.loans[loanId := loan.(status := Returned, returnDate := now)];
      ReturnResult(Tables(books, loans, t.nextId), true)
  }
}
