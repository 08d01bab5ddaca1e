/**
 * The `Database` object of the library service: the books and loans collections
 * are map fields that `create_book`, `loan_book` and `return_book` update in
 * place. Each method is proved to step exactly as the function of the same name in
 * module Lending, and states its guard, its effect and what it leaves alone.
 *
 * One call runs at a time. The source reads a document and then writes it in a
 * separate request, so two concurrent requests can both pass the availability
 * check; that interleaving is outside this sequential model.
 */
module LibraryDatabase {

  import opened Records
  import opened Wrappers
  import Lending

  class Database {
    /** The `books` collection. */
    var books: map<Id, Book>
    /** The `loans` collection. */
    var loans: map<Id, Loan>
    /** The id the next inserted document receives. */
    var nextId: nat

    /** The value of both collections, as the functions of module Lending see it. */
    function Snapshot(): Lending.Tables
      reads this
    {
      Lending.Tables(books, loans, nextId)
    }

    ghost predicate Valid()
      reads this
    {
      Lending.WellFormed(Snapshot())
    }

    /** A database with empty collections. */
    constructor ()
      ensures Valid()
      ensures books == map[] && loans == map[]
    {
      books, loans, nextId := map[], map[], 0;
    }

    /** `create_book`: insert a book whose available count is its quantity; answer its id. */
    method CreateBook(title: string, author: string, isbn: string, quantity: int) returns (id: Id)
      requires Valid()
      modifies this
      ensures Valid()
      ensures Lending.CreateBook(old(Snapshot()), title, author, isbn, quantity) == Lending.CreateResult(Snapshot(), id)
      ensures id !in old(books) && id !in old(loans)
      ensures books == old(books)[id := Book(title, author, isbn, quantity, quantity)]
      ensures loans == old(loans)
    {
      var book := Book(title, author, isbn, quantity, quantity);
      id := nextId;
      nextId := nextId + 1;
      books := books[id := book];
    }

    /**
     * `loan_book`: answer None, changing nothing, when the book is unknown or has no
     * copy available; otherwise take one copy and record an active loan due `days`
     * days after `now`, answering the new loan's id.
     */
    method LoanBook(userId: Id, bookId: Id, now: int, days: int := DefaultLoanDays) returns (loanId: Option<Id>)
      requires Valid()
      modifies this
      ensures Valid()
      ensures Lending.LoanBook(old(Snapshot()), userId, bookId, now, days) == Lending.LoanResult(Snapshot(), loanId)
      ensures loanId.None? <==> bookId !in old(books) || old(books)[bookId].available < 1
      ensures loanId.None? ==> books == old(books) && loans == old(loans)
      ensures loanId.Some? ==>
        && loanId.value !in old(loans)
        && books == old(books)[bookId := old(books)[bookId].(available := old(books)[bookId].available - 1)]
        && loans == old(loans)[loanId.value := Loan(userId, bookId, now, now + days * SecondsPerDay, Active)]
    {
      if bookId !in books || books[bookId].available < 1 {
        return None;
      }
      var loan := Loan(userId, bookId, now, now + days * SecondsPerDay, Active);
      var book := books[bookId];
      books := books[bookId := book.(available := book.available - 1)];
      var id := nextId;
      nextId := nextId + 1;
      loans := loans[id := loan];
      loanId := Some(id);
    }

    /**
     * `return_book`: answer false, changing nothing, when the loan is unknown;
     * otherwise credit one copy to the loan's book (when that book exists), mark the
     * loan returned at `now`, and answer true, whatever the loan's status was.
     */
    method ReturnBook(loanId: Id, now: int) returns (ok: bool)
      requires Valid()
      modifies this
      ensures Valid()
      ensures Lending.ReturnBook(old(Snapshot()), loanId, now) == Lending.ReturnResult(Snapshot(), ok)
      ensures ok <==> loanId in old(loans)
      ensures !ok ==> books == old(books) && loans == old(loans)
      ensures ok ==>
        var loan := old(loans)[loanId];
        && loans == old(loans)[loanId := loan.(status := Returned, returnDate := now)]
        && books == if loan.bookId in old(books)
                    then old(books)[loan.bookId := old(books)[loan.bookId].(available := old(books)[loan.bookId].available + 1)]
                    else old(books)
    {
      if loanId !in loans {
        return false;
      }
      var loan := loans[loanId];
      if loan.bookId in books {
        var book := books[loan.bookId];
        books := books[loan.bookId := book.(available := book.available + 1)];
      }
      loans := loans[loanId := loan.(status := Returned, returnDate := now)];
      ok := true;
    }
  }

  /**
   * A lending scenario played against the methods as written:
   * two copies, two loans, a refused third, a return, and the third loan.
   */
  method TwoCopiesScenario(p1: Id, p2: Id, p3: Id, now: int)
  {
    var db := new Database();
    var t := db.CreateBook("Dune", "Herbert", "", 2);
    var loan1 := db.LoanBook(p1, t, now);
    assert loan1.Some? && db.books[t].available == 1;
    var loan2 := db.LoanBook(p2, t, now);
    assert loan2.Some? && db.books[t].available == 0;
    var refused := db.LoanBook(p3, t, now);
    assert refused.None? && db.books[t].available == 0;
    var back := db.ReturnBook(loan1.value, now + 1);
    assert back && db.books[t].available == 1;
    var loan3 := db.LoanBook(p3, t, now + 1);
    assert loan3.Some? && db.books[t].available == 0;
    assert loan1.value != loan2.value && loan2.value != loan3.value && loan1.value != loan3.value;
  }
}
