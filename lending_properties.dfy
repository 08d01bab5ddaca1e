/**
 * What the lending state machine keeps and what it does not. The ledger invariant
 * — for every book, available copies plus active loans equals the copies owned —
 * is kept by creating, lending and returning an active loan, and is broken exactly
 * when an already returned loan is returned again.
 */
module LendingProperties {

  import opened Records
  import opened Wrappers
  import opened Lending

  /** The ids of the active loans of one book. */
  function ActiveLoans(loans: map<Id, Loan>, bookId: Id): (ids: set<Id>)
    ensures ids <= loans.Keys
  {
    set l | l in loans && loans[l].bookId == bookId && loans[l].status == Active
  }

  /** Every loan refers to a catalogued book. */
  predicate LoansReferToBooks(t: Tables)
  {
    forall l :: l in t.loans ==> t.loans[l].bookId in t.books
  }

  /** The counter of each book agrees with the loan ledger. */
  predicate CountsAgree(t: Tables)
  {
    forall b :: b in t.books ==> t.books[b].available + |ActiveLoans(t.loans, b)| == t.books[b].quantity
  }

  predicate Consistent(t: Tables)
  {
    LoansReferToBooks(t) && CountsAgree(t)
  }

  /** The empty database is well formed and consistent. */
  lemma EmptyIsConsistent()
    ensures WellFormed(Tables(map[], map[], 0)) && Consistent(Tables(map[], map[], 0))
  {
  }

  /** In a consistent ledger a book never has more active loans than copies while its counter is not negative. */
  lemma NoOversell(t: Tables, b: Id)
    requires Consistent(t) && b in t.books && t.books[b].available >= 0
    ensures |ActiveLoans(t.loans, b)| <= t.books[b].quantity
  {
  }

  /** A new book has no loans, so creating it keeps the ledger consistent. */
  lemma CreateBookKeepsConsistent(t: Tables, title: string, author: string, isbn: string, quantity: int)
    requires WellFormed(t) && Consistent(t)
    ensures Consistent(CreateBook(t, title, author, isbn, quantity).tables)
  {
  }

  /** Recording a new loan adds it to the active loans of its book and of no other. */
  lemma ActiveLoansAfterInsert(loans: map<Id, Loan>, id: Id, loan: Loan, b: Id)
    requires id !in loans && loan.status == Active
    ensures |ActiveLoans(loans[id := loan], b)| == |ActiveLoans(loans, b)| + (if loan.bookId == b then 1 else 0)
  {
    if loan.bookId == b {
      assert ActiveLoans(loans[id := loan], b) == ActiveLoans(loans, b) + {id};
    } else {
      assert ActiveLoans(loans[id := loan], b) == ActiveLoans(loans, b);
    }
  }

  /** Marking a loan returned takes it out of the active loans of its book, if it was there. */
  lemma ActiveLoansAfterReturn(loans: map<Id, Loan>, id: Id, returned: Loan, b: Id)
    requires id in loans && returned.status == Returned && returned.bookId == loans[id].bookId
    ensures |ActiveLoans(loans[id := returned], b)| ==
      |ActiveLoans(loans, b)| - (if loans[id].bookId == b && loans[id].status == Active then 1 else 0)
  {
    if loans[id].bookId == b && loans[id].status == Active {
      assert ActiveLoans(loans[id := returned], b) == ActiveLoans(loans, b) - {id};
    } else {
      assert ActiveLoans(loans[id := returned], b) == ActiveLoans(loans, b);
    }
  }

  /** A successful loan moves one copy of its book from the counter to the ledger. */
  lemma LoanBookKeepsConsistent(t: Tables, userId: Id, bookId: Id, now: int, days: int)
    requires WellFormed(t) && Consistent(t)
    ensures Consistent(LoanBook(t, userId, bookId, now, days).tables)
  {
    if bookId in t.books && t.books[bookId].available >= 1 {
      var book := t.books[bookId];
      var loan := Loan(userId, bookId, now, now + days * SecondsPerDay, Active);
      var id := t.nextId;
      var books := t.books[bookId := book.(available := book.available - 1)];
      var loans := t.loans[id := loan];
      assert LoanBook(t, userId, bookId, now, days).tables == Tables(books, loans, id + 1);
      assert id !in t.loans;
      forall b | b in books ensures books[b].available + |ActiveLoans(loans, b)| == books[b].quantity {
        ActiveLoansAfterInsert(t.loans, id, loan, b);
      }
      assert CountsAgree(Tables(books, loans, id + 1));
    }
  }

  /**
   * Returning a loan of a consistent ledger keeps it consistent if and only if that
   * loan was active: returning a loan that is already returned credits its book a
   * copy that the ledger does not account for.
   */
  lemma ReturnBookKeepsConsistentIffActive(t: Tables, loanId: Id, now: int)
    requires Consistent(t) && loanId in t.loans
    ensures Consistent(ReturnBook(t, loanId, now).tables) <==> t.loans[loanId].status == Active
  {
    var loan := t.loans[loanId];
    var bookId := loan.bookId;
    var book := t.books[bookId];
    var books := t.books[bookId := book.(available := book.available + 1)];
    var returned := loan.(status := Returned, returnDate := now);
    var loans := t.loans[loanId := returned];
    var t' := Tables(books, loans, t.nextId);
    assert ReturnBook(t, loanId, now).tables == t';
    assert LoansReferToBooks(t');
    ActiveLoansAfterReturn(t.loans, loanId, returned, bookId);
    if loan.status == Active {
      forall b | b in books ensures books[b].available + |ActiveLoans(loans, b)| == books[b].quantity {
        ActiveLoansAfterReturn(t.loans, loanId, returned, b);
      }
      assert CountsAgree(t');
    } else {
      assert books[bookId].available + |ActiveLoans(loans, bookId)| == books[bookId].quantity + 1;
    }
  }

  /**
   * Lending a copy and returning that loan gives back the catalogue exactly as it
   * was; the only trace left is the loan, now returned at the return time.
   */
  lemma LoanThenReturnRestores(t: Tables, userId: Id, bookId: Id, now: int, days: int, later: int)
    requires WellFormed(t) && bookId in t.books && t.books[bookId].available >= 1
    ensures
      var lent := LoanBook(t, userId, bookId, now, days);
      && lent.loanId.Some?
      && var back := ReturnBook(lent.tables, lent.loanId.value, later);
      && back.ok
      && back.tables.books == t.books
      && back.tables.loans == t.loans[lent.loanId.value := Loan(userId, bookId, now, later, Returned)]
      && back.tables.nextId == t.nextId + 1
  {
  }

  /** Returning the same loan twice succeeds twice and credits its book twice. */
  lemma ReturnTwiceCreditsTwice(t: Tables, loanId: Id, now: int, later: int)
    requires loanId in t.loans && t.loans[loanId].bookId in t.books
    ensures
      var bookId := t.loans[loanId].bookId;
      var once := ReturnBook(t, loanId, now);
      var twice := ReturnBook(once.tables, loanId, later);
      && once.ok && twice.ok
      && twice.tables.books[bookId].available == t.books[bookId].available + 2
      && twice.tables.books[bookId].quantity == t.books[bookId].quantity
  {
  }

  /**
   * The bound `available <= quantity` is not kept: lend the only copy of a fresh
   * book, return that loan twice, and the book shows more copies available than it
   * owns.
   */
  lemma DoubleReturnOverfillsShelf(t: Tables, userId: Id, now: int, later: int)
    requires WellFormed(t)
    ensures
      var created := CreateBook(t, "", "", "", 1);
      var bookId := created.id;
      var lent := LoanBook(created.tables, userId, bookId, now);
      && lent.loanId.Some?
      && var once := ReturnBook(lent.tables, lent.loanId.value, later);
      && var twice := ReturnBook(once.tables, lent.loanId.value, later);
      && twice.tables.books[bookId].available == 2 > twice.tables.books[bookId].quantity == 1
  {
  }
}
