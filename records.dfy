/**
 * The documents kept in the `books` and `loans` collections of the library database,
 * as record values. Ids are opaque: MongoDB's ObjectId becomes a natural number.
 * Dates are integer seconds on the server's UTC clock.
 */
module Records {

  /** An opaque document id (ObjectId) of a book, a loan or a user. */
  type Id = nat

  /** `timedelta(days = 1)` measured in the seconds of the integer clock. */
  const SecondsPerDay: int := 86400

  /** The loan period `loan_book` uses when the caller gives none. */
  const DefaultLoanDays: int := 14

  /**
   * A book document. `quantity` is the number of copies owned and `available` the
   * counter `available_quantity` that lending decrements and returning increments.
   * The store validates neither: both are plain integers. The source stores the
   * ISBN under the key `ishon`.
   */
  datatype Book = Book(title: string, author: string, isbn: string, quantity: int, available: int)

  /** The two values the `status` field of a loan takes. */
  datatype LoanStatus = Active | Returned

  /**
   * A loan document. `returnDate` holds the due date while the loan is active and
   * is overwritten with the actual return time when the book comes back.
   */
  datatype Loan = Loan(userId: Id, bookId: Id, loanDate: int, returnDate: int, status: LoanStatus)
}
