# Library lending registry — a verified model

This project models the core of a small Flask/MongoDB library service: the
`Database` object of `database.py`. It keeps three collections; the model covers
two of them, `books` (each with a `quantity` of copies owned and an
`available_quantity` counter) and `loans` (user, book, loan date, return date,
`status`); user storage is listed under "Left out".
Three operations change the books and loans:

- `create_book` inserts a book whose available count starts at its quantity;
- `loan_book` refuses an unknown book or one with no copy available, and otherwise
  takes one copy and records an `active` loan due `days` (default 14) days later;
- `return_book` refuses an unknown loan, and otherwise credits one copy back to the
  loan's book and marks the loan `returned` with the return time.

Two pure pieces of the same file are modelled too: the page arithmetic of
`get_books`, and the salt-then-key layout of `hash_password`/`verify_password`.

Layout:

- `records.dfy` (module `Records`): the book and loan documents; ids are natural numbers.
- `lending.dfy` (module `Lending`): the three operations as functions on the value of
  both collections, each stating its guard, its effect and what it leaves alone.
- `lending_properties.dfy` (module `LendingProperties`): the ledger invariant
  "available + active loans = quantity", which operations keep it, the
  lend-then-return round trip, and the double return that breaks it.
- `database.dfy` (module `LibraryDatabase`): class `Database` with the two collections
  as `map` fields; `CreateBook`, `LoanBook` and `ReturnBook` update them in place and
  are proved to step exactly as the `Lending` functions. `TwoCopiesScenario` plays a
  two-copy lending scenario against these methods.
- `pagination.dfy` (module `Pagination`), `passwords.dfy` (module `Passwords`),
  `wrappers.dfy` (module `Wrappers`: `Option`, `Result`).

The model follows the code as written. In particular `return_book` never looks at
the loan's status (database.py:102-120): returning a loan twice credits the book
twice, so `available_quantity <= quantity` is not kept (`DoubleReturnOverfillsShelf`),
and the ledger invariant survives a return exactly when the loan was active
(`ReturnBookKeepsConsistentIffActive`). The code also answers `False` for every
refusal, and reads a document and then updates it in a separate database request;
the model keeps that behaviour.

Modelling choices: MongoDB inserts get fresh ids from one counter (`nextId`) shared by
both collections. Dates are integer seconds, and `timedelta(days = d)` is
`d * 86400`. The clock is a parameter `now`, read once per call; the source calls
`utcnow()` twice in `loan_book`, once for the loan date and once for the due date.
`loan_book` answers the new loan's id or nothing (`Option<Id>`), as the source answers
`inserted_id` or `False`.

## Model

| member | source | states |
|---|---|---|
| `Lending.CreateBook` | database.py:33-41 | the new book gets an id used by no book or loan; its available count equals its quantity; every other book and all loans are unchanged |
| `Lending.LoanBook` | database.py:78-100 | succeeds iff the book exists with available >= 1; a refusal changes nothing; a success lowers that book's counter by exactly 1 (never below 0), leaves other books alone, and adds exactly one fresh loan, active, for that user and book, due `now + days` days |
| `Lending.ReturnBook` | database.py:102-120 | succeeds iff the loan exists; an unknown loan changes nothing; a success marks that loan returned at `now` keeping its user, book and loan date, raises its book's counter by 1 if the book exists, whatever the loan's status was, and changes nothing else |
| `LibraryDatabase.Database.constructor` | database.py:8-15 | a database with empty books and loans collections |
| `LibraryDatabase.Database.CreateBook` | database.py:33-41 | inserts the book with available = quantity under a fresh id, leaving loans unchanged; steps as `Lending.CreateBook` |
| `LibraryDatabase.Database.LoanBook` | database.py:78-100 | refuses an unknown or exhausted book with no change; otherwise decrements that book only and inserts one active loan due `now + days` days; steps as `Lending.LoanBook` |
| `LibraryDatabase.Database.ReturnBook` | database.py:102-120 | refuses an unknown loan with no change; otherwise credits the loan's book (if present) and sets the loan returned at `now`; steps as `Lending.ReturnBook` |
| `LendingProperties.EmptyIsConsistent` | database.py:12-15 | empty collections satisfy the ledger invariant |
| `LendingProperties.NoOversell` | database.py:82-83 | under the ledger invariant, a book whose counter is not negative has no more active loans than copies |
| `LendingProperties.ActiveLoansAfterInsert` | database.py:86-100 | a newly inserted active loan adds exactly one to its own book's active-loan count and none to any other |
| `LendingProperties.ActiveLoansAfterReturn` | database.py:115-118 | marking a loan returned lowers its book's active-loan count by one if it was active, and otherwise changes no count |
| `LendingProperties.CreateBookKeepsConsistent` | database.py:33-41 | creating a book keeps "available + active loans = quantity" for every book, and keeps all loans pointing to existing books |
| `LendingProperties.LoanBookKeepsConsistent` | database.py:78-100 | lending, refused or not, keeps the ledger invariant |
| `LendingProperties.ReturnBookKeepsConsistentIffActive` | database.py:102-120 | returning a known loan keeps the ledger invariant if and only if the loan was still active |
| `LendingProperties.LoanThenReturnRestores` | database.py:86-118 | a successful loan followed by the return of that loan gives back the books collection exactly; the loans collection only gains that loan, now returned at the return time |
| `LendingProperties.ReturnTwiceCreditsTwice` | database.py:102-120 | returning one loan twice succeeds both times and raises its book's counter by 2 with the quantity unchanged |
| `LendingProperties.DoubleReturnOverfillsShelf` | database.py:33-120 | a one-copy book lent once and returned twice shows 2 available against a quantity of 1 |
| `Pagination.FloorDiv` | database.py:55 | Python's `//`: the quotient rounded towards negative infinity, for either sign of divisor |
| `Pagination.Skip` | database.py:44 | `(page - 1) * limit`: for a positive limit it is not negative exactly when the page is 1 or more; for limit 0 it is 0 |
| `Pagination.TotalPages` | database.py:55 | `(total + limit - 1) // limit`: for a positive limit, the least number of pages of `limit` that hold all `total` matches |
| `Pagination.Window` | database.py:51 | a cursor's skip-then-limit: at most abs(limit) matches (all, for limit 0), as many as remain past the skip, each equal to the match `skip` places further on |
| `Pagination.GetBooks` | database.py:43-57 | fails iff the skip is negative or the limit is 0 (then saying which); otherwise answers the page asked for, the page count, and exactly min(abs(limit), matches past the skip) books, the consecutive matches starting at the skip |
| `Pagination.PagesCoverMatches` | database.py:55 | for a positive limit the page count is not negative and `total_pages * limit >= total` |
| `Pagination.LastPageNotEmpty` | database.py:55 | for a positive limit and some matches, `(total_pages - 1) * limit < total` |
| `Pagination.NoPagesIffNoMatches` | database.py:55 | for a positive limit, the page count is 0 exactly when there are no matches |
| `Pagination.PageIsSlice` | database.py:44-51 | for a positive limit and page >= 1, the page is the slice `[skip, skip + limit)` of the matches, cut at their end |
| `Pagination.EveryMatchOnItsPage` | database.py:44-55 | for a positive limit, match `i` appears at position `i % limit` of page `i / limit + 1`, and that page lies between 1 and the page count |
| `Passwords.StoredSalt` | database.py:27 | `stored[:32]`: a prefix of the stored bytes, 32 long or all of them when shorter |
| `Passwords.StoredKey` | database.py:28 | `stored[32:]`: the salt part followed by it gives back the stored bytes |
| `Passwords.HashPassword` | database.py:21-24 | the stored value is 32 salt bytes longer than the derived key |
| `Passwords.VerifyPassword` | database.py:26-31 | a stored value of at least 32 bytes accepts a password exactly when it is its first 32 bytes followed by the key derived from that password and those 32 bytes |
| `Passwords.SplitRecoversSaltAndKey` | database.py:21-28 | splitting a hashed password at 32 recovers exactly the salt and the derived key |
| `Passwords.VerifyAcceptsIffSameKey` | database.py:21-31 | a hashed password verifies a provided password iff its key under the stored salt equals the original's; so the original password always verifies |

## Left out

- Flask routing, sessions, templates, redirects, JSON encoding and the admin role checks (app.py, main1.py): request plumbing with nothing to prove.
- The MongoDB client, the collection handles and the text index (database.py:9-19), and the `$text` search filter: `get_books` receives the matching books as a sequence.
- The attribute names: `__init__` sets `book_collection`, but `get_books`, `loan_book` and `return_book` use `books_collection`, which as written fails at run time. The model has one books collection and does not model that failure.
- `pbkdf2_hmac` and `os.urandom`: the key derivation is a function parameter (the UTF-8 encoding of the password is folded into it), and the salt is an input of 32 bytes.
- `datetime.utcnow()` and `timedelta`: the time is a parameter `now` in integer seconds, read once per call.
- `ObjectId` parsing: ids are opaque numbers, so an id string that does not parse (which raises in the source) is not modelled.
- Concurrency: `loan_book` and `return_book` read and then write in separate requests, so concurrent calls can interleave; the model runs one call at a time.
- Editing and deleting books (app.py PUT and DELETE routes) is outside the core; the model has no operation that removes a book, though `ReturnBook` still treats a missing book as a no-op update, as `update_one` does.
- `create_user` and `authenticate_user`: a plain insert and lookup in the users collection; only the password layout they rely on is modelled.
- `LibraryDatabase.Database.constructor`: models a new, empty database; attaching to a stored `library_management` database that already holds books and loans is not modelled. The lemmas of `LendingProperties` hold from any state.
- Non-integer quantities: `create_book` stores the requested quantity unchecked; a floating-point quantity (lent on until it drops below 1) or a string (on which the comparison with 1 raises) is not modelled. Quantities and counters are integers.
- `Pagination.Window`: a negative limit is taken as at most abs(limit) results, ignoring the server's cap on the size of one batch.
