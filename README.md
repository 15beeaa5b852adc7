# Library lending core, modelled in Dafny

This project models the business logic of a small library management
system (`library_service.py`). It covers six operations:

- adding a book to the catalog;
- borrowing a book;
- returning a book;
- computing the late fee on a loan;
- searching the catalog;
- a patron's status report.

The database is modelled as an in-memory store with three parts:

- the `books` table, a map from id to book;
- the `borrow_records` table, a sequence in insertion (rowid) order;
- the id that the next inserted book receives.

Times are whole seconds and money is whole cents. "Now" is a parameter. So is
the success of each database write that the source checks.

Modules, leaves first:

- `Wrappers`: `Option`.
- `Text`: the Python and SQL string operations used: `isdigit`, `strip`,
  `LOWER` and the `LIKE '%term%'` substring test, all over ASCII.
- `Patron`: the 6-digit patron id rule. There is one function for borrow's
  form of the check and one looping method for the per-character form used
  by return, the fee query and the report.
- `FeePolicy`: the fee arithmetic, in both copies. The fee query has one
  (lines 250-277) and the return has its own copy (lines 147-162).
- `Catalog`: books, the validation chain of `add_book_to_catalog`, and the
  search predicate and its result.
- `Lending`: borrow records and the store. Each operation is a pure step
  function from the old store to the new store plus a result. This module
  also states the store invariant `Valid`.
- `LendingProofs`: the lemmas about the step functions. They cover the
  invariant, the order of checks, the success conditions and effects, and
  the copy balance.
- `LibraryService`: the class `Library`, whose fields are the tables. Its
  methods do the source's reads and writes in order. Each method is proved
  to produce exactly the state and result of its step function.

## Model

| member | source | states |
|---|---|---|
| Text.StripTrims | library_service.py:29-40 | the stripped string is the slice of the original left after removing an all-whitespace prefix and an all-whitespace suffix; it is empty exactly when the original is all whitespace, and otherwise starts and ends with a non-space character |
| Text.Lower | library_service.py:294-305 | SQL `LOWER`: same length, each ASCII capital letter lowered, every other character kept |
| Text.Contains | library_service.py:294-305 | `LIKE '%needle%'` holds exactly when the needle occurs at some position of the text |
| Patron.BorrowRejectsPatronId | library_service.py:75-77 | borrow's check (empty, not all digits, or length not 6) rejects exactly the ids that are not 6 ASCII digits |
| Patron.CheckPatronId | library_service.py:116-123 | the length check followed by the per-character digit loop accepts exactly the 6-digit ids |
| Patron.ValidPatronId | library_service.py:116-123 | the 6-digit patron id rule: exactly six characters, each an ASCII digit; a definition; its properties are the lemma rows that cite it (`Patron.BorrowRejectsPatronId`, `Patron.CheckPatronId`) |
| FeePolicy.WholeDays | library_service.py:151-152 | `timedelta.days`: the largest whole number of days not exceeding the span, non-negative for a non-negative span |
| FeePolicy.AccruedFee | library_service.py:261-271 | the fee for d overdue days lies between 0 and the $15.00 cap, and is 50 cents a day during the first 7 days |
| FeePolicy.OverdueQuote | library_service.py:245-277 | the fee and days are non-negative and the fee is at most the cap; the status is "not overdue" or "success"; a non-zero fee only comes with "success" |
| FeePolicy.ReturnLateFee | library_service.py:147-162 | the return's own fee arithmetic gives non-negative days and a fee that is capped; both are zero unless now is strictly past the due time |
| FeePolicy.AccruedFeeClosedForm | library_service.py:261-271 | the fee equals min(1500, 50·min(d,7) + 100·max(d−7,0)) cents |
| FeePolicy.AccruedFeeMonotone | library_service.py:261-271 | more overdue days never lower the fee |
| FeePolicy.AccruedFeeStep | library_service.py:261-271 | each further day adds 50 cents during the first week and 100 cents afterwards, until the cap |
| FeePolicy.AccruedFeeCapped | library_service.py:270-271 | the fee reaches the $15.00 cap exactly from the 19th overdue day |
| FeePolicy.AccruedFeeExamples | tests/test_ai_generated.py:160-189 | 6 days cost $3.00, 7 days $3.50, 8 days $4.50, 18 days $14.50, 40 days $15.00 |
| FeePolicy.WholeDaysOfSpan | library_service.py:258-259 | k days plus less than one more day count as k whole days |
| FeePolicy.NotOverdueUntilDue | library_service.py:250-255 | at or before the due time the quote is "not overdue" with zero fee and zero days |
| FeePolicy.FirstPartialDayIsFree | library_service.py:257-264 | less than one whole day past due gives "success" with zero days and zero fee |
| FeePolicy.OverdueByDays | library_service.py:257-277 | a loan due k days and a fraction ago is quoted the fee for exactly k days |
| FeePolicy.ReturnFeeAgreesWithQuote | library_service.py:147-162 | the return's copy of the arithmetic gives the same days and fee as the fee query's copy |
| FeePolicy.ReturnChargesFromFirstWholeDay | library_service.py:147-162 | the return reports a fee exactly when the loan is at least one whole day past due |
| Catalog.ValidateBook | library_service.py:28-49 | a reported rule is really broken by the stripped input; nothing is reported exactly when every field rule holds |
| Catalog.ValidationOrder | library_service.py:28-49 | the reported rule is the first broken one: every rule checked before it holds |
| Catalog.LengthBoundsInclusive | library_service.py:32-43 | a stripped title of exactly 200 characters and an author of exactly 100, with a valid ISBN and count, are accepted |
| Catalog.BlankTitleRefusedFirst | library_service.py:29-30 | an all-whitespace title is refused as "title required", whatever else is wrong |
| Catalog.IsbnInUse | library_service.py:51-53 | `get_book_by_isbn` finds a book: some catalog book has this ISBN; a definition; its properties are the lemma rows that cite it (`LendingProofs.AddSuccess`, `LendingProofs.AddDuplicateIsbn`, `LendingProofs.AddChecksInOrder`) |
| Catalog.Matches | library_service.py:292-312 | the WHERE clause of each search type: case-insensitive substring of the title or author, exact ISBN, nothing for other types; a definition; its properties are the lemma rows that cite it |
| Catalog.MatchingRows | library_service.py:292-326 | the rows built from the scan: matching books below an id bound, in id order; a definition; its properties are the lemma rows that cite it (`Catalog.MatchingRowsSound`, `Catalog.MatchingRowsComplete`, `Catalog.MatchingRowsAscending`) |
| Catalog.SearchResult | library_service.py:279-328 | the search's result: none for an empty term, else the matching rows; a definition; its properties are the lemma rows that cite it (`LibraryService.Library.SearchBooks`) |
| Catalog.MatchingRowsSound | library_service.py:292-326 | every row returned is a catalog book under its own id, with its fields unchanged, that matches the term |
| Catalog.MatchingRowsComplete | library_service.py:292-326 | every matching catalog book is returned |
| Catalog.MatchingRowsAscending | library_service.py:292-326 | rows come in strictly ascending id order, so no book appears twice (the order assumes the unordered `fetchall` scans in id order) |
| Catalog.UnknownKindFindsNothing | library_service.py:292-314 | a search type other than title, author or isbn returns nothing |
| Catalog.TitleSearchIgnoresCase | library_service.py:294-297 | a title search for a term and for its lower-cased form return the same rows |
| Lending.ActiveLoans | library_service.py:347-348 | the patron's current loans are records of that patron that are not returned |
| Lending.History | library_service.py:357-363 | the history holds only records of that patron |
| Lending.ActiveCount | library_service.py:87-90 | `get_patron_borrow_count`: the number of the patron's active records; a definition; its properties are the lemma rows that cite it (`LendingProofs.ActiveLoansComplete`, `LendingProofs.MarkReturnedActiveCount`) |
| LendingProofs.ActiveLoansComplete | library_service.py:347-348 | every active record of the patron is among the current loans |
| LendingProofs.HistoryComplete | library_service.py:357-363 | every record of the patron is in the history |
| Lending.FirstActive | library_service.py:130-136 | `fetchone`: the index of the first active record of the patron and book; none exactly when there is no such record |
| Lending.MarkReturned | library_service.py:164-168 | the update sets the return time on every active record of the pair and leaves every other record unchanged |
| Lending.QuoteFor | library_service.py:190-277 | the quoted fee lies between 0 and the cap, the days are non-negative, and a non-zero fee only comes with "success" |
| Lending.OverdueFees | library_service.py:350-355 | the summed late fees are non-negative and at most the cap per current loan |
| Lending.AddRefusal | library_service.py:28-61 | why the add is refused, in the code's order, or none; a definition; its properties are the lemma rows that cite it (`LendingProofs.AddChecksInOrder`) |
| Lending.AddStep | library_service.py:14-61 | the add as a transition of the store; a definition; its properties are the lemma rows that cite it (`LendingProofs.AddChecksInOrder`, `LendingProofs.AddSuccess`, `LendingProofs.AddPreservesValid`) |
| Lending.BorrowStep | library_service.py:63-106 | the borrow as a transition of the store; a definition; its properties are the lemma rows that cite it (`LendingProofs.BorrowChecksInOrder`, `LendingProofs.BorrowSuccess`, `LendingProofs.BorrowPreservesValid`) |
| Lending.ReturnStep | library_service.py:109-187 | the return as a transition of the store; a definition; its properties are the lemma rows that cite it (`LendingProofs.ReturnChecksInOrder`, `LendingProofs.ReturnSuccess`, `LendingProofs.ReturnPreservesValid`) |
| Lending.PatronReport | library_service.py:331-374 | the status report of a store at a time; a definition; its properties are the lemma rows that cite it (`LendingProofs.ReportForInvalidPatron`, `LendingProofs.ReportTotals`) |
| LendingProofs.MarkReturnedClosesPair | library_service.py:164-168 | after the update the pair has no active record left |
| LendingProofs.MarkReturnedActiveCount | library_service.py:164-168 | the update lowers the patron's active count by the pair's number of active records and changes no other patron's |
| LendingProofs.AddStepInserts | library_service.py:51-59 | a successful add passed every field rule and found no book with that ISBN; it inserts the stripped book under the next id |
| LendingProofs.AddPreservesValid | library_service.py:14-61 | adding a book keeps the store invariant: ids below the next id, well-formed books, unique ISBNs, records pointing at books, at most 5 loans per patron |
| LendingProofs.BorrowPreservesValid | library_service.py:63-106 | borrowing keeps the store invariant, including the 5-loan limit, even when the second write fails |
| LendingProofs.ReturnPreservesValid | library_service.py:109-187 | returning keeps the store invariant |
| LendingProofs.AddRefusalChangesNothing | library_service.py:28-61 | a refused add leaves the store unchanged |
| LendingProofs.AddSuccess | library_service.py:14-61 | the add succeeds exactly when every field rule holds, the ISBN is new and the insert succeeds; it then adds one book with stripped fields and every copy available, under an id not in use |
| LendingProofs.AddDuplicateIsbn | library_service.py:51-54 | input that passes the field rules but has the ISBN of a catalog book is refused as a duplicate, with no change |
| LendingProofs.AddChecksInOrder | library_service.py:28-61 | a broken field rule is reported as the first rule `ValidateBook` finds, with no change; a duplicate ISBN is reported exactly when the field rules hold and the ISBN is in use; a failed insert exactly when the rules hold, the ISBN is new and the insert fails |
| LendingProofs.BorrowChecksInOrder | library_service.py:75-104 | each outcome happens exactly when every earlier step passed and its own failed: patron id, book exists, copies available, loan limit, then the record insert, then the availability update |
| LendingProofs.BorrowRefusalChangesNothing | library_service.py:75-100 | a refused borrow, or one whose record insert failed, changes nothing |
| LendingProofs.BorrowSuccess | library_service.py:63-106 | a borrow succeeds exactly when all checks and both writes pass; it then appends one active record due 14 days later, takes one copy of that book only, and raises the patron's count by one |
| LendingProofs.BorrowPartialWrite | library_service.py:98-104 | when the availability update fails, the borrow record stays inserted and the copy count is not lowered |
| LendingProofs.SixthLoanRefused | library_service.py:87-91 | a patron holding 5 loans is refused another, with no change |
| LendingProofs.ReturnWithoutLoan | library_service.py:130-140 | with no active record of the pair, the return fails and changes nothing; for a valid id and an existing book it reports "no active borrow record" |
| LendingProofs.ReturnChecksInOrder | library_service.py:116-140 | the return refuses an ill-formed id, then a missing book, then a pair with no active record, each exactly under its condition, and a refusal changes nothing |
| LendingProofs.ReturnSuccess | library_service.py:109-187 | a return succeeds exactly when the id is valid, the book exists and the pair has an active record; it then closes every such record, gives back one copy of that book and changes no other field or book, keeps the next id, and frees as many of the patron's loan slots as the pair had active records |
| LendingProofs.ReturnFeeMatchesQuote | library_service.py:142-162 | the fee and days a return reports are the fee query's on the state just before it |
| LendingProofs.BorrowThenReturnRestoresCatalog | library_service.py:63-187 | a successful borrow followed by its return gives back the catalog exactly as it was |
| LendingProofs.FreshLoanNotOverdue | library_service.py:93-95 | during the 14 days after a first borrow of a book, the fee query reports "not overdue" with zero fee |
| LendingProofs.ReturnFreesLoanSlot | library_service.py:164-168 | a successful return lowers the patron's active count |
| LendingProofs.BorrowAllowedAfterReturn | library_service.py:87-91 | a patron at the limit who returns a book can then borrow any available book |
| LendingProofs.AccountedBoundsAvailability | library_service.py:57 | while available copies plus loaned copies do not exceed the total (in particular while they equal it), available never exceeds total |
| LendingProofs.AddKeepsBalance | library_service.py:57 | adding a book keeps every book's available + loaned = total |
| LendingProofs.BorrowKeepsBalance | library_service.py:97-104 | a borrow whose writes both succeed keeps available + loaned = total |
| LendingProofs.PartialBorrowUnbalances | library_service.py:98-104 | when the availability write fails after the record insert, the book counts one copy more than it owns |
| LendingProofs.ReturnOfSingleLoanKeepsBalance | library_service.py:164-174 | a return of a pair with at most one active record keeps available + loaned = total |
| LendingProofs.ReturnKeepsCopiesAccounted | library_service.py:164-174 | a return never makes available plus loaned copies exceed the total, however many active records the pair has |
| LendingProofs.AddKeepsCopiesAccounted | library_service.py:57 | adding a book never makes available plus loaned copies exceed the total |
| LendingProofs.BorrowKeepsCopiesAccounted | library_service.py:97-104 | a borrow whose writes both succeed never makes available plus loaned copies exceed the total |
| LendingProofs.PartialBorrowThenReturnOverfills | library_service.py:98-104 | after a borrow whose availability update failed, the return of that loan succeeds and adds a copy that was never taken; a book that was fully available then shows more available copies than it owns |
| LendingProofs.PartialBorrowOfSingleCopyShowsTwo | library_service.py:98-174 | a one-copy book, a borrow whose availability update fails, then the return: two copies show as available |
| LendingProofs.ReturnOfDoubleLoanLosesCopies | library_service.py:164-174 | a return of a pair with n ≥ 2 active records closes all n but gives back one copy, so the book comes out n−1 copies short |
| LendingProofs.SecondLoanOfSameBookAccepted | library_service.py:75-106 | a patron who already holds a book, has a valid id, is under the loan limit and finds a copy available is allowed to borrow it again; the pair then has two or more active records |
| LendingProofs.QuoteCases | library_service.py:203-277 | the quote status is "invalid patron", "book not found" or "no active record" exactly under the matching condition; otherwise it is computed from the first active record; fee and days are zero unless the status is "success" |
| LendingProofs.ReportForInvalidPatron | library_service.py:338-345 | an ill-formed patron id gets the empty report |
| LendingProofs.ReportTotals | library_service.py:347-374 | for a valid id the report's loan count is the patron's active count; fees owed are between 0 and the cap per loan; zero with no loans |
| LendingProofs.NothingOwedBeforeDue | library_service.py:350-355 | when no loan is past its due time, the report owes nothing |
| LendingProofs.ThreeCopiesScenario | library_service.py:79-106 | with 3 copies, three borrows succeed and empty the shelf, and a fourth is refused as unavailable with no change |
| LibraryService.Library.AddBook | library_service.py:14-61 | the new state and result are those of the add step; it keeps the invariant; a refusal changes nothing; a success inserts the stripped book under a fresh id |
| LibraryService.Library.BorrowBook | library_service.py:63-106 | the new state and result are those of the borrow step; it keeps the invariant; it states the record appended and the copy taken on success, the half-written state when the second write fails, and no change otherwise |
| LibraryService.Library.ReturnBook | library_service.py:109-187 | the new state and result are those of the return step; it keeps the invariant; it states the records closed, the copy given back and the fee equal to the fee query's on success, and no change otherwise |
| LibraryService.Library.LateFeeForBook | library_service.py:190-277 | the result is the fee query's, with a fee between 0 and the cap |
| LibraryService.Library.SearchBooks | library_service.py:279-328 | the rows are exactly the matching books, each with its own fields, in ascending id order (as an id-order scan yields them); an empty term gives none |
| LibraryService.Library.StatusReport | library_service.py:331-374 | the report is that of the report specification; its loan count is the active count; its fees are bounded by the cap per loan |

## Left out

- Database plumbing is not modelled: connections, SQL text, commit and close. The `database` module is not part of this model.
- These things about that module and about SQLite are assumed:
  - `get_patron_borrow_count` counts the patron's records with no return date;
  - `get_patron_borrowed_books` returns those records in storage order, with `is_overdue` meaning now is past the due time;
  - `fetchone` returns the first matching record in rowid order;
  - `insert_book` gives new books the ids 1, 2, 3, … in insertion order (`Lending.AddStep` uses `nextId`, which starts at 1);
  - the search's `fetchall`, which has no `ORDER BY`, returns rows in id order (the order that `Catalog.MatchingRowsAscending` and `LibraryService.Library.SearchBooks` state);
  - `update_book_availability(book_id, -1)` lowers `available_copies` by exactly one and changes nothing else.
- The clock (`datetime.now`) becomes a parameter `now` in seconds, and ISO date strings become integer seconds. Calendar arithmetic and time zones are not modelled.
- Message text, including the formatted due date and fee, is not modelled. Each outcome is a result constructor that carries the due date, the fee or the days.
- Currency is integer cents rather than floats. Every fee is a multiple of $0.50, so nothing is lost.
- `strip`, `isdigit` and SQL `LOWER` are modelled over ASCII only. The Unicode whitespace, Unicode digits and non-ASCII case mappings that Python and SQLite may apply are not modelled.
- `LIKE` wildcards (`%` and `_`) inside a title or author search term are not modelled: the term is matched as a literal substring.
- Lending.History: the history's `ORDER BY borrow_date DESC` is not stated; it holds exactly the patron's records, in storage order.
- Python's dynamic typing is not modelled: `None` patron ids, a non-string ISBN passed through `str()`, and a non-integer `total_copies`. The model's types rule these out.
- The return's SQL statements raise on failure rather than returning a flag, so a failed return write is not modelled. Both updates of a return take effect together.
- Concurrency is not modelled: each operation runs to completion alone.
- `pay_late_fees`, `refund_late_fee_payment` and the payment gateway are not part of this model.
- The browser (end-to-end) tests are not modelled.

Behaviour of the code as written that a reader might not expect:

- Borrow's two writes are not atomic. When the availability update fails, the borrow record stays inserted (`LendingProofs.BorrowPartialWrite`, `LendingProofs.PartialBorrowUnbalances`).
- A patron may borrow the same book twice (`LendingProofs.SecondLoanOfSameBookAccepted`). The return then closes every active record of the pair but gives back one copy, so the book comes out copies short (`LendingProofs.ReturnOfDoubleLoanLosesCopies`). Available copies still never exceed the total this way (`LendingProofs.ReturnKeepsCopiesAccounted`, `LendingProofs.AddKeepsCopiesAccounted`, `LendingProofs.BorrowKeepsCopiesAccounted`, `LendingProofs.AccountedBoundsAvailability`).
- "available ≤ total" is nevertheless not an invariant of the code as written. A borrow whose availability update fails leaves its record active, and the return of that loan gives back a copy that was never taken. A fully available book then shows more copies than it owns (`LendingProofs.PartialBorrowThenReturnOverfills`, `LendingProofs.PartialBorrowOfSingleCopyShowsTwo`).
- The title and author limits accept exactly 200 and 100 characters, though the messages say "less than" (`Catalog.LengthBoundsInclusive`).
