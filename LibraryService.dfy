/**
 * The service operations of `library_service.py` over a mutable store: the
 * books table as a map from id to book, the borrow_records table as a
 * sequence in insertion order, and the id the next inserted book receives.
 * Each method performs the source's reads and writes in order, and its new
 * state and result are those of the matching step function of `Lending`.
 */
module LibraryService {
  import opened Wrappers
  import opened Text
  import opened Patron
  import opened FeePolicy
  import opened Catalog
  import opened Lending
  import LendingProofs

  class Library {
    var books: map<int, Book>
    var records: seq<BorrowRecord>
    var nextId: int

    function State(): Store
      reads this
    {
      Store(books, records, nextId)
    }

    ghost predicate Valid()
      reads this
    {
      Lending.Valid(State())
    }

    /** An empty database. */
    constructor ()
      ensures Valid() && State() == EmptyStore()
    {
      books := map[];
      records := [];
      nextId := 1;
    }

    /** `add_book_to_catalog`; `insertOk` is whether `insert_book` succeeds. */
    method AddBook(title: string, author: string, isbn: string, total: int, insertOk: bool) returns (r: AddResult)
      requires Valid()
      modifies this
      ensures Valid()
      ensures Step(State(), r) == AddStep(old(State()), title, author, isbn, total, insertOk)
      ensures r.AddRefused? ==> State() == old(State())
      ensures r.Added? ==>
        && r.id !in old(books)
        && books == old(books)[r.id := Book(Strip(title), Strip(author), Strip(isbn), total, total)]
        && records == old(records)
    {
      ghost var s0 := State();
      var broken := ValidateBook(title, author, isbn, total);
      if broken.Some? {
        return AddRefused(Invalid(broken.value));
      }
      var cleanIsbn := Strip(isbn);
      if IsbnInUse(books, cleanIsbn) {
        return AddRefused(DuplicateIsbn);
      }
      if !insertOk {
        return AddRefused(InsertFailed);
      }
      r := Added(nextId);
      books := books[nextId := NewBook(title, author, isbn, total)];
      nextId := nextId + 1;
      LendingProofs.AddPreservesValid(s0, title, author, isbn, total, insertOk);
    }

    /**
     * `borrow_book_by_patron` at time `now`. `recordOk` and `availabilityOk`
     * are whether `insert_borrow_record` and `update_book_availability`
     * succeed; the record is written before the availability, and a failed
     * second write does not undo the first.
     */
    method BorrowBook(p: string, b: int, now: int, recordOk: bool, availabilityOk: bool) returns (r: BorrowResult)
      requires Valid()
      modifies this
      ensures Valid()
      ensures Step(State(), r) == BorrowStep(old(State()), p, b, now, recordOk, availabilityOk)
      ensures nextId == old(nextId)
      ensures r.Borrowed? ==>
        && r.dueDate == now + LoanPeriod
        && records == old(records) + [BorrowRecord(p, b, now, now + LoanPeriod, None)]
        && books == old(books)[b := old(books)[b].(availableCopies := old(books)[b].availableCopies - 1)]
        && books[b].availableCopies >= 0
      ensures r == AvailabilityUpdateFailed ==>
        records == old(records) + [BorrowRecord(p, b, now, now + LoanPeriod, None)] && books == old(books)
      ensures !r.Borrowed? && r != AvailabilityUpdateFailed ==> State() == old(State())
    {
      ghost var s0 := State();
      if BorrowRejectsPatronId(p) {
        return BorrowInvalidPatron;
      }
      if b !in books {
        return BorrowBookNotFound;
      }
      var book := books[b];
      if book.availableCopies <= 0 {
        return BookUnavailable;
      }
      var current := ActiveCount(records, p);
      if current >= MaxLoans {
        return LoanLimitReached;
      }
      var due := now + LoanPeriod;
      if !recordOk {
        return RecordInsertFailed;
      }
      records := records + [BorrowRecord(p, b, now, due, None)];
      if !availabilityOk {
        LendingProofs.BorrowPreservesValid(s0, p, b, now, recordOk, availabilityOk);
        return AvailabilityUpdateFailed;
      }
      books := books[b := book.(availableCopies := book.availableCopies - 1)];
      LendingProofs.BorrowPreservesValid(s0, p, b, now, recordOk, availabilityOk);
      return Borrowed(due);
    }

    /**
     * `return_book_by_patron` at time `now`: the fee is computed from the first
     * active record of the pair, then every active record of the pair is
     * closed and one copy is given back.
     */
    method ReturnBook(p: string, b: int, now: int) returns (r: ReturnResult)
      requires Valid()
      modifies this
      ensures Valid()
      ensures Step(State(), r) == ReturnStep(old(State()), p, b, now)
      ensures r.Returned? ==>
        && records == MarkReturned(old(records), p, b, now)
        && books == old(books)[b := old(books)[b].(availableCopies := old(books)[b].availableCopies + 1)]
        && r.lateFee == QuoteFor(old(State()), p, b, now).feeCents
        && r.daysLate == QuoteFor(old(State()), p, b, now).daysOverdue
      ensures !r.Returned? ==> State() == old(State())
    {
      ghost var s0 := State();
      var ok := CheckPatronId(p);
      if !ok {
        return ReturnInvalidPatron;
      }
      if b !in books {
        return ReturnBookNotFound;
      }
      var found := FirstActive(records, p, b);
      if found.None? {
        return NoActiveLoan;
      }
      var fee := ReturnLateFee(records[found.value].dueDate, now);
      records := MarkReturned(records, p, b, now);
      var book := books[b];
      books := books[b := book.(availableCopies := book.availableCopies + 1)];
      r := Returned(fee.1, fee.0);
      LendingProofs.ReturnPreservesValid(s0, p, b, now);
      LendingProofs.ReturnFeeMatchesQuote(s0, p, b, now);
    }

    /** `calculate_late_fee_for_book` at time `now`; it reads the store and changes nothing. */
    method LateFeeForBook(p: string, b: int, now: int) returns (q: FeeQuote)
      ensures q == QuoteFor(State(), p, b, now)
      ensures 0 <= q.feeCents <= MaxFee
    {
      var ok := CheckPatronId(p);
      if !ok {
        return FeeQuote(0, 0, InvalidPatron);
      }
      if b !in books {
        return FeeQuote(0, 0, BookNotFound);
      }
      var found := FirstActive(records, p, b);
      if found.None? {
        return FeeQuote(0, 0, NoActiveRecord);
      }
      var due := records[found.value].dueDate;
      if now <= due {
        return FeeQuote(0, 0, NotOverdue);
      }
      var days := WholeDays(now - due);
      return FeeQuote(AccruedFee(days), days, Success);
    }

    /**
     * `search_books_in_catalog`: the books table is scanned in id order and
     * each matching row is appended to the result.
     */
    method SearchBooks(term: string, kind: string) returns (rows: seq<BookRow>)
      requires Valid()
      ensures rows == SearchResult(books, term, kind, nextId)
      ensures forall k :: 0 <= k < |rows| ==>
        rows[k].id in books && rows[k].book == books[rows[k].id] && Matches(rows[k].book, term, kind)
      ensures forall id :: id in books && term != [] && Matches(books[id], term, kind) ==> BookRow(id, books[id]) in rows
      ensures forall j, k :: 0 <= j < k < |rows| ==> rows[j].id < rows[k].id
    {
      if term == [] {
        return [];
      }
      rows := [];
      var id := 0;
      while id < nextId
        invariant 0 <= id <= nextId
        invariant rows == MatchingRows(books, term, kind, id)
      {
        if id in books && Matches(books[id], term, kind) {
          rows := rows + [BookRow(id, books[id])];
        }
        id := id + 1;
      }
      MatchingRowsSound(books, term, kind, nextId);
      MatchingRowsAscending(books, term, kind, nextId);
      forall id | id in books && Matches(books[id], term, kind)
        ensures BookRow(id, books[id]) in rows
      {
        MatchingRowsComplete(books, term, kind, nextId, id);
      }
    }

    /**
     * `get_patron_status_report` at time `now`: the patron's active loans, their
     * number, the fee query's fee summed over the overdue ones, and the
     * patron's history.
     */
    method StatusReport(p: string, now: int) returns (rep: StatusReport)
      ensures rep == PatronReport(State(), p, now)
      ensures rep.Report? ==>
        && rep.loanCount == ActiveCount(records, p)
        && 0 <= rep.lateFeesOwed <= MaxFee * rep.loanCount
    {
      var ok := CheckPatronId(p);
      if !ok {
        return NoReport;
      }
      var loans := ActiveLoans(records, p);
      var total := 0;
      var i := 0;
      while i < |loans|
        invariant 0 <= i <= |loans|
        invariant total == OverdueFees(State(), p, loans[..i], now)
      {
        assert Init(loans[..i + 1]) == loans[..i];
        if now > loans[i].dueDate {
          var q := LateFeeForBook(p, loans[i].bookId, now);
          total := total + q.feeCents;
        }
        i := i + 1;
      }
      assert loans[..|loans|] == loans;
      rep := Report(loans, |loans|, total, History(records, p));
    }
  }
}
