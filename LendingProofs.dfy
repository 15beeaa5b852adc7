/** Properties of the lending transitions, the fee query and the status report. */
module LendingProofs {
  import opened Wrappers
  import opened Text
  import opened Patron
  import opened FeePolicy
  import opened Catalog
  import opened Lending

  // ----- counting over the record sequence -----

  lemma ActiveCountAppend(rs: seq<BorrowRecord>, r: BorrowRecord, q: string)
    ensures ActiveCount(rs + [r], q) == ActiveCount(rs, q) + (if r.patronId == q && IsActive(r) then 1 else 0)
  {
    assert Init(rs + [r]) == rs;
  }

  lemma CopiesOutAppend(rs: seq<BorrowRecord>, r: BorrowRecord, c: int)
    ensures CopiesOut(rs + [r], c) == CopiesOut(rs, c) + (if r.bookId == c && IsActive(r) then 1 else 0)
  {
    assert Init(rs + [r]) == rs;
  }

  lemma PairCountAppend(rs: seq<BorrowRecord>, r: BorrowRecord, p: string, b: int)
    ensures PairCount(rs + [r], p, b) == PairCount(rs, p, b) + (if ActiveFor(r, p, b) then 1 else 0)
  {
    assert Init(rs + [r]) == rs;
  }

  /** A pair has no active record exactly when its count is zero. */
  lemma {:induction false} PairCountZero(rs: seq<BorrowRecord>, p: string, b: int)
    ensures PairCount(rs, p, b) == 0 <==> forall k :: 0 <= k < |rs| ==> !ActiveFor(rs[k], p, b)
  {
    if rs != [] {
      PairCountZero(Init(rs), p, b);
      assert forall k :: 0 <= k < |rs| - 1 ==> Init(rs)[k] == rs[k];
    }
  }

  /** Closing the pair's loans removes them from the patron's count and from no other patron's. */
  lemma {:induction false} MarkReturnedActiveCount(rs: seq<BorrowRecord>, p: string, b: int, t: int, q: string)
    ensures ActiveCount(MarkReturned(rs, p, b, t), q) + (if q == p then PairCount(rs, p, b) else 0) == ActiveCount(rs, q)
  {
    if rs != [] {
      var rs' := MarkReturned(rs, p, b, t);
      assert Init(rs') == MarkReturned(Init(rs), p, b, t);
      MarkReturnedActiveCount(Init(rs), p, b, t, q);
    }
  }

  /** Closing the pair's loans removes them from the copies out of book `b` and of no other book. */
  lemma {:induction false} MarkReturnedCopiesOut(rs: seq<BorrowRecord>, p: string, b: int, t: int, c: int)
    ensures CopiesOut(MarkReturned(rs, p, b, t), c) + (if c == b then PairCount(rs, p, b) else 0) == CopiesOut(rs, c)
  {
    if rs != [] {
      var rs' := MarkReturned(rs, p, b, t);
      assert Init(rs') == MarkReturned(Init(rs), p, b, t);
      MarkReturnedCopiesOut(Init(rs), p, b, t, c);
    }
  }

  /** After a return no active record is left for the pair. */
  lemma MarkReturnedClosesPair(rs: seq<BorrowRecord>, p: string, b: int, t: int)
    ensures PairCount(MarkReturned(rs, p, b, t), p, b) == 0
  {
    PairCountZero(MarkReturned(rs, p, b, t), p, b);
  }

  // ----- the invariant -----

  /** A successful add passed every check and inserts the stripped book under the next id. */
  lemma AddStepInserts(st: Store, title: string, author: string, isbn: string, total: int, insertOk: bool)
    requires AddStep(st, title, author, isbn, total, insertOk).result.Added?
    ensures AddStep(st, title, author, isbn, total, insertOk)
      == Step(st.(books := st.books[st.nextId := NewBook(title, author, isbn, total)], nextId := st.nextId + 1),
              Added(st.nextId))
    ensures AcceptableBook(title, author, isbn, total) && !IsbnInUse(st.books, Strip(isbn))
  {
    assert AddRefusal(st.books, title, author, isbn, total, insertOk).None?;
    assert ValidateBook(title, author, isbn, total).None?;
  }

  /** Inserting a well-formed book with a fresh ISBN under the next id keeps the invariant. */
  lemma InsertPreservesValid(st: Store, nb: Book)
    requires Valid(st) && WellFormedBook(nb)
    requires forall id :: id in st.books ==> st.books[id].isbn != nb.isbn
    ensures Valid(st.(books := st.books[st.nextId := nb], nextId := st.nextId + 1))
  {
    var st' := st.(books := st.books[st.nextId := nb], nextId := st.nextId + 1);
    assert st'.records == st.records;
  }

  lemma AddPreservesValid(st: Store, title: string, author: string, isbn: string, total: int, insertOk: bool)
    requires Valid(st)
    ensures Valid(AddStep(st, title, author, isbn, total, insertOk).store)
  {
    if AddStep(st, title, author, isbn, total, insertOk).result.Added? {
      AddStepInserts(st, title, author, isbn, total, insertOk);
      var nb := NewBook(title, author, isbn, total);
      assert WellFormedBook(nb);
      assert forall id :: id in st.books ==> st.books[id].isbn != nb.isbn;
      InsertPreservesValid(st, nb);
    }
  }

  lemma BorrowPreservesValid(st: Store, p: string, b: int, now: int, recordOk: bool, availabilityOk: bool)
    requires Valid(st)
    ensures Valid(BorrowStep(st, p, b, now, recordOk, availabilityOk).store)
  {
    var s := BorrowStep(st, p, b, now, recordOk, availabilityOk);
    if s.store.records != st.records {
      var r := BorrowRecord(p, b, now, now + LoanPeriod, None);
      assert s.store.records == st.records + [r];
      forall q ensures ActiveCount(s.store.records, q) <= MaxLoans {
        ActiveCountAppend(st.records, r, q);
      }
    }
  }

  lemma ReturnPreservesValid(st: Store, p: string, b: int, now: int)
    requires Valid(st)
    ensures Valid(ReturnStep(st, p, b, now).store)
  {
    var s := ReturnStep(st, p, b, now);
    if s.result.Returned? {
      forall q ensures ActiveCount(s.store.records, q) <= MaxLoans {
        MarkReturnedActiveCount(st.records, p, b, now, q);
      }
    }
  }

  // ----- catalog add -----

  /** Each refusal of `add_book_to_catalog` leaves the store as it was. */
  lemma AddRefusalChangesNothing(st: Store, title: string, author: string, isbn: string, total: int, insertOk: bool)
    requires AddStep(st, title, author, isbn, total, insertOk).result.AddRefused?
    ensures AddStep(st, title, author, isbn, total, insertOk).store == st
  {
  }

  /** On success one book is added: stripped title, author and ISBN, every copy available. */
  lemma AddSuccess(st: Store, title: string, author: string, isbn: string, total: int, insertOk: bool)
    requires Valid(st)
    ensures var s := AddStep(st, title, author, isbn, total, insertOk);
      s.result.Added? <==> AcceptableBook(title, author, isbn, total) && !IsbnInUse(st.books, Strip(isbn)) && insertOk
    ensures var s := AddStep(st, title, author, isbn, total, insertOk);
      s.result.Added? ==>
        && s.result.id !in st.books
        && s.store.books == st.books[s.result.id := Book(Strip(title), Strip(author), Strip(isbn), total, total)]
        && s.store.records == st.records
  {
    if AddStep(st, title, author, isbn, total, insertOk).result.Added? {
      AddStepInserts(st, title, author, isbn, total, insertOk);
    }
  }

  /**
   * The add's refusals in order: the first broken field rule, then a
   * duplicate ISBN, then a failed insert; each leaves the store unchanged.
   */
  lemma AddChecksInOrder(st: Store, title: string, author: string, isbn: string, total: int, insertOk: bool)
    ensures var s := AddStep(st, title, author, isbn, total, insertOk);
      ValidateBook(title, author, isbn, total).Some? ==>
        s == Step(st, AddRefused(Invalid(ValidateBook(title, author, isbn, total).value)))
    ensures var s := AddStep(st, title, author, isbn, total, insertOk);
      s.result == AddRefused(DuplicateIsbn) <==>
        AcceptableBook(title, author, isbn, total) && IsbnInUse(st.books, Strip(isbn))
    ensures var s := AddStep(st, title, author, isbn, total, insertOk);
      s.result == AddRefused(InsertFailed) <==>
        AcceptableBook(title, author, isbn, total) && !IsbnInUse(st.books, Strip(isbn)) && !insertOk
  {
  }

  /** A duplicate ISBN is refused once the input passes the field rules. */
  lemma AddDuplicateIsbn(st: Store, title: string, author: string, isbn: string, total: int, insertOk: bool, id: int)
    requires AcceptableBook(title, author, isbn, total)
    requires id in st.books && st.books[id].isbn == Strip(isbn)
    ensures AddStep(st, title, author, isbn, total, insertOk) == Step(st, AddRefused(DuplicateIsbn))
  {
    assert ValidateBook(title, author, isbn, total).None?;
    assert IsbnInUse(st.books, Strip(isbn));
    assert AddRefusal(st.books, title, author, isbn, total, insertOk) == Some(DuplicateIsbn);
  }

  // ----- borrow -----

  /** The borrow checks run in order: patron id, book, availability, loan limit. */
  lemma BorrowChecksInOrder(st: Store, p: string, b: int, now: int, recordOk: bool, availabilityOk: bool)
    ensures var r := BorrowStep(st, p, b, now, recordOk, availabilityOk).result;
      r == BorrowInvalidPatron <==> !ValidPatronId(p)
    ensures var r := BorrowStep(st, p, b, now, recordOk, availabilityOk).result;
      r == BorrowBookNotFound <==> ValidPatronId(p) && b !in st.books
    ensures var r := BorrowStep(st, p, b, now, recordOk, availabilityOk).result;
      r == BookUnavailable <==> ValidPatronId(p) && b in st.books && st.books[b].availableCopies <= 0
    ensures var r := BorrowStep(st, p, b, now, recordOk, availabilityOk).result;
      r == LoanLimitReached <==>
        ValidPatronId(p) && b in st.books && st.books[b].availableCopies > 0 && ActiveCount(st.records, p) >= MaxLoans
    ensures var r := BorrowStep(st, p, b, now, recordOk, availabilityOk).result;
      r == RecordInsertFailed <==>
        ValidPatronId(p) && b in st.books && st.books[b].availableCopies > 0 && ActiveCount(st.records, p) < MaxLoans
        && !recordOk
    ensures var r := BorrowStep(st, p, b, now, recordOk, availabilityOk).result;
      r == AvailabilityUpdateFailed <==>
        ValidPatronId(p) && b in st.books && st.books[b].availableCopies > 0 && ActiveCount(st.records, p) < MaxLoans
        && recordOk && !availabilityOk
  {
  }

  /** A refused borrow, or one whose record insert failed, changes nothing. */
  lemma BorrowRefusalChangesNothing(st: Store, p: string, b: int, now: int, recordOk: bool, availabilityOk: bool)
    requires !BorrowStep(st, p, b, now, recordOk, availabilityOk).result.Borrowed?
    requires BorrowStep(st, p, b, now, recordOk, availabilityOk).result != AvailabilityUpdateFailed
    ensures BorrowStep(st, p, b, now, recordOk, availabilityOk).store == st
  {
  }

  /**
   * A successful borrow appends one active record due fourteen days later and
   * takes one copy of that book only; it succeeds exactly when every check and
   * both writes pass.
   */
  lemma BorrowSuccess(st: Store, p: string, b: int, now: int, recordOk: bool, availabilityOk: bool)
    ensures var s := BorrowStep(st, p, b, now, recordOk, availabilityOk);
      s.result.Borrowed? <==>
        ValidPatronId(p) && b in st.books && st.books[b].availableCopies > 0
        && ActiveCount(st.records, p) < MaxLoans && recordOk && availabilityOk
    ensures var s := BorrowStep(st, p, b, now, recordOk, availabilityOk);
      s.result.Borrowed? ==>
        && s.result.dueDate == now + LoanPeriod
        && s.store.records == st.records + [BorrowRecord(p, b, now, now + LoanPeriod, None)]
        && s.store.books.Keys == st.books.Keys
        && s.store.books[b] == st.books[b].(availableCopies := st.books[b].availableCopies - 1)
        && s.store.books[b].availableCopies >= 0
        && (forall c :: c in st.books && c != b ==> s.store.books[c] == st.books[c])
        && s.store.nextId == st.nextId
        && ActiveCount(s.store.records, p) == ActiveCount(st.records, p) + 1
  {
    var s := BorrowStep(st, p, b, now, recordOk, availabilityOk);
    if s.result.Borrowed? {
      ActiveCountAppend(st.records, BorrowRecord(p, b, now, now + LoanPeriod, None), p);
    }
  }

  /** When the availability update fails, the record stays inserted and the count is not lowered. */
  lemma BorrowPartialWrite(st: Store, p: string, b: int, now: int, recordOk: bool, availabilityOk: bool)
    requires BorrowStep(st, p, b, now, recordOk, availabilityOk).result == AvailabilityUpdateFailed
    ensures var s := BorrowStep(st, p, b, now, recordOk, availabilityOk);
      && s.store.records == st.records + [BorrowRecord(p, b, now, now + LoanPeriod, None)]
      && s.store.books == st.books
  {
  }

  /** A patron holding five loans is refused a sixth however available the book is. */
  lemma SixthLoanRefused(st: Store, p: string, b: int, now: int, recordOk: bool, availabilityOk: bool)
    requires ValidPatronId(p) && b in st.books && st.books[b].availableCopies > 0
    requires ActiveCount(st.records, p) == MaxLoans
    ensures BorrowStep(st, p, b, now, recordOk, availabilityOk) == Step(st, LoanLimitReached)
  {
  }

  // ----- return -----

  /** With no active record for the pair the return fails and changes nothing. */
  lemma ReturnWithoutLoan(st: Store, p: string, b: int, now: int)
    requires PairCount(st.records, p, b) == 0
    ensures !ReturnStep(st, p, b, now).result.Returned?
    ensures ReturnStep(st, p, b, now).store == st
    ensures ValidPatronId(p) && b in st.books ==> ReturnStep(st, p, b, now).result == NoActiveLoan
  {
    PairCountZero(st.records, p, b);
  }

  /**
   * A successful return closes every active record of the pair at `now`,
   * gives back one copy, and frees as many of the patron's loan slots as the
   * pair had active records.
   */
  lemma ReturnSuccess(st: Store, p: string, b: int, now: int)
    ensures var s := ReturnStep(st, p, b, now);
      s.result.Returned? <==> ValidPatronId(p) && b in st.books && PairCount(st.records, p, b) > 0
    ensures var s := ReturnStep(st, p, b, now);
      s.result.Returned? ==>
        && s.store.records == MarkReturned(st.records, p, b, now)
        && PairCount(s.store.records, p, b) == 0
        && s.store.books.Keys == st.books.Keys
        && s.store.books[b] == st.books[b].(availableCopies := st.books[b].availableCopies + 1)
        && (forall c :: c in st.books && c != b ==> s.store.books[c] == st.books[c])
        && s.store.nextId == st.nextId
        && ActiveCount(s.store.records, p) == ActiveCount(st.records, p) - PairCount(st.records, p, b)
  {
    PairCountZero(st.records, p, b);
    var s := ReturnStep(st, p, b, now);
    if s.result.Returned? {
      MarkReturnedClosesPair(st.records, p, b, now);
      MarkReturnedActiveCount(st.records, p, b, now, p);
    }
  }

  /**
   * The return's refusals in order: patron id, book exists, active record of
   * the pair; each leaves the store unchanged.
   */
  lemma ReturnChecksInOrder(st: Store, p: string, b: int, now: int)
    ensures ReturnStep(st, p, b, now).result == ReturnInvalidPatron <==> !ValidPatronId(p)
    ensures ReturnStep(st, p, b, now).result == ReturnBookNotFound <==> ValidPatronId(p) && b !in st.books
    ensures ReturnStep(st, p, b, now).result == NoActiveLoan <==>
      ValidPatronId(p) && b in st.books && PairCount(st.records, p, b) == 0
    ensures !ReturnStep(st, p, b, now).result.Returned? ==> ReturnStep(st, p, b, now).store == st
  {
    PairCountZero(st.records, p, b);
  }

  /** The fee and the days that a return reports are those the fee query gives just before it. */
  lemma ReturnFeeMatchesQuote(st: Store, p: string, b: int, now: int)
    requires ReturnStep(st, p, b, now).result.Returned?
    ensures ReturnStep(st, p, b, now).result.lateFee == QuoteFor(st, p, b, now).feeCents
    ensures ReturnStep(st, p, b, now).result.daysLate == QuoteFor(st, p, b, now).daysOverdue
  {
    match FirstActive(st.records, p, b)
    case Some(k) => ReturnFeeAgreesWithQuote(st.records[k].dueDate, now);
  }

  /** Borrowing a book and returning it gives the catalog back exactly as it was. */
  lemma BorrowThenReturnRestoresCatalog(st: Store, p: string, b: int, t0: int, t1: int)
    requires BorrowStep(st, p, b, t0, true, true).result.Borrowed?
    ensures var s1 := BorrowStep(st, p, b, t0, true, true).store;
      ReturnStep(s1, p, b, t1).result.Returned? && ReturnStep(s1, p, b, t1).store.books == st.books
  {
    var r := BorrowRecord(p, b, t0, t0 + LoanPeriod, None);
    var book := st.books[b];
    var s1 := BorrowStep(st, p, b, t0, true, true).store;
    assert ValidPatronId(p);
    assert s1.records == st.records + [r];
    assert s1.books == st.books[b := book.(availableCopies := book.availableCopies - 1)];
    PairCountAppend(st.records, r, p, b);
    PairCountZero(s1.records, p, b);
    assert FirstActive(s1.records, p, b).Some?;
    var s2 := ReturnStep(s1, p, b, t1);
    assert s2.result.Returned?;
    assert s2.store.books == s1.books[b := s1.books[b].(availableCopies := s1.books[b].availableCopies + 1)];
    assert s2.store.books == st.books[b := book];
  }

  /** Right after a first borrow of a book, the fee query finds it not overdue until it is due. */
  lemma FreshLoanNotOverdue(st: Store, p: string, b: int, now: int, t: int)
    requires PairCount(st.records, p, b) == 0
    requires BorrowStep(st, p, b, now, true, true).result.Borrowed?
    requires t <= now + LoanPeriod
    ensures QuoteFor(BorrowStep(st, p, b, now, true, true).store, p, b, t) == FeeQuote(0, 0, NotOverdue)
  {
    PairCountZero(st.records, p, b);
    var s1 := BorrowStep(st, p, b, now, true, true).store;
    var k := FirstActive(s1.records, p, b);
    assert s1.records[|st.records|] == BorrowRecord(p, b, now, now + LoanPeriod, None);
    assert k == Some(|st.records|);
  }

  /** Every successful return frees at least one of the patron's loan slots. */
  lemma ReturnFreesLoanSlot(st: Store, p: string, b: int, now: int)
    requires ReturnStep(st, p, b, now).result.Returned?
    ensures ActiveCount(ReturnStep(st, p, b, now).store.records, p) < ActiveCount(st.records, p)
  {
    ReturnSuccess(st, p, b, now);
  }

  /**
   * A patron refused at five loans can borrow again once a return has gone
   * through, provided the book asked for has a copy on the shelf.
   */
  lemma BorrowAllowedAfterReturn(st: Store, p: string, b: int, c: int, t0: int, t1: int)
    requires Valid(st) && ActiveCount(st.records, p) == MaxLoans
    requires ReturnStep(st, p, b, t0).result.Returned?
    requires c in st.books && st.books[c].availableCopies > 0
    ensures BorrowStep(ReturnStep(st, p, b, t0).store, p, c, t1, true, true).result.Borrowed?
  {
    ReturnSuccess(st, p, b, t0);
  }

  // ----- copies in circulation -----

  /** Every book's available copies plus its copies lent out make up its total. */
  ghost predicate Balanced(st: Store) {
    forall c :: c in st.books ==> st.books[c].availableCopies + CopiesOut(st.records, c) == st.books[c].totalCopies
  }

  /** No book's available copies plus its copies lent out exceed its total. */
  ghost predicate CopiesAccounted(st: Store) {
    forall c :: c in st.books ==> st.books[c].availableCopies + CopiesOut(st.records, c) <= st.books[c].totalCopies
  }

  /** While copies are accounted for, and so in a balanced store, no book shows more copies available than it owns. */
  lemma AccountedBoundsAvailability(st: Store, c: int)
    requires CopiesAccounted(st) && c in st.books
    ensures st.books[c].availableCopies <= st.books[c].totalCopies
  {
  }

  /** A new book and a complete borrow keep the store balanced. */
  lemma AddKeepsBalance(st: Store, title: string, author: string, isbn: string, total: int, insertOk: bool)
    requires Valid(st) && Balanced(st)
    ensures Balanced(AddStep(st, title, author, isbn, total, insertOk).store)
  {
    if AddStep(st, title, author, isbn, total, insertOk).result.Added? {
      AddStepInserts(st, title, author, isbn, total, insertOk);
      CopiesOutOfUnknownBook(st.records, st.nextId);
      assert NewBook(title, author, isbn, total).availableCopies == NewBook(title, author, isbn, total).totalCopies;
    }
  }

  /** Adding a book keeps copies accounted for. */
  lemma AddKeepsCopiesAccounted(st: Store, title: string, author: string, isbn: string, total: int, insertOk: bool)
    requires Valid(st) && CopiesAccounted(st)
    ensures CopiesAccounted(AddStep(st, title, author, isbn, total, insertOk).store)
  {
    if AddStep(st, title, author, isbn, total, insertOk).result.Added? {
      AddStepInserts(st, title, author, isbn, total, insertOk);
      CopiesOutOfUnknownBook(st.records, st.nextId);
    }
  }

  lemma {:induction false} CopiesOutOfUnknownBook(rs: seq<BorrowRecord>, c: int)
    requires forall k :: 0 <= k < |rs| ==> rs[k].bookId != c
    ensures CopiesOut(rs, c) == 0
  {
    if rs != [] {
      CopiesOutOfUnknownBook(Init(rs), c);
    }
  }

  lemma BorrowKeepsBalance(st: Store, p: string, b: int, now: int)
    requires Balanced(st)
    ensures Balanced(BorrowStep(st, p, b, now, true, true).store)
  {
    var s := BorrowStep(st, p, b, now, true, true);
    if s.result.Borrowed? {
      var r := BorrowRecord(p, b, now, now + LoanPeriod, None);
      forall c | c in s.store.books
        ensures s.store.books[c].availableCopies + CopiesOut(s.store.records, c) == s.store.books[c].totalCopies
      {
        CopiesOutAppend(st.records, r, c);
      }
    }
  }

  /** A failed availability update leaves one more copy counted than the book owns. */
  lemma PartialBorrowUnbalances(st: Store, p: string, b: int, now: int)
    requires Balanced(st)
    requires BorrowStep(st, p, b, now, true, false).result == AvailabilityUpdateFailed
    ensures var s := BorrowStep(st, p, b, now, true, false).store;
      s.books[b].availableCopies + CopiesOut(s.records, b) == s.books[b].totalCopies + 1
  {
    CopiesOutAppend(st.records, BorrowRecord(p, b, now, now + LoanPeriod, None), b);
  }

  /** A return of a pair with a single active record keeps the store balanced. */
  lemma ReturnOfSingleLoanKeepsBalance(st: Store, p: string, b: int, now: int)
    requires Balanced(st)
    requires PairCount(st.records, p, b) <= 1
    ensures Balanced(ReturnStep(st, p, b, now).store)
  {
    var s := ReturnStep(st, p, b, now);
    if s.result.Returned? {
      PairCountZero(st.records, p, b);
      forall c | c in s.store.books
        ensures s.store.books[c].availableCopies + CopiesOut(s.store.records, c) == s.store.books[c].totalCopies
      {
        MarkReturnedCopiesOut(st.records, p, b, now, c);
      }
    }
  }

  /**
   * Nothing stops a patron borrowing the same book twice; the return then
   * closes both loans but gives back one copy, so copies go missing.
   */
  lemma ReturnOfDoubleLoanLosesCopies(st: Store, p: string, b: int, now: int)
    requires Balanced(st)
    requires ReturnStep(st, p, b, now).result.Returned?
    requires PairCount(st.records, p, b) >= 2
    ensures var s := ReturnStep(st, p, b, now).store;
      s.books[b].availableCopies + CopiesOut(s.records, b)
        == s.books[b].totalCopies - (PairCount(st.records, p, b) - 1)
  {
    MarkReturnedCopiesOut(st.records, p, b, now, b);
  }

  /**
   * A second borrow of a book the patron already holds passes every check:
   * it is accepted, and the pair then has two or more active records.
   */
  lemma SecondLoanOfSameBookAccepted(st: Store, p: string, b: int, now: int)
    requires ValidPatronId(p) && b in st.books && st.books[b].availableCopies > 0
    requires ActiveCount(st.records, p) < MaxLoans
    requires PairCount(st.records, p, b) >= 1
    ensures BorrowStep(st, p, b, now, true, true).result.Borrowed?
    ensures PairCount(BorrowStep(st, p, b, now, true, true).store.records, p, b) >= 2
  {
    PairCountAppend(st.records, BorrowRecord(p, b, now, now + LoanPeriod, None), p, b);
  }

  /**
   * A return keeps copies accounted for, however many active records the pair
   * has: a double loan loses copies but never shows more available than owned.
   */
  lemma ReturnKeepsCopiesAccounted(st: Store, p: string, b: int, now: int)
    requires CopiesAccounted(st)
    ensures CopiesAccounted(ReturnStep(st, p, b, now).store)
  {
    var s := ReturnStep(st, p, b, now);
    if s.result.Returned? {
      PairCountZero(st.records, p, b);
      forall c | c in s.store.books
        ensures s.store.books[c].availableCopies + CopiesOut(s.store.records, c) <= s.store.books[c].totalCopies
      {
        MarkReturnedCopiesOut(st.records, p, b, now, c);
      }
    }
  }

  /** A borrow whose writes both succeed keeps copies accounted for. */
  lemma BorrowKeepsCopiesAccounted(st: Store, p: string, b: int, now: int)
    requires CopiesAccounted(st)
    ensures CopiesAccounted(BorrowStep(st, p, b, now, true, true).store)
  {
    var s := BorrowStep(st, p, b, now, true, true);
    if s.result.Borrowed? {
      var r := BorrowRecord(p, b, now, now + LoanPeriod, None);
      forall c | c in s.store.books
        ensures s.store.books[c].availableCopies + CopiesOut(s.store.records, c) <= s.store.books[c].totalCopies
      {
        CopiesOutAppend(st.records, r, c);
      }
    }
  }

  /**
   * After a borrow whose availability update failed, returning that loan
   * gives back a copy that was never taken: a book that was fully available
   * then shows more copies available than it owns.
   */
  lemma PartialBorrowThenReturnOverfills(st: Store, p: string, b: int, t0: int, t1: int)
    requires BorrowStep(st, p, b, t0, true, false).result == AvailabilityUpdateFailed
    ensures var s1 := BorrowStep(st, p, b, t0, true, false).store;
      var s2 := ReturnStep(s1, p, b, t1);
      && s2.result.Returned?
      && s2.store.books[b].totalCopies == st.books[b].totalCopies
      && s2.store.books[b].availableCopies == st.books[b].availableCopies + 1
      && (st.books[b].availableCopies == st.books[b].totalCopies ==>
            s2.store.books[b].availableCopies > s2.store.books[b].totalCopies)
  {
    var r := BorrowRecord(p, b, t0, t0 + LoanPeriod, None);
    var s1 := BorrowStep(st, p, b, t0, true, false).store;
    assert ValidPatronId(p);
    assert s1.records == st.records + [r] && s1.books == st.books;
    PairCountAppend(st.records, r, p, b);
    PairCountZero(s1.records, p, b);
    assert FirstActive(s1.records, p, b).Some?;
  }

  /** One copy, a borrow whose availability update fails, then its return: two copies show as available. */
  lemma PartialBorrowOfSingleCopyShowsTwo(t0: int, t1: int)
    ensures
      var st := Store(map[1 := Book("The Hobbit", "J.R.R. Tolkien", "9780547928227", 1, 1)], [], 2);
      var s1 := BorrowStep(st, "123456", 1, t0, true, false);
      var s2 := ReturnStep(s1.store, "123456", 1, t1);
      s1.result == AvailabilityUpdateFailed && s2.result.Returned?
      && s2.store.books[1].totalCopies == 1 && s2.store.books[1].availableCopies == 2
  {
    var st := Store(map[1 := Book("The Hobbit", "J.R.R. Tolkien", "9780547928227", 1, 1)], [], 2);
    assert ValidPatronId("123456");
    assert BorrowStep(st, "123456", 1, t0, true, false).result == AvailabilityUpdateFailed;
    PartialBorrowThenReturnOverfills(st, "123456", 1, t0, t1);
  }

  // ----- fee query -----

  /** The fee query's status in each case, and the record it is computed from. */
  lemma QuoteCases(st: Store, p: string, b: int, now: int)
    ensures QuoteFor(st, p, b, now).status == InvalidPatron <==> !ValidPatronId(p)
    ensures QuoteFor(st, p, b, now).status == BookNotFound <==> ValidPatronId(p) && b !in st.books
    ensures QuoteFor(st, p, b, now).status == NoActiveRecord <==>
      ValidPatronId(p) && b in st.books && PairCount(st.records, p, b) == 0
    ensures QuoteFor(st, p, b, now).status in {NotOverdue, Success} ==>
      var k := FirstActive(st.records, p, b).value;
      QuoteFor(st, p, b, now) == OverdueQuote(st.records[k].dueDate, now)
    ensures QuoteFor(st, p, b, now).status != Success ==> QuoteFor(st, p, b, now).feeCents == 0
    ensures QuoteFor(st, p, b, now).status != Success ==> QuoteFor(st, p, b, now).daysOverdue == 0
  {
    PairCountZero(st.records, p, b);
  }

  // ----- status report -----

  /** Every active record of the patron is among the current loans. */
  lemma {:induction false} ActiveLoansComplete(rs: seq<BorrowRecord>, p: string)
    ensures forall k :: 0 <= k < |rs| && rs[k].patronId == p && IsActive(rs[k]) ==> rs[k] in ActiveLoans(rs, p)
  {
    if rs != [] {
      ActiveLoansComplete(Init(rs), p);
      assert forall k :: 0 <= k < |rs| - 1 ==> rs[k] == Init(rs)[k];
    }
  }

  /** Every record of the patron is in the history. */
  lemma {:induction false} HistoryComplete(rs: seq<BorrowRecord>, p: string)
    ensures forall k :: 0 <= k < |rs| && rs[k].patronId == p ==> rs[k] in History(rs, p)
  {
    if rs != [] {
      HistoryComplete(Init(rs), p);
      assert forall k :: 0 <= k < |rs| - 1 ==> rs[k] == Init(rs)[k];
    }
  }

  /** An ill-formed patron id gets the empty report. */
  lemma ReportForInvalidPatron(st: Store, p: string, now: int)
    requires !ValidPatronId(p)
    ensures PatronReport(st, p, now) == NoReport
  {
  }

  /** The report counts the patron's active loans and owes at most the cap per loan. */
  lemma ReportTotals(st: Store, p: string, now: int)
    requires ValidPatronId(p)
    ensures PatronReport(st, p, now).Report?
    ensures PatronReport(st, p, now).loanCount == ActiveCount(st.records, p)
    ensures 0 <= PatronReport(st, p, now).lateFeesOwed <= MaxFee * PatronReport(st, p, now).loanCount
    ensures ActiveCount(st.records, p) == 0 ==> PatronReport(st, p, now).lateFeesOwed == 0
  {
  }

  /** No loan past its due time means nothing owed. */
  lemma {:induction false} NothingOwedBeforeDue(st: Store, p: string, loans: seq<BorrowRecord>, now: int)
    requires forall k :: 0 <= k < |loans| ==> now <= loans[k].dueDate
    ensures OverdueFees(st, p, loans, now) == 0
  {
    if loans != [] {
      NothingOwedBeforeDue(st, p, Init(loans), now);
    }
  }

  // ----- a worked scenario -----

  /** Three copies: three borrows empty the shelf and a fourth is refused as unavailable. */
  lemma ThreeCopiesScenario(now: int)
    ensures
      var st := Store(map[1 := Book("Harry Potter", "J.K. Rowling", "9780590353427", 3, 3)], [], 2);
      var s1 := BorrowStep(st, "100001", 1, now, true, true);
      var s2 := BorrowStep(s1.store, "100002", 1, now, true, true);
      var s3 := BorrowStep(s2.store, "100003", 1, now, true, true);
      var s4 := BorrowStep(s3.store, "100004", 1, now, true, true);
      s1.result.Borrowed? && s1.store.books[1].availableCopies == 2
      && s3.result.Borrowed? && s3.store.books[1].availableCopies == 0
      && s4 == Step(s3.store, BookUnavailable)
  {
    var st := Store(map[1 := Book("Harry Potter", "J.K. Rowling", "9780590353427", 3, 3)], [], 2);
    var s1 := BorrowStep(st, "100001", 1, now, true, true);
    var s2 := BorrowStep(s1.store, "100002", 1, now, true, true);
    assert ValidPatronId("100001") && ValidPatronId("100002") && ValidPatronId("100003");
    ActiveCountAppend([], BorrowRecord("100001", 1, now, now + LoanPeriod, None), "100002");
    ActiveCountAppend(s1.store.records, BorrowRecord("100002", 1, now, now + LoanPeriod, None), "100003");
    assert ActiveCount(s2.store.records, "100003") == 0;
  }
}
