/**
 * The lending state and its transitions, as pure functions over an in-memory
 * store: a catalog map from book id to book, the borrow records in insertion
 * (rowid) order, and the id the next inserted book receives.
 */
module Lending {
  import opened Wrappers
  import opened Text
  import opened Patron
  import opened FeePolicy
  import opened Catalog

  /** Most loans a patron may hold at once. */
  const MaxLoans: int := 5

  /** A row of the borrow_records table; times are seconds. */
  datatype BorrowRecord = BorrowRecord(patronId: string, bookId: int, borrowDate: int, dueDate: int, returnDate: Option<int>)

  datatype Store = Store(books: map<int, Book>, records: seq<BorrowRecord>, nextId: int)

  /** The new store and what the operation reports. */
  datatype Step<R> = Step(store: Store, result: R)

  /** Why adding a book failed. */
  datatype AddError = Invalid(rule: Rule) | DuplicateIsbn | InsertFailed
  datatype AddResult = AddRefused(error: AddError) | Added(id: int)

  datatype BorrowResult =
    | BorrowInvalidPatron | BorrowBookNotFound | BookUnavailable | LoanLimitReached
    | RecordInsertFailed | AvailabilityUpdateFailed
    | Borrowed(dueDate: int)

  datatype ReturnResult =
    | ReturnInvalidPatron | ReturnBookNotFound | NoActiveLoan
    | Returned(lateFee: int, daysLate: int)

  /** What `get_patron_status_report` returns; `NoReport` is its empty dict. */
  datatype StatusReport =
    | NoReport
    | Report(currentLoans: seq<BorrowRecord>, loanCount: nat, lateFeesOwed: int, history: seq<BorrowRecord>)

  predicate IsActive(r: BorrowRecord) {
    r.returnDate.None?
  }

  /** An active loan of book `b` by patron `p`. */
  predicate ActiveFor(r: BorrowRecord, p: string, b: int) {
    r.patronId == p && r.bookId == b && IsActive(r)
  }

  function Last<T>(s: seq<T>): T
    requires s != []
  {
    s[|s| - 1]
  }

  function Init<T>(s: seq<T>): seq<T>
    requires s != []
  {
    s[..|s| - 1]
  }

  /** The patron's active records in storage order (`get_patron_borrowed_books`). */
  function ActiveLoans(rs: seq<BorrowRecord>, p: string): (loans: seq<BorrowRecord>)
    ensures |loans| <= |rs|
    ensures forall k :: 0 <= k < |loans| ==> loans[k] in rs && loans[k].patronId == p && IsActive(loans[k])
  {
    if rs == [] then []
    else ActiveLoans(Init(rs), p) + (if Last(rs).patronId == p && IsActive(Last(rs)) then [Last(rs)] else [])
  }

  /** How many loans the patron holds (`get_patron_borrow_count`). */
  function ActiveCount(rs: seq<BorrowRecord>, p: string): nat {
    |ActiveLoans(rs, p)|
  }

  /** Copies of book `b` currently lent out, to any patron. */
  function CopiesOut(rs: seq<BorrowRecord>, b: int): nat {
    if rs == [] then 0
    else CopiesOut(Init(rs), b) + (if Last(rs).bookId == b && IsActive(Last(rs)) then 1 else 0)
  }

  /** Active records for the pair (patron `p`, book `b`). */
  function PairCount(rs: seq<BorrowRecord>, p: string, b: int): nat {
    if rs == [] then 0
    else PairCount(Init(rs), p, b) + (if ActiveFor(Last(rs), p, b) then 1 else 0)
  }

  /** Every record of the patron, returned or not, in storage order. */
  function History(rs: seq<BorrowRecord>, p: string): (h: seq<BorrowRecord>)
    ensures forall k :: 0 <= k < |h| ==> h[k] in rs && h[k].patronId == p
  {
    if rs == [] then []
    else History(Init(rs), p) + (if Last(rs).patronId == p then [Last(rs)] else [])
  }

  /**
   * The first active record for (`p`, `b`) in storage order: the row that
   * `cursor.fetchone()` yields for the lookup in return and in the fee query.
   */
  function FirstActive(rs: seq<BorrowRecord>, p: string, b: int): (r: Option<nat>)
    ensures r.Some? ==> r.value < |rs| && ActiveFor(rs[r.value], p, b)
    ensures r.Some? ==> forall k :: 0 <= k < r.value ==> !ActiveFor(rs[k], p, b)
    ensures r.None? <==> forall k :: 0 <= k < |rs| ==> !ActiveFor(rs[k], p, b)
  {
    if rs == [] then None
    else if ActiveFor(rs[0], p, b) then Some(0)
    else
      match FirstActive(rs[1..], p, b)
      case None => None
      case Some(k) => Some(k + 1)
  }

  /**
   * The `UPDATE ... SET return_date` of a return: every active record for
   * (`p`, `b`) is closed at time `t`; all other records are left as they were.
   */
  function MarkReturned(rs: seq<BorrowRecord>, p: string, b: int, t: int): (rs': seq<BorrowRecord>)
    ensures |rs'| == |rs|
    ensures forall k :: 0 <= k < |rs| && ActiveFor(rs[k], p, b) ==> rs'[k] == rs[k].(returnDate := Some(t))
    ensures forall k :: 0 <= k < |rs| && !ActiveFor(rs[k], p, b) ==> rs'[k] == rs[k]
  {
    if rs == [] then []
    else
      var r := Last(rs);
      MarkReturned(Init(rs), p, b, t) + [if ActiveFor(r, p, b) then r.(returnDate := Some(t)) else r]
  }

  /** A book that `AddStep` could have inserted, with a count that has not gone negative. */
  predicate WellFormedBook(book: Book) {
    && |book.isbn| == IsbnLength && AllDigits(book.isbn)
    && book.totalCopies > 0
    && book.availableCopies >= 0
  }

  /**
   * The invariant every operation keeps: ids are below `nextId`, books are
   * well formed, ISBNs are unique, records point at catalog books, and no
   * patron holds more than five loans.
   */
  ghost predicate Valid(st: Store) {
    && st.nextId >= 1
    && (forall id :: id in st.books ==> 1 <= id < st.nextId && WellFormedBook(st.books[id]))
    && (forall i, j :: i in st.books && j in st.books && i != j ==> st.books[i].isbn != st.books[j].isbn)
    && (forall k :: 0 <= k < |st.records| ==> st.records[k].bookId in st.books)
    && (forall p :: ActiveCount(st.records, p) <= MaxLoans)
  }

  /** The empty database. */
  function EmptyStore(): (st: Store)
    ensures Valid(st)
  {
    Store(map[], [], 1)
  }

  /** The book `add_book_to_catalog` inserts: stripped fields, every copy available. */
  function NewBook(title: string, author: string, isbn: string, total: int): Book {
    Book(Strip(title), Strip(author), Strip(isbn), total, total)
  }

  /** The checks of `add_book_to_catalog` in order; None when the insert goes ahead and succeeds. */
  function AddRefusal(books: map<int, Book>, title: string, author: string, isbn: string, total: int, insertOk: bool): Option<AddError> {
    match ValidateBook(title, author, isbn, total)
    case Some(rule) => Some(Invalid(rule))
    case None =>
      if IsbnInUse(books, Strip(isbn)) then Some(DuplicateIsbn)
      else if !insertOk then Some(InsertFailed)
      else None
  }

  /** `add_book_to_catalog`; `insertOk` is whether the storage insert succeeded. */
  function AddStep(st: Store, title: string, author: string, isbn: string, total: int, insertOk: bool): Step<AddResult> {
    match AddRefusal(st.books, title, author, isbn, total, insertOk)
    case Some(e) => Step(st, AddRefused(e))
    case None =>
      Step(st.(books := st.books[st.nextId := NewBook(title, author, isbn, total)], nextId := st.nextId + 1), Added(st.nextId))
  }

  /**
   * `borrow_book_by_patron` at time `now`. `recordOk` and `availabilityOk` are
   * whether the record insert and the availability update succeeded; the
   * two writes are separate, so a failed update leaves the record inserted.
   */
  function BorrowStep(st: Store, p: string, b: int, now: int, recordOk: bool, availabilityOk: bool): Step<BorrowResult> {
    if BorrowRejectsPatronId(p) then Step(st, BorrowInvalidPatron)
    else if b !in st.books then Step(st, BorrowBookNotFound)
    else if st.books[b].availableCopies <= 0 then Step(st, BookUnavailable)
    else if ActiveCount(st.records, p) >= MaxLoans then Step(st, LoanLimitReached)
    else
      var due := now + LoanPeriod;
      if !recordOk then Step(st, RecordInsertFailed)
      else
        var st1 := st.(records := st.records + [BorrowRecord(p, b, now, due, None)]);
        if !availabilityOk then Step(st1, AvailabilityUpdateFailed)
        else
          var book := st.books[b];
          Step(st1.(books := st.books[b := book.(availableCopies := book.availableCopies - 1)]), Borrowed(due))
  }

  /** `return_book_by_patron` at time `now`. */
  function ReturnStep(st: Store, p: string, b: int, now: int): Step<ReturnResult> {
    if !ValidPatronId(p) then Step(st, ReturnInvalidPatron)
    else if b !in st.books then Step(st, ReturnBookNotFound)
    else
      match FirstActive(st.records, p, b)
      case None => Step(st, NoActiveLoan)
      case Some(k) =>
        var fee := ReturnLateFee(st.records[k].dueDate, now);
        var book := st.books[b];
        var st' := st.(records := MarkReturned(st.records, p, b, now),
                       books := st.books[b := book.(availableCopies := book.availableCopies + 1)]);
        Step(st', Returned(fee.1, fee.0))
  }

  /** `calculate_late_fee_for_book` at time `now`; it changes nothing. */
  function QuoteFor(st: Store, p: string, b: int, now: int): (q: FeeQuote)
    ensures 0 <= q.feeCents <= MaxFee && q.daysOverdue >= 0
    ensures q.feeCents > 0 ==> q.status == Success
  {
    if !ValidPatronId(p) then FeeQuote(0, 0, InvalidPatron)
    else if b !in st.books then FeeQuote(0, 0, BookNotFound)
    else
      match FirstActive(st.records, p, b)
      case None => FeeQuote(0, 0, NoActiveRecord)
      case Some(k) => OverdueQuote(st.records[k].dueDate, now)
  }

  /**
   * The fee total of the status report over `loans`: for every overdue loan,
   * the fee query's fee for that loan's book.
   */
  function OverdueFees(st: Store, p: string, loans: seq<BorrowRecord>, now: int): (total: int)
    ensures 0 <= total <= MaxFee * |loans|
  {
    if loans == [] then 0
    else
      OverdueFees(st, p, Init(loans), now)
      + (if now > Last(loans).dueDate then QuoteFor(st, p, Last(loans).bookId, now).feeCents else 0)
  }

  /** `get_patron_status_report` at time `now`. */
  function PatronReport(st: Store, p: string, now: int): StatusReport {
    if !ValidPatronId(p) then NoReport
    else
      var loans := ActiveLoans(st.records, p);
      Report(loans, |loans|, OverdueFees(st, p, loans, now), History(st.records, p))
  }
}
