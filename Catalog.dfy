/** The book catalog: entries, the validation chain of `add_book_to_catalog`, and search. */
module Catalog {
  import opened Text
  import opened Wrappers

  /** A row of the books table (its id is the key of the catalog map). */
  datatype Book = Book(title: string, author: string, isbn: string, totalCopies: int, availableCopies: int)

  /** A search hit: the six columns of a book row. */
  datatype BookRow = BookRow(id: int, book: Book)

  const MaxTitleLength: int := 200
  const MaxAuthorLength: int := 100
  const IsbnLength: int := 13

  /** The input rules of `add_book_to_catalog`, in the order they are checked. */
  datatype Rule = TitleRequired | TitleTooLong | AuthorRequired | AuthorTooLong | IsbnFormat | CopiesPositive

  function Rank(rule: Rule): nat {
    match rule
    case TitleRequired => 0
    case TitleTooLong => 1
    case AuthorRequired => 2
    case AuthorTooLong => 3
    case IsbnFormat => 4
    case CopiesPositive => 5
  }

  /** The input breaks `rule`, judged on its own. */
  predicate Violates(rule: Rule, title: string, author: string, isbn: string, total: int) {
    match rule
    case TitleRequired => Strip(title) == []
    case TitleTooLong => |Strip(title)| > MaxTitleLength
    case AuthorRequired => Strip(author) == []
    case AuthorTooLong => |Strip(author)| > MaxAuthorLength
    case IsbnFormat => |Strip(isbn)| != IsbnLength || !IsDigitString(Strip(isbn))
    case CopiesPositive => total <= 0
  }

  /** The input passes every rule. */
  predicate AcceptableBook(title: string, author: string, isbn: string, total: int) {
    && Strip(title) != [] && |Strip(title)| <= MaxTitleLength
    && Strip(author) != [] && |Strip(author)| <= MaxAuthorLength
    && |Strip(isbn)| == IsbnLength && AllDigits(Strip(isbn))
    && total > 0
  }

  /**
   * The input validation of `add_book_to_catalog`: the first rule broken, in
   * checking order, or None when the input passes them all.
   */
  function ValidateBook(title: string, author: string, isbn: string, total: int): (r: Option<Rule>)
    ensures r.Some? ==> Violates(r.value, title, author, isbn, total)
    ensures r.None? <==> AcceptableBook(title, author, isbn, total)
  {
    var t := Strip(title);
    var a := Strip(author);
    var i := Strip(isbn);
    if t == [] then Some(TitleRequired)
    else if |t| > MaxTitleLength then Some(TitleTooLong)
    else if a == [] then Some(AuthorRequired)
    else if |a| > MaxAuthorLength then Some(AuthorTooLong)
    else if |i| != IsbnLength || !IsDigitString(i) then Some(IsbnFormat)
    else if total <= 0 then Some(CopiesPositive)
    else None
  }

  /** The rule reported is the first one broken: every rule checked before it holds. */
  lemma ValidationOrder(title: string, author: string, isbn: string, total: int, earlier: Rule)
    requires ValidateBook(title, author, isbn, total).Some?
    requires Rank(earlier) < Rank(ValidateBook(title, author, isbn, total).value)
    ensures !Violates(earlier, title, author, isbn, total)
  {
  }

  /** The boundaries: a stripped title of exactly 200 characters and an author of exactly 100 pass. */
  lemma LengthBoundsInclusive(title: string, author: string, isbn: string, total: int)
    requires |Strip(title)| == MaxTitleLength && |Strip(author)| == MaxAuthorLength
    requires |Strip(isbn)| == IsbnLength && AllDigits(Strip(isbn)) && total > 0
    ensures ValidateBook(title, author, isbn, total) == None
  {
  }

  /** A title made only of whitespace is refused first, whatever else is wrong. */
  lemma BlankTitleRefusedFirst(title: string, author: string, isbn: string, total: int)
    requires AllSpace(title)
    ensures ValidateBook(title, author, isbn, total) == Some(TitleRequired)
  {
    StripTrims(title);
  }

  /** Some book in the catalog already has this ISBN (`get_book_by_isbn`). */
  predicate IsbnInUse(books: map<int, Book>, isbn: string) {
    exists id :: id in books && books[id].isbn == isbn
  }

  /** How a book matches a search of the given kind; an unknown kind matches nothing. */
  predicate Matches(book: Book, term: string, kind: string) {
    if kind == "title" then Contains(Lower(book.title), Lower(term))
    else if kind == "author" then Contains(Lower(book.author), Lower(term))
    else if kind == "isbn" then book.isbn == term
    else false
  }

  /** The matching rows among ids below `n`, in ascending id (rowid) order. */
  function MatchingRows(books: map<int, Book>, term: string, kind: string, n: int): (rows: seq<BookRow>)
    decreases n
  {
    if n <= 0 then []
    else
      MatchingRows(books, term, kind, n - 1)
      + (if n - 1 in books && Matches(books[n - 1], term, kind) then [BookRow(n - 1, books[n - 1])] else [])
  }

  /** What `search_books_in_catalog` returns for a catalog whose ids are all below `n`. */
  function SearchResult(books: map<int, Book>, term: string, kind: string, n: int): seq<BookRow> {
    if term == [] then [] else MatchingRows(books, term, kind, n)
  }

  /** Every row found is a catalog book, with its fields unchanged, that matches, below `n`. */
  lemma {:induction false} MatchingRowsSound(books: map<int, Book>, term: string, kind: string, n: int)
    ensures forall k :: 0 <= k < |MatchingRows(books, term, kind, n)| ==>
      var row := MatchingRows(books, term, kind, n)[k];
      0 <= row.id < n && row.id in books && row.book == books[row.id] && Matches(row.book, term, kind)
    decreases n
  {
    if n > 0 {
      MatchingRowsSound(books, term, kind, n - 1);
    }
  }

  /** Every matching catalog book with an id below `n` is found. */
  lemma {:induction false} MatchingRowsComplete(books: map<int, Book>, term: string, kind: string, n: int, id: int)
    requires 0 <= id < n && id in books && Matches(books[id], term, kind)
    ensures BookRow(id, books[id]) in MatchingRows(books, term, kind, n)
    decreases n
  {
    if id < n - 1 {
      MatchingRowsComplete(books, term, kind, n - 1, id);
    }
  }

  /** Rows come in strictly ascending id order, so no book is listed twice. */
  lemma {:induction false} MatchingRowsAscending(books: map<int, Book>, term: string, kind: string, n: int)
    ensures forall j, k :: 0 <= j < k < |MatchingRows(books, term, kind, n)| ==>
      MatchingRows(books, term, kind, n)[j].id < MatchingRows(books, term, kind, n)[k].id
    decreases n
  {
    if n > 0 {
      MatchingRowsAscending(books, term, kind, n - 1);
      MatchingRowsSound(books, term, kind, n - 1);
    }
  }

  /** A search of a kind other than title, author or isbn finds nothing. */
  lemma {:induction false} UnknownKindFindsNothing(books: map<int, Book>, term: string, kind: string, n: int)
    requires kind != "title" && kind != "author" && kind != "isbn"
    ensures MatchingRows(books, term, kind, n) == []
    decreases n
  {
    if n > 0 {
      UnknownKindFindsNothing(books, term, kind, n - 1);
    }
  }

  /** Title search ignores ASCII case: a term and its lower-cased form find the same rows. */
  lemma TitleSearchIgnoresCase(books: map<int, Book>, term: string, n: int)
    ensures MatchingRows(books, term, "title", n) == MatchingRows(books, Lower(term), "title", n)
  {
    assert Lower(Lower(term)) == Lower(term);
  }
}
