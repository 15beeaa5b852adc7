/** Library-card identifiers: exactly six ASCII digits. */
module Patron {
  import opened Text

  /** A well-formed patron id. */
  predicate ValidPatronId(p: string) {
    |p| == 6 && AllDigits(p)
  }

  /**
   * The guard of `borrow_book_by_patron`: empty, not `isdigit()`, or not six
   * characters long. It rejects exactly the ids that are not well formed.
   */
  function BorrowRejectsPatronId(p: string): (rejected: bool)
    ensures rejected <==> !ValidPatronId(p)
  {
    |p| == 0 || !IsDigitString(p) || |p| != 6
  }

  /**
   * The check of `return_book_by_patron`, `calculate_late_fee_for_book` and
   * `get_patron_status_report`: the length first, then every character in turn.
   */
  method CheckPatronId(p: string) returns (ok: bool)
    ensures ok <==> ValidPatronId(p)
  {
    if |p| != 6 {
      return false;
    }
    for i := 0 to |p|
      invariant forall j :: 0 <= j < i ==> IsDigit(p[j])
    {
      if !IsDigit(p[i]) {
        return false;
      }
    }
    return true;
  }
}
