/**
 * Late-fee arithmetic in integer cents over whole overdue days.
 * Times are integer seconds; a day is 86400 seconds.
 */
module FeePolicy {

  const SecondsPerDay: int := 86400
  /** A loan is due fourteen days after it starts. */
  const LoanPeriod: int := 14 * SecondsPerDay
  /** Days charged at the reduced rate. */
  const ReducedRateDays: int := 7
  const ReducedRate: int := 50
  const FullRate: int := 100
  /** Hard ceiling on the fee of one loan: $15.00. */
  const MaxFee: int := 1500

  /** Outcome tag of the fee query. */
  datatype QuoteStatus = InvalidPatron | BookNotFound | NoActiveRecord | NotOverdue | Success

  /** What the fee query returns: fee in cents, whole days overdue and a status. */
  datatype FeeQuote = FeeQuote(feeCents: int, daysOverdue: int, status: QuoteStatus)

  function Min(a: int, b: int): int { if a <= b then a else b }
  function Max(a: int, b: int): int { if a <= b then b else a }

  /** `timedelta.days` of a span of `seconds`: the whole days, rounded down. */
  function WholeDays(seconds: int): (days: int)
    ensures days * SecondsPerDay <= seconds < (days + 1) * SecondsPerDay
    ensures seconds >= 0 ==> days >= 0
  {
    seconds / SecondsPerDay
  }

  /** The fee for `days` whole overdue days, as computed by the fee query. */
  function AccruedFee(days: nat): (fee: int)
    ensures 0 <= fee <= MaxFee
    ensures days <= ReducedRateDays ==> fee == ReducedRate * days
  {
    var fee :=
      if days <= ReducedRateDays then days * ReducedRate
      else ReducedRateDays * ReducedRate + (days - ReducedRateDays) * FullRate;
    if fee > MaxFee then MaxFee else fee
  }

  /** The fee query's projection for an active loan due at `due`, asked at `now`. */
  function OverdueQuote(due: int, now: int): (q: FeeQuote)
    ensures 0 <= q.feeCents <= MaxFee && q.daysOverdue >= 0
    ensures q.status == NotOverdue || q.status == Success
    ensures q.feeCents > 0 ==> q.status == Success
  {
    if now <= due then FeeQuote(0, 0, NotOverdue)
    else
      var days := WholeDays(now - due);
      FeeQuote(AccruedFee(days), days, Success)
  }

  /**
   * The fee as `return_book_by_patron` computes it with its own copy of the
   * arithmetic: `(days_late, late_fee)`, both zero unless `now` is past `due`.
   */
  function ReturnLateFee(due: int, now: int): (r: (int, int))
    ensures r.0 >= 0 && 0 <= r.1 <= MaxFee
    ensures now <= due ==> r == (0, 0)
  {
    if now > due then
      var daysLate := WholeDays(now - due);
      var lateFee :=
        if daysLate <= 7 then daysLate * 50
        else 7 * 50 + (daysLate - 7) * 100;
      (daysLate, if lateFee > 1500 then 1500 else lateFee)
    else (0, 0)
  }

  /** The fee equals the closed form min(cap, 50 * min(d, 7) + 100 * max(d - 7, 0)). */
  lemma AccruedFeeClosedForm(days: nat)
    ensures AccruedFee(days) == Min(MaxFee, ReducedRate * Min(days, ReducedRateDays) + FullRate * Max(days - ReducedRateDays, 0))
  {
  }

  /** One more overdue day never lowers the fee. */
  lemma AccruedFeeMonotone(d1: nat, d2: nat)
    requires d1 <= d2
    ensures AccruedFee(d1) <= AccruedFee(d2)
  {
  }

  /** Each further day adds 50 cents during the first week, then 100 cents until the cap. */
  lemma AccruedFeeStep(d: nat)
    ensures AccruedFee(d + 1) == Min(MaxFee, AccruedFee(d) + (if d < ReducedRateDays then ReducedRate else FullRate))
  {
  }

  /** The cap is reached on the 19th overdue day and not before. */
  lemma AccruedFeeCapped(days: nat)
    ensures AccruedFee(days) == MaxFee <==> days >= 19
  {
  }

  /** Worked values: 6 days cost $3.00, 7 days $3.50, 8 days $4.50, 40 days are capped at $15.00. */
  lemma AccruedFeeExamples()
    ensures AccruedFee(0) == 0 && AccruedFee(6) == 300 && AccruedFee(7) == 350
    ensures AccruedFee(8) == 450 && AccruedFee(18) == 1450 && AccruedFee(40) == 1500
  {
  }

  /** Whole days of a span of k days plus less than one more day is k. */
  lemma WholeDaysOfSpan(k: int, extra: int)
    requires 0 <= extra < SecondsPerDay
    ensures WholeDays(k * SecondsPerDay + extra) == k
  {
  }

  /** Up to and including the due time the loan is not overdue and owes nothing (strict `>`). */
  lemma NotOverdueUntilDue(due: int, now: int)
    requires now <= due
    ensures OverdueQuote(due, now) == FeeQuote(0, 0, NotOverdue)
  {
  }

  /** Less than one whole day past due: overdue, but zero days and zero fee. */
  lemma FirstPartialDayIsFree(due: int, now: int)
    requires due < now < due + SecondsPerDay
    ensures OverdueQuote(due, now) == FeeQuote(0, 0, Success)
  {
    WholeDaysOfSpan(0, now - due);
  }

  /** A loan due `k` days and a fraction ago owes the fee for exactly `k` days. */
  lemma OverdueByDays(due: int, now: int, k: nat)
    requires due + k * SecondsPerDay <= now < due + (k + 1) * SecondsPerDay
    requires now > due
    ensures OverdueQuote(due, now) == FeeQuote(AccruedFee(k), k, Success)
  {
    WholeDaysOfSpan(k, now - due - k * SecondsPerDay);
  }

  /** The return's copy of the arithmetic agrees with the fee query's on days and fee. */
  lemma ReturnFeeAgreesWithQuote(due: int, now: int)
    ensures ReturnLateFee(due, now) == (OverdueQuote(due, now).daysOverdue, OverdueQuote(due, now).feeCents)
  {
  }

  /** The fee in the return message is non-zero exactly when the loan is at least one whole day late. */
  lemma ReturnChargesFromFirstWholeDay(due: int, now: int)
    ensures ReturnLateFee(due, now).1 > 0 <==> now >= due + SecondsPerDay
  {
    if now >= due + SecondsPerDay {
      assert WholeDays(now - due) >= 1;
    }
  }
}
