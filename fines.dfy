/** The overdue-fine policy shared by the single return and the bulk return:
    elapsed time is the absolute difference of two millisecond timestamps,
    rounded UP to whole days, and every day beyond a 7-day grace period costs
    one currency unit. */
module Fines {

  /** 1000 * 60 * 60 * 24 milliseconds. */
  const MillisPerDay: nat := 86400000
  /** Days a loan may run before a fine accrues. */
  const GraceDays: nat := 7
  /** Currency units charged per day beyond the grace period. */
  const FinePerDay: nat := 1

  function Abs(x: int): nat
  {
    if x < 0 then -x else x
  }

  /** Math.ceil(millis / MillisPerDay) for a non-negative integer number of
      milliseconds. */
  function CeilDays(millis: nat): nat
  {
    (millis + MillisPerDay - 1) / MillisPerDay
  }

  /** CeilDays is the least number of whole days that covers millis. */
  lemma CeilDaysCovers(millis: nat)
    ensures CeilDays(millis) * MillisPerDay >= millis
    ensures CeilDays(millis) > 0 ==> (CeilDays(millis) - 1) * MillisPerDay < millis
  {
    var q := (millis + MillisPerDay - 1) / MillisPerDay;
    var rem := (millis + MillisPerDay - 1) % MillisPerDay;
    assert q * MillisPerDay + rem == millis + MillisPerDay - 1;
  }

  /** Milliseconds between the issue date and the return date, in either order. */
  function ElapsedMillis(issueDate: int, returnDate: int): nat
  {
    Abs(returnDate - issueDate)
  }

  /** Whole days between the issue date and the return date, rounded up. */
  function ElapsedDays(issueDate: int, returnDate: int): nat
  {
    CeilDays(ElapsedMillis(issueDate, returnDate))
  }

  /** The fine for a loan issued at issueDate and returned at returnDate. */
  function Fine(issueDate: int, returnDate: int): (fine: nat)
    ensures fine == 0 <==> ElapsedDays(issueDate, returnDate) <= GraceDays
    ensures fine > 0 ==> fine == ElapsedDays(issueDate, returnDate) - GraceDays
  {
    var days := ElapsedDays(issueDate, returnDate);
    if days > GraceDays then (days - GraceDays) * FinePerDay else 0
  }

  /** Charging k days, on top of the grace period, covers millis. */
  predicate Covers(k: nat, millis: nat)
  {
    (GraceDays + k) * MillisPerDay >= millis
  }

  /** An independent description of the fine: it is the least number of
      chargeable days k such that the grace period plus k whole days covers
      the elapsed time. */
  lemma FineIsLeastCoveringCharge(issueDate: int, returnDate: int)
    ensures Covers(Fine(issueDate, returnDate), ElapsedMillis(issueDate, returnDate))
    ensures forall k: nat :: k < Fine(issueDate, returnDate) ==> !Covers(k, ElapsedMillis(issueDate, returnDate))
  {
    var millis := ElapsedMillis(issueDate, returnDate);
    var days := ElapsedDays(issueDate, returnDate);
    var fine := Fine(issueDate, returnDate);
    CeilDaysCovers(millis);
    if fine == 0 {
      assert days <= GraceDays;
      assert days * MillisPerDay <= GraceDays * MillisPerDay;
    } else {
      assert GraceDays + fine == days;
      forall k: nat | k < fine
        ensures !Covers(k, millis)
      {
        assert GraceDays + k <= days - 1;
        assert (GraceDays + k) * MillisPerDay <= (days - 1) * MillisPerDay;
      }
    }
  }

  /** A return timestamp before the issue timestamp is charged as if the two
      were swapped. */
  lemma FineIsSymmetric(issueDate: int, returnDate: int)
    ensures Fine(issueDate, returnDate) == Fine(returnDate, issueDate)
  {
  }

  /** Returned 10 days after issue: 3 days beyond grace; exactly 7 days: no
      fine; 7.2 days rounds up to 8 days: fine 1. */
  lemma FineExamples()
    ensures Fine(0, 10 * MillisPerDay) == 3
    ensures Fine(0, 7 * MillisPerDay) == 0
    ensures Fine(0, 7 * MillisPerDay + MillisPerDay / 5) == 1
    ensures Fine(10 * MillisPerDay, 0) == 3
  {
  }
}
