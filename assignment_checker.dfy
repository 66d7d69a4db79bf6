/** The rolling-window fatigue counter used by the consecutive-assignment rule and by the
    status classifier. Dates are day numbers. */
module AssignmentChecker {

  const DaysPerWeek: int := 7

  /** The number of entries of `dates` that lie in the closed interval [lo, hi],
      counting repeated entries once per occurrence. */
  function CountInWindow(dates: seq<int>, lo: int, hi: int): (n: nat)
    ensures n <= |dates|
  {
    if dates == [] then 0
    else (if lo <= dates[0] <= hi then 1 else 0) + CountInWindow(dates[1..], lo, hi)
  }

  /** True when the assigned and preaching dates that fall in the window of `limit` weeks ending
      on `reference` (both ends included) number at least `limit`. The two lists are pooled, so a
      date present in both lists (or twice in one) counts every time it occurs. A limit of zero
      or less is always reached: its window is empty or ends before it starts. */
  function HasExceededConsecutiveAssignments(assignedDates: seq<int>, preachingDates: seq<int>, reference: int, limit: int)
    : (r: bool)
    ensures r <==> CountInWindow(assignedDates, reference - DaysPerWeek * limit, reference)
                   + CountInWindow(preachingDates, reference - DaysPerWeek * limit, reference) >= limit
    ensures limit <= 0 ==> r
  {
    CountAppend(assignedDates, preachingDates, reference - DaysPerWeek * limit, reference);
    CountInWindow(assignedDates + preachingDates, reference - DaysPerWeek * limit, reference) >= limit
  }

  /** Counting a concatenation counts each part. */
  lemma {:induction false} CountAppend(a: seq<int>, b: seq<int>, lo: int, hi: int)
    ensures CountInWindow(a + b, lo, hi) == CountInWindow(a, lo, hi) + CountInWindow(b, lo, hi)
  {
    if a != [] {
      assert (a + b)[1..] == a[1..] + b;
      CountAppend(a[1..], b, lo, hi);
    } else {
      assert a + b == b;
    }
  }

  /** The window is closed at both ends: one more date equal to the reference date, or equal
      to the first day of the window, adds exactly one to the count; one more date after the
      reference date or before the window adds nothing. */
  lemma {:induction false} WindowBoundaries(dates: seq<int>, reference: int, limit: int, d: int)
    ensures var lo := reference - DaysPerWeek * limit;
      CountInWindow(dates + [d], lo, reference)
        == CountInWindow(dates, lo, reference) + (if lo <= d <= reference then 1 else 0)
  {
    var lo := reference - DaysPerWeek * limit;
    CountAppend(dates, [d], lo, reference);
  }

  /** Dates outside the window, after the reference date or before the window starts, never
      change the result, whichever list they are added to. */
  lemma OutsideWindowIgnored(
    assignedDates: seq<int>, preachingDates: seq<int>, moreAssigned: seq<int>, morePreaching: seq<int>,
    reference: int, limit: int)
    requires forall i :: 0 <= i < |moreAssigned| ==>
      moreAssigned[i] > reference || moreAssigned[i] < reference - DaysPerWeek * limit
    requires forall i :: 0 <= i < |morePreaching| ==>
      morePreaching[i] > reference || morePreaching[i] < reference - DaysPerWeek * limit
    ensures HasExceededConsecutiveAssignments(assignedDates + moreAssigned, preachingDates + morePreaching, reference, limit)
        == HasExceededConsecutiveAssignments(assignedDates, preachingDates, reference, limit)
  {
    var lo := reference - DaysPerWeek * limit;
    NoneInWindow(moreAssigned, lo, reference);
    NoneInWindow(morePreaching, lo, reference);
    CountAppend(assignedDates, moreAssigned, lo, reference);
    CountAppend(preachingDates, morePreaching, lo, reference);
  }

  /** A list whose entries all lie outside the window counts zero. */
  lemma {:induction false} NoneInWindow(dates: seq<int>, lo: int, hi: int)
    requires forall i :: 0 <= i < |dates| ==> dates[i] > hi || dates[i] < lo
    ensures CountInWindow(dates, lo, hi) == 0
  {
    if dates != [] {
      NoneInWindow(dates[1..], lo, hi);
    }
  }

  /** Monotonicity: adding dates to either list can never turn a true result into false. */
  lemma ExceededMonotone(
    assignedDates: seq<int>, preachingDates: seq<int>, moreAssigned: seq<int>, morePreaching: seq<int>,
    reference: int, limit: int)
    requires HasExceededConsecutiveAssignments(assignedDates, preachingDates, reference, limit)
    ensures HasExceededConsecutiveAssignments(
      assignedDates + moreAssigned, preachingDates + morePreaching, reference, limit)
  {
    var lo := reference - DaysPerWeek * limit;
    CountAppend(assignedDates, moreAssigned, lo, reference);
    CountAppend(preachingDates, morePreaching, lo, reference);
  }

  /** With no dates at all and a positive limit, the limit is never reached. */
  lemma EmptyNeverExceeded(reference: int, limit: int)
    requires limit > 0
    ensures !HasExceededConsecutiveAssignments([], [], reference, limit)
  {
  }
}
