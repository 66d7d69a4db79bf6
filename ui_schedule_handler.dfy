/** The date-range helpers behind the schedule screen: the span of the preaching schedule and
    how a requested start and end date are checked and clamped against it. Dates are day
    numbers. */
module DateRanges {
  import opened Preachers

  /** Why no preaching date range exists. */
  datatype RangeError = NoPreachers | NoPreachingDates

  /** The earliest and the latest preaching date. */
  datatype DateRange = DateRange(earliest: int, latest: int)

  /** A range, or the reason there is none. */
  datatype RangeResult = Ok(range: DateRange) | Err(error: RangeError)

  /** `d` is one of the dates of some preacher of the list. */
  predicate IsPreachingDate(preachers: seq<Preacher>, d: int) {
    exists i :: 0 <= i < |preachers| && d in preachers[i].dates
  }

  /** All preachers' dates, preacher after preacher. */
  function AllPreachingDates(preachers: seq<Preacher>): (r: seq<int>)
    ensures forall d :: d in r <==> IsPreachingDate(preachers, d)
  {
    if preachers == [] then []
    else
      var rest := AllPreachingDates(preachers[1..]);
      assert forall d :: IsPreachingDate(preachers, d) <==>
        d in preachers[0].dates || IsPreachingDate(preachers[1..], d) by {
        forall d ensures IsPreachingDate(preachers, d) <==>
          d in preachers[0].dates || IsPreachingDate(preachers[1..], d) {
          if IsPreachingDate(preachers[1..], d) {
            var i :| 0 <= i < |preachers[1..]| && d in preachers[1..][i].dates;
            assert preachers[i + 1] == preachers[1..][i];
          }
          if IsPreachingDate(preachers, d) {
            var i :| 0 <= i < |preachers| && d in preachers[i].dates;
            if i > 0 { assert preachers[1..][i - 1] == preachers[i]; }
          }
        }
      }
      preachers[0].dates + rest
  }

  /** The smallest element of a non-empty list. */
  function MinOf(s: seq<int>): (m: int)
    requires s != []
    ensures m in s && forall x :: x in s ==> m <= x
  {
    if |s| == 1 then s[0]
    else
      var rest := MinOf(s[1..]);
      assert forall x :: x in s ==> x == s[0] || x in s[1..];
      if s[0] <= rest then s[0] else rest
  }

  /** The largest element of a non-empty list. */
  function MaxOf(s: seq<int>): (m: int)
    requires s != []
    ensures m in s && forall x :: x in s ==> x <= m
  {
    if |s| == 1 then s[0]
    else
      var rest := MaxOf(s[1..]);
      assert forall x :: x in s ==> x == s[0] || x in s[1..];
      if s[0] >= rest then s[0] else rest
  }

  /** The earliest and latest preaching dates over all preachers; an error when there are no
      preachers, or when no preacher has a date. Both bounds are preaching dates and every
      preaching date lies between them. */
  function CalculatePreachingDateRange(preachers: seq<Preacher>): (r: RangeResult)
    ensures preachers == [] ==> r == Err(NoPreachers)
    ensures preachers != [] && (forall d :: !IsPreachingDate(preachers, d)) ==> r == Err(NoPreachingDates)
    ensures r.Ok? ==>
      IsPreachingDate(preachers, r.range.earliest) && IsPreachingDate(preachers, r.range.latest) &&
      r.range.earliest <= r.range.latest &&
      forall d :: IsPreachingDate(preachers, d) ==> r.range.earliest <= d <= r.range.latest
  {
    if preachers == [] then Err(NoPreachers)
    else
      var all := AllPreachingDates(preachers);
      if all == [] then Err(NoPreachingDates)
      else Ok(DateRange(MinOf(all), MaxOf(all)))
  }

  /** The range exists exactly when some preacher has a date. */
  lemma RangeExistsIffSomeDate(preachers: seq<Preacher>)
    ensures CalculatePreachingDateRange(preachers).Ok? <==> exists d :: IsPreachingDate(preachers, d)
  {
    if exists d :: IsPreachingDate(preachers, d) {
      var d :| IsPreachingDate(preachers, d);
      assert d in AllPreachingDates(preachers);
    }
  }

  /** `d` lies in the range, both ends included; only a non-empty range holds a date. */
  function IsWithinDateRange(range: DateRange, d: int): (r: bool)
    ensures r ==> range.earliest <= range.latest
  {
    range.earliest <= d <= range.latest
  }

  /** The whole preaching range lies inside [startDate, endDate]. */
  function IsPreachingScheduleWithinDateRange(range: DateRange, startDate: int, endDate: int): (r: bool)
    ensures r <==>
      range.earliest <= range.latest && forall d :: IsWithinDateRange(range, d) ==> startDate <= d <= endDate
  {
    assert IsWithinDateRange(range, range.earliest) <==> range.earliest <= range.latest;
    assert IsWithinDateRange(range, range.latest) <==> range.earliest <= range.latest;
    startDate <= range.earliest <= range.latest <= endDate
  }

  /** Every preaching date is within the range computed from the preachers, and the schedule is
      inside a window exactly when every preaching date is. */
  lemma PreachingScheduleWithinIffAllDates(preachers: seq<Preacher>, startDate: int, endDate: int)
    requires CalculatePreachingDateRange(preachers).Ok?
    ensures var range := CalculatePreachingDateRange(preachers).range;
      (forall d :: IsPreachingDate(preachers, d) ==> IsWithinDateRange(range, d)) &&
      (IsPreachingScheduleWithinDateRange(range, startDate, endDate) <==>
         forall d :: IsPreachingDate(preachers, d) ==> startDate <= d <= endDate)
  {
    var range := CalculatePreachingDateRange(preachers).range;
    if forall d :: IsPreachingDate(preachers, d) ==> startDate <= d <= endDate {
      assert startDate <= range.earliest && range.latest <= endDate;
    }
  }

  /** The result of clamping a window: the new start and end, and whether either changed. */
  datatype Adjustment = Adjustment(startDate: int, endDate: int, adjusted: bool)

  /** Clamps a window to the range: a start before the earliest date moves up to it, an end
      after the latest date moves down to it, and the flag says whether anything moved. */
  function AdjustDatesWithinRange(range: DateRange, startDate: int, endDate: int): (a: Adjustment)
    ensures range.earliest <= a.startDate && startDate <= a.startDate
    ensures a.endDate <= range.latest && a.endDate <= endDate
    ensures a.startDate == startDate || a.startDate == range.earliest
    ensures a.endDate == endDate || a.endDate == range.latest
    ensures a.adjusted <==> a.startDate != startDate || a.endDate != endDate
  {
    var s := if startDate < range.earliest then range.earliest else startDate;
    var e := if endDate > range.latest then range.latest else endDate;
    Adjustment(s, e, startDate < range.earliest || endDate > range.latest)
  }

  /** Clamping is idempotent: a clamped window is left as it is, with the flag clear. */
  lemma AdjustIdempotent(range: DateRange, startDate: int, endDate: int)
    ensures var a := AdjustDatesWithinRange(range, startDate, endDate);
      AdjustDatesWithinRange(range, a.startDate, a.endDate) == Adjustment(a.startDate, a.endDate, false)
  {
  }

  /** Every date of a clamped window is within the range, and a window that already covers the
      preaching schedule is clamped to exactly the range. */
  lemma AdjustedWindowWithinRange(range: DateRange, startDate: int, endDate: int)
    ensures var a := AdjustDatesWithinRange(range, startDate, endDate);
      forall d :: a.startDate <= d <= a.endDate ==> IsWithinDateRange(range, d)
    ensures IsPreachingScheduleWithinDateRange(range, startDate, endDate) ==>
      var a := AdjustDatesWithinRange(range, startDate, endDate);
      a.startDate == range.earliest && a.endDate == range.latest
  {
  }
}
