/**
 * The business-hours calculator of app.js (`calculateWorkHours`, `sameDay`).
 *
 * An instant is a whole number of milliseconds since 1970-01-01 00:00 on the
 * local wall clock, and every calendar day is exactly 24 hours long. Day `d`
 * starts at `Midnight(d)`; 1970-01-01 (day 0) was a Thursday.
 */
module WorkCalendar {
  import opened Wrappers

  type Instant = int

  const MS_PER_DAY: int := 86_400_000
  /** Opening of the daily business window, 07:12, as an offset from midnight. */
  const WORK_START: int := 25_920_000
  /** Close of the daily business window, 17:30, as an offset from midnight. */
  const WORK_END: int := 63_000_000
  /** Length of one full business window, 10 h 18 min. */
  const WINDOW: int := WORK_END - WORK_START

  /** The index of the calendar day holding `t` (midnight rounds down, also before 1970). */
  function Day(t: Instant): (d: int)
    ensures Midnight(d) <= t < Midnight(d) + MS_PER_DAY
  {
    t / 86_400_000
  }

  /** The first instant of day `day`. */
  function Midnight(day: int): Instant {
    day * 86_400_000
  }

  /** Midnight belongs to its own day. */
  lemma DayOfMidnight(day: int)
    ensures Day(Midnight(day)) == day
  {
  }

  /** Day of the week in the numbering of `Date.getDay`: 0 is Sunday, 6 is Saturday. */
  function WeekDay(day: int): (w: int)
    ensures 0 <= w < 7
  {
    (day + 4) % 7
  }

  /** The day after a Saturday is a Sunday; otherwise the week day goes up by one. */
  lemma NextWeekDay(day: int)
    ensures WeekDay(day + 1) == if WeekDay(day) == 6 then 0 else WeekDay(day) + 1
  {
    var q, r := (day + 4) / 7, (day + 4) % 7;
    assert day + 5 == 7 * q + (r + 1);
    if r == 6 {
      assert day + 5 == 7 * (q + 1) + 0;
    }
  }

  /** Monday to Friday. */
  predicate IsWorkDay(day: int) {
    1 <= WeekDay(day) <= 5
  }

  /** `sameDay`: `b` falls on the calendar day of `a`. */
  function SameDay(a: Instant, b: Instant): (r: bool)
    ensures r <==> Midnight(Day(a)) <= b < Midnight(Day(a)) + MS_PER_DAY
    ensures r <==> Midnight(Day(b)) <= a < Midnight(Day(b)) + MS_PER_DAY
  {
    Day(a) == Day(b)
  }

  function Max(x: int, y: int): int { if x < y then y else x }
  function Min(x: int, y: int): int { if x < y then x else y }

  /**
   * What one pass of the calculator's loop adds for day `day` of the query
   * [start, end]: nothing on a weekend; otherwise the day's window, whose
   * open moves to `start` on start's own day when `start` is later, and whose
   * close moves to `end` on end's own day when `end` is earlier.
   */
  function DayShare(day: int, start: Instant, end: Instant): (ms: int)
    ensures 0 <= ms <= WINDOW
    ensures !IsWorkDay(day) ==> ms == 0
  {
    if !IsWorkDay(day) then 0
    else
      var workStart := Midnight(day) + WORK_START;
      var workEnd := Midnight(day) + WORK_END;
      var s := if SameDay(start, Midnight(day)) && start > workStart then start else workStart;
      var e := if SameDay(end, Midnight(day)) && end < workEnd then end else workEnd;
      if s < e then e - s else 0
  }

  /** Sum of `DayShare` over the days `lo`, ..., `hi - 1`. */
  function Accumulated(start: Instant, end: Instant, lo: int, hi: int): (ms: int)
    decreases hi - lo
    ensures 0 <= ms
    ensures lo <= hi ==> ms <= (hi - lo) * WINDOW
  {
    if hi <= lo then 0
    else Accumulated(start, end, lo, hi - 1) + DayShare(hi - 1, start, end)
  }

  /**
   * The duration `calculateWorkHours` computes, in milliseconds: zero when an
   * instant is missing or unparseable or when the interval is empty or
   * reversed, else the day shares from start's day to end's day inclusive.
   */
  function WorkMs(startIso: Option<Instant>, endIso: Option<Instant>): (ms: int)
    ensures 0 <= ms
  {
    if startIso.None? || endIso.None? || endIso.value <= startIso.value then 0
    else Accumulated(startIso.value, endIso.value, Day(startIso.value), Day(endIso.value) + 1)
  }

  /** `calculateWorkHours`, reporting whole milliseconds rather than fractional hours. */
  method CalculateWorkMs(startIso: Option<Instant>, endIso: Option<Instant>) returns (totalMs: int)
    ensures totalMs == WorkMs(startIso, endIso)
    ensures startIso.None? || endIso.None? ==> totalMs == 0
    ensures startIso.Some? && endIso.Some? && endIso.value <= startIso.value ==> totalMs == 0
    ensures startIso.Some? && endIso.Some? ==> 0 <= totalMs <= Max(0, endIso.value - startIso.value)
  {
    if startIso.None? || endIso.None? {
      return 0;
    }
    var start, end := startIso.value, endIso.value;
    if end <= start {
      return 0;
    }
    totalMs := 0;
    var cursor := Day(start);
    var endDay := Day(end);
    while cursor <= endDay
      invariant Day(start) <= cursor <= endDay + 1
      invariant totalMs == Accumulated(start, end, Day(start), cursor)
    {
      ghost var before := totalMs;
      DayOfMidnight(cursor);
      var dayOfWeek := WeekDay(cursor);
      if 1 <= dayOfWeek <= 5 {
        var workStart := Midnight(cursor) + WORK_START;
        var workEnd := Midnight(cursor) + WORK_END;
        var s := if SameDay(start, Midnight(cursor)) && start > workStart then start else workStart;
        var e := if SameDay(end, Midnight(cursor)) && end < workEnd then end else workEnd;
        if s < e {
          totalMs := totalMs + (e - s);
        }
      }
      assert totalMs == before + DayShare(cursor, start, end);
      cursor := cursor + 1;
    }
    assert totalMs == WorkMs(startIso, endIso);
    WorkMsAtMostElapsed(start, end);
  }

  // ---------- The day share as an intersection ----------

  /**
   * Reference definition: the length of the intersection of [start, end] with
   * day `day`'s business window, zero on weekends.
   */
  function Overlap(day: int, start: Instant, end: Instant): (ms: int)
    ensures 0 <= ms <= WINDOW
  {
    if !IsWorkDay(day) then 0
    else Max(0, Min(end, Midnight(day) + WORK_END) - Max(start, Midnight(day) + WORK_START))
  }

  /** Sum of `Overlap` over the days `lo`, ..., `hi - 1`. */
  function OverlapSum(start: Instant, end: Instant, lo: int, hi: int): int
    decreases hi - lo
  {
    if hi <= lo then 0
    else OverlapSum(start, end, lo, hi - 1) + Overlap(hi - 1, start, end)
  }

  /** On every day the loop visits, the source's clipping is the plain intersection. */
  lemma ShareIsOverlap(day: int, start: Instant, end: Instant)
    requires Day(start) <= day <= Day(end)
    ensures DayShare(day, start, end) == Overlap(day, start, end)
  {
  }

  lemma {:induction false} AccumulatedIsOverlapSum(start: Instant, end: Instant, hi: int)
    requires Day(start) <= hi <= Day(end) + 1
    ensures Accumulated(start, end, Day(start), hi) == OverlapSum(start, end, Day(start), hi)
    decreases hi - Day(start)
  {
    if hi > Day(start) {
      AccumulatedIsOverlapSum(start, end, hi - 1);
      ShareIsOverlap(hi - 1, start, end);
      assert Accumulated(start, end, Day(start), hi) == Accumulated(start, end, Day(start), hi - 1) + DayShare(hi - 1, start, end);
      assert OverlapSum(start, end, Day(start), hi) == OverlapSum(start, end, Day(start), hi - 1) + Overlap(hi - 1, start, end);
    }
  }

  /**
   * The main sum: for a non-empty interval the result is the sum over the days
   * from start's to end's of the interval's intersection with that day's window.
   */
  lemma WorkMsIsSumOfOverlaps(start: Instant, end: Instant)
    requires start < end
    ensures WorkMs(Some(start), Some(end)) == OverlapSum(start, end, Day(start), Day(end) + 1)
  {
    AccumulatedIsOverlapSum(start, end, Day(end) + 1);
  }

  // ---------- Bounds ----------

  lemma {:induction false} AccumulatedAtMostElapsed(start: Instant, end: Instant, k: int)
    requires start < end
    requires Day(start) <= k <= Day(end) + 1
    ensures Accumulated(start, end, Day(start), k) <= Max(0, Min(end, Midnight(k)) - start)
    decreases k - Day(start)
  {
    if k > Day(start) {
      AccumulatedAtMostElapsed(start, end, k - 1);
      ShareIsOverlap(k - 1, start, end);
    }
  }

  /** The business time of an interval never exceeds its length. */
  lemma WorkMsAtMostElapsed(start: Instant, end: Instant)
    ensures WorkMs(Some(start), Some(end)) <= Max(0, end - start)
  {
    if start < end {
      AccumulatedAtMostElapsed(start, end, Day(end) + 1);
    }
  }

  /** Each day costs at most one window, so n calendar days give at most n windows. */
  lemma WorkMsAtMostWindows(start: Instant, end: Instant)
    requires start < end
    ensures WorkMs(Some(start), Some(end)) <= (Day(end) - Day(start) + 1) * WINDOW
  {
  }

  // ---------- Special cases ----------

  /** Start and end inside one weekday's window: the whole interval counts. */
  lemma SameDayInsideWindow(start: Instant, end: Instant)
    requires start <= end
    requires SameDay(start, end) && IsWorkDay(Day(start))
    requires Midnight(Day(start)) + WORK_START <= start
    requires end <= Midnight(Day(start)) + WORK_END
    ensures WorkMs(Some(start), Some(end)) == end - start
  {
  }

  /**
   * A span from a Friday to the following Monday: Saturday and Sunday add
   * nothing, so the result is Friday's share plus Monday's share.
   */
  lemma FridayToMonday(start: Instant, end: Instant)
    requires start < end
    requires WeekDay(Day(start)) == 5 && Day(end) == Day(start) + 3
    ensures WorkMs(Some(start), Some(end)) == DayShare(Day(start), start, end) + DayShare(Day(end), start, end)
  {
    var d := Day(start);
    NextWeekDay(d);
    NextWeekDay(d + 1);
    assert Accumulated(start, end, d, d + 2) == Accumulated(start, end, d, d + 1);
    assert Accumulated(start, end, d, d + 3) == Accumulated(start, end, d, d + 1);
    assert Accumulated(start, end, d, d + 1) == DayShare(d, start, end);
  }

  // ---------- Additivity ----------

  lemma {:induction false} OverlapSumSplitDays(start: Instant, end: Instant, lo: int, mid: int, hi: int)
    requires lo <= mid <= hi
    ensures OverlapSum(start, end, lo, hi) == OverlapSum(start, end, lo, mid) + OverlapSum(start, end, mid, hi)
    decreases hi - mid
  {
    if hi > mid {
      OverlapSumSplitDays(start, end, lo, mid, hi - 1);
    }
  }

  /** Cutting the query at `m` cuts each day's intersection in two. */
  lemma OverlapSplit(day: int, s: Instant, m: Instant, e: Instant)
    requires s <= m <= e
    ensures Overlap(day, s, e) == Overlap(day, s, m) + Overlap(day, m, e)
  {
  }

  lemma {:induction false} OverlapSumSplitInterval(s: Instant, m: Instant, e: Instant, lo: int, hi: int)
    requires s <= m <= e
    ensures OverlapSum(s, e, lo, hi) == OverlapSum(s, m, lo, hi) + OverlapSum(m, e, lo, hi)
    decreases hi - lo
  {
    if hi > lo {
      OverlapSumSplitInterval(s, m, e, lo, hi - 1);
      OverlapSplit(hi - 1, s, m, e);
    }
  }

  /** Days before start's day or after end's day meet nothing of [start, end]. */
  lemma {:induction false} OverlapSumOutside(start: Instant, end: Instant, lo: int, hi: int)
    requires start <= end
    requires hi <= Day(start) || Day(end) < lo
    ensures OverlapSum(start, end, lo, hi) == 0
    decreases hi - lo
  {
    if hi > lo {
      OverlapSumOutside(start, end, lo, hi - 1);
    }
  }

  lemma WorkMsAsOverlapSum(start: Instant, end: Instant)
    requires start <= end
    ensures WorkMs(Some(start), Some(end)) == OverlapSum(start, end, Day(start), Day(end) + 1)
  {
    if start < end {
      WorkMsIsSumOfOverlaps(start, end);
    } else {
      assert OverlapSum(start, end, Day(start), Day(start)) == 0;
    }
  }

  /**
   * Business time is additive: splitting an interval at any instant inside it
   * splits its business time into the business time of the two parts.
   */
  lemma WorkMsAdditive(s: Instant, m: Instant, e: Instant)
    requires s <= m <= e
    ensures WorkMs(Some(s), Some(e)) == WorkMs(Some(s), Some(m)) + WorkMs(Some(m), Some(e))
  {
    WorkMsAsOverlapSum(s, e);
    WorkMsAsOverlapSum(s, m);
    WorkMsAsOverlapSum(m, e);
    var ds, dm, de := Day(s), Day(m), Day(e);
    assert ds <= dm <= de;
    OverlapSumSplitInterval(s, m, e, ds, de + 1);
    OverlapSumSplitDays(s, m, ds, dm + 1, de + 1);
    OverlapSumOutside(s, m, dm + 1, de + 1);
    OverlapSumSplitDays(m, e, ds, dm, de + 1);
    OverlapSumOutside(m, e, ds, dm);
  }

  /** A later end never gives less business time. */
  lemma WorkMsMonotone(s: Instant, m: Instant, e: Instant)
    requires s <= m <= e
    ensures WorkMs(Some(s), Some(m)) <= WorkMs(Some(s), Some(e))
  {
    WorkMsAdditive(s, m, e);
  }

  /**
   * Tuesday 2024-01-02 (day 19724), 08:00 to 12:00, both inside the window:
   * exactly four hours.
   */
  lemma TuesdayMorning()
    ensures WorkMs(Some(1_704_182_400_000), Some(1_704_196_800_000)) == 14_400_000
  {
    var start, end := 1_704_182_400_000, 1_704_196_800_000;
    assert Day(start) == 19724 && Day(end) == 19724;
    assert WeekDay(19724) == 2;
    SameDayInsideWindow(start, end);
  }
}
