/**
 * The check getStatus makes after normalising the times: when the expected time is at least
 * half of __DAY_DELTA (two days) before the scheduled time, it is moved by a whole number of
 * DAY_DELTAs, ceil(diff / DAY_DELTA) of them. Times are minutes on one local time line.
 */
module Rollover {
  /** __DAY_DELTA, two days, in minutes. */
  const DayDelta := 2 * 1440

  /** -0.5 * __DAY_DELTA: one day before. */
  const Threshold := -(DayDelta / 2)

  /** math.ceil(diff / __DAY_DELTA): the least whole number of DAY_DELTAs not below diff. */
  function CeilDeltas(diff: int): (q: int)
    ensures DayDelta * (q - 1) < diff <= DayDelta * q
  {
    -((-diff) / DayDelta)
  }

  /** The expected time after the check of lines 143-145, given the scheduled time. */
  function AdjustExpected(expected: int, scheduled: int): (r: int)
    ensures r <= expected
    ensures expected - scheduled > Threshold ==> r == expected
  {
    var diff := expected - scheduled;
    if diff <= Threshold then expected + CeilDeltas(diff) * DayDelta else expected
  }

  /**
   * The adjustment moves the expected time by whole DAY_DELTAs, and leaves it where it was
   * unless it is at least two days early.
   */
  lemma AdjustmentDirection(expected: int, scheduled: int)
    ensures (expected - AdjustExpected(expected, scheduled)) % DayDelta == 0
    ensures expected - scheduled > -DayDelta ==> AdjustExpected(expected, scheduled) == expected
  {
    var diff := expected - scheduled;
    if diff <= Threshold {
      var q := CeilDeltas(diff);
      assert q <= 0;
      assert diff > -DayDelta ==> q == 0;
      assert expected - AdjustExpected(expected, scheduled) == DayDelta * -q;
    }
  }

  /**
   * Two times of the same date are less than a day apart, so they are never adjusted: an
   * arrival expected at 00:10 for a 23:50 schedule stays at 00:10 of the query date.
   */
  lemma SameDateNeverAdjusts(expected: int, scheduled: int)
    requires 0 <= expected < 1440 && 0 <= scheduled < 1440
    ensures AdjustExpected(expected, scheduled) == expected
  {
  }
}
