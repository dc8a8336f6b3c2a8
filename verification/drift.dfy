/** `extract_drift`: how far the first detected strike lies from the hour mark it belongs
    to. The strike's minute field picks the mark (above 30, that is from hh:31:00 on, the
    next hour; otherwise the current one) and the drift is the strike's time of day minus
    that mark, in signed microseconds. */
module Drift {

  import opened Wrappers
  import opened Clock

  /** The hour mark a strike is compared with. After 23:30 this is 24, with no wrap to 0. */
  function ExpectedHour(first: TimeOfDay): (h: int)
    requires first.Valid()
    ensures first.hour <= h <= first.hour + 1
    ensures -29 * MicrosPerMinute <= SinceMidnight(first) - h * MicrosPerHour < 31 * MicrosPerMinute
  {
    if first.minute > 30 then first.hour + 1 else first.hour
  }

  /** The drift of the first of `chimes`, or None where `extract_drift` raises on an empty
      list. The result is the unique offset from a whole hour that lies in [-29 min, +31 min);
      it is negative exactly when the minute field exceeds 30, from hh:31:00 on. */
  function ExtractDrift(chimes: seq<TimeOfDay>): (r: Option<int>)
    requires forall i :: 0 <= i < |chimes| ==> chimes[i].Valid()
    ensures r.None? <==> |chimes| == 0
    ensures r.Some? ==> (SinceMidnight(chimes[0]) - r.value) % MicrosPerHour == 0
    ensures r.Some? ==> -29 * MicrosPerMinute <= r.value < 31 * MicrosPerMinute
    ensures r.Some? ==> (r.value < 0 <==> chimes[0].minute > 30)
  {
    if |chimes| == 0 then None
    else
      var first := chimes[0];
      var mark := ExpectedHour(first) * MicrosPerHour;
      DivModOf(mark, MicrosPerHour, ExpectedHour(first), 0);
      assert mark == first.hour * MicrosPerHour || mark == first.hour * MicrosPerHour + MicrosPerHour;
      Some(SinceMidnight(first) - mark)
  }

  /** Only the first strike matters: the rest of the list never changes the drift. */
  lemma DriftUsesFirstOnly(chimes: seq<TimeOfDay>, rest: seq<TimeOfDay>)
    requires |chimes| > 0
    requires forall i :: 0 <= i < |chimes| ==> chimes[i].Valid()
    requires forall i :: 0 <= i < |rest| ==> rest[i].Valid()
    ensures ExtractDrift(chimes[..1] + rest) == ExtractDrift(chimes)
  {
  }

  /** Offsets in [-29 min, +31 min) that differ by a whole number of hours are equal, so
      the contract of `ExtractDrift` determines the drift completely. */
  lemma DriftUnique(tod: int, d1: int, d2: int)
    requires (tod - d1) % MicrosPerHour == 0 && (tod - d2) % MicrosPerHour == 0
    requires -29 * MicrosPerMinute <= d1 < 31 * MicrosPerMinute
    requires -29 * MicrosPerMinute <= d2 < 31 * MicrosPerMinute
    ensures d1 == d2
  {
  }

  /** Adding the drift back to the chosen hour mark recovers the strike's fields, also
      when the mark is 24:00. */
  lemma DriftRoundTrip(first: TimeOfDay)
    requires first.Valid()
    ensures FromTimestamp(ExpectedHour(first) * MicrosPerHour + ExtractDrift([first]).value) == first
  {
    FromTimestampOfSinceMidnight(first);
  }

  /** A strike at 23:58 is compared with 24:00 of the same day, giving two minutes early;
      a strike at 16:03 is three minutes late; a strike at 10:30:59.999999 still counts
      against 10:00, one microsecond short of 31 minutes late. */
  lemma DriftExamples()
    ensures ExtractDrift([TimeOfDay(23, 58, 0, 0)]) == Some(-2 * MicrosPerMinute)
    ensures ExtractDrift([TimeOfDay(16, 3, 0, 0)]) == Some(3 * MicrosPerMinute)
    ensures ExtractDrift([TimeOfDay(10, 30, 59, 999_999)]) == Some(31 * MicrosPerMinute - 1)
  {
  }
}
