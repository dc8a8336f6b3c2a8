/** The strike-window selection of `get_chime_times`: from the recording's start hour it
    derives how many strikes to expect, then slides a window of that many consecutive peak
    times over the peaks and keeps the first window whose mean gap is under two seconds.
    Peak times are integer microseconds since the epoch, in the order peak detection
    produced them. */
module ChimeWindow {

  import opened Wrappers
  import opened Sums
  import opened RealArith
  import Clock

  /** The largest mean gap between strikes, exclusive. */
  const GapLimit: int := 2 * Clock.MicrosPerSecond

  /** Number of strikes expected for a recording that starts in `startHour`: the next hour
      on a twelve-hour dial. */
  function AimHour(startHour: int): (k: int)
    requires 0 <= startHour < 24
    ensures 1 <= k <= 12
    ensures k % 12 == (startHour + 1) % 12
  {
    var aim := startHour + 1;
    if aim > 12 then aim - 12 else aim
  }

  /** The dial boundaries: recordings starting in hours 11 and 23 expect the twelve
      o'clock chime, and those starting in hours 0 and 12 expect a single strike. */
  lemma AimHourBoundaries()
    ensures AimHour(23) == 12 && AimHour(11) == 12
    ensures AimHour(12) == 1 && AimHour(0) == 1
    ensures forall h :: 0 <= h < 12 ==> AimHour(h) == AimHour(h + 12)
  {
  }

  /** Consecutive differences of a window: `j - i` for each adjacent pair `(i, j)`. */
  function Gaps(w: seq<int>): (g: seq<int>)
    ensures |g| == if |w| == 0 then 0 else |w| - 1
    ensures forall i :: 0 <= i < |g| ==> g[i] == w[i + 1] - w[i]
  {
    if |w| <= 1 then [] else [w[1] - w[0]] + Gaps(w[1..])
  }

  /** The gaps of a window telescope: their sum is the last time minus the first. */
  lemma {:induction false} GapsTelescope(w: seq<int>)
    requires |w| >= 1
    ensures Sum(Gaps(w)) == w[|w| - 1] - w[0]
  {
    if |w| > 1 {
      GapsTelescope(w[1..]);
    }
  }

  /** Mean of the gaps of a window of at least two times. */
  function MeanGap(w: seq<int>): real
    requires |w| >= 2
  {
    Sum(Gaps(w)) as real / (|w| - 1) as real
  }

  /** The acceptance test on one window: mean gap strictly under `limit`. */
  predicate MeanGapBelow(w: seq<int>, limit: int)
    requires |w| >= 2
  {
    MeanGap(w) < limit as real
  }

  /** Because the gaps telescope, the mean-gap test only depends on the window's span. */
  lemma MeanGapBelowIffSpan(w: seq<int>, limit: int)
    requires |w| >= 2
    ensures MeanGapBelow(w, limit) <==> w[|w| - 1] - w[0] < limit * (|w| - 1)
  {
    GapsTelescope(w);
    var n := |w| - 1;
    var span := w[|w| - 1] - w[0];
    assert MeanGap(w) == span as real / n as real;
    DivBelow(span as real, n as real, limit as real);
    IntProductAsReal(limit, n);
  }

  /** The window of `k` consecutive times starting at index `s`: the slice `times[s:s + k]`. */
  function Window(times: seq<int>, s: int, k: int): seq<int>
    requires 0 <= s && 0 <= k && s + k <= |times|
  {
    times[s..s + k]
  }

  /** The window starting at index `s` passes the test. */
  predicate Qualifies(times: seq<int>, s: int, k: int, limit: int)
    requires 2 <= k && 0 <= s && s + k <= |times|
  {
    MeanGapBelow(Window(times, s, k), limit)
  }

  /** `s` is the least start index whose window qualifies. */
  predicate IsFirstQualifying(times: seq<int>, k: int, limit: int, s: int)
    requires k >= 2
  {
    && 0 <= s && s + k <= |times|
    && Qualifies(times, s, k, limit)
    && forall j :: 0 <= j < s ==> !Qualifies(times, j, k, limit)
  }

  /** Reference search: the least start index from `from` on whose window qualifies. */
  function FirstQualifying(times: seq<int>, k: int, limit: int, from: nat): (r: Option<nat>)
    requires k >= 2
    ensures r.Some? ==> from <= r.value && r.value + k <= |times| && Qualifies(times, r.value, k, limit)
    ensures forall s :: (from <= s && s + k <= |times| && (r.None? || s < r.value))
                          ==> !Qualifies(times, s, k, limit)
    decreases |times| - from
  {
    if from + k > |times| then None
    else if Qualifies(times, from, k, limit) then Some(from)
    else FirstQualifying(times, k, limit, from + 1)
  }

  /** The window a search result designates, if any. */
  function WindowFrom(times: seq<int>, k: int, start: Option<nat>): Option<seq<int>>
    requires 0 <= k
    requires start.Some? ==> start.value + k <= |times|
  {
    match start
    case None => None
    case Some(s) => Some(Window(times, s, k))
  }

  /** The sliding-window loop of `get_chime_times` for `k >= 2` expected strikes: the start
      `s` runs over `0 .. |times| - k` and the end `e` stays `k` ahead of it, so every
      window examined is a slice of exactly `k` consecutive times. The result is the window
      at the least qualifying start, and None exactly when no start qualifies (in
      particular when `|times| < k`). */
  method FindChimeWindow(times: seq<int>, k: int, limit: int) returns (chunk: Option<seq<int>>)
    requires k >= 2
    ensures chunk == WindowFrom(times, k, FirstQualifying(times, k, limit, 0))
    ensures chunk.None? <==> forall s :: 0 <= s && s + k <= |times| ==> !Qualifies(times, s, k, limit)
    ensures chunk.Some? ==> |chunk.value| == k && chunk.value[k - 1] - chunk.value[0] < limit * (k - 1)
  {
    var e := k;
    var s := 0;
    while s < |times| - (k - 1)
      invariant 0 <= s
      invariant e == s + k
      invariant FirstQualifying(times, k, limit, s) == FirstQualifying(times, k, limit, 0)
    {
      var window := times[s..e];
      if MeanGapBelow(window, limit) {
        MeanGapBelowIffSpan(window, limit);
        return Some(window);
      }
      e := e + 1;
      s := s + 1;
    }
    return None;
  }

  /** The strike count for a recording starting at timestamp `startTime`. */
  function StrikesExpected(startTime: int): (k: int)
    ensures 1 <= k <= 12
    ensures k % 12 == (Clock.FromTimestamp(startTime).hour + 1) % 12
  {
    AimHour(Clock.FromTimestamp(startTime).hour)
  }

  /** `get_chime_times` once the peak times are known: the number of strikes comes from
      the start hour of the recording. With a single expected strike `get_chime_times` takes
      the mean of no gaps, which it leaves undefined, so then only the empty peak list (for
      which the loop never runs) is admitted. */
  method GetChimeTimes(startTime: int, times: seq<int>) returns (chunk: Option<seq<int>>)
    requires StrikesExpected(startTime) == 1 ==> |times| == 0
    ensures StrikesExpected(startTime) == 1 ==> chunk.None?
    ensures StrikesExpected(startTime) >= 2 ==>
              chunk == WindowFrom(times, StrikesExpected(startTime),
                                  FirstQualifying(times, StrikesExpected(startTime), GapLimit, 0))
    ensures chunk.Some? ==> |chunk.value| == StrikesExpected(startTime)
  {
    var aim := StrikesExpected(startTime);
    if aim == 1 {
      return None;
    }
    chunk := FindChimeWindow(times, aim, GapLimit);
  }

  /** The reference search returns exactly the least start whose window qualifies. */
  lemma FirstQualifyingIsLeast(times: seq<int>, k: int, limit: int, s: int)
    requires k >= 2
    ensures IsFirstQualifying(times, k, limit, s) <==> FirstQualifying(times, k, limit, 0) == Some(s)
  {
  }

  /** A stray peak ten seconds before three strikes one second apart: the window starting
      at the stray peak spans 11 s, not under 2 * 2 s, so the search skips it and returns
      the three strikes. Fewer peaks than strikes give nothing. */
  lemma FirstQualifyingExample()
    ensures FirstQualifying([0, 10_000_000, 11_000_000, 12_000_000], 3, GapLimit, 0) == Some(1)
    ensures FirstQualifying([10_000_000, 11_000_000], 3, GapLimit, 0) == None
  {
    var times := [0, 10_000_000, 11_000_000, 12_000_000];
    assert Window(times, 0, 3) == [0, 10_000_000, 11_000_000];
    assert Window(times, 1, 3) == [10_000_000, 11_000_000, 12_000_000];
    MeanGapBelowIffSpan(Window(times, 0, 3), GapLimit);
    MeanGapBelowIffSpan(Window(times, 1, 3), GapLimit);
    assert !Qualifies(times, 0, 3, GapLimit);
    assert Qualifies(times, 1, 3, GapLimit);
  }
}
