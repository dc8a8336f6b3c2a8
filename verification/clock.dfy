/** Time-of-day fields of a UTC timestamp, as `datetime.utcfromtimestamp` exposes them and as
    `timedelta(hours=, minutes=, seconds=, microseconds=)` recombines them. Timestamps are
    integer microseconds since the Unix epoch. */
module Clock {

  const MicrosPerSecond: int := 1_000_000
  const MicrosPerMinute: int := 60 * MicrosPerSecond
  const MicrosPerHour: int := 60 * MicrosPerMinute
  const MicrosPerDay: int := 24 * MicrosPerHour

  /** The hour, minute, second and microsecond fields of a datetime. */
  datatype TimeOfDay = TimeOfDay(hour: int, minute: int, second: int, microsecond: int)
  {
    /** The ranges a datetime guarantees for its fields. */
    predicate Valid()
    {
      && 0 <= hour < 24
      && 0 <= minute < 60
      && 0 <= second < 60
      && 0 <= microsecond < MicrosPerSecond
    }
  }

  /** The duration since midnight that the fields denote. */
  function SinceMidnight(t: TimeOfDay): (us: int)
    requires t.Valid()
    ensures 0 <= us < MicrosPerDay
    ensures us / MicrosPerHour == t.hour
    ensures t.hour * MicrosPerHour <= us < t.hour * MicrosPerHour + MicrosPerHour
  {
    ((t.hour * 60 + t.minute) * 60 + t.second) * MicrosPerSecond + t.microsecond
  }

  /** The time-of-day fields of timestamp `ts`; like Python's floor division, Dafny's
      division by a positive constant rounds down, also before the epoch. */
  function FromTimestamp(ts: int): (t: TimeOfDay)
    ensures t.Valid()
    ensures SinceMidnight(t) == ts % MicrosPerDay
  {
    var d := ts % MicrosPerDay;
    var inHour := d % MicrosPerHour;
    var inMinute := inHour % MicrosPerMinute;
    var t := TimeOfDay(d / MicrosPerHour, inHour / MicrosPerMinute,
                       inMinute / MicrosPerSecond, inMinute % MicrosPerSecond);
    assert inMinute == t.second * MicrosPerSecond + t.microsecond;
    assert inHour == t.minute * MicrosPerMinute + inMinute;
    assert d == t.hour * MicrosPerHour + inHour;
    t
  }

  /** Splitting the duration since midnight back into fields gives the fields. */
  lemma FromTimestampOfSinceMidnight(t: TimeOfDay)
    requires t.Valid()
    ensures FromTimestamp(SinceMidnight(t)) == t
  {
    var us := SinceMidnight(t);
    var inMinute := t.second * MicrosPerSecond + t.microsecond;
    var inHour := t.minute * MicrosPerMinute + inMinute;
    assert us == t.hour * MicrosPerHour + inHour;
    DivModOf(us, MicrosPerDay, 0, us);
    DivModOf(us, MicrosPerHour, t.hour, inHour);
    DivModOf(inHour, MicrosPerMinute, t.minute, inMinute);
    DivModOf(inMinute, MicrosPerSecond, t.second, t.microsecond);
  }

  /** Quotient and remainder are determined by any split `x == q * m + r` with `r` in
      [0, m). */
  lemma DivModOf(x: int, m: int, q: int, r: int)
    requires 0 < m && 0 <= r < m && x == q * m + r
    ensures x / m == q && x % m == r
  {
    var q0 := x / m;
    var r0 := x % m;
    assert (q - q0) * m == r0 - r;
    NonzeroMultiple(q - q0, m);
  }

  /** A non-zero multiple of `m` is at least `m` away from zero. */
  lemma {:induction false} NonzeroMultiple(d: int, m: int)
    requires 0 < m
    ensures d == 0 || d * m >= m || d * m <= -m
    decreases if d < 0 then 1 - d else d
  {
    if d > 1 {
      NonzeroMultiple(d - 1, m);
      assert d * m == (d - 1) * m + m;
    } else if d < 0 {
      NonzeroMultiple(-d, m);
      assert d * m == -((-d) * m);
    }
  }

  /** Two valid field tuples denoting the same duration are equal. */
  lemma SinceMidnightInjective(a: TimeOfDay, b: TimeOfDay)
    requires a.Valid() && b.Valid()
    requires SinceMidnight(a) == SinceMidnight(b)
    ensures a == b
  {
    FromTimestampOfSinceMidnight(a);
    FromTimestampOfSinceMidnight(b);
  }
}
