/** The relative-time text of a tweet ("3 minutes ago"), from its creation instant and the
    current instant, both as whole UTC seconds. */
module RelativeTime {
  import opened RawRecords

  const SecondsPerMinute := 60
  const SecondsPerHour := 3600
  const SecondsPerDay := 86400

  /** What the formatter says: the anomaly text for a creation instant in the future, or a
      count together with its unit. */
  datatype TimeText =
    | TimeTravel
    | SecondsAgo(n: nat)
    | MinutesAgo(n: nat)
    | HoursAgo(n: nat)
    | DaysAgo(n: nat)

  /** `r` is the integer nearest to p / q, a tie going to the even neighbour. This is what
      `'%.0f' % (p / q)` prints: the quotients met here are exact halves at a tie and stay at
      least 1/q away from one otherwise, so the floating-point division cannot tip the choice. */
  ghost predicate NearestHalfEven(r: int, p: int, q: int)
  {
    2 * (p - r * q) <= q && 2 * (r * q - p) <= q &&
    (2 * (p - r * q) == q || 2 * (r * q - p) == q ==> r % 2 == 0)
  }

  function RoundHalfEven(p: nat, q: nat): (r: nat)
    requires q > 0
    ensures NearestHalfEven(r, p, q)
  {
    var d, m := p / q, p % q;
    assert p == d * q + m;
    assert (d + 1) * q == d * q + q;
    if 2 * m < q then d
    else if q < 2 * m then d + 1
    else if d % 2 == 0 then d else d + 1
  }

  /** At most one integer is nearest to p / q with ties to even, so RoundHalfEven's
      contract pins its result down. */
  lemma NearestHalfEvenUnique(r1: int, r2: int, p: int, q: int)
    requires q > 0
    requires NearestHalfEven(r1, p, q) && NearestHalfEven(r2, p, q)
    ensures r1 == r2
  {
    // The two distances to p add up to |r2 - r1| * q, and each is at most q / 2.
    var k := r2 - r1;
    assert (p - r1 * q) + (r2 * q - p) == k * q by { Distribute(r2, r1, q); }
    ScaleAtLeast(k, 2, q);
    ScaleAtLeast(-k, 2, q);
    Distribute(k, 1, q);
    Distribute(-k, 1, q);
  }

  lemma Distribute(a: int, b: int, q: int)
    ensures a * q - b * q == (a - b) * q
  {
  }

  lemma ScaleAtLeast(k: int, c: int, q: int)
    requires q >= 0
    ensures k >= c ==> k * q >= c * q
  {
    if k >= c {
      Distribute(k, c, q);
      assert (k - c) * q >= 0;
    }
  }

  /** The count and unit for a non-negative elapsed number of seconds. */
  function Bucket(elapsed: nat): (t: TimeText)
    ensures elapsed < SecondsPerMinute ==> t == SecondsAgo(elapsed)
    ensures SecondsPerMinute <= elapsed < SecondsPerHour ==>
              t.MinutesAgo? && NearestHalfEven(t.n, elapsed, SecondsPerMinute)
    ensures SecondsPerHour <= elapsed < SecondsPerDay ==>
              t.HoursAgo? && NearestHalfEven(t.n, elapsed, SecondsPerHour)
    ensures SecondsPerDay <= elapsed ==>
              t.DaysAgo? && NearestHalfEven(t.n, elapsed, SecondsPerDay)
  {
    if elapsed < SecondsPerMinute then SecondsAgo(elapsed)
    else if elapsed < SecondsPerHour then MinutesAgo(RoundHalfEven(elapsed, SecondsPerMinute))
    else if elapsed < SecondsPerDay then HoursAgo(RoundHalfEven(elapsed, SecondsPerHour))
    else DaysAgo(RoundHalfEven(elapsed, SecondsPerDay))
  }

  /** `timedelta.seconds` of `now - create`: the difference normalised to whole days plus a
      seconds part in [0, 86400), of which only the seconds part is kept. */
  function DeltaSeconds(create: int, now: int): (s: nat)
    ensures s < SecondsPerDay
    ensures (now - create - s) % SecondsPerDay == 0
    ensures 0 <= now - create < SecondsPerDay ==> s == now - create
  {
    (now - create) % SecondsPerDay
  }

  /** `_sinceTimeString` as written: None for a falsy timestamp, the anomaly text for a
      creation instant after `now`, and otherwise the bucket of the time-of-day part of the
      elapsed time. `parseTime` stands for the timestamp parser together with the subtraction
      of the parsed instant's UTC offset. */
  function SinceTimeString(createTime: Option<Value>, parseTime: Value -> int, now: int)
    : (r: Option<TimeText>)
    ensures r.None? <==> !Truthy(createTime)
    ensures r == Some(TimeTravel) <==> Truthy(createTime) && now < parseTime(createTime.value)
    ensures r.Some? ==> !r.value.DaysAgo?
    ensures Truthy(createTime) && 0 <= now - parseTime(createTime.value) < SecondsPerDay ==>
              r == Some(Bucket(now - parseTime(createTime.value)))
  {
    if !Truthy(createTime) then None
    else
      var create := parseTime(createTime.value);
      var passedSeconds := DeltaSeconds(create, now);
      if now < create then Some(TimeTravel)
      else Some(Bucket(passedSeconds))
  }

  /** As written, the text of a past creation instant repeats every day. */
  lemma SinceTimeStringRepeatsDaily(createTime: Option<Value>, parseTime: Value -> int, now: int)
    requires Truthy(createTime) && parseTime(createTime.value) <= now
    ensures SinceTimeString(createTime, parseTime, now + SecondsPerDay)
         == SinceTimeString(createTime, parseTime, now)
  {
    var create := parseTime(createTime.value);
    var d := now - create;
    var q, r := d / SecondsPerDay, d % SecondsPerDay;
    assert d + SecondsPerDay == (q + 1) * SecondsPerDay + r;
    assert DeltaSeconds(create, now + SecondsPerDay) == r;
  }

  lemma {:induction false} SinceTimeStringRepeatsEveryDay(
    createTime: Option<Value>, parseTime: Value -> int, now: int, days: nat)
    requires Truthy(createTime) && parseTime(createTime.value) <= now
    ensures SinceTimeString(createTime, parseTime, now + days * SecondsPerDay)
         == SinceTimeString(createTime, parseTime, now)
  {
    if days > 0 {
      SinceTimeStringRepeatsEveryDay(createTime, parseTime, now, days - 1);
      SinceTimeStringRepeatsDaily(createTime, parseTime, now + (days - 1) * SecondsPerDay);
    }
  }

  /** `_sinceTimeString` with the whole elapsed time in place of `timedelta.seconds`, which
      is what the days bucket evidently intends. */
  function SinceTimeStringTotal(createTime: Option<Value>, parseTime: Value -> int, now: int)
    : (r: Option<TimeText>)
    ensures r.None? <==> !Truthy(createTime)
    ensures r == Some(TimeTravel) <==> Truthy(createTime) && now < parseTime(createTime.value)
    ensures r.Some? && r.value.DaysAgo? <==>
              Truthy(createTime) && SecondsPerDay <= now - parseTime(createTime.value)
  {
    if !Truthy(createTime) then None
    else
      var create := parseTime(createTime.value);
      if now < create then Some(TimeTravel)
      else Some(Bucket(now - create))
  }

  /** Both versions say the same thing unless a whole day or more has passed. */
  lemma AgreeWithinADay(createTime: Option<Value>, parseTime: Value -> int, now: int)
    requires Truthy(createTime) ==> now - parseTime(createTime.value) < SecondsPerDay
    ensures SinceTimeString(createTime, parseTime, now)
         == SinceTimeStringTotal(createTime, parseTime, now)
  {
  }

  /** A tweet created two days and thirty seconds ago reads as "30 seconds ago" as written,
      and as "2 days ago" with the whole elapsed time. */
  lemma TwoDaysOldReadsAsSeconds()
    ensures SinceTimeString(Some(Text("created")), (v: Value) => 0, 2 * SecondsPerDay + 30)
         == Some(SecondsAgo(30))
    ensures SinceTimeStringTotal(Some(Text("created")), (v: Value) => 0, 2 * SecondsPerDay + 30)
         == Some(DaysAgo(2))
  {
    assert RoundHalfEven(2 * SecondsPerDay + 30, SecondsPerDay) == 2;
  }

  /** The counts are rounded half to even, not floored: 90 seconds read as "2 minutes ago",
      and 150 seconds as "2 minutes ago" as well. */
  lemma CountsRoundHalfToEven()
    ensures Bucket(90) == MinutesAgo(2)
    ensures Bucket(150) == MinutesAgo(2)
    ensures Bucket(3599) == MinutesAgo(60)
    ensures Bucket(5400) == HoursAgo(2)
  {
    assert RoundHalfEven(90, 60) == 2;
    assert RoundHalfEven(150, 60) == 2;
    assert RoundHalfEven(3599, 60) == 60;
    assert RoundHalfEven(5400, 3600) == 2;
  }
}
