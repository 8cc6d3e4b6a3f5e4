/** Instants, the America/Santiago time zone and Chile calendar days, shared by
    both copies of the time helpers. An instant is a JavaScript time value:
    milliseconds since 1970-01-01T00:00:00Z. */
module ChileZone {
  import opened Js
  import opened Calendar

  const CHILE_TZ := "America/Santiago"
  const HourMs := 3_600_000
  const DayMs := 86_400_000

  /** The largest time value a JavaScript Date can hold (ECMAScript 2024,
      section 21.4.1.22, Time Values and Time Range). */
  const MaxTimeValue := 8_640_000_000_000_000

  predicate IsTimeValue(t: int) {
    -MaxTimeValue <= t <= MaxTimeValue
  }

  /** A time zone as the tz database describes it: offset(t) is its UTC offset
      in milliseconds at instant t, and startOfDay(d) is the instant that local
      00:00 of day number d resolves to (later than 00:00 on a day whose
      midnight is skipped by a clock change). */
  datatype Zone = Zone(offset: int -> int, startOfDay: int -> int)

  /** What the argument of the time helpers is, in JavaScript terms. */
  datatype TimeArg =
    | DateArg(ms: int)       // a Date (instanceof Date) holding instant ms
    | DateTimeArg(ms: int)   // an object with a toJSDate method, such as a luxon DateTime, for instant ms
    | OtherArg               // undefined or any other value

  /** The local calendar day (a day number) of instant t. */
  function LocalDay(z: Zone, t: int): int {
    (t + z.offset(t)) / DayMs
  }

  /** The midnight of every local day lies on that day. */
  ghost predicate MidnightsOnTheirDay(z: Zone) {
    forall d :: LocalDay(z, z.startOfDay(d)) == d
  }

  /** Local days never run backwards as time goes on. */
  ghost predicate LocalDaysOrdered(z: Zone) {
    forall t1, t2 :: t1 <= t2 ==> LocalDay(z, t1) <= LocalDay(z, t2)
  }

  /** No instant of a local day comes before its midnight: startOfDay(d) is
      the first instant of day d. */
  ghost predicate MidnightsFirst(z: Zone) {
    forall t :: z.startOfDay(LocalDay(z, t)) <= t
  }

  ghost predicate WellFormed(z: Zone) {
    MidnightsOnTheirDay(z) && LocalDaysOrdered(z) && MidnightsFirst(z)
  }

  /** The offset never reaches a whole day either way. */
  ghost predicate OffsetsBounded(z: Zone) {
    forall t :: -DayMs < z.offset(t) < DayMs
  }

  /** America/Santiago since 1970: offsets of -4 h (standard) or -3 h (summer),
      and a local midnight that resolves at most one hour late, on the day the
      clocks skip it. */
  ghost predicate SantiagoBounds(z: Zone) {
    && (forall t :: -4 * HourMs <= z.offset(t) <= -3 * HourMs)
    && (forall d :: z.startOfDay(d) <= d * DayMs + 5 * HourMs)
  }

  /** UTC, with every day starting at its midnight, is a well-formed zone. */
  lemma UtcIsWellFormed()
    ensures WellFormed(Zone(t => 0, d => d * DayMs))
  {
    var z := Zone(t => 0, d => d * DayMs);
    forall t1, t2 | t1 <= t2
      ensures LocalDay(z, t1) <= LocalDay(z, t2)
    {
      DivIsMonotone(t1, t2);
    }
  }

  /** Euclidean division by the day length never runs backwards. */
  lemma DivIsMonotone(t1: int, t2: int)
    requires t1 <= t2
    ensures t1 / DayMs <= t2 / DayMs
  {
  }

  /** A zone whose day-0 midnight resolves an hour after the day began is not
      well formed: 04:00Z is already local day 0 at -4 h. */
  lemma LateMidnightIsNotWellFormed()
    ensures !WellFormed(Zone(t => -4 * HourMs, d => d * DayMs + 5 * HourMs))
  {
    var z := Zone(t => -4 * HourMs, d => d * DayMs + 5 * HourMs);
    assert LocalDay(z, 4 * HourMs) == 0;
    assert z.startOfDay(LocalDay(z, 4 * HourMs)) > 4 * HourMs;
  }

  /** The Chile date of instant t as `YYYY-MM-DD`. */
  function TodayIso(z: Zone, t: int): string {
    IsoOfDay(LocalDay(z, t))
  }

  /** plus({ days: 1 }).startOf("day"): the start of the local day after that of t. */
  function NextMidnight(z: Zone, t: int): int {
    z.startOfDay(LocalDay(z, t) + 1)
  }

  /** Math.max(1, next midnight - t). */
  function MsUntilNextMidnight(z: Zone, t: int): int {
    if NextMidnight(z, t) - t >= 1 then NextMidnight(z, t) - t else 1
  }

  /** The local day of a valid time value is a day number the ISO text covers. */
  lemma LocalDayInRange(z: Zone, t: int)
    ensures OffsetsBounded(z) && IsTimeValue(t) ==> -MaxDayNumber <= LocalDay(z, t) <= MaxDayNumber
  {
  }

  /** The Chile date text reads back as the local day. */
  lemma TodayIsoReadsBack(z: Zone, t: int)
    ensures OffsetsBounded(z) && IsTimeValue(t) ==> IsoDayNumber(TodayIso(z, t)) == Some(LocalDay(z, t))
  {
    if OffsetsBounded(z) && IsTimeValue(t) {
      LocalDayInRange(z, t);
      IsoDayNumberOfDay(LocalDay(z, t));
    }
  }

  /** For a year within 0..9999 the Chile date text has the `YYYY-MM-DD` shape. */
  lemma TodayIsoShape(z: Zone, t: int)
    ensures 0 <= CivilFromDays(LocalDay(z, t)).year <= 9999 ==> IsYmdShape(TodayIso(z, t))
  {
    if 0 <= CivilFromDays(LocalDay(z, t)).year <= 9999 {
      FormatShape(CivilFromDays(LocalDay(z, t)));
    }
  }

  /** In a well-formed zone the next midnight is the first instant of the
      following local day: it lies on that day, strictly after t (so
      Math.max(1, ...) never intervenes), no instant of that day comes
      earlier, and every instant from t up to it is still on t's day. */
  lemma NextMidnightFacts(z: Zone, t: int)
    ensures WellFormed(z) ==>
              && LocalDay(z, NextMidnight(z, t)) == LocalDay(z, t) + 1
              && NextMidnight(z, t) > t
              && MsUntilNextMidnight(z, t) == NextMidnight(z, t) - t
              && (forall u :: LocalDay(z, u) == LocalDay(z, t) + 1 ==> NextMidnight(z, t) <= u)
              && (forall u :: t <= u < NextMidnight(z, t) ==> LocalDay(z, u) == LocalDay(z, t))
  {
    if WellFormed(z) {
      var m := NextMidnight(z, t);
      assert LocalDay(z, m) == LocalDay(z, t) + 1;
      assert m > t;
      forall u | LocalDay(z, u) == LocalDay(z, t) + 1
        ensures m <= u
      {
        assert z.startOfDay(LocalDay(z, u)) <= u;
      }
      forall u | t <= u < m
        ensures LocalDay(z, u) == LocalDay(z, t)
      {
        assert LocalDay(z, t) <= LocalDay(z, u) <= LocalDay(z, m);
        assert z.startOfDay(LocalDay(z, u)) <= u < z.startOfDay(LocalDay(z, t) + 1);
      }
    }
  }

  /** In a zone with Santiago's offsets the wait for the next midnight is at
      most 26 hours (a 24-hour day, one hour of offset change and one hour of
      skipped midnight). */
  lemma DelayBound(z: Zone, t: int)
    ensures WellFormed(z) && SantiagoBounds(z) ==> MsUntilNextMidnight(z, t) <= DayMs + 2 * HourMs
  {
    if WellFormed(z) && SantiagoBounds(z) {
      NextMidnightFacts(z, t);
      var d := LocalDay(z, t);
      assert d * DayMs <= t + z.offset(t);
      assert z.startOfDay(d + 1) <= (d + 1) * DayMs + 5 * HourMs;
    }
  }
}
