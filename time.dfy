/** The Chile time helpers whose getChileNow accepts a Date, a luxon
    DateTime (anything with toJSDate) or nothing. The current instant is a
    parameter `now`; the zone is America/Santiago given as data. */
module EcolabTime {
  import opened Js
  import opened Calendar
  import opened ChileZone

  /** getChileNow: the instant the helpers work from. */
  function ChileNow(arg: TimeArg, now: int): (t: int)
    ensures arg.OtherArg? ==> t == now
    ensures !arg.OtherArg? ==> t == arg.ms
  {
    match arg
    case DateArg(ms) => ms
    case DateTimeArg(ms) => ms
    case OtherArg => now
  }

  /** getChileTodayISODate: the Chile calendar date of the instant. */
  function ChileTodayIsoDate(z: Zone, arg: TimeArg, now: int): (s: string)
    ensures |s| >= 10
  {
    TodayIso(z, ChileNow(arg, now))
  }

  /** The date text reads back as the Chile day of the instant, and has the
      shape `YYYY-MM-DD` in years 0..9999. */
  lemma ChileTodayIsoDateReadsBack(z: Zone, arg: TimeArg, now: int)
    ensures var s := ChileTodayIsoDate(z, arg, now);
            && (OffsetsBounded(z) && IsTimeValue(ChileNow(arg, now)) ==>
                  IsoDayNumber(s) == Some(LocalDay(z, ChileNow(arg, now))))
            && (0 <= CivilFromDays(LocalDay(z, ChileNow(arg, now))).year <= 9999 ==> IsYmdShape(s))
  {
    TodayIsoReadsBack(z, ChileNow(arg, now));
    TodayIsoShape(z, ChileNow(arg, now));
  }

  /** getNextChileMidnight: in a well-formed zone, the first instant of the
      Chile day after that of the instant the helpers work from; every
      instant between the two is still on the earlier day. */
  function NextChileMidnight(z: Zone, arg: TimeArg, now: int): (m: int)
    ensures WellFormed(z) ==>
              m > ChileNow(arg, now) && LocalDay(z, m) == LocalDay(z, ChileNow(arg, now)) + 1
    ensures WellFormed(z) ==>
              forall u :: LocalDay(z, u) == LocalDay(z, ChileNow(arg, now)) + 1 ==> m <= u
    ensures WellFormed(z) ==>
              forall u :: ChileNow(arg, now) <= u < m ==> LocalDay(z, u) == LocalDay(z, ChileNow(arg, now))
  {
    NextMidnightFacts(z, ChileNow(arg, now));
    NextMidnight(z, ChileNow(arg, now))
  }

  /** msUntilNextChileMidnight: at least 1 ms; in a well-formed zone exactly
      the distance to the next Chile midnight; at most 26 h in a zone with
      Santiago's offsets (so below the 36 h that the helpers promise). */
  function MsUntilNextChileMidnight(z: Zone, arg: TimeArg, now: int): (r: int)
    ensures r >= 1
    ensures WellFormed(z) ==> r == NextChileMidnight(z, arg, now) - ChileNow(arg, now)
    ensures WellFormed(z) && SantiagoBounds(z) ==> r <= DayMs + 2 * HourMs
  {
    NextMidnightFacts(z, ChileNow(arg, now));
    DelayBound(z, ChileNow(arg, now));
    MsUntilNextMidnight(z, ChileNow(arg, now))
  }
}
