/** The second copy of the Chile time helpers, whose getChileNow accepts
    only a Date and otherwise reads the clock. The counter store and the
    scheduler use this copy. */
module EcolabTimeLib {
  import opened Js
  import opened Calendar
  import opened ChileZone
  import EcolabTime

  /** getChileNow: the instant of a Date argument, else now. */
  function ChileNow(arg: TimeArg, now: int): (t: int)
    ensures t == (if arg.DateArg? then arg.ms else now)
  {
    if arg.DateArg? then arg.ms else now
  }

  /** getChileTodayISODate: the Chile calendar date of the instant. */
  function ChileTodayIsoDate(z: Zone, arg: TimeArg, now: int): (s: string)
    ensures |s| >= 10
  {
    TodayIso(z, ChileNow(arg, now))
  }

  /** The date text reads back as the Chile day of the instant, and has the
      shape `YYYY-MM-DD` in years 0..9999. */
  lemma ChileTodayIsoDateReadsBack(z: Zone, arg: TimeArg, now: int)
    ensures var s := ChileTodayIsoDate(z, arg, now);
            && (OffsetsBounded(z) && IsTimeValue(ChileNow(arg, now)) ==>
                  IsoDayNumber(s) == Some(LocalDay(z, ChileNow(arg, now))))
            && (0 <= CivilFromDays(LocalDay(z, ChileNow(arg, now))).year <= 9999 ==> IsYmdShape(s))
  {
    TodayIsoReadsBack(z, ChileNow(arg, now));
    TodayIsoShape(z, ChileNow(arg, now));
  }

  /** getNextChileMidnight: in a well-formed zone, the first instant of the
      Chile day after that of the instant the helpers work from; every
      instant between the two is still on the earlier day. */
  function NextChileMidnight(z: Zone, arg: TimeArg, now: int): (m: int)
    ensures WellFormed(z) ==>
              m > ChileNow(arg, now) && LocalDay(z, m) == LocalDay(z, ChileNow(arg, now)) + 1
    ensures WellFormed(z) ==>
              forall u :: LocalDay(z, u) == LocalDay(z, ChileNow(arg, now)) + 1 ==> m <= u
    ensures WellFormed(z) ==>
              forall u :: ChileNow(arg, now) <= u < m ==> LocalDay(z, u) == LocalDay(z, ChileNow(arg, now))
  {
    NextMidnightFacts(z, ChileNow(arg, now));
    NextMidnight(z, ChileNow(arg, now))
  }

  /** msUntilNextChileMidnight: at least 1 ms, and in a well-formed zone the
      distance to the next Chile midnight, at most 26 h for Santiago's offsets. */
  function MsUntilNextChileMidnight(z: Zone, arg: TimeArg, now: int): (r: int)
    ensures r >= 1
    ensures WellFormed(z) ==> r == NextChileMidnight(z, arg, now) - ChileNow(arg, now)
    ensures WellFormed(z) && SantiagoBounds(z) ==> r <= DayMs + 2 * HourMs
  {
    NextMidnightFacts(z, ChileNow(arg, now));
    DelayBound(z, ChileNow(arg, now));
    MsUntilNextMidnight(z, ChileNow(arg, now))
  }

  /** The two copies agree on every argument except a DateTime, which this
      copy ignores in favour of the clock: they pick the same instant exactly
      when the argument is no DateTime or the DateTime holds the current instant. */
  lemma CopiesAgreeExceptOnDateTimes(z: Zone, arg: TimeArg, now: int)
    ensures ChileNow(arg, now) == EcolabTime.ChileNow(arg, now) <==> (!arg.DateTimeArg? || arg.ms == now)
    ensures !arg.DateTimeArg? ==>
              && ChileTodayIsoDate(z, arg, now) == EcolabTime.ChileTodayIsoDate(z, arg, now)
              && NextChileMidnight(z, arg, now) == EcolabTime.NextChileMidnight(z, arg, now)
              && MsUntilNextChileMidnight(z, arg, now) == EcolabTime.MsUntilNextChileMidnight(z, arg, now)
    ensures arg.DateTimeArg? ==>
              ChileTodayIsoDate(z, arg, now) == EcolabTime.ChileTodayIsoDate(z, OtherArg, now)
  {
  }
}
