/** The day-counter store: loading with self-healing and migration, saving
    with the legacy mirror, the elapsed-day difference and the idempotent
    daily catch-up. The data file is a FileState; a write either replaces it
    or throws (when the store is not writable) and leaves it as it was. The
    clock reading of an operation is the parameter `now`. */
module Counter {
  import opened Js
  import opened Calendar
  import opened ChileZone
  import opened DataFile
  import EcolabTimeLib

  /** The JSON record kept in the data file. */
  datatype Record = Record(
    diasSinAccidentes: Count,
    ultimaActualizacion: Option<string>,
    lastRunChileDate: Option<string>,
    ultimoIncremento: Option<string>,
    recordAnterior: Option<int>)

  /** What ensureDailyIncrement resolves to. */
  datatype Rollover = Rollover(data: Record, incrementsApplied: nat)

  /** The outside world the store consults: the Chile zone, the legacy
      `new Date(text)` parse (None for an invalid Date, else its time value)
      and `Date.toISOString` of an instant. */
  datatype Env = Env(zone: Zone, parseLegacy: string -> Option<int>, isoStamp: int -> string)

  /** The zone's offsets stay below a day and the legacy parse yields time values. */
  ghost predicate SaneEnv(env: Env) {
    && OffsetsBounded(env.zone)
    && forall s :: env.parseLegacy(s).Some? ==> IsTimeValue(env.parseLegacy(s).value)
  }

  /** getChileTodayISODate(arg) with the clock reading now. */
  function Today(env: Env, arg: TimeArg, now: int): string {
    EcolabTimeLib.ChileTodayIsoDate(env.zone, arg, now)
  }

  /** The local Chile day that Today names. */
  function TodayNumber(env: Env, arg: TimeArg, now: int): int {
    LocalDay(env.zone, EcolabTimeLib.ChileNow(arg, now))
  }

  // ---------------------------------------------------------------- saveData

  /** The copy of the record that saveData writes: ultimoIncremento mirrors a
      truthy lastRunChileDate, and JSON.stringify writes a NaN count as null. */
  function Persisted(rec: Record): Record {
    var r := rec.(diasSinAccidentes := Stored(rec.diasSinAccidentes));
    if Truthy(r.lastRunChileDate) then r.(ultimoIncremento := r.lastRunChileDate) else r
  }

  /** JSON has no NaN: a record read back from the file never holds a NaN count. */
  predicate Storable(file: FileState<Record>) {
    file.Valid? ==> !file.rec.diasSinAccidentes.NaN?
  }

  /** saveData: resolves to true with the persisted copy in the file, or throws
      with the file as it was. */
  function SaveSpec(file: FileState<Record>, writable: bool, rec: Record): (Completion<bool>, FileState<Record>) {
    if writable then (Return(true), Valid(Persisted(rec))) else (Throw, file)
  }

  // ---------------------------------------------------------------- loadData

  /** The record written when the file is missing or corrupt. */
  function DefaultRecord(env: Env, now: int): Record {
    var todayCl := Today(env, OtherArg, now);
    Record(Num(0), Some(env.isoStamp(now)), Some(todayCl), Some(todayCl), None)
  }

  /** The Chile date of a legacy ultimoIncremento that parses as a Date. */
  function DerivedDate(env: Env, rec: Record, now: int): Option<string> {
    if Truthy(rec.ultimoIncremento) && env.parseLegacy(rec.ultimoIncremento.value).Some? then
      Some(Today(env, DateArg(env.parseLegacy(rec.ultimoIncremento.value).value), now))
    else None
  }

  /** The record with lastRunChileDate set to `derived || today`. */
  function Migrated(env: Env, rec: Record, now: int): Record {
    var derived := DerivedDate(env, rec, now);
    rec.(lastRunChileDate := Some(if Truthy(derived) then derived.value else Today(env, OtherArg, now)))
  }

  /** The catch block of loadData: save and return the default record. */
  function RecoverSpec(env: Env, file: FileState<Record>, writable: bool, now: int): (Completion<Record>, FileState<Record>) {
    var d := DefaultRecord(env, now);
    var (s, f) := SaveSpec(file, writable, d);
    if s.Throw? then (Throw, f) else (Return(d), f)
  }

  /** loadData: a record with a truthy lastRunChileDate comes back as it is;
      one without is migrated and saved; a missing or corrupt file, or a
      failed migration save, falls back to the default record. */
  function LoadSpec(env: Env, file: FileState<Record>, writable: bool, now: int): (Completion<Record>, FileState<Record>) {
    match file
    case Valid(rec) =>
      if Truthy(rec.lastRunChileDate) then (Return(rec), file)
      else
        var m := Migrated(env, rec, now);
        var (s, f) := SaveSpec(file, writable, m);
        if s.Throw? then RecoverSpec(env, f, writable, now) else (Return(m), f)
    case _ => RecoverSpec(env, file, writable, now)
  }

  // ---------------------------------------------------- calculateDaysDiffExclusive

  /** calculateDaysDiffExclusive: 0 when either text is empty or absent; NaN
      (None) when either names no calendar date; otherwise the number of days
      from the first date to the second, clamped at 0. */
  function DaysDiffExclusive(fromIso: Option<string>, toIso: Option<string>): (r: Option<nat>)
    ensures !Truthy(fromIso) || !Truthy(toIso) ==> r == Some(0)
  {
    if !Truthy(fromIso) || !Truthy(toIso) then Some(0)
    else
      var a := IsoDayNumber(fromIso.value);
      var b := IsoDayNumber(toIso.value);
      if a.None? || b.None? then None
      else Some(if b.value - a.value > 0 then b.value - a.value else 0)
  }

  // ---------------------------------------------------- ensureDailyIncrement

  /** The part of ensureDailyIncrement after loadData: the loaded record
      `data`, the file state f that loadData left, today's Chile date and the
      current ISO timestamp. */
  function RolloverSpec(f: FileState<Record>, writable: bool, data: Record, todayCl: string, stamp: string)
    : (Completion<Rollover>, FileState<Record>)
  {
    if !Truthy(data.lastRunChileDate) then
      var d := data.(lastRunChileDate := Some(todayCl), ultimaActualizacion := Some(stamp));
      var (s, f2) := SaveSpec(f, writable, d);
      if s.Throw? then (Throw, f2) else (Return(Rollover(d, 0)), f2)
    else
      var daysToAdd := DaysDiffExclusive(data.lastRunChileDate, Some(todayCl));
      if daysToAdd.Some? && daysToAdd.value > 0 then
        var d := data.(diasSinAccidentes := Add(data.diasSinAccidentes, daysToAdd.value),
                       lastRunChileDate := Some(todayCl),
                       ultimaActualizacion := Some(stamp));
        var (s, f2) := SaveSpec(f, writable, d);
        if s.Throw? then (Throw, f2) else (Return(Rollover(d, daysToAdd.value)), f2)
      else (Return(Rollover(data, 0)), f)
  }

  /** ensureDailyIncrement: load, then roll the counter over to today. */
  function EnsureSpec(env: Env, file: FileState<Record>, writable: bool, arg: TimeArg, now: int)
    : (Completion<Rollover>, FileState<Record>)
  {
    var (c, f) := LoadSpec(env, file, writable, now);
    if c.Throw? then (Throw, f) else RolloverSpec(f, writable, c.value, Today(env, arg, now), env.isoStamp(now))
  }

  // ---------------------------------------------------------------- the store

  /** The store over one data file. */
  class CounterStore {
    var file: FileState<Record>
    const writable: bool
    const env: Env

    constructor (env: Env, file: FileState<Record>, writable: bool)
      ensures this.env == env && this.file == file && this.writable == writable
    {
      this.env := env;
      this.file := file;
      this.writable := writable;
    }

    method SaveData(data: Record) returns (c: Completion<bool>)
      modifies this
      ensures (c, file) == SaveSpec(old(file), writable, data)
    {
      var toPersist := data.(diasSinAccidentes := Stored(data.diasSinAccidentes));
      if Truthy(toPersist.lastRunChileDate) {
        toPersist := toPersist.(ultimoIncremento := toPersist.lastRunChileDate);
      }
      if !writable {
        return Throw;
      }
      file := Valid(toPersist);
      return Return(true);
    }

    /** The catch block of loadData. */
    method LoadDefault(now: int) returns (c: Completion<Record>)
      modifies this
      ensures (c, file) == RecoverSpec(env, old(file), writable, now)
    {
      var todayCl := EcolabTimeLib.ChileTodayIsoDate(env.zone, OtherArg, now);
      var defaultData := Record(Num(0), Some(env.isoStamp(now)), Some(todayCl), Some(todayCl), None);
      var saved := SaveData(defaultData);
      if saved.Throw? {
        return Throw;
      }
      return Return(defaultData);
    }

    method LoadData(now: int) returns (c: Completion<Record>)
      modifies this
      ensures (c, file) == LoadSpec(env, old(file), writable, now)
    {
      if !file.Valid? {
        c := LoadDefault(now);
        return;
      }
      var parsed := file.rec;
      if !Truthy(parsed.lastRunChileDate) {
        var derived: Option<string> := None;
        if Truthy(parsed.ultimoIncremento) {
          var legacy := env.parseLegacy(parsed.ultimoIncremento.value);
          if legacy.Some? {
            derived := Some(EcolabTimeLib.ChileTodayIsoDate(env.zone, DateArg(legacy.value), now));
          }
        }
        var lastRun := if Truthy(derived) then derived.value else EcolabTimeLib.ChileTodayIsoDate(env.zone, OtherArg, now);
        parsed := parsed.(lastRunChileDate := Some(lastRun));
        var saved := SaveData(parsed);
        if saved.Throw? {
          c := LoadDefault(now);
          return;
        }
      }
      return Return(parsed);
    }

    method EnsureDailyIncrement(arg: TimeArg, now: int) returns (c: Completion<Rollover>)
      modifies this
      ensures (c, file) == EnsureSpec(env, old(file), writable, arg, now)
    {
      var loaded := LoadData(now);
      if loaded.Throw? {
        return Throw;
      }
      var todayClIso := EcolabTimeLib.ChileTodayIsoDate(env.zone, arg, now);
      c := RollOver(loaded.value, todayClIso, env.isoStamp(now));
    }

    /** The body of ensureDailyIncrement after loadData and the reading of
        today's Chile date. */
    method RollOver(loaded: Record, todayClIso: string, stamp: string) returns (c: Completion<Rollover>)
      modifies this
      ensures (c, file) == RolloverSpec(old(file), writable, loaded, todayClIso, stamp)
    {
      var data := loaded;
      var incrementsApplied: nat := 0;
      if !Truthy(data.lastRunChileDate) {
        data := data.(lastRunChileDate := Some(todayClIso), ultimaActualizacion := Some(stamp));
        var saved := SaveData(data);
        if saved.Throw? {
          return Throw;
        }
        return Return(Rollover(data, incrementsApplied));
      }
      var daysToAdd := DaysDiffExclusive(data.lastRunChileDate, Some(todayClIso));
      if daysToAdd.Some? && daysToAdd.value > 0 {
        data := data.(diasSinAccidentes := Add(data.diasSinAccidentes, daysToAdd.value));
        data := data.(lastRunChileDate := Some(todayClIso));
        data := data.(ultimaActualizacion := Some(stamp));
        var saved := SaveData(data);
        if saved.Throw? {
          return Throw;
        }
        incrementsApplied := daysToAdd.value;
      }
      return Return(Rollover(data, incrementsApplied));
    }
  }

  // ================================================================ properties

  /** saveData writes the record with ultimoIncremento equal to a truthy
      lastRunChileDate, a NaN count as null and every other field as given;
      it fails only when the file cannot be written, and then leaves it as
      it was. What it writes is never NaN. */
  lemma SaveMirrorsLastRun(file: FileState<Record>, writable: bool, rec: Record)
    ensures writable ==> SaveSpec(file, writable, rec).0 == Return(true)
    ensures writable ==> SaveSpec(file, writable, rec).1.Valid?
    ensures !writable ==> SaveSpec(file, writable, rec) == (Throw, file)
    ensures writable ==>
              var w := SaveSpec(file, writable, rec).1.rec;
              && w.ultimoIncremento == (if Truthy(rec.lastRunChileDate) then rec.lastRunChileDate else rec.ultimoIncremento)
              && w == rec.(ultimoIncremento := w.ultimoIncremento, diasSinAccidentes := Stored(rec.diasSinAccidentes))
    ensures writable ==> Storable(SaveSpec(file, writable, rec).1)
  {
  }

  /** Whatever the file holds, a record that loadData returns has a non-empty
      lastRunChileDate, so the first-run branch of ensureDailyIncrement is
      never taken after loadData. */
  lemma LoadStampsLastRun(env: Env, file: FileState<Record>, writable: bool, now: int)
    ensures LoadSpec(env, file, writable, now).0.Return? ==>
              Truthy(LoadSpec(env, file, writable, now).0.value.lastRunChileDate)
  {
    var todayCl := Today(env, OtherArg, now);
    assert |todayCl| >= 10;
    if file.Valid? && !Truthy(file.rec.lastRunChileDate) {
      var derived := DerivedDate(env, file.rec, now);
      assert Truthy(Migrated(env, file.rec, now).lastRunChileDate);
    }
  }

  /** A missing or corrupt file is replaced by the default record: no days,
      both dates today, no previous record; when the file cannot be written
      loadData throws and the file stays as it was. */
  lemma LoadDefaults(env: Env, file: FileState<Record>, writable: bool, now: int)
    requires !file.Valid?
    ensures var todayCl := Today(env, OtherArg, now);
            var d := Record(Num(0), Some(env.isoStamp(now)), Some(todayCl), Some(todayCl), None);
            LoadSpec(env, file, writable, now) == if writable then (Return(d), Valid(d)) else (Throw, file)
  {
  }

  /** A record that already has a lastRunChileDate is returned as it is and
      nothing is written, writable or not. */
  lemma LoadKeepsCurrentRecord(env: Env, rec: Record, writable: bool, now: int)
    requires Truthy(rec.lastRunChileDate)
    ensures LoadSpec(env, Valid(rec), writable, now) == (Return(rec), Valid(rec))
  {
  }

  /** Migration of a record without lastRunChileDate: a legacy
      ultimoIncremento that parses as a Date gives its Chile date, anything
      else gives today; the other fields are kept and the migrated record is
      saved. If it cannot be saved, loadData throws and the file is kept. */
  lemma LoadMigratesLegacyDate(env: Env, rec: Record, writable: bool, now: int)
    requires !Truthy(rec.lastRunChileDate)
    ensures var legacy := if Truthy(rec.ultimoIncremento) then env.parseLegacy(rec.ultimoIncremento.value) else None;
            var lastRun := if legacy.Some? then Today(env, DateArg(legacy.value), now) else Today(env, OtherArg, now);
            var m := rec.(lastRunChileDate := Some(lastRun));
            LoadSpec(env, Valid(rec), writable, now) ==
              if writable then (Return(m), Valid(m.(ultimoIncremento := Some(lastRun), diasSinAccidentes := Stored(rec.diasSinAccidentes))))
              else (Throw, Valid(rec))
  {
  }

  /** Loading twice is loading once: the second load writes nothing and
      returns the persisted copy of the first result, which differs from it
      at most in ultimoIncremento. */
  lemma {:induction false} ReloadIsStable(env: Env, file: FileState<Record>, writable: bool, now: int, later: int)
    requires Storable(file) && LoadSpec(env, file, writable, now).0.Return?
    ensures var (c, f) := LoadSpec(env, file, writable, now);
            var (c2, f2) := LoadSpec(env, f, writable, later);
            && f2 == f && f.Valid? && c2 == Return(f.rec)
            && f.rec == c.value.(ultimoIncremento := f.rec.ultimoIncremento)
  {
    LoadStampsLastRun(env, file, writable, now);
    var (c, f) := LoadSpec(env, file, writable, now);
    assert f.Valid? && f.rec == c.value.(ultimoIncremento := f.rec.ultimoIncremento);
    assert Truthy(f.rec.lastRunChileDate);
    LoadKeepsCurrentRecord(env, f.rec, writable, later);
  }

  // ------------------------------------------------------- the day difference

  /** For two calendar dates the difference is the forward distance between
      their day numbers, or 0 when the second comes first. */
  lemma DaysDiffOfDates(a: Date, b: Date)
    requires IsValidDate(a) && IsValidDate(b)
    requires -999999 <= a.year <= 999999 && -999999 <= b.year <= 999999
    ensures DaysDiffExclusive(Some(FormatIsoDate(a)), Some(FormatIsoDate(b))) ==
              Some(if DayNumber(b) >= DayNumber(a) then DayNumber(b) - DayNumber(a) else 0)
  {
    ParseFormat(a);
    ParseFormat(b);
    DaysDiffOfDayNumbers(FormatIsoDate(a), FormatIsoDate(b), DayNumber(a), DayNumber(b));
  }

  /** For two texts naming day numbers a and b the difference is b - a,
      clamped at 0. */
  lemma DaysDiffOfDayNumbers(fromIso: string, toIso: string, a: int, b: int)
    requires fromIso != "" && toIso != ""
    requires IsoDayNumber(fromIso) == Some(a) && IsoDayNumber(toIso) == Some(b)
    ensures DaysDiffExclusive(Some(fromIso), Some(toIso)) == Some(if b >= a then b - a else 0)
  {
  }

  /** From day d to day e the difference is e - d when e is not earlier (so
      exactly n from a day to the day n days later, and 0 for the same day),
      and 0 from a day to an earlier one. */
  lemma DaysDiffOfDays(d: int, e: int)
    requires -MaxDayNumber <= d <= MaxDayNumber && -MaxDayNumber <= e <= MaxDayNumber
    ensures DaysDiffExclusive(Some(IsoOfDay(d)), Some(IsoOfDay(e))) == Some(if e >= d then e - d else 0)
  {
    IsoDayNumberOfDay(d);
    IsoDayNumberOfDay(e);
    DaysDiffOfDayNumbers(IsoOfDay(d), IsoOfDay(e), d, e);
  }

  /** Two concrete dates: one day apart forwards, none backwards. */
  lemma DaysDiffSamples()
    ensures DaysDiffExclusive(Some("2025-03-10"), Some("2025-03-11")) == Some(1)
    ensures DaysDiffExclusive(Some("2025-03-11"), Some("2025-03-10")) == Some(0)
    ensures DaysDiffExclusive(Some("2024-02-28"), Some("2024-03-01")) == Some(2)
  {
    NextDaySample();
    LeapFebruarySample();
  }

  /** 2025-03-10 and 2025-03-11, in both orders. */
  lemma NextDaySample()
    ensures DaysDiffExclusive(Some("2025-03-10"), Some("2025-03-11")) == Some(1)
    ensures DaysDiffExclusive(Some("2025-03-11"), Some("2025-03-10")) == Some(0)
  {
    var a := Date(2025, 3, 10);
    var b := Date(2025, 3, 11);
    assert FormatIsoDate(a) == "2025-03-10";
    assert FormatIsoDate(b) == "2025-03-11";
    assert DayNumber(b) == DayNumber(a) + 1;
    DaysDiffOfDates(a, b);
    DaysDiffOfDates(b, a);
  }

  /** 2024-02-28 to 2024-03-01 crosses February 29. */
  lemma LeapFebruarySample()
    ensures DaysDiffExclusive(Some("2024-02-28"), Some("2024-03-01")) == Some(2)
  {
    var c := Date(2024, 2, 28);
    var e := Date(2024, 3, 1);
    assert FormatIsoDate(c) == "2024-02-28";
    assert FormatIsoDate(e) == "2024-03-01";
    assert DayNumber(e) == DayNumber(c) + 2;
    DaysDiffOfDates(c, e);
  }

  /** A truthy text that names no calendar date makes the difference NaN. */
  lemma DaysDiffMalformed(fromIso: string, toIso: string)
    requires fromIso != "" && toIso != ""
    requires ParseIsoDate(fromIso).None? || ParseIsoDate(toIso).None?
    ensures DaysDiffExclusive(Some(fromIso), Some(toIso)).None?
  {
  }

  // ------------------------------------------------------------ the rollover

  /** The first-run branch on a record without lastRunChileDate stamps today,
      applies no increment and keeps the count. */
  lemma FirstRunStampsToday(f: FileState<Record>, writable: bool, data: Record, todayCl: string, stamp: string)
    requires !Truthy(data.lastRunChileDate)
    ensures var (c, f2) := RolloverSpec(f, writable, data, todayCl, stamp);
            && (writable ==> c.Return? && c.value.incrementsApplied == 0
                             && c.value.data.diasSinAccidentes == data.diasSinAccidentes
                             && c.value.data.lastRunChileDate == Some(todayCl)
                             && f2 == Valid(Persisted(c.value.data)))
            && (!writable ==> c.Throw? && f2 == f)
  {
  }

  /** A record last run on the day named by today's text rolls over to
      itself: no increment and no write, whether or not the file is writable. */
  lemma RolloverSameDay(f: FileState<Record>, writable: bool, data: Record, todayCl: string, stamp: string)
    requires todayCl != "" && data.lastRunChileDate == Some(todayCl)
    ensures RolloverSpec(f, writable, data, todayCl, stamp) == (Return(Rollover(data, 0)), f)
  {
    assert DaysDiffExclusive(Some(todayCl), Some(todayCl)) in {None, Some(0)};
  }

  /** The increment is the number of days from the last run to today, clamped
      at 0: the count grows by it, recordAnterior never changes, and
      lastRunChileDate moves to today exactly when something was added. */
  lemma RolloverAddsDayGap(f: FileState<Record>, data: Record, todayCl: string, stamp: string, last: int, today: int)
    requires todayCl != "" && Truthy(data.lastRunChileDate)
    requires IsoDayNumber(data.lastRunChileDate.value) == Some(last) && IsoDayNumber(todayCl) == Some(today)
    ensures var c := RolloverSpec(f, true, data, todayCl, stamp).0;
            && c.Return?
            && c.value.incrementsApplied == (if today > last then today - last else 0)
            && c.value.data.diasSinAccidentes == (if today > last then Add(data.diasSinAccidentes, today - last) else data.diasSinAccidentes)
            && c.value.data.recordAnterior == data.recordAnterior
            && c.value.data.lastRunChileDate == (if today > last then Some(todayCl) else data.lastRunChileDate)
  {
    DaysDiffOfDayNumbers(data.lastRunChileDate.value, todayCl, last, today);
  }

  /** A last run k = today - last >= 1 days before today: the count grows by
      exactly k, lastRunChileDate becomes today and is mirrored, k is reported
      and recordAnterior is kept; if the file cannot be written the call
      throws and the file is kept. */
  lemma RolloverCatchUp(f: FileState<Record>, writable: bool, data: Record, todayCl: string, stamp: string, last: int, today: int)
    requires todayCl != "" && Truthy(data.lastRunChileDate)
    requires IsoDayNumber(data.lastRunChileDate.value) == Some(last) && IsoDayNumber(todayCl) == Some(today)
    requires last < today
    ensures var d := data.(diasSinAccidentes := Add(data.diasSinAccidentes, today - last),
                           lastRunChileDate := Some(todayCl),
                           ultimaActualizacion := Some(stamp));
            RolloverSpec(f, writable, data, todayCl, stamp) ==
              if writable then (Return(Rollover(d, today - last)),
                                Valid(d.(diasSinAccidentes := Stored(d.diasSinAccidentes), ultimoIncremento := Some(todayCl))))
              else (Throw, f)
  {
    DaysDiffOfDayNumbers(data.lastRunChileDate.value, todayCl, last, today);
  }

  /** A lastRunChileDate that names no date makes the difference NaN, and
      Math.max(0, NaN) > 0 is false: nothing is added and nothing written. */
  lemma RolloverIgnoresMalformedDate(f: FileState<Record>, writable: bool, data: Record, todayCl: string, stamp: string)
    requires todayCl != "" && Truthy(data.lastRunChileDate)
    requires ParseIsoDate(data.lastRunChileDate.value).None?
    ensures RolloverSpec(f, writable, data, todayCl, stamp) == (Return(Rollover(data, 0)), f)
  {
  }

  /** For a current record, ensureDailyIncrement is the rollover of the
      record as it is in the file, to today's Chile date. */
  lemma EnsureOnCurrentRecord(env: Env, rec: Record, writable: bool, arg: TimeArg, now: int)
    requires Truthy(rec.lastRunChileDate)
    ensures EnsureSpec(env, Valid(rec), writable, arg, now) ==
              RolloverSpec(Valid(rec), writable, rec, Today(env, arg, now), env.isoStamp(now))
  {
  }

  /** On a record last run today (by the same clock) ensureDailyIncrement
      applies no increment and writes nothing. */
  lemma SameDayIsNoOp(env: Env, rec: Record, writable: bool, arg: TimeArg, now: int)
    requires rec.lastRunChileDate == Some(Today(env, arg, now))
    ensures EnsureSpec(env, Valid(rec), writable, arg, now) == (Return(Rollover(rec, 0)), Valid(rec))
  {
    EnsureOnCurrentRecord(env, rec, writable, arg, now);
    RolloverSameDay(Valid(rec), writable, rec, Today(env, arg, now), env.isoStamp(now));
  }

  /** With the file's record last run on Chile day `last` (its
      lastRunChileDate names that day), k = today - last >= 1 days ago,
      ensureDailyIncrement adds exactly k, stamps and mirrors today, reports
      k and keeps recordAnterior; it throws and keeps the file when the file
      cannot be written. */
  lemma CatchUp(env: Env, rec: Record, writable: bool, arg: TimeArg, now: int, last: int)
    requires SaneEnv(env) && IsTimeValue(EcolabTimeLib.ChileNow(arg, now))
    requires Truthy(rec.lastRunChileDate) && IsoDayNumber(rec.lastRunChileDate.value) == Some(last)
    requires last < TodayNumber(env, arg, now)
    ensures var k := TodayNumber(env, arg, now) - last;
            var todayCl := Today(env, arg, now);
            var d := rec.(diasSinAccidentes := Add(rec.diasSinAccidentes, k),
                          lastRunChileDate := Some(todayCl),
                          ultimaActualizacion := Some(env.isoStamp(now)));
            EnsureSpec(env, Valid(rec), writable, arg, now) ==
              if writable then (Return(Rollover(d, k)),
                                Valid(d.(diasSinAccidentes := Stored(d.diasSinAccidentes), ultimoIncremento := Some(todayCl))))
              else (Throw, Valid(rec))
  {
    EcolabTimeLib.ChileTodayIsoDateReadsBack(env.zone, arg, now);
    RolloverCatchUp(Valid(rec), writable, rec, Today(env, arg, now), env.isoStamp(now), last, TodayNumber(env, arg, now));
    EnsureOnCurrentRecord(env, rec, writable, arg, now);
  }

  /** A lastRunChileDate in the file that names no date never increments. */
  lemma MalformedLastRunNeverIncrements(env: Env, rec: Record, writable: bool, arg: TimeArg, now: int)
    requires Truthy(rec.lastRunChileDate) && ParseIsoDate(rec.lastRunChileDate.value).None?
    ensures EnsureSpec(env, Valid(rec), writable, arg, now) == (Return(Rollover(rec, 0)), Valid(rec))
  {
    EnsureOnCurrentRecord(env, rec, writable, arg, now);
    RolloverIgnoresMalformedDate(Valid(rec), writable, rec, Today(env, arg, now), env.isoStamp(now));
  }

  /** A second call with the same clock after a successful one adds nothing,
      writes nothing and reports the count the first call left in the file
      (a NaN count, from an absent one, reads back as null). */
  lemma {:induction false} EnsureIsIdempotent(env: Env, file: FileState<Record>, writable: bool, arg: TimeArg, now: int)
    requires Storable(file) && EnsureSpec(env, file, writable, arg, now).0.Return?
    ensures var (c, f) := EnsureSpec(env, file, writable, arg, now);
            var (c2, f2) := EnsureSpec(env, f, writable, arg, now);
            && f2 == f && c2.Return? && c2.value.incrementsApplied == 0
            && c2.value.data.diasSinAccidentes == Stored(c.value.data.diasSinAccidentes)
  {
    var (c0, f0) := LoadSpec(env, file, writable, now);
    LoadStampsLastRun(env, file, writable, now);
    ReloadIsStable(env, file, writable, now, now);
    var todayCl := Today(env, arg, now);
    var stamp := env.isoStamp(now);
    var (c, f) := RolloverSpec(f0, writable, c0.value, todayCl, stamp);
    assert f.Valid? && Truthy(f.rec.lastRunChileDate);
    EnsureOnCurrentRecord(env, f.rec, writable, arg, now);
    var daysToAdd := DaysDiffExclusive(c0.value.lastRunChileDate, Some(todayCl));
    if daysToAdd.Some? && daysToAdd.value > 0 {
      assert f.rec.lastRunChileDate == Some(todayCl);
      RolloverSameDay(f, writable, f.rec, todayCl, stamp);
    } else {
      assert f == f0 && f.rec.lastRunChileDate == c0.value.lastRunChileDate;
    }
  }

  /** A legacy file with only ultimoIncremento, k >= 1 Chile days old: the
      migration dates the last run on that legacy day and the same call then
      catches up the k days; a null count, as the legacy server writes for
      NaN, becomes k. */
  lemma LegacyFileCatchesUp(env: Env, rec: Record, arg: TimeArg, now: int, t0: int)
    requires SaneEnv(env) && IsTimeValue(EcolabTimeLib.ChileNow(arg, now))
    requires !Truthy(rec.lastRunChileDate) && Truthy(rec.ultimoIncremento)
    requires env.parseLegacy(rec.ultimoIncremento.value) == Some(t0)
    requires LocalDay(env.zone, t0) < TodayNumber(env, arg, now)
    ensures var k := TodayNumber(env, arg, now) - LocalDay(env.zone, t0);
            var c := EnsureSpec(env, Valid(rec), true, arg, now).0;
            && c.Return? && c.value.incrementsApplied == k
            && c.value.data.diasSinAccidentes == Add(rec.diasSinAccidentes, k)
            && (rec.diasSinAccidentes == Null ==> c.value.data.diasSinAccidentes == Num(k))
  {
    assert IsTimeValue(t0);
    var last := LocalDay(env.zone, t0);
    LocalDayInRange(env.zone, t0);
    var m := Migrated(env, rec, now);
    assert m.lastRunChileDate == Some(IsoOfDay(last));
    LoadMigratesLegacyDate(env, rec, true, now);
    var todayCl := Today(env, arg, now);
    EcolabTimeLib.ChileTodayIsoDateReadsBack(env.zone, arg, now);
    IsoDayNumberOfDay(last);
    var f := Valid(m.(ultimoIncremento := m.lastRunChileDate, diasSinAccidentes := Stored(m.diasSinAccidentes)));
    assert EnsureSpec(env, Valid(rec), true, arg, now) == RolloverSpec(f, true, m, todayCl, env.isoStamp(now));
    RolloverCatchUp(f, true, m, todayCl, env.isoStamp(now), last, TodayNumber(env, arg, now));
  }

  /** A rollover adds the increments it reports to the count and nothing
      else: a numeric count never goes down, and recordAnterior is never
      touched. */
  lemma RolloverOnlyAdds(f: FileState<Record>, writable: bool, data: Record, todayCl: string, stamp: string)
    ensures var c := RolloverSpec(f, writable, data, todayCl, stamp).0;
            c.Return? ==> && c.value.data.recordAnterior == data.recordAnterior
                          && (c.value.incrementsApplied == 0 ==> c.value.data.diasSinAccidentes == data.diasSinAccidentes)
                          && (c.value.incrementsApplied > 0 ==>
                                c.value.data.diasSinAccidentes == Add(data.diasSinAccidentes, c.value.incrementsApplied))
                          && (data.diasSinAccidentes.Num? ==>
                                c.value.data.diasSinAccidentes.Num? && c.value.data.diasSinAccidentes.n >= data.diasSinAccidentes.n)
  {
  }
}
