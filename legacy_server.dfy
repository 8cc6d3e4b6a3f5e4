/** The first, stand-alone version of the day counter: one server process
    with its own load, save and once-a-day increment, and admin handlers for
    update, reset, export and import. Its day is the server's local
    `Date.toDateString()` text, and a new day adds exactly one, however many
    days have passed. */
module LegacyServer {
  import opened Js
  import opened DataFile
  import Counter
  import Calendar
  import ChileZone
  import EcolabTimeLib

  const ADMIN_PASSWORD := "jefecito"

  /** The record; its two date fields hold whatever JSON value the file (or
      an import) gave them. */
  datatype LegacyRecord = LegacyRecord(
    diasSinAccidentes: Count,
    ultimaActualizacion: Option<JsonValue>,
    ultimoIncremento: Option<JsonValue>)

  /** The clock readings the server formats: `toISOString()` and the local
      `toDateString()` of instant t. */
  datatype Clock = Clock(isoStamp: int -> string, dateString: int -> string)

  /** The record as the data file holds it once written. */
  function Persisted(rec: LegacyRecord): LegacyRecord {
    rec.(diasSinAccidentes := Stored(rec.diasSinAccidentes))
  }

  /** saveData: true with the record written, or false with the file as it
      was; it never throws. */
  function SaveSpec(file: FileState<LegacyRecord>, writable: bool, rec: LegacyRecord): (bool, FileState<LegacyRecord>) {
    if writable then (true, Valid(Persisted(rec))) else (false, file)
  }

  function DefaultRecord(clock: Clock, now: int): LegacyRecord {
    LegacyRecord(Num(0), Some(JStr(clock.isoStamp(now))), Some(JStr(clock.dateString(now))))
  }

  /** loadData: the parsed file, or a default record that is saved (whether
      or not the save succeeds) and returned. */
  function LoadSpec(clock: Clock, file: FileState<LegacyRecord>, writable: bool, now: int): (LegacyRecord, FileState<LegacyRecord>) {
    match file
    case Valid(rec) => (rec, file)
    case _ =>
      var d := DefaultRecord(clock, now);
      (d, SaveSpec(file, writable, d).1)
  }

  /** checkDailyIncrement: on a day other than the last increment's, add one
      (unless there was no last increment yet) and stamp the day. */
  function CheckSpec(clock: Clock, file: FileState<LegacyRecord>, writable: bool, now: int): (LegacyRecord, FileState<LegacyRecord>) {
    var (data, f) := LoadSpec(clock, file, writable, now);
    var today := clock.dateString(now);
    if data.ultimoIncremento == Some(JStr(today)) then (data, f)
    else
      var bumped :=
        if TruthyValue(data.ultimoIncremento) then
          data.(diasSinAccidentes := Add(data.diasSinAccidentes, 1), ultimaActualizacion := Some(JStr(clock.isoStamp(now))))
        else data;
      var d := bumped.(ultimoIncremento := Some(JStr(today)));
      (d, SaveSpec(f, writable, d).1)
  }

  /** The `data` field of an import body, when it is truthy and an object
      (an array is one); a field is None when undefined. */
  datatype ImportData = ImportData(diasSinAccidentes: Option<JsonValue>, ultimaActualizacion: Option<JsonValue>, ultimoIncremento: Option<JsonValue>)

  /** parseInt(v, 10) as a Count. */
  function ParsedCount(text: string): Count {
    var v := ParseInt(text, 10);
    if v.Some? then Num(v.value) else NaN
  }

  /** The record after the import handler's field assignments. */
  function ImportedRecord(current: LegacyRecord, imp: ImportData): LegacyRecord {
    LegacyRecord(
      if imp.diasSinAccidentes.Some? then ParsedCount(ToJsString(imp.diasSinAccidentes)) else current.diasSinAccidentes,
      if TruthyValue(imp.ultimaActualizacion) then imp.ultimaActualizacion else current.ultimaActualizacion,
      if TruthyValue(imp.ultimoIncremento) then imp.ultimoIncremento else current.ultimoIncremento)
  }

  /** The counter fields a response carries. */
  datatype View = View(diasSinAccidentes: Count, ultimaActualizacion: Option<JsonValue>)

  datatype LegacyResponse =
    | Unauthorized                          // 401
    | BadRequest                            // 400
    | SaveFailed                            // 500, saveData resolved false
    | Shown(view: View)                     // GET /api/counter
    | Updated(oldDays: Count, view: View)
    | ResetFrom(oldDays: Count, view: View)
    | Exported(rec: LegacyRecord)           // GET /api/export
    | Imported(view: View)

  function ViewOf(rec: LegacyRecord): View {
    View(rec.diasSinAccidentes, rec.ultimaActualizacion)
  }

  /** The password check of the three admin handlers: a truthy value that
      is the admin password as a string (`!==` compares without conversion). */
  predicate Authorised(password: Option<JsonValue>) {
    !(!TruthyValue(password) || password != Some(JStr(ADMIN_PASSWORD)))
  }

  function GetSpec(clock: Clock, file: FileState<LegacyRecord>, writable: bool, now: int): (LegacyResponse, FileState<LegacyRecord>) {
    var (d, f) := CheckSpec(clock, file, writable, now);
    (Shown(ViewOf(d)), f)
  }

  function UpdateSpec(clock: Clock, file: FileState<LegacyRecord>, writable: bool, password: Option<JsonValue>, dias: Option<JsonValue>, now: int)
    : (LegacyResponse, FileState<LegacyRecord>)
  {
    if !Authorised(password) then (Unauthorized, file)
    else
      var newDays := ParseInt(ToJsString(dias), 10);
      if newDays.None? || newDays.value < 0 then (BadRequest, file)
      else
        var (data, f) := LoadSpec(clock, file, writable, now);
        var d := data.(diasSinAccidentes := Num(newDays.value),
                       ultimaActualizacion := Some(JStr(clock.isoStamp(now))),
                       ultimoIncremento := Some(JStr(clock.dateString(now))));
        var (ok, f2) := SaveSpec(f, writable, d);
        if ok then (Updated(data.diasSinAccidentes, ViewOf(d)), f2) else (SaveFailed, f2)
  }

  function ResetSpec(clock: Clock, file: FileState<LegacyRecord>, writable: bool, password: Option<JsonValue>, now: int)
    : (LegacyResponse, FileState<LegacyRecord>)
  {
    if !Authorised(password) then (Unauthorized, file)
    else
      var (data, f) := LoadSpec(clock, file, writable, now);
      var d := data.(diasSinAccidentes := Num(0),
                     ultimaActualizacion := Some(JStr(clock.isoStamp(now))),
                     ultimoIncremento := Some(JStr(clock.dateString(now))));
      var (ok, f2) := SaveSpec(f, writable, d);
      if ok then (ResetFrom(data.diasSinAccidentes, ViewOf(d)), f2) else (SaveFailed, f2)
  }

  function ExportSpec(clock: Clock, file: FileState<LegacyRecord>, writable: bool, now: int): (LegacyResponse, FileState<LegacyRecord>) {
    var (data, f) := LoadSpec(clock, file, writable, now);
    (Exported(data), f)
  }

  function ImportSpec(clock: Clock, file: FileState<LegacyRecord>, writable: bool, password: Option<JsonValue>, imp: Option<ImportData>, now: int)
    : (LegacyResponse, FileState<LegacyRecord>)
  {
    if !Authorised(password) then (Unauthorized, file)
    else if imp.None? then (BadRequest, file)
    else
      var (current, f) := LoadSpec(clock, file, writable, now);
      var d := ImportedRecord(current, imp.value);
      var (ok, f2) := SaveSpec(f, writable, d);
      if ok then (Imported(ViewOf(d)), f2) else (SaveFailed, f2)
  }

  /** The server over its data file. */
  class LegacyApp {
    var file: FileState<LegacyRecord>
    const writable: bool
    const clock: Clock

    constructor (clock: Clock, file: FileState<LegacyRecord>, writable: bool)
      ensures this.clock == clock && this.file == file && this.writable == writable
    {
      this.clock := clock;
      this.file := file;
      this.writable := writable;
    }

    method SaveData(data: LegacyRecord) returns (ok: bool)
      modifies this
      ensures (ok, file) == SaveSpec(old(file), writable, data)
    {
      if !writable {
        return false;
      }
      file := Valid(data.(diasSinAccidentes := Stored(data.diasSinAccidentes)));
      return true;
    }

    method LoadData(now: int) returns (data: LegacyRecord)
      modifies this
      ensures (data, file) == LoadSpec(clock, old(file), writable, now)
    {
      if file.Valid? {
        return file.rec;
      }
      data := LegacyRecord(Num(0), Some(JStr(clock.isoStamp(now))), Some(JStr(clock.dateString(now))));
      var _ := SaveData(data);
    }

    method CheckDailyIncrement(now: int) returns (data: LegacyRecord)
      modifies this
      ensures (data, file) == CheckSpec(clock, old(file), writable, now)
    {
      data := LoadData(now);
      var today := clock.dateString(now);
      if data.ultimoIncremento != Some(JStr(today)) {
        if TruthyValue(data.ultimoIncremento) {
          data := data.(diasSinAccidentes := Add(data.diasSinAccidentes, 1));
          data := data.(ultimaActualizacion := Some(JStr(clock.isoStamp(now))));
        }
        data := data.(ultimoIncremento := Some(JStr(today)));
        var _ := SaveData(data);
      }
    }

    method GetCounter(now: int) returns (r: LegacyResponse)
      modifies this
      ensures (r, file) == GetSpec(clock, old(file), writable, now)
    {
      var data := CheckDailyIncrement(now);
      return Shown(View(data.diasSinAccidentes, data.ultimaActualizacion));
    }

    method PostUpdate(password: Option<JsonValue>, dias: Option<JsonValue>, now: int) returns (r: LegacyResponse)
      modifies this
      ensures (r, file) == UpdateSpec(clock, old(file), writable, password, dias, now)
    {
      if !TruthyValue(password) || password != Some(JStr(ADMIN_PASSWORD)) {
        return Unauthorized;
      }
      var newDays := ParseInt(ToJsString(dias), 10);
      if newDays.None? || newDays.value < 0 {
        return BadRequest;
      }
      var data := LoadData(now);
      var oldDays := data.diasSinAccidentes;
      data := data.(diasSinAccidentes := Num(newDays.value));
      data := data.(ultimaActualizacion := Some(JStr(clock.isoStamp(now))));
      data := data.(ultimoIncremento := Some(JStr(clock.dateString(now))));
      var success := SaveData(data);
      if success {
        return Updated(oldDays, View(data.diasSinAccidentes, data.ultimaActualizacion));
      }
      return SaveFailed;
    }

    method PostReset(password: Option<JsonValue>, now: int) returns (r: LegacyResponse)
      modifies this
      ensures (r, file) == ResetSpec(clock, old(file), writable, password, now)
    {
      if !TruthyValue(password) || password != Some(JStr(ADMIN_PASSWORD)) {
        return Unauthorized;
      }
      var data := LoadData(now);
      var oldDays := data.diasSinAccidentes;
      data := data.(diasSinAccidentes := Num(0));
      data := data.(ultimaActualizacion := Some(JStr(clock.isoStamp(now))));
      data := data.(ultimoIncremento := Some(JStr(clock.dateString(now))));
      var success := SaveData(data);
      if success {
        return ResetFrom(oldDays, View(data.diasSinAccidentes, data.ultimaActualizacion));
      }
      return SaveFailed;
    }

    method GetExport(now: int) returns (r: LegacyResponse)
      modifies this
      ensures (r, file) == ExportSpec(clock, old(file), writable, now)
    {
      var data := LoadData(now);
      return Exported(data);
    }

    method PostImport(password: Option<JsonValue>, importData: Option<ImportData>, now: int) returns (r: LegacyResponse)
      modifies this
      ensures (r, file) == ImportSpec(clock, old(file), writable, password, importData, now)
    {
      if !TruthyValue(password) || password != Some(JStr(ADMIN_PASSWORD)) {
        return Unauthorized;
      }
      if importData.None? {
        return BadRequest;
      }
      var imp := importData.value;
      var currentData := LoadData(now);
      if imp.diasSinAccidentes.Some? {
        currentData := currentData.(diasSinAccidentes := ParsedCount(ToJsString(imp.diasSinAccidentes)));
      }
      if TruthyValue(imp.ultimaActualizacion) {
        currentData := currentData.(ultimaActualizacion := imp.ultimaActualizacion);
      }
      if TruthyValue(imp.ultimoIncremento) {
        currentData := currentData.(ultimoIncremento := imp.ultimoIncremento);
      }
      var success := SaveData(currentData);
      if success {
        return Imported(View(currentData.diasSinAccidentes, currentData.ultimaActualizacion));
      }
      return SaveFailed;
    }
  }

  // ================================================================ properties

  /** saveData reports exactly whether the file could be written; a failed
      write leaves the file as it was. */
  lemma SaveReportsWritability(file: FileState<LegacyRecord>, writable: bool, rec: LegacyRecord)
    ensures var (ok, f) := SaveSpec(file, writable, rec);
            && ok == writable
            && (ok ==> f == Valid(Persisted(rec)) && f.rec.ultimoIncremento == rec.ultimoIncremento)
            && (!ok ==> f == file)
  {
  }

  /** A missing or corrupt file gives the default record: count 0 and
      ultimoIncremento today; it is written when the file can be written. */
  lemma UnreadableFileGivesDefault(clock: Clock, file: FileState<LegacyRecord>, writable: bool, now: int)
    requires !file.Valid?
    ensures var (d, f) := LoadSpec(clock, file, writable, now);
            && d.diasSinAccidentes == Num(0) && d.ultimoIncremento == Some(JStr(clock.dateString(now)))
            && f == (if writable then Valid(d) else file)
  {
  }

  /** On the day of the last increment the check changes nothing. */
  lemma CheckSameDayIsNoOp(clock: Clock, rec: LegacyRecord, writable: bool, now: int)
    requires rec.ultimoIncremento == Some(JStr(clock.dateString(now)))
    ensures CheckSpec(clock, Valid(rec), writable, now) == (rec, Valid(rec))
  {
  }

  /** On any other day, after a prior increment, the check adds exactly one,
      however many days have passed, and stamps today: n becomes n + 1, and
      null becomes 1. */
  lemma CheckAddsExactlyOne(clock: Clock, rec: LegacyRecord, writable: bool, now: int)
    requires TruthyValue(rec.ultimoIncremento) && rec.ultimoIncremento != Some(JStr(clock.dateString(now)))
    ensures var (d, f) := CheckSpec(clock, Valid(rec), writable, now);
            && d == LegacyRecord(Add(rec.diasSinAccidentes, 1), Some(JStr(clock.isoStamp(now))), Some(JStr(clock.dateString(now))))
            && (rec.diasSinAccidentes.Num? ==> d.diasSinAccidentes == Num(rec.diasSinAccidentes.n + 1))
            && (rec.diasSinAccidentes.Null? ==> d.diasSinAccidentes == Num(1))
            && f == (if writable then Valid(Persisted(d)) else Valid(rec))
  {
  }

  /** The first observation (no prior ultimoIncremento) stamps today and
      keeps the count. */
  lemma CheckFirstObservation(clock: Clock, rec: LegacyRecord, writable: bool, now: int)
    requires !TruthyValue(rec.ultimoIncremento) && clock.dateString(now) != ""
    ensures var (d, f) := CheckSpec(clock, Valid(rec), writable, now);
            && d == rec.(ultimoIncremento := Some(JStr(clock.dateString(now))))
            && f == (if writable then Valid(Persisted(d)) else Valid(rec))
  {
  }

  /** With a writable file a second check on the same day changes nothing.
      With a file that cannot be written, every request on a new day adds
      one again, since the stamp is never stored. */
  lemma CheckIsIdempotent(clock: Clock, file: FileState<LegacyRecord>, now: int)
    ensures var f := CheckSpec(clock, file, true, now).1;
            f.Valid? && f.rec.ultimoIncremento == Some(JStr(clock.dateString(now))) && CheckSpec(clock, f, true, now) == (f.rec, f)
  {
  }

  /** A read-only file whose last increment is another day is bumped again
      on every request. */
  lemma ReadOnlyFileBumpsEveryRequest(clock: Clock, rec: LegacyRecord, now: int, n: int)
    requires TruthyValue(rec.ultimoIncremento) && rec.ultimoIncremento != Some(JStr(clock.dateString(now)))
    requires rec.diasSinAccidentes == Num(n)
    ensures var (d, f) := CheckSpec(clock, Valid(rec), false, now);
            var (d2, f2) := CheckSpec(clock, f, false, now);
            f2 == Valid(rec) && d.diasSinAccidentes == Num(n + 1) && d2.diasSinAccidentes == Num(n + 1)
  {
    CheckAddsExactlyOne(clock, rec, false, now);
  }

  /** A password that is anything but the admin password as a string (a
      wrong text, a falsy value, or a number, array or object whatever its
      String() text) answers 401 and leaves the file as it was, in every
      admin handler. */
  lemma RefusedPasswordChangesNothing(clock: Clock, file: FileState<LegacyRecord>, writable: bool, password: Option<JsonValue>,
                                      dias: Option<JsonValue>, imp: Option<ImportData>, now: int)
    requires password != Some(JStr(ADMIN_PASSWORD))
    ensures UpdateSpec(clock, file, writable, password, dias, now) == (Unauthorized, file)
    ensures ResetSpec(clock, file, writable, password, now) == (Unauthorized, file)
    ensures ImportSpec(clock, file, writable, password, imp, now) == (Unauthorized, file)
  {
  }

  /** A dias that parses to NaN or a negative number answers 400 before the
      file is read. */
  lemma UpdateRejectsInvalidDias(clock: Clock, file: FileState<LegacyRecord>, writable: bool, dias: Option<JsonValue>, now: int)
    requires var n := ParseInt(ToJsString(dias), 10); n.None? || n.value < 0
    ensures UpdateSpec(clock, file, writable, Some(JStr(ADMIN_PASSWORD)), dias, now) == (BadRequest, file)
  {
  }

  /** A successful update sets the count and stamps ultimoIncremento with
      today, so a check later that day adds nothing. */
  lemma UpdateStampsToday(clock: Clock, file: FileState<LegacyRecord>, password: Option<JsonValue>, dias: Option<JsonValue>, now: int, later: int)
    requires clock.dateString(later) == clock.dateString(now)
    ensures var (r, f) := UpdateSpec(clock, file, true, password, dias, now);
            r.Updated? ==>
              && f.Valid? && f.rec.diasSinAccidentes == Num(ParseInt(ToJsString(dias), 10).value)
              && f.rec.ultimoIncremento == Some(JStr(clock.dateString(now)))
              && CheckSpec(clock, f, true, later) == (f.rec, f)
  {
  }

  /** A successful reset sets the count to 0 and stamps ultimoIncremento with
      today, so a check later that day adds nothing. */
  lemma ResetStampsToday(clock: Clock, file: FileState<LegacyRecord>, password: Option<JsonValue>, now: int, later: int)
    requires clock.dateString(later) == clock.dateString(now)
    ensures var (r, f) := ResetSpec(clock, file, true, password, now);
            r.ResetFrom? ==>
              && f.Valid? && f.rec.diasSinAccidentes == Num(0)
              && f.rec.ultimoIncremento == Some(JStr(clock.dateString(now)))
              && CheckSpec(clock, f, true, later) == (f.rec, f)
  {
  }

  /** Import overwrites only the fields it is given: a count that is not
      undefined (read by parseInt), and a date field whose value is truthy;
      undefined, null, false, 0 and "" leave a date field as it was. */
  lemma ImportOverwritesOnlyGiven(current: LegacyRecord, imp: ImportData)
    ensures var d := ImportedRecord(current, imp);
            && (imp.diasSinAccidentes.None? ==> d.diasSinAccidentes == current.diasSinAccidentes)
            && (imp.diasSinAccidentes.Some? ==> d.diasSinAccidentes == ParsedCount(ToJsString(imp.diasSinAccidentes)))
            && (TruthyValue(imp.ultimaActualizacion) ==> d.ultimaActualizacion == imp.ultimaActualizacion)
            && (!TruthyValue(imp.ultimaActualizacion) ==> d.ultimaActualizacion == current.ultimaActualizacion)
            && (TruthyValue(imp.ultimoIncremento) ==> d.ultimoIncremento == imp.ultimoIncremento)
            && (!TruthyValue(imp.ultimoIncremento) ==> d.ultimoIncremento == current.ultimoIncremento)
            && (imp.ultimoIncremento in {Some(JNull), Some(JBool(false)), Some(JNum("0")), Some(JStr(""))} ==>
                  d.ultimoIncremento == current.ultimoIncremento)
  {
  }

  /** An import whose diasSinAccidentes is no number stores null, and the
      next day's check then restarts the count at 1. */
  lemma ImportedNaNRestartsAtOne(clock: Clock, file: FileState<LegacyRecord>, imp: ImportData, now: int, later: int)
    requires imp.diasSinAccidentes.Some? && ParseInt(ToJsString(imp.diasSinAccidentes), 10).None?
    requires TruthyValue(ImportedRecord(LoadSpec(clock, file, true, now).0, imp).ultimoIncremento)
    requires Some(JStr(clock.dateString(later))) != ImportedRecord(LoadSpec(clock, file, true, now).0, imp).ultimoIncremento
    ensures var (r, f) := ImportSpec(clock, file, true, Some(JStr(ADMIN_PASSWORD)), Some(imp), now);
            && r.Imported? && r.view.diasSinAccidentes == NaN
            && f.Valid? && f.rec.diasSinAccidentes == Null
            && CheckSpec(clock, f, true, later).0.diasSinAccidentes == Num(1)
  {
  }

  /** Side by side with the day-counter store on a record last advanced
      k >= 2 Chile days ago: the store adds k, this server adds 1. */
  lemma GapCountedOnceHere(env: Counter.Env, rec: Counter.Record, arg: ChileZone.TimeArg, now: int, last: int,
                           clock: Clock, legacyNow: int)
    requires Counter.SaneEnv(env) && ChileZone.IsTimeValue(EcolabTimeLib.ChileNow(arg, now))
    requires Truthy(rec.lastRunChileDate) && Calendar.IsoDayNumber(rec.lastRunChileDate.value) == Some(last)
    requires last + 2 <= Counter.TodayNumber(env, arg, now)
    requires Truthy(rec.ultimoIncremento) && rec.ultimoIncremento != Some(clock.dateString(legacyNow))
    ensures var k := Counter.TodayNumber(env, arg, now) - last;
            var c := Counter.EnsureSpec(env, DataFile.Valid(rec), true, arg, now).0;
            var legacy := LegacyRecord(rec.diasSinAccidentes, AsJson(rec.ultimaActualizacion), AsJson(rec.ultimoIncremento));
            var l := CheckSpec(clock, DataFile.Valid(legacy), true, legacyNow).0;
            && c.Return? && c.value.data.diasSinAccidentes == Add(rec.diasSinAccidentes, k)
            && l.diasSinAccidentes == Add(rec.diasSinAccidentes, 1)
            && (rec.diasSinAccidentes.Num? ==>
                  && c.value.data.diasSinAccidentes == Num(rec.diasSinAccidentes.n + k)
                  && l.diasSinAccidentes == Num(rec.diasSinAccidentes.n + 1))
            && k >= 2
  {
    Counter.CatchUp(env, rec, true, arg, now, last);
    var legacy := LegacyRecord(rec.diasSinAccidentes, AsJson(rec.ultimaActualizacion), AsJson(rec.ultimoIncremento));
    AsJsonAgrees(rec.ultimoIncremento);
    CheckAddsExactlyOne(clock, legacy, true, legacyNow);
  }
}
