/** The admin HTTP handlers of the day counter: the password gate, the
    counter view, and the update and reset handlers. Each takes the request
    body, loads the record through the counter store, changes fields of it
    and saves it. A field of the request body is a JSON value, and None
    stands for undefined. */
module Admin {
  import opened Js
  import opened ChileZone
  import opened DataFile
  import opened Counter
  import EcolabTimeLib

  const DefaultAdminPassword := "jefecito"

  /** process.env.ADMIN_PASSWORD || 'jefecito'. */
  function AdminPassword(envVar: Option<string>): (p: string)
    ensures p != ""
    ensures Truthy(envVar) ==> p == envVar.value
    ensures !Truthy(envVar) ==> p == DefaultAdminPassword
  {
    if Truthy(envVar) then envVar.value else DefaultAdminPassword
  }

  /** requirePassword: a falsy password, or any value other than the admin
      password as a string (`!==` compares without conversion), is refused. */
  function RequirePassword(admin: string, password: Option<JsonValue>): (ok: bool)
    ensures admin != "" ==> (ok <==> password == Some(JStr(admin)))
  {
    !(!TruthyValue(password) || password != Some(JStr(admin)))
  }

  datatype UpdateBody = UpdateBody(password: Option<JsonValue>, dias: Option<JsonValue>, recordAnterior: Option<JsonValue>)

  /** The counter fields a response carries. */
  datatype CounterView = CounterView(diasSinAccidentes: Count, ultimaActualizacion: Option<string>, recordAnterior: Option<int>)

  datatype Response =
    | Unauthorized                      // 401, wrong password
    | BadRequest                        // 400, dias is NaN or negative
    | ServerError                       // 500, an exception was caught
    | SaveFailed                        // 500, saveData resolved false
    | Counter(view: CounterView)        // GET /api/counter
    | Updated(oldDays: Count, view: CounterView)
    | ResetFrom(oldDays: Count, diasSinAccidentes: Count, ultimaActualizacion: Option<string>)

  /** The view of a record; an absent recordAnterior is reported as null (None). */
  function View(rec: Record): CounterView {
    CounterView(rec.diasSinAccidentes, rec.ultimaActualizacion, rec.recordAnterior)
  }

  /** The recordAnterior that an update leaves: a given value whose String()
      text parses to a number >= 0, or else the old one. */
  function NewRecordAnterior(current: Option<int>, given: Option<JsonValue>): Option<int> {
    if given.None? then current
    else
      var v := ParseInt(ToJsString(given), 10);
      if v.Some? && v.value >= 0 then v else current
  }

  /** The record after the update handler's field assignments. */
  function UpdatedRecord(data: Record, newDays: int, given: Option<JsonValue>, todayCl: string, stamp: string): Record {
    data.(diasSinAccidentes := Num(newDays),
          recordAnterior := NewRecordAnterior(data.recordAnterior, given),
          ultimaActualizacion := Some(stamp),
          lastRunChileDate := Some(todayCl))
  }

  /** The record after the reset handler's field assignments. */
  function ResetRecord(data: Record, todayCl: string, stamp: string): Record {
    data.(diasSinAccidentes := Num(0), ultimaActualizacion := Some(stamp), lastRunChileDate := Some(todayCl))
  }

  /** GET /api/counter: roll over, then show the record. */
  function GetSpec(env: Env, file: FileState<Record>, writable: bool, now: int): (Response, FileState<Record>) {
    var (c, f) := EnsureSpec(env, file, writable, OtherArg, now);
    if c.Throw? then (ServerError, f) else (Counter(View(c.value.data)), f)
  }

  /** POST /api/counter/update. */
  function UpdateSpec(env: Env, admin: string, file: FileState<Record>, writable: bool, body: UpdateBody, now: int)
    : (Response, FileState<Record>)
  {
    if !RequirePassword(admin, body.password) then (Unauthorized, file)
    else
      var newDays := ParseInt(ToJsString(body.dias), 10);
      if newDays.None? || newDays.value < 0 then (BadRequest, file)
      else
        var (c, f) := LoadSpec(env, file, writable, now);
        if c.Throw? then (ServerError, f)
        else
          var d := UpdatedRecord(c.value, newDays.value, body.recordAnterior, Today(env, OtherArg, now), env.isoStamp(now));
          var (s, f2) := SaveSpec(f, writable, d);
          if s.Throw? then (ServerError, f2)
          else if !s.value then (SaveFailed, f2)
          else (Updated(c.value.diasSinAccidentes, View(d)), f2)
  }

  /** POST /api/counter/reset. */
  function ResetSpec(env: Env, admin: string, file: FileState<Record>, writable: bool, password: Option<JsonValue>, now: int)
    : (Response, FileState<Record>)
  {
    if !RequirePassword(admin, password) then (Unauthorized, file)
    else
      var (c, f) := LoadSpec(env, file, writable, now);
      if c.Throw? then (ServerError, f)
      else
        var d := ResetRecord(c.value, Today(env, OtherArg, now), env.isoStamp(now));
        var (s, f2) := SaveSpec(f, writable, d);
        if s.Throw? then (ServerError, f2)
        else if !s.value then (SaveFailed, f2)
        else (ResetFrom(c.value.diasSinAccidentes, d.diasSinAccidentes, d.ultimaActualizacion), f2)
  }

  /** The handlers over one counter store. */
  class AdminApi {
    const store: CounterStore
    const admin: string

    constructor (store: CounterStore, adminEnv: Option<string>)
      ensures this.store == store && admin == AdminPassword(adminEnv)
    {
      this.store := store;
      admin := AdminPassword(adminEnv);
    }

    method GetCounter(now: int) returns (r: Response)
      modifies store
      ensures (r, store.file) == GetSpec(store.env, old(store.file), store.writable, now)
    {
      var c := store.EnsureDailyIncrement(OtherArg, now);
      if c.Throw? {
        return ServerError;
      }
      var data := c.value.data;
      return Counter(CounterView(data.diasSinAccidentes, data.ultimaActualizacion, data.recordAnterior));
    }

    method PostUpdate(body: UpdateBody, now: int) returns (r: Response)
      modifies store
      ensures (r, store.file) == UpdateSpec(store.env, admin, old(store.file), store.writable, body, now)
    {
      if !RequirePassword(admin, body.password) {
        return Unauthorized;
      }
      var newDays := ParseInt(ToJsString(body.dias), 10);
      if newDays.None? || newDays.value < 0 {
        return BadRequest;
      }
      var loaded := store.LoadData(now);
      if loaded.Throw? {
        return ServerError;
      }
      var data := loaded.value;
      var oldDays := data.diasSinAccidentes;
      data := data.(diasSinAccidentes := Num(newDays.value));
      if body.recordAnterior.Some? {
        var recordVal := ParseInt(ToJsString(body.recordAnterior), 10);
        data := data.(recordAnterior := if recordVal.Some? && recordVal.value >= 0 then recordVal else data.recordAnterior);
      }
      data := data.(ultimaActualizacion := Some(store.env.isoStamp(now)));
      data := data.(lastRunChileDate := Some(EcolabTimeLib.ChileTodayIsoDate(store.env.zone, OtherArg, now)));
      assert data == UpdatedRecord(loaded.value, newDays.value, body.recordAnterior, Today(store.env, OtherArg, now), store.env.isoStamp(now));
      var success := store.SaveData(data);
      if success.Throw? {
        return ServerError;
      }
      if success.value {
        return Updated(oldDays, CounterView(data.diasSinAccidentes, data.ultimaActualizacion, data.recordAnterior));
      }
      return SaveFailed;
    }

    method PostReset(password: Option<JsonValue>, now: int) returns (r: Response)
      modifies store
      ensures (r, store.file) == ResetSpec(store.env, admin, old(store.file), store.writable, password, now)
    {
      if !RequirePassword(admin, password) {
        return Unauthorized;
      }
      var loaded := store.LoadData(now);
      if loaded.Throw? {
        return ServerError;
      }
      var data := loaded.value;
      var oldDays := data.diasSinAccidentes;
      data := data.(diasSinAccidentes := Num(0));
      data := data.(ultimaActualizacion := Some(store.env.isoStamp(now)));
      data := data.(lastRunChileDate := Some(EcolabTimeLib.ChileTodayIsoDate(store.env.zone, OtherArg, now)));
      var success := store.SaveData(data);
      if success.Throw? {
        return ServerError;
      }
      if success.value {
        return ResetFrom(oldDays, data.diasSinAccidentes, data.ultimaActualizacion);
      }
      return SaveFailed;
    }
  }

  // ================================================================ properties

  /** A password that is anything but the admin password as a string (a
      wrong text, a falsy value, or a number, array or object whatever its
      String() text) answers 401 and leaves the data file as it was, for both
      handlers. */
  lemma RefusedPasswordChangesNothing(env: Env, admin: string, file: FileState<Record>, writable: bool, body: UpdateBody, now: int)
    requires admin != "" && body.password != Some(JStr(admin))
    ensures UpdateSpec(env, admin, file, writable, body, now) == (Unauthorized, file)
    ensures ResetSpec(env, admin, file, writable, body.password, now) == (Unauthorized, file)
  {
  }

  /** A dias that parses to NaN or a negative number answers 400 before the
      record is loaded: the data file stays as it was, even a missing one. */
  lemma InvalidDiasRejectedBeforeLoad(env: Env, admin: string, file: FileState<Record>, writable: bool, body: UpdateBody, now: int)
    requires body.password == Some(JStr(admin)) && admin != ""
    requires var n := ParseInt(ToJsString(body.dias), 10); n.None? || n.value < 0
    ensures UpdateSpec(env, admin, file, writable, body, now) == (BadRequest, file)
  {
  }

  /** parseInt(dias, 10) as the update handler reads it: an absent dias is
      NaN and so refused. */
  lemma AbsentDiasIsNaN()
    ensures ParseInt(ToJsString(None), 10) == None
  {
    assert TrimStart("undefined") == "undefined";
    assert DigitRun("undefined", 10) == 0;
  }

  /** parseInt ignores the text after the digits: "12abc" reads as 12. */
  lemma TrailingTextIgnored()
    ensures ParseInt("12abc", 10) == Some(12)
  {
    DigitsTwelve();
    assert "12abc" == "12" + "abc";
    ParseLeadingDigits("12", "abc");
  }

  /** An array holding the admin password is refused, although String()
      turns it into the admin password. */
  lemma ArrayPasswordRefused()
    ensures ToJsString(Some(JComposite(DefaultAdminPassword))) == AdminPassword(None)
    ensures !RequirePassword(AdminPassword(None), Some(JComposite(DefaultAdminPassword)))
  {
  }

  /** recordAnterior after an update: absent in the body, kept; a value that
      parses to n >= 0, replaced by n; any other value, kept (null stays null). */
  lemma RecordAnteriorRules(current: Option<int>, given: Option<JsonValue>)
    ensures given.None? ==> NewRecordAnterior(current, given) == current
    ensures var v := ParseInt(ToJsString(given), 10);
            given.Some? && v.Some? && v.value >= 0 ==> NewRecordAnterior(current, given) == v
    ensures var v := ParseInt(ToJsString(given), 10);
            given.Some? && (v.None? || v.value < 0) ==> NewRecordAnterior(current, given) == current
  {
  }

  /** A successful update writes dias, today's Chile date as the last run
      (mirrored into ultimoIncremento) and the current stamp, and answers with
      the old and the new count. */
  lemma UpdateSetsCount(env: Env, admin: string, file: FileState<Record>, body: UpdateBody, now: int)
    requires body.password == Some(JStr(admin)) && admin != ""
    requires var n := ParseInt(ToJsString(body.dias), 10); n.Some? && n.value >= 0
    ensures var n := ParseInt(ToJsString(body.dias), 10).value;
            var loaded := LoadSpec(env, file, true, now).0.value;
            var todayCl := Today(env, OtherArg, now);
            var d := UpdatedRecord(loaded, n, body.recordAnterior, todayCl, env.isoStamp(now));
            var (r, f) := UpdateSpec(env, admin, file, true, body, now);
            && r == Updated(loaded.diasSinAccidentes, View(d))
            && r.view.diasSinAccidentes == Num(n)
            && f == Valid(d.(ultimoIncremento := Some(todayCl)))
  {
    LoadStampsLastRun(env, file, true, now);
    var loaded := LoadSpec(env, file, true, now).0.value;
    var todayCl := Today(env, OtherArg, now);
    assert |todayCl| >= 10;
    var d := UpdatedRecord(loaded, ParseInt(ToJsString(body.dias), 10).value, body.recordAnterior, todayCl, env.isoStamp(now));
    assert Persisted(d) == d.(ultimoIncremento := Some(todayCl));
  }

  /** A successful reset writes a count of 0 and today's Chile date as the
      last run, keeps recordAnterior, and answers with the old count. */
  lemma ResetSetsZero(env: Env, admin: string, file: FileState<Record>, now: int)
    requires admin != ""
    ensures var loaded := LoadSpec(env, file, true, now).0.value;
            var todayCl := Today(env, OtherArg, now);
            var d := ResetRecord(loaded, todayCl, env.isoStamp(now));
            var (r, f) := ResetSpec(env, admin, file, true, Some(JStr(admin)), now);
            && r == ResetFrom(loaded.diasSinAccidentes, Num(0), Some(env.isoStamp(now)))
            && f == Valid(d.(ultimoIncremento := Some(todayCl)))
            && f.rec.recordAnterior == loaded.recordAnterior
  {
    LoadStampsLastRun(env, file, true, now);
  }

  /** saveData resolves true or throws, so neither handler ever answers
      "Error al guardar los datos". */
  lemma SaveFailedIsUnreachable(env: Env, admin: string, file: FileState<Record>, writable: bool, body: UpdateBody, now: int)
    ensures UpdateSpec(env, admin, file, writable, body, now).0 != SaveFailed
    ensures ResetSpec(env, admin, file, writable, body.password, now).0 != SaveFailed
  {
  }

  /** On a store that cannot be written, an authorised update with a valid
      dias, or an authorised reset, answers 500 and leaves the file as it was. */
  lemma ReadOnlyStoreKeepsFile(env: Env, admin: string, file: FileState<Record>, body: UpdateBody, now: int)
    requires body.password == Some(JStr(admin)) && admin != ""
    requires var n := ParseInt(ToJsString(body.dias), 10); n.Some? && n.value >= 0
    ensures UpdateSpec(env, admin, file, false, body, now) == (ServerError, file)
    ensures ResetSpec(env, admin, file, false, body.password, now) == (ServerError, file)
  {
    var (c, f) := LoadSpec(env, file, false, now);
    assert f == file;
  }

  /** After an admin write, a rollover later on the same Chile day adds
      nothing and writes nothing, so the count set by hand stands. */
  lemma AdminWriteThenSameDay(env: Env, f: FileState<Record>, writable: bool, now: int, later: int)
    requires f.Valid? && f.rec.lastRunChileDate == Some(Today(env, OtherArg, now))
    requires TodayNumber(env, OtherArg, later) == TodayNumber(env, OtherArg, now)
    ensures EnsureSpec(env, f, writable, OtherArg, later) == (Return(Rollover(f.rec, 0)), f)
  {
    assert Today(env, OtherArg, later) == Today(env, OtherArg, now);
    SameDayIsNoOp(env, f.rec, writable, OtherArg, later);
  }

  /** After an admin write, a rollover k >= 1 Chile days later adds exactly
      k to the count set by hand. */
  lemma AdminWriteThenLaterDay(env: Env, f: FileState<Record>, now: int, later: int)
    requires SaneEnv(env) && IsTimeValue(now) && IsTimeValue(later)
    requires f.Valid? && f.rec.lastRunChileDate == Some(Today(env, OtherArg, now))
    requires TodayNumber(env, OtherArg, now) < TodayNumber(env, OtherArg, later)
    ensures var k := TodayNumber(env, OtherArg, later) - TodayNumber(env, OtherArg, now);
            var c := EnsureSpec(env, f, true, OtherArg, later).0;
            && c.Return? && c.value.incrementsApplied == k
            && c.value.data.diasSinAccidentes == Add(f.rec.diasSinAccidentes, k)
  {
    EcolabTimeLib.ChileTodayIsoDateReadsBack(env.zone, OtherArg, now);
    CatchUp(env, f.rec, true, OtherArg, later, TodayNumber(env, OtherArg, now));
  }
}
