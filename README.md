# Días sin accidentes — a verified model of the day counter

"Días sin accidentes" is a small Node.js service that shows how many days have
passed without a workplace accident. It keeps one JSON record in a data file.
Once per Chile calendar day the count moves forward. Password-protected admin
handlers set the count or reset it to zero. This project models, in Dafny:

- the counter store (`Counter`, [counter.dfy](counter.dfy)). `loadData` heals a
  missing or corrupt file and migrates the legacy `ultimoIncremento` field.
  `saveData` mirrors `lastRunChileDate` into `ultimoIncremento`.
  `calculateDaysDiffExclusive` counts whole days between two `YYYY-MM-DD`
  dates. `ensureDailyIncrement` adds every Chile day that has passed since the
  last run;
- the Chile-time helpers, in both copies (`EcolabTime`, `EcolabTimeLib`). They
  rest on `ChileZone`, America/Santiago given as data, and `Calendar`, a
  verified days-from-civil conversion with ISO full-date text;
- the midnight scheduler (`Scheduler`). Its state machine (`running`,
  `timeout`) sits over an explicit timer table, and a timer firing and its tick
  settling are separate steps;
- the admin handlers of the current server (`Admin`): `requirePassword`,
  update, reset and the counter read;
- the first, stand-alone server (`LegacyServer`). It adds exactly one per new
  day and has update, reset, export and import;
- a set of router form validators (`Validations`): `port`,
  `portforwarding_ip`, `mac`, `reserve_multicast_mac`,
  `inputGroup_mac_prefix`, `subnetMaskValidator`, `exactlengths` and the IPv4
  pattern;
- the JavaScript semantics these depend on (`Js`): truthiness, `parseInt`,
  `Number.prototype.toString(2)`, `indexOf` and `%`.

How the model is built:

- Time is epoch milliseconds. The zone is a pair of functions: the UTC offset
  at an instant, and the instant at which a local day starts. The local day of
  instant `t` is `floor((t + offset(t)) / 86400000)`. A well-formed zone has
  local days that never run backwards, and each day's start lies on that day
  and is its first instant.
- The data file is one value `FileState = Missing | Corrupt | Valid(record)`. A
  write that fails is modelled by a `writable` flag of the store. The count
  `diasSinAccidentes` is a number, NaN, null or absent (`DataFile.Count`);
  `+=` and `++` follow ToNumber (null counts as 0, undefined gives NaN), and
  `JSON.stringify` writes NaN as null.
- Request body fields, and the date fields of the first server's record, are
  JSON values (`Js.JsonValue`): null, a boolean, a number or array or object
  given by its `String()` text, or a string. Truthiness and `!==` are decided on
  those values, so a number, `true` or an array given as a password is refused.
- The clock is a parameter `now`. The text of `new Date().toISOString()` and of
  `toDateString()` are functions of `now`.
- Stateful code is a class whose methods change the file state, or the
  scheduler's fields and the timer table. Each method is proved equal to a
  specification function (`LoadSpec`, `EnsureSpec`, `CheckSpec`, …). The
  lemmas state the promised properties about those functions.

## Model

| member | source | states |
|---|---|---|
| Js.ParseDecimalPrefix | src/server.js:57 | `parseInt(s, 10)` on a text starting with a decimal digit is the value of its leading digit run; trailing text is ignored |
| Js.JsRemainder | router_work/.router_commonValidations.js:82-83 | ECMAScript `%`: the dividend minus the remainder is a multiple of the divisor, the remainder is smaller than the divisor in magnitude and has the sign of the dividend |
| Js.Truthy | src/lib/lib/counter.js:22-24 | ToBoolean of an optional string: undefined, null and "" are falsy (stated by `Js.AsJsonAgrees`) |
| Js.TruthyValue | src/server.js:29 | ToBoolean of a JSON value (stated by `Js.FalsyValues`) |
| Js.FalsyValues | src/server.js:29 | the falsy JSON values are exactly undefined, null, false, 0 and ""; every array and object is truthy |
| Js.ToJsString | src/server.js:57 | `String(v)` of a JSON value, the text `parseInt` reads: "undefined", "null", "true"/"false", a number's or an array's text, the string itself |
| Js.AsJsonAgrees | src/lib/lib/counter.js:22-24 | a string seen as a JSON value has the same truthiness and its `String()` text is the string |
| Js.ParseInt | src/server.js:57 | `parseInt(s, radix)`: NaN for a radix outside 2..36; else white space and one sign skipped, a `0x` prefix for radix 16 or none, and the leading digit run read (its all-inputs statement is `Js.ParseDecimalPrefix`) |
| Js.DigitsTwelve | src/server.js:57 | the text "12" is two decimal digits worth 12 |
| Js.BinaryDigits | router_work/.router_commonValidations.js:214 | `toString(2)` of a natural number is a non-empty string of 0s and 1s, starting with 1 exactly when the number is positive |
| Js.BinaryDigitsValue | router_work/.router_commonValidations.js:214 | the binary text of n, read back in base 2, is n |
| Js.BinaryDigitsLength | router_work/.router_commonValidations.js:214-215 | the binary text of n has at most k digits exactly when n < 2^k |
| Js.OctetLength | router_work/.router_commonValidations.js:215 | the binary text has 8 or more digits exactly when n ≥ 128 |
| Js.Pow2 | router_work/.router_commonValidations.js:215 | a power of two is at least 1 |
| Js.NumberToBinary | router_work/.router_commonValidations.js:214 | `Number.prototype.toString(2)`: "NaN" for NaN, a minus sign and the binary digits for a negative number (digits stated by `Js.BinaryDigitsValue`) |
| Js.IndexOf | router_work/.router_commonValidations.js:41 | `indexOf` returns the first position holding x, or -1 exactly when x does not occur |
| Js.LastIndexOf | router_work/.router_commonValidations.js:221 | `lastIndexOf` returns the last position holding x, or -1 exactly when x does not occur |
| Js.JsRemainderOfNatural | router_work/.router_commonValidations.js:82-83 | for a non-negative dividend ECMAScript `%` is the Euclidean remainder |
| Js.JsRemainderOfNegated | router_work/.router_commonValidations.js:82-83 | negating the dividend negates the remainder (the quotient is truncated towards zero) |
| Calendar.CivilFromDays | instances/ecolab/src/lib/lib/time.js:13 | the calendar date of a day number is a valid date, and its day number is that day number |
| Calendar.CivilOfDayNumber | instances/ecolab/src/lib/lib/time.js:13 | converting a valid date to its day number and back gives the same date |
| Calendar.YearLength | src/lib/lib/counter.js:62-64 | consecutive years are a year's length apart in day numbers (365 or 366 by the Gregorian leap rule) |
| Calendar.MonthLength | src/lib/lib/counter.js:62-64 | consecutive months are a month's length apart, and the twelve months fill the year |
| Calendar.CivilYearBounds | instances/ecolab/src/lib/lib/time.js:13 | every day number within the time-value range falls in a year that ISO expanded years can write (±999999) |
| Calendar.FormatIsoDate | instances/ecolab/src/lib/lib/time.js:12-14 | `toISODate()` text of a valid date is at least ten characters (read back by `Calendar.ParseFormat`) |
| Calendar.ParseIsoDate | src/lib/lib/counter.js:62-63 | `DateTime.fromISO` on a calendar date: any date it gives is valid (`Calendar.ParseFormat` states the round trip) |
| Calendar.FormatShape | instances/ecolab/src/lib/time.js:17-19 | for years 0..9999 the date text has the `YYYY-MM-DD` shape |
| Calendar.ParseFormat | src/lib/lib/counter.js:62-63 | reading back the ISO text of a valid date gives that date |
| Calendar.ParseIsoOfDay | src/lib/lib/counter.js:62-63 | the ISO text of a day number parses to a date with that day number |
| Calendar.IsoDayNumberOfDay | src/lib/lib/counter.js:62-63 | the ISO text of a day number reads back as that day number |
| ChileZone.LocalDayInRange | instances/ecolab/src/lib/lib/time.js:8-9 | the Chile day of any valid time value is within the day range the ISO text covers |
| ChileZone.TodayIsoReadsBack | instances/ecolab/src/lib/lib/time.js:12-14 | the Chile date text of an instant reads back as the instant's local day |
| ChileZone.TodayIsoShape | instances/ecolab/src/lib/lib/time.js:12-14 | in years 0..9999 the Chile date text has the `YYYY-MM-DD` shape |
| ChileZone.UtcIsWellFormed | instances/ecolab/src/lib/lib/time.js:18 | a zone whose days start at their midnights (UTC) meets the well-formedness rules, so they can be met |
| ChileZone.LateMidnightIsNotWellFormed | instances/ecolab/src/lib/lib/time.js:18 | a zone whose day starts an hour after its first instant is refused: `startOf("day")` is the first instant of the day |
| ChileZone.NextMidnightFacts | instances/ecolab/src/lib/lib/time.js:16-26 | the next midnight is the first instant of the following local day: on that day, no instant of that day earlier, every instant from t up to it still on t's day, strictly after t, so `Math.max(1, …)` never intervenes |
| ChileZone.DelayBound | instances/ecolab/src/lib/lib/time.js:22-26 | with Santiago's offsets, the wait until the next midnight is at most 26 hours |
| EcolabTime.ChileNow | instances/ecolab/src/lib/time.js:7-15 | a Date or an object with `toJSDate` supplies the instant; anything else means the current time |
| EcolabTime.ChileTodayIsoDate | instances/ecolab/src/lib/time.js:17-19 | the Chile date text is at least ten characters long |
| EcolabTime.ChileTodayIsoDateReadsBack | instances/ecolab/src/lib/time.js:17-19 | the date text reads back as the Chile day of the chosen instant, and has the `YYYY-MM-DD` shape in years 0..9999 |
| EcolabTime.NextChileMidnight | instances/ecolab/src/lib/time.js:21-25 | the next midnight is the first instant of the Chile day after that of the chosen instant: it lies after the instant on that day, no instant of that day comes earlier, and every instant in between is still on the earlier day |
| EcolabTime.MsUntilNextChileMidnight | instances/ecolab/src/lib/time.js:27-31 | the wait is at least 1 ms, equals the next midnight minus the instant, and is at most 26 h with Santiago's offsets |
| EcolabTimeLib.ChileNow | instances/ecolab/src/lib/lib/time.js:7-10 | only a Date supplies the instant; anything else means the current time |
| EcolabTimeLib.ChileTodayIsoDate | instances/ecolab/src/lib/lib/time.js:12-14 | the Chile date text is at least ten characters long |
| EcolabTimeLib.ChileTodayIsoDateReadsBack | instances/ecolab/src/lib/lib/time.js:12-14 | the date text reads back as the Chile day, and has the `YYYY-MM-DD` shape in years 0..9999 |
| EcolabTimeLib.NextChileMidnight | instances/ecolab/src/lib/lib/time.js:16-20 | the next midnight is the first instant of the Chile day after that of the chosen instant: it lies after the instant on that day, no instant of that day comes earlier, and every instant in between is still on the earlier day |
| EcolabTimeLib.MsUntilNextChileMidnight | instances/ecolab/src/lib/lib/time.js:22-26 | the wait is at least 1 ms, equals the next midnight minus the instant, and is at most 26 h with Santiago's offsets |
| EcolabTimeLib.CopiesAgreeExceptOnDateTimes | instances/ecolab/src/lib/lib/time.js:7-10 | the two copies pick the same instant exactly when the argument is no DateTime (or holds now); a DateTime is read as "now" by this copy |
| Counter.DaysDiffExclusive | src/lib/lib/counter.js:60-66 | an empty or absent argument gives 0; any other result is NaN (None) or a day count that is never negative |
| Counter.DaysDiffOfDates | src/lib/lib/counter.js:62-65 | for two valid dates the difference is the forward distance between their day numbers, clamped at 0 |
| Counter.DaysDiffOfDayNumbers | src/lib/lib/counter.js:62-65 | for texts naming days a and b the difference is b - a when b ≥ a, else 0 |
| Counter.DaysDiffOfDays | src/lib/lib/counter.js:62-65 | from day d to day d + n the difference is exactly n; equal days give 0 |
| Counter.DaysDiffSamples | src/lib/lib/counter.js:60-66 | concrete dates: one day forwards, 0 backwards, two days across a leap February |
| Counter.DaysDiffMalformed | src/lib/lib/counter.js:62-65 | a non-empty text that names no date makes the difference NaN |
| Counter.SaveMirrorsLastRun | src/lib/lib/counter.js:50-58 | a writable save resolves true and writes a copy whose `ultimoIncremento` equals a truthy `lastRunChileDate`, a NaN count as null, other fields unchanged, so the file never holds NaN; an unwritable save throws and leaves the file |
| Counter.LoadStampsLastRun | src/lib/lib/counter.js:22-30 | whatever the file holds, a loaded record has a non-empty `lastRunChileDate` |
| Counter.LoadDefaults | src/lib/lib/counter.js:34-46 | a missing or corrupt file yields and persists the default record: count 0, both date fields today, `recordAnterior` null |
| Counter.LoadKeepsCurrentRecord | src/lib/lib/counter.js:17-33 | a record with a truthy `lastRunChileDate` is returned as it is and nothing is written |
| Counter.LoadMigratesLegacyDate | src/lib/lib/counter.js:22-31 | a record without `lastRunChileDate` gets the Chile date of a parseable `ultimoIncremento`, or else today, and is saved |
| Counter.ReloadIsStable | src/lib/lib/counter.js:17-33 | on a file holding no NaN, after one successful load a second load returns the persisted record and writes nothing |
| Counter.FirstRunStampsToday | src/lib/lib/counter.js:73-77 | the first-run branch stamps today, applies 0 increments and keeps the count |
| Counter.RolloverSameDay | src/lib/lib/counter.js:80-89 | a record last run today applies 0 increments and writes nothing |
| Counter.RolloverAddsDayGap | src/lib/lib/counter.js:80-87 | the increment applied is the clamped day distance from the last run to today |
| Counter.RolloverCatchUp | src/lib/lib/counter.js:80-87 | a last run k ≥ 1 days ago adds k to the count (`+=`: a null count becomes k, an absent one NaN), stamps today, returns k, keeps `recordAnterior`, and a save writes that record with NaN as null |
| Counter.RolloverIgnoresMalformedDate | src/lib/lib/counter.js:80-81 | a `lastRunChileDate` naming no date gives NaN, so nothing is added or written |
| Counter.RolloverOnlyAdds | src/lib/lib/counter.js:80-89 | the rollover adds exactly the increments it reports, never lowers a numeric count and never touches `recordAnterior` |
| Counter.EnsureOnCurrentRecord | src/lib/lib/counter.js:68-90 | for a current record, ensureDailyIncrement is the rollover of that record against today's Chile date |
| Counter.SameDayIsNoOp | src/lib/lib/counter.js:80-89 | on a record last run today by the same clock, nothing is added or written |
| Counter.CatchUp | src/lib/lib/counter.js:68-90 | a record last run on Chile day `last` before today gains exactly today - last days (by `+=`) and is stamped today; an unwritable file throws and is kept |
| Counter.MalformedLastRunNeverIncrements | src/lib/lib/counter.js:80-81 | a stored `lastRunChileDate` that names no date never increments |
| Counter.EnsureIsIdempotent | src/lib/lib/counter.js:68-90 | on a file holding no NaN, after a successful call a second call with the same clock applies 0, writes nothing and reports the count as stored |
| Counter.LegacyFileCatchesUp | src/lib/lib/counter.js:17-90 | a legacy file whose `ultimoIncremento` is k ≥ 1 Chile days old is migrated and then gains exactly k; a null count becomes k |
| Counter.SaveSpec | src/lib/lib/counter.js:50-58 | `saveData`: a writable file receives the record with a truthy `lastRunChileDate` mirrored and NaN written as null, and the call resolves true; otherwise it throws (stated by `Counter.SaveMirrorsLastRun`) |
| Counter.LoadSpec | src/lib/lib/counter.js:17-48 | `loadData`: a missing or corrupt file is replaced by the default record; a record without `lastRunChileDate` is migrated and saved; any other record is returned (stated by the `Load…` lemmas) |
| Counter.RolloverSpec | src/lib/lib/counter.js:70-89 | the rollover step of `ensureDailyIncrement`: the first-run branch, or adding the positive day gap and saving (stated by the `Rollover…` lemmas) |
| Counter.EnsureSpec | src/lib/lib/counter.js:68-90 | `ensureDailyIncrement`: load, then roll over to today's Chile date (stated by `Counter.CatchUp`, `Counter.EnsureIsIdempotent`) |
| Counter.RecoverSpec | src/lib/lib/counter.js:34-46 | the catch block of `loadData`: the default record is saved and returned, or the save throws (stated by `Counter.LoadDefaults`) |
| Counter.CounterStore.SaveData | src/lib/lib/counter.js:50-58 | the result and new file state are those of `SaveSpec` |
| Counter.CounterStore.LoadDefault | src/lib/lib/counter.js:34-46 | the result and new file state are those of `RecoverSpec` |
| Counter.CounterStore.LoadData | src/lib/lib/counter.js:17-48 | the result and new file state are those of `LoadSpec` |
| Counter.CounterStore.RollOver | src/lib/lib/counter.js:70-89 | the result and new file state are those of `RolloverSpec` |
| Counter.CounterStore.EnsureDailyIncrement | src/lib/lib/counter.js:68-90 | the result and new file state are those of `EnsureSpec` |
| Scheduler.TimerRuntime.SetTimeout | src/lib/lib/scheduler.js:31 | arms a timer under a fresh id with the given delay; no other timer changes |
| Scheduler.TimerRuntime.ClearTimeout | src/lib/lib/scheduler.js:22 | disarms the id; an id that is not pending is ignored |
| Scheduler.TimerRuntime.Fire | src/lib/lib/scheduler.js:31-40 | a pending timer fires and is no longer armed |
| Scheduler.ChileMidnightScheduler.constructor | src/lib/lib/scheduler.js:6-11 | a new scheduler is stopped, with no timeout held and no timer armed |
| Scheduler.ChileMidnightScheduler.ScheduleNext | src/lib/lib/scheduler.js:27-31 | when stopped, nothing changes; when running, one fresh timer is armed with the delay computed now, and `timeout` holds it |
| Scheduler.ChileMidnightScheduler.Start | src/lib/lib/scheduler.js:13-17 | while running nothing changes; from stopped it sets `running` and arms one timer with the fresh delay; the calm regime is kept |
| Scheduler.ChileMidnightScheduler.Stop | src/lib/lib/scheduler.js:19-25 | clears `running` and `timeout` and cancels the held timer; from the calm regime no timer is left (so it is idempotent) |
| Scheduler.ChileMidnightScheduler.TimerFires | src/lib/lib/scheduler.js:31-33 | the fired timer is disarmed and one more tick is in flight |
| Scheduler.ChileMidnightScheduler.TickSettles | src/lib/lib/scheduler.js:32-39 | whether onTick resolved or threw, the finally block re-arms exactly when running |
| Scheduler.TickInFlight | src/lib/lib/scheduler.js:13-33 | a fresh scheduler that is started and has its first timer fire is running, with one tick in flight and nothing armed |
| Scheduler.StopDuringTick | src/lib/lib/scheduler.js:19-38 | a stop while a tick is in flight leaves nothing armed once the tick settles |
| Scheduler.RestartDuringTick | src/lib/lib/scheduler.js:13-38 | stop then start while a tick is in flight leaves two timers armed; a later stop cancels only one |
| Admin.AdminPassword | src/server.js:21 | the password is the environment variable when truthy, else `jefecito`; never empty |
| Admin.RequirePassword | src/server.js:27-34 | the gate passes exactly when the given password is the string equal to the admin password; a number, boolean, array or object never passes |
| Admin.RefusedPasswordChangesNothing | src/server.js:27-34 | a password that is not the admin password as a string (absent, falsy, another string, or any non-string) answers 401 in update and reset, and the file is unchanged |
| Admin.InvalidDiasRejectedBeforeLoad | src/server.js:56-60 | a `dias` parsing to NaN or a negative number answers 400 before the record is loaded |
| Admin.AbsentDiasIsNaN | src/server.js:56-58 | an absent `dias` parses as NaN, so it is rejected |
| Admin.TrailingTextIgnored | src/server.js:57 | `"12abc"` is read as 12 |
| Admin.ArrayPasswordRefused | src/server.js:29 | an array whose `String()` text is the admin password is still refused (`!==` compares types) |
| Admin.NewRecordAnterior | src/server.js:65-68 | `recordAnterior` after an update: kept when the field is absent, `parseInt(String(v), 10)` when that is a number ≥ 0, else the old value (stated by `Admin.RecordAnteriorRules`) |
| Admin.RecordAnteriorRules | src/server.js:65-68 | an absent value keeps `recordAnterior`; a valid value ≥ 0 replaces it; an invalid value keeps the old one, or null |
| Admin.UpdateSetsCount | src/server.js:62-77 | a successful update writes `dias`, today's Chile date as last run, and a fresh stamp; it answers with that view |
| Admin.ResetSetsZero | src/server.js:89-99 | a successful reset writes a count of 0 and today's Chile date, keeps `recordAnterior`, and reports the count it replaced |
| Admin.SaveFailedIsUnreachable | src/server.js:74-102 | `saveData` resolves true or throws, so the "Error al guardar" answer is never given |
| Admin.ReadOnlyStoreKeepsFile | src/server.js:81-105 | on a store that cannot be written, an authorised update or reset answers 500 and the file is unchanged |
| Admin.AdminWriteThenSameDay | src/server.js:69-71 | after an admin write, a rollover later the same Chile day adds nothing |
| Admin.AdminWriteThenLaterDay | src/server.js:92-94 | after an admin write, a rollover k ≥ 1 Chile days later adds exactly k |
| Admin.GetSpec | src/server.js:36-51 | the counter read: the view of the record after `ensureDailyIncrement`, or 500 when it throws |
| Admin.UpdateSpec | src/server.js:53-84 | the update handler: 401, then 400 for a bad `dias`, then load, set and save, 500 on a thrown error (stated by the `Admin` update lemmas) |
| Admin.ResetSpec | src/server.js:86-106 | the reset handler: 401, then load, zero and save, 500 on a thrown error (stated by `Admin.ResetSetsZero`) |
| Admin.AdminApi.constructor | src/server.js:21 | the handlers use the store given and the configured admin password |
| Admin.AdminApi.GetCounter | src/server.js:36-51 | the response and file state are those of `GetSpec` |
| Admin.AdminApi.PostUpdate | src/server.js:53-84 | the response and file state are those of `UpdateSpec` |
| Admin.AdminApi.PostReset | src/server.js:86-106 | the response and file state are those of `ResetSpec` |
| LegacyServer.SaveReportsWritability | server.js:47-55 | `saveData` returns true exactly when the file can be written; a failed write leaves the file |
| LegacyServer.UnreadableFileGivesDefault | server.js:35-44 | a missing or corrupt file gives the default record (count 0, `ultimoIncremento` today), saved when possible |
| LegacyServer.CheckSameDayIsNoOp | server.js:63 | on the day of the last increment the check returns the record and writes nothing |
| LegacyServer.CheckAddsExactlyOne | server.js:63-70 | on another day after a prior increment the count grows by `++` (exactly one for a number, 1 from null), however many days passed, and today is stamped; the write happens when the file is writable |
| LegacyServer.CheckFirstObservation | server.js:65-70 | without a prior `ultimoIncremento` the check stamps today and keeps the count |
| LegacyServer.CheckIsIdempotent | server.js:58-73 | with a writable file, a second check the same day changes nothing |
| LegacyServer.ReadOnlyFileBumpsEveryRequest | server.js:63-70 | on a file that cannot be written, every request on a new day adds one to the stored count again |
| LegacyServer.RefusedPasswordChangesNothing | server.js:104-233 | a password that is not the admin password as a string (absent, falsy, another string, or any non-string) answers 401 in update, reset and import, and the file is unchanged |
| LegacyServer.UpdateRejectsInvalidDias | server.js:117-123 | a `dias` parsing to NaN or a negative number answers 400 before the file is read |
| LegacyServer.UpdateStampsToday | server.js:125-132 | a successful update sets the count and stamps today, so a check later that day adds nothing |
| LegacyServer.ResetStampsToday | server.js:172-179 | a successful reset sets 0 and stamps today, so a check later that day adds nothing |
| LegacyServer.ImportOverwritesOnlyGiven | server.js:246-254 | import overwrites only the fields given: the count whenever present, a date field only when truthy (null, false, 0 and "" keep the old one); the others are kept |
| LegacyServer.ImportedNaNRestartsAtOne | server.js:246-248 | importing a non-numeric count stores null, and the next day's check restarts the count at 1 |
| LegacyServer.GapCountedOnceHere | server.js:66 | on a record k ≥ 2 days old, the counter store adds k (`+=`) while this server adds 1 (`++`) |
| LegacyServer.CheckSpec | server.js:58-78 | `checkDailyIncrement`: on a new day, `++` when there was a prior increment, stamp today, save (stated by the `Check…` lemmas) |
| LegacyServer.ImportedRecord | server.js:246-254 | the record after an import: `parseInt` of the given count (null for NaN), truthy date fields copied (stated by `LegacyServer.ImportOverwritesOnlyGiven`) |
| LegacyServer.Authorised | server.js:109 | the password check of update, reset and import passes exactly when the password is the admin password as a string (stated by `LegacyServer.RefusedPasswordChangesNothing`) |
| LegacyServer.ExportSpec | server.js:207-220 | the export: the loaded record as it is, without the daily check |
| LegacyServer.SaveSpec | server.js:47-55 | `saveData`: true with the record written (NaN as null), or false with the file kept (stated by `LegacyServer.SaveReportsWritability`) |
| LegacyServer.LoadSpec | server.js:31-45 | `loadData`: the stored record, or the default record saved when possible (stated by `LegacyServer.UnreadableFileGivesDefault`) |
| LegacyServer.GetSpec | server.js:83-101 | the counter read: the count and stamp of the record after `checkDailyIncrement` (stated by the `LegacyServer.Check…` lemmas) |
| LegacyServer.UpdateSpec | server.js:104-157 | the update handler: 401, then 400 for a bad `dias`, then load, set, stamp and save (stated by `LegacyServer.RefusedPasswordChangesNothing`, `LegacyServer.UpdateRejectsInvalidDias`, `LegacyServer.UpdateStampsToday`) |
| LegacyServer.ResetSpec | server.js:160-204 | the reset handler: 401, then load, zero, stamp and save (stated by `LegacyServer.RefusedPasswordChangesNothing`, `LegacyServer.ResetStampsToday`) |
| LegacyServer.ImportSpec | server.js:223-281 | the import handler: 401, then 400 without an object, then load, overwrite the given fields and save (stated by `LegacyServer.RefusedPasswordChangesNothing`, `LegacyServer.ImportOverwritesOnlyGiven`, `LegacyServer.ImportedNaNRestartsAtOne`) |
| LegacyServer.LegacyApp.SaveData | server.js:47-55 | the result and file state are those of `SaveSpec` |
| LegacyServer.LegacyApp.LoadData | server.js:31-45 | the result and file state are those of `LoadSpec` |
| LegacyServer.LegacyApp.CheckDailyIncrement | server.js:58-78 | the result and file state are those of `CheckSpec` |
| LegacyServer.LegacyApp.GetCounter | server.js:83-101 | the response and file state are those of `GetSpec` |
| LegacyServer.LegacyApp.PostUpdate | server.js:104-157 | the response and file state are those of `UpdateSpec` |
| LegacyServer.LegacyApp.PostReset | server.js:160-204 | the response and file state are those of `ResetSpec` |
| LegacyServer.LegacyApp.GetExport | server.js:207-220 | the response and file state are those of `ExportSpec` |
| LegacyServer.LegacyApp.PostImport | server.js:223-281 | the response and file state are those of `ImportSpec` |
| Validations.ParseNumeral | router_work/.router_commonValidations.js:214 | `parseInt` of a decimal numeral, with or without radix 10, is its value |
| Validations.PaddedNumeral | router_work/.router_commonValidations.js:148-159 | every run of decimal digits is a numeral preceded by zeros |
| Validations.LeadingZeros | router_work/.router_commonValidations.js:148-159 | a digit string whose value is 0 is all zeros |
| Validations.PaddedNumeralInRange | router_work/.router_commonValidations.js:148-159 | a zero-padded numeral of n is in lo..hi exactly when n is |
| Validations.Port | router_work/.router_commonValidations.js:157-159 | `port`: optional, or digits only with a value in 1..65535 (stated by `Validations.PortAcceptsNumerals`) |
| Validations.PortForwardingIp | router_work/.router_commonValidations.js:150-155 | `portforwarding_ip`: optional, or digits only within the box's bounds (stated by `Validations.PortForwardingBoxes`) |
| Validations.PortAcceptsNumerals | router_work/.router_commonValidations.js:157-159 | `port` accepts a zero-padded numeral of n exactly when 1 ≤ n ≤ 65535 |
| Validations.PortAcceptsOnlyNumerals | router_work/.router_commonValidations.js:157-159 | whatever `port` accepts (not optional) is all digits with a value in 1..65535 |
| Validations.PortForwardingBoxes | router_work/.router_commonValidations.js:148-155 | box 1 accepts 1..255, boxes 2 and 3 accept 0..254, box 4 accepts 1..253, digits only |
| Validations.FirstOctetValue | router_work/.router_commonValidations.js:82 | `parseInt(value.substr(0, 2), 16)` of a hex pair is its octet value |
| Validations.FirstOctetEvenIsEvenDigit | router_work/.router_commonValidations.js:82-83 | the first octet is even exactly when its second hex digit is even |
| Validations.Mac | router_work/.router_commonValidations.js:81-84 | `mac`: optional, or an even first octet and the six-pair shape (stated by `Validations.MacIsUnicastShape`) |
| Validations.ReserveMulticastMac | router_work/.router_commonValidations.js:114-116 | `reserve_multicast_mac`: anything but the all-zero address (stated by `Validations.ZeroMacIsWellFormedButReserved`) |
| Validations.MacIsUnicastShape | router_work/.router_commonValidations.js:81-84 | `mac` accepts exactly six colon-separated hex pairs whose first octet is even |
| Validations.ZeroMacIsWellFormedButReserved | router_work/.router_commonValidations.js:81-116 | the all-zero address passes `mac` and is the one `reserve_multicast_mac` rejects |
| Validations.MacPrefixValid | router_work/.router_commonValidations.js:92-108 | the loop accepts exactly when the first octet is even and the boxes are hex pairs up to the first blank, blanks after it |
| Validations.PrefixShapeIsRunThenBlanks | router_work/.router_commonValidations.js:98-106 | before the first blank box every box is non-empty; after it every box is blank |
| Validations.MaskBitsOfAt | router_work/.router_commonValidations.js:214 | each box's bits are `parseInt(box).toString(2)` |
| Validations.NoOneAfterZeroAppend | router_work/.router_commonValidations.js:220-229 | a bit string has no 1 after a 0 exactly when both halves have none and no 0 in the first meets a 1 in the second |
| Validations.ContiguousBitsSnoc | router_work/.router_commonValidations.js:209-231 | adding one box keeps the mask contiguous exactly when the boxes so far are, the new box is a full octet, and no 1 follows an earlier 0 |
| Validations.MaskStep | router_work/.router_commonValidations.js:207-234 | one more filled box appends its binary text to the mask; the mask stays contiguous only if the new text is a full octet and has no 1 after a 0, itself or after the earlier octets |
| Validations.SubnetMaskValidator | router_work/.router_commonValidations.js:207-234 | the loop accepts exactly when the boxes before the first empty one form full octets with no 1 bit after a 0 bit, within or across octets |
| Validations.AllOnesValue | router_work/.router_commonValidations.js:220 | the binary text of n ≥ 1 has no 0 exactly when n + 1 is a power of two |
| Validations.MaskValue | router_work/.router_commonValidations.js:220-228 | the binary text of n has no 1 after a 0 exactly when n is 2^L - 2^k for its length L and some k < L |
| Validations.EightBitMasks | router_work/.router_commonValidations.js:215-228 | the 8-bit numbers of that form are exactly 128, 192, 224, 240, 248, 252, 254, 255 |
| Validations.OctetValueMask | router_work/.router_commonValidations.js:214-228 | for 0..255, the binary text is a full octet with no 1 after a 0 exactly for 0, 128, 192, 224, 240, 248, 252, 254, 255 |
| Validations.OneBoxMask | router_work/.router_commonValidations.js:207-234 | a first box holding the numeral of 0..255 is accepted exactly for the values 0, 128, 192, 224, 240, 248, 252, 254, 255 |
| Validations.FourFilledBoxes | router_work/.router_commonValidations.js:209-231 | with four filled boxes, the verdict is the contiguity of their four bit strings |
| Validations.BlankSecondBox | router_work/.router_commonValidations.js:211-213 | an empty second box stops the check, so only the first box matters |
| Validations.SubnetAcceptsContiguous | router_work/.router_commonValidations.js:207-234 | the bits of 255.255.255.0 are contiguous |
| Validations.SubnetRejectsGap | router_work/.router_commonValidations.js:223-224 | the bits of 255.0.255.0 are not: a 1 follows a 0 |
| Validations.SubnetRejectsShortOctet | router_work/.router_commonValidations.js:215-217 | `12` is `1100`, shorter than 8 bits and nonzero, so it is rejected |
| Validations.BoxesContiguous | router_work/.router_commonValidations.js:207-234 | boxes 255, 255, 255, 0 are accepted |
| Validations.BoxesWithGap | router_work/.router_commonValidations.js:207-234 | boxes 255, 0, 255, 0 are rejected |
| Validations.ExactLengths | router_work/.router_commonValidations.js:40-42 | `exactlengths`: optional, or `inArray` finds the length at index 0 (stated by `Validations.ExactLengthsAcceptsFirstOnly`) |
| Validations.ExactLengthsAcceptsFirstOnly | router_work/.router_commonValidations.js:40-42 | `exactlengths` accepts exactly when the value's length is the first entry of the list |
| Validations.ExactLengthsSample | router_work/.router_commonValidations.js:40-42 | with lengths [8, 16], 8 characters pass and 16 characters fail |
| Validations.JoinSplit | router_work/.router_commonValidations.js:11 | joining the dot-separated parts of a text gives the text back |
| Validations.SplitOnPieces | router_work/.router_commonValidations.js:11 | no part of a split holds the separator |
| Validations.SplitJoin | router_work/.router_commonValidations.js:11 | splitting parts without dots, joined by dots, gives the parts back |
| Validations.OctetPatternToDecimal | router_work/.router_commonValidations.js:11 | a text matching one group of the IPv4 pattern is all digits with value 0..255 |
| Validations.DecimalIsOctetPattern | router_work/.router_commonValidations.js:11 | every all-digit text with value 0..255 matches one group of the IPv4 pattern |
| Validations.OctetPatternIsDecimal | router_work/.router_commonValidations.js:11 | one group of the IPv4 pattern (`0*` then 0..255) matches exactly the all-digit texts with value 0..255 |
| Validations.Ipv4Pattern | router_work/.router_commonValidations.js:11 | the IPv4 pattern: four dot-separated parts, each `0*` and one group (stated by `Validations.Ipv4PatternIsFourOctets`) |
| Validations.Ipv4 | router_work/.router_commonValidations.js:65-66 | the ipv4 check: optional, or the pattern matches |
| Validations.Ipv4PatternIsFourOctets | router_work/.router_commonValidations.js:11 | the IPv4 pattern matches exactly four dot-separated groups that are all digits with values 0..255 |
| Validations.DottedQuadAccepted | router_work/.router_commonValidations.js:11 | any four decimal groups with values 0..255, leading zeros allowed, joined by dots, match the pattern |

## Left out

- File I/O and JSON text: the data file is one abstract value. `JSON.parse`
  failures are the `Corrupt` state, and a write error is the `writable` flag of
  the store. Request body fields and the first server's date fields are JSON
  values; the counter store's date fields (`lastRunChileDate`,
  `ultimoIncremento`, `ultimaActualizacion`) are optional strings, and a number
  or other non-string there is not modelled.
- The count in a hand-edited file: `Count` covers what the programs write (a
  number, null) and an absent field. A string or boolean count, which `+=`
  would concatenate or convert, is not modelled.
- Js.ParseInt: its result is an exact integer. JavaScript numbers are doubles,
  so above 2^53 the value `parseInt` gives is rounded, and a numeral of 309 or
  more digits gives Infinity, which `JSON.stringify` stores as null. The same
  holds for Validations.MaskBits and Validations.SubnetMaskValidator (the
  binary text of a rounded value) and for the `dias` of Admin.UpdateSpec and
  LegacyServer.UpdateSpec and the imported count of LegacyServer.ImportedRecord.
- LegacyServer.UnreadableFileGivesDefault: covers a missing file and a text
  `JSON.parse` rejects. A file that parses to something other than an object
  is `Corrupt` in the model and gives the default record, but `server.js:34`
  returns it unchecked. With `null` (or a number, string or boolean) every
  counter read, update, reset and import answers 500, the export answers 200
  with that value, and the file is never healed; with an array, update and
  reset answer 200 while the file keeps the array, since `JSON.stringify`
  drops the named properties.
- The first server's `formatDate(new Date(ultimaActualizacion))`: when that
  field is absent or names no valid date, `formatDate` throws a RangeError, so
  the counter read and the import answer 500 where the model answers with the
  view, after any write has happened. Update and reset set the field to a
  fresh stamp first, so they are not affected.
- The clock: each request reads the clock once, as the parameter `now`. The
  handlers call `new Date()` several times, and readings that differ within
  one request are not modelled.
- The time zone database and luxon: the America/Santiago rules are a pair of
  functions constrained by well-formedness and Santiago's offset bounds.
  Luxon's parsing of forms other than `YYYY-MM-DD` and `±YYYYYY-MM-DD` is not
  modelled; the legacy `new Date(string)` parse is a parameter of the
  environment.
- `formatChile` and `formatDate` (display text in responses) and
  `Date.toDateString` are left out; the latter is a function of the clock.
- HTTP and process plumbing: Express routing, CORS, static files, HTTPS
  certificates, `getFirstNonInternalIPv4`, the SIGINT/SIGTERM backup and the
  startup call of the daily check.
- The root `lib/` copies are not part of this model. `src/server.js:16`, `:73`
  and `:95` import `lib/counter.js`, which is assumed to agree with
  `src/lib/lib/counter.js`, modelled by `Counter`; `Admin.SaveFailedIsUnreachable`
  rests on this. `src/server.js:10`, `:70` and `:93` import `lib/time.js`, and
  `src/lib/lib/counter.js:10` and `src/lib/lib/scheduler.js:3` import
  `src/lib/lib/time.js`; both are assumed to agree with
  `instances/ecolab/src/lib/lib/time.js`, modelled by `EcolabTimeLib`.
- Concurrency: async interleavings other than the scheduler's fire and settle
  steps, and lost updates between processes on the data file.
- The other validators in the router file are not modelled: `alphanumeric`,
  `hexadecimal`, `exactlength`, `ip`, `ipv6`, `ipv4_or_ipv6`, `device_name`,
  `inputGroup_mac`, the string, hostname and password patterns, the SSID rules,
  `greater_than` and the case matches. They are single regular expressions or
  DOM lookups.
- Validations.MacPrefixValid: requires six boxes, the box count of the MAC
  prefix widget (`getBox(1..6)`); the DOM lookup itself is not modelled.
- Validations.SubnetMaskValidator: requires four boxes, the box count of the
  subnet mask widget (`getBox(1..4)`); the DOM lookup itself is not modelled.
- Validations.PortForwardingIp: takes the box number as its numeric value
  (`None` when the id suffix is no number). jQuery's attribute lookup and the
  loose `==` between a string and a number are not modelled.
- The browser UI lets `dias` be omitted while `src/server.js:57-60` rejects a
  missing `dias`; the UI is not modelled, and `Admin.AbsentDiasIsNaN` states
  the server side.
- The scheduler's logger calls and the `reason` argument are left out, as is
  the body of `onTick`; its outcome is the `tickThrew` input of `TickSettles`.
  `Scheduler.RestartDuringTick` shows the interleaving (stop, then start, while
  a tick is in flight) under which two timers are armed. The at-most-one-timer
  invariant (`Calm`) is stated only for runs that avoid it.
