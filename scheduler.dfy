/** The midnight scheduler: a two-state machine (running, timeout) over the
    host's timer table. A timer firing and the settling of the asynchronous
    tick it starts are separate steps, so that stop() and start() can run
    while a tick is in flight. */
module Scheduler {
  import opened Js
  import opened ChileZone
  import EcolabTimeLib

  /** The host's timers: pending maps each armed timer id to its delay. */
  class TimerRuntime {
    var pending: map<nat, int>
    var nextId: nat

    ghost predicate Valid()
      reads this
    {
      nextId >= 1 && forall id :: id in pending ==> 1 <= id < nextId
    }

    constructor ()
      ensures Valid() && pending == map[] && nextId == 1
    {
      pending := map[];
      nextId := 1;
    }

    /** setTimeout: arm a timer under a fresh id. */
    method SetTimeout(delay: int) returns (id: nat)
      requires Valid()
      modifies this
      ensures Valid()
      ensures id == old(nextId) && id >= 1 && id !in old(pending)
      ensures pending == old(pending)[id := delay] && nextId == old(nextId) + 1
    {
      id := nextId;
      pending := pending[id := delay];
      nextId := nextId + 1;
    }

    /** clearTimeout: disarm a timer; an id that is not pending is ignored. */
    method ClearTimeout(id: nat)
      requires Valid()
      modifies this
      ensures Valid()
      ensures pending == old(pending) - {id} && nextId == old(nextId)
    {
      pending := pending - {id};
    }

    /** The host fires a pending timer: it is no longer armed. */
    method Fire(id: nat) returns (delay: int)
      requires Valid() && id in pending
      modifies this
      ensures Valid()
      ensures delay == old(pending)[id]
      ensures pending == old(pending) - {id} && nextId == old(nextId)
    {
      delay := pending[id];
      pending := pending - {id};
    }
  }

  class ChileMidnightScheduler {
    const timers: TimerRuntime
    const zone: Zone
    var running: bool
    var timeout: Option<nat>
    /** The number of ticks whose onTick has started and not yet settled. */
    ghost var inFlight: nat

    ghost predicate Valid()
      reads this, timers
    {
      timers.Valid() && (running <==> timeout.Some?)
    }

    /** The regime the scheduler is meant to stay in: at most one timer armed
        or one tick in flight; none while stopped; and while running with no
        tick in flight, exactly the timer that `timeout` holds. */
    ghost predicate Calm()
      reads this, timers
    {
      && |timers.pending| + inFlight <= 1
      && (!running ==> timers.pending == map[])
      && (running && inFlight == 0 ==> timeout.Some? && timers.pending.Keys == {timeout.value})
    }

    constructor (timers: TimerRuntime, zone: Zone)
      requires timers.Valid() && timers.pending == map[]
      ensures Valid() && Calm()
      ensures this.timers == timers && this.zone == zone
      ensures !running && timeout == None && inFlight == 0
    {
      this.timers := timers;
      this.zone := zone;
      running := false;
      timeout := None;
      inFlight := 0;
    }

    /** _scheduleNext: when running, arm one timer for the next Chile
        midnight, with the delay computed from the clock reading now;
        otherwise do nothing. */
    method ScheduleNext(now: int)
      requires timers.Valid() && (timeout.Some? ==> running)
      modifies this, timers
      ensures Valid() && running == old(running) && inFlight == old(inFlight)
      ensures !old(running) ==>
                timeout == old(timeout) && timers.pending == old(timers.pending) && timers.nextId == old(timers.nextId)
      ensures old(running) ==>
                && timeout == Some(old(timers.nextId))
                && old(timers.nextId) !in old(timers.pending)
                && timers.pending == old(timers.pending)[old(timers.nextId) := EcolabTimeLib.MsUntilNextChileMidnight(zone, OtherArg, now)]
                && timers.nextId == old(timers.nextId) + 1
    {
      if !running {
        return;
      }
      var delayMs := EcolabTimeLib.MsUntilNextChileMidnight(zone, OtherArg, now);
      var id := timers.SetTimeout(delayMs);
      timeout := Some(id);
    }

    /** start: from stopped, set running and arm the next tick; while
        running, nothing changes. */
    method Start(now: int)
      requires Valid()
      modifies this, timers
      ensures Valid() && running && inFlight == old(inFlight)
      ensures old(running) ==>
                timeout == old(timeout) && timers.pending == old(timers.pending) && timers.nextId == old(timers.nextId)
      ensures !old(running) ==>
                && timeout == Some(old(timers.nextId))
                && timers.pending == old(timers.pending)[old(timers.nextId) := EcolabTimeLib.MsUntilNextChileMidnight(zone, OtherArg, now)]
                && timers.nextId == old(timers.nextId) + 1
      ensures old(Calm()) && (old(running) || inFlight == 0) ==> Calm()
    {
      if running {
        return;
      }
      running := true;
      ScheduleNext(now);
    }

    /** stop: clear running, cancel the held timer and forget it. */
    method Stop()
      requires Valid()
      modifies this, timers
      ensures Valid() && !running && timeout == None && inFlight == old(inFlight)
      ensures timers.pending == (if old(timeout).Some? then old(timers.pending) - {old(timeout).value} else old(timers.pending))
      ensures timers.nextId == old(timers.nextId)
      ensures old(Calm()) ==> Calm() && timers.pending == map[]
    {
      running := false;
      if timeout.Some? {
        timers.ClearTimeout(timeout.value);
        timeout := None;
      }
    }

    /** A pending timer fires: the host disarms it and onTick starts. */
    method TimerFires(id: nat)
      requires Valid() && id in timers.pending
      modifies this, timers
      ensures Valid() && running == old(running) && timeout == old(timeout)
      ensures timers.pending == old(timers.pending) - {id} && timers.nextId == old(timers.nextId)
      ensures inFlight == old(inFlight) + 1
      ensures old(Calm()) ==> Calm()
    {
      var _ := timers.Fire(id);
      inFlight := inFlight + 1;
    }

    /** The onTick of a fired timer settles, resolving or throwing
        (tickThrew); either way the finally block calls _scheduleNext. */
    method TickSettles(now: int, tickThrew: bool)
      requires Valid() && inFlight > 0
      modifies this, timers
      ensures Valid() && running == old(running) && inFlight == old(inFlight) - 1
      ensures !old(running) ==>
                timeout == old(timeout) && timers.pending == old(timers.pending) && timers.nextId == old(timers.nextId)
      ensures old(running) ==>
                && timeout == Some(old(timers.nextId))
                && timers.pending == old(timers.pending)[old(timers.nextId) := EcolabTimeLib.MsUntilNextChileMidnight(zone, OtherArg, now)]
                && timers.nextId == old(timers.nextId) + 1
      ensures old(Calm()) ==> Calm()
    {
      inFlight := inFlight - 1;
      ScheduleNext(now);
    }
  }

  /** Arming a fresh id adds one timer, and disarming it restores the table. */
  lemma AddThenRemove(m: map<nat, int>, k: nat, v: int)
    requires k !in m
    ensures |m[k := v]| == |m| + 1 && m[k := v] - {k} == m
  {
  }

  /** A fresh scheduler is started and its first timer (id 1) fires: the
      tick is in flight and nothing is armed. */
  method TickInFlight(zone: Zone, now: int) returns (timers: TimerRuntime, s: ChileMidnightScheduler)
    ensures fresh(timers) && fresh(s) && s.timers == timers && s.zone == zone
    ensures s.Valid() && s.running && s.timeout == Some(1) && s.inFlight == 1
    ensures timers.pending == map[] && timers.nextId == 2
  {
    ghost var none: map<nat, int> := map[];
    timers := new TimerRuntime();
    s := new ChileMidnightScheduler(timers, zone);
    s.Start(now);
    s.TimerFires(1);
    AddThenRemove(none, 1, EcolabTimeLib.MsUntilNextChileMidnight(zone, OtherArg, now));
  }

  /** A stop() while a tick is in flight prevents the re-arm: once the tick
      settles nothing is pending and the scheduler stays stopped. */
  method StopDuringTick(zone: Zone, now: int) returns (armed: nat, stillRunning: bool)
    ensures armed == 0 && !stillRunning
  {
    var timers, s := TickInFlight(zone, now);
    s.Stop();
    s.TickSettles(now, true);
    armed := |timers.pending|;
    stillRunning := s.running;
  }

  /** stop() then start() while a tick is in flight: the finally block of the
      old tick re-arms as well and overwrites `timeout`, so two timers end up
      armed; a later stop() cancels only the one `timeout` holds, and the
      other still fires. */
  method RestartDuringTick(zone: Zone, now: int) returns (armedBeforeStop: nat, armedAfterStop: nat)
    ensures armedBeforeStop == 2 && armedAfterStop == 1
  {
    ghost var d := EcolabTimeLib.MsUntilNextChileMidnight(zone, OtherArg, now);
    ghost var none: map<nat, int> := map[];
    var timers, s := TickInFlight(zone, now);
    s.Stop();
    assert none - {1} == none;
    s.Start(now);
    s.TickSettles(now, false);
    AddThenRemove(none, 2, d);
    AddThenRemove(none[2 := d], 3, d);
    armedBeforeStop := |timers.pending|;
    s.Stop();
    armedAfterStop := |timers.pending|;
  }
}
