/**
 One iteration of the main loop of src/chip8.c, with the instruction
 scheduler, the event queue, ROM reopening, the opcode engine and rendering
 supplied from outside: whether an instruction slot is due is a boolean, the
 tick count is a `uint32_t` input, and event handling, re-initialisation,
 fetch and execute are function parameters.
 */
module HostLoop {
  import opened Ints
  import opened Wrappers
  import opened Emulator
  import Display

  /** `TIMER_DECREMENT_INTERVAL`: 1000 / 60 milliseconds, truncated. */
  const TimerInterval: nat := 1000 / 60

  /** Milliseconds since the last timer update, as `uint32_t` subtraction. */
  function Elapsed(ticks: u32, last: u32): u32 {
    Sub32(ticks, last)
  }

  /** Counting down toward zero without wrapping. */
  predicate CountedDown(before: u8, after: u8) {
    if before > 0 then after == before - 1 else after == 0
  }

  /** A due update that finds the sound counter run out while an unmuted tone plays. */
  predicate StopsTone(m: Machine, ticks: u32) {
    Elapsed(ticks, m.timers.lastUpdate) >= TimerInterval
    && m.timers.sound == 0 && m.sound.playing && !m.muted
  }

  /**
   The 60 Hz timer update: when at least 16 ms have passed since the last
   update, a positive delay counter is decremented, a positive sound counter
   is decremented and (unless muted) starts the tone, a zero sound counter
   stops a playing tone and resets its phase (unless muted), and the update
   time becomes `ticks`. Otherwise the counters stay, and the update time is
   pulled back to `ticks` if the clock reads earlier than it.
   */
  function TickTimers(m: Machine, ticks: u32): (r: Machine)
    ensures r == m.(timers := r.timers, sound := r.sound)
    ensures r.sound.poweredOn == m.sound.poweredOn
    ensures Elapsed(ticks, m.timers.lastUpdate) >= TimerInterval ==>
      && CountedDown(m.timers.delay, r.timers.delay)
      && CountedDown(m.timers.sound, r.timers.sound)
      && r.timers.lastUpdate == ticks
      && (m.timers.sound > 0 && !m.muted ==> r.sound.playing)
      && (m.timers.sound == 0 && !m.muted ==> !r.sound.playing)
      && (StopsTone(m, ticks) ==> r.sound.phase == 0.0)
    ensures Elapsed(ticks, m.timers.lastUpdate) < TimerInterval ==>
      && r.timers.delay == m.timers.delay
      && r.timers.sound == m.timers.sound
      && r.sound == m.sound
      && r.timers.lastUpdate == (if ticks < m.timers.lastUpdate then ticks else m.timers.lastUpdate)
    ensures m.muted ==> r.sound == m.sound
    ensures !StopsTone(m, ticks) ==> r.sound.phase == m.sound.phase
  {
    var t := m.timers;
    if Elapsed(ticks, t.lastUpdate) >= TimerInterval then
      var delay := if t.delay > 0 then t.delay - 1 else t.delay;
      var snd :=
        if t.sound > 0 then (if !m.muted then m.sound.(playing := true) else m.sound)
        else if m.sound.playing && !m.muted then m.sound.(playing := false, phase := 0.0)
        else m.sound;
      var sound := if t.sound > 0 then t.sound - 1 else t.sound;
      m.(timers := Timers(delay, sound, ticks), sound := snd)
    else if ticks < t.lastUpdate then
      m.(timers := t.(lastUpdate := ticks))
    else
      m
  }

  /**
   Because the elapsed time is computed modulo 2^32, the branch that pulls the
   update time back is reached only when the update time is ahead of the
   clock by more than 2^32 - 16 ms, that is just after the millisecond
   counter has wrapped around.
   */
  lemma PullBackOnlyAfterWrap(m: Machine, ticks: u32)
    requires Elapsed(ticks, m.timers.lastUpdate) < TimerInterval
    requires ticks < m.timers.lastUpdate
    ensures m.timers.lastUpdate - ticks > Two32 - TimerInterval
    ensures TickTimers(m, ticks).timers.lastUpdate == ticks
  {
  }

  /** Every tick of `ts` comes at least 16 ms after the one before, the first after `last`. */
  predicate AllDue(last: u32, ts: seq<u32>)
    decreases |ts|
  {
    ts == [] || (Elapsed(ts[0], last) >= TimerInterval && AllDue(ts[0], ts[1..]))
  }

  /** The timer updates at each tick of `ts` in turn. */
  function TickAll(m: Machine, ts: seq<u32>): (r: Machine)
    ensures r == m.(timers := r.timers, sound := r.sound)
    decreases |ts|
  {
    if ts == [] then m else TickAll(TickTimers(m, ts[0]), ts[1..])
  }

  function Drop(x: u8, n: nat): u8 {
    if x <= n then 0 else x - n
  }

  /** After `n` due updates both counters have dropped by `n`, stopping at zero. */
  lemma {:induction false} TimersCountDown(m: Machine, ts: seq<u32>)
    requires AllDue(m.timers.lastUpdate, ts)
    ensures TickAll(m, ts).timers.delay == Drop(m.timers.delay, |ts|)
    ensures TickAll(m, ts).timers.sound == Drop(m.timers.sound, |ts|)
    decreases |ts|
  {
    if ts != [] {
      var next := TickTimers(m, ts[0]);
      TimersCountDown(next, ts[1..]);
    }
  }

  /** Unmuted, the tone is off once the sound counter has run out and one more update has passed. */
  lemma {:induction false} ToneStopsAfterCountdown(m: Machine, ts: seq<u32>)
    requires !m.muted && AllDue(m.timers.lastUpdate, ts)
    requires |ts| == m.timers.sound + 1
    ensures TickAll(m, ts).timers.sound == 0
    ensures !TickAll(m, ts).sound.playing
    decreases |ts|
  {
    var next := TickTimers(m, ts[0]);
    if m.timers.sound > 0 {
      ToneStopsAfterCountdown(next, ts[1..]);
    } else {
      assert ts[1..] == [];
    }
  }

  /**
   The instruction rate: `DEFAULT_IPS` unless an `--ips` value was given;
   the value is stored in a `uint16_t`, and a value that ends up zero is
   replaced by `DEFAULT_IPS`, so the rate is always positive.
   */
  function EffectiveRate(ips: Option<int>): (r: u16)
    ensures r > 0
    ensures ips.None? ==> r == DefaultIps
    ensures ips.Some? && 0 < ips.value < Two16 ==> r == ips.value
    ensures ips.Some? && ips.value % Two16 == 0 ==> r == DefaultIps
    ensures ips.Some? && ips.value % Two16 != 0 ==> r == ips.value % Two16
  {
    match ips
    case None => DefaultIps
    case Some(n) =>
      var rate := n % Two16;
      if rate <= 0 then DefaultIps else rate
  }

  /**
   Key releases are forgotten before the event queue is drained into the
   display, so the handler sees the display with every release flag lowered.
   */
  function HandleEvents(m: Machine, events: Display.DisplayState -> Display.DisplayState): (r: Machine)
    requires |m.display.keyUp| == Display.AmountKeys
    ensures r == m.(display := r.display)
    ensures r.display == events(Display.ForgetReleases(m.display))
  {
    m.(display := events(m.display.(keyUp := Display.ClearKeys(m.display.keyUp))))
  }

  /**
   A release is visible for one iteration only: when the handler reports no
   new release, every release flag is down after event handling.
   */
  lemma NoReleaseWithoutEvent(m: Machine, events: Display.DisplayState -> Display.DisplayState)
    requires |m.display.keyUp| == Display.AmountKeys
    requires forall d :: events(d).keyUp == d.keyUp
    ensures |HandleEvents(m, events).display.keyUp| == Display.AmountKeys
    ensures forall k :: 0 <= k < Display.AmountKeys ==> !HandleEvents(m, events).display.keyUp[k]
  {
    var cleared := Display.ForgetReleases(m.display);
    assert events(cleared).keyUp == cleared.keyUp;
  }

  /** The release flags left by the previous iteration have no influence on event handling. */
  lemma EarlierReleasesIgnored(m: Machine, keys: seq<bool>, events: Display.DisplayState -> Display.DisplayState)
    requires |m.display.keyUp| == Display.AmountKeys && |keys| == Display.AmountKeys
    ensures HandleEvents(m.(display := m.display.(keyUp := keys)), events) == HandleEvents(m, events)
  {
    var m' := m.(display := m.display.(keyUp := keys));
    assert Display.ForgetReleases(m'.display) == Display.ForgetReleases(m.display);
  }

  /**
   A restart request: the machine is re-initialised only if the ROM could be
   reopened, the pixels are cleared and the request flag is lowered.
   */
  function Restart(m: Machine, romReopens: bool, reinit: Machine -> Machine): (r: Machine)
    ensures !r.display.reset
    ensures forall p :: 0 <= p < |r.display.pixelDrawn| ==> !r.display.pixelDrawn[p]
    ensures romReopens ==> r == reinit(m).(display := r.display)
    ensures !romReopens ==> r == m.(display := r.display)
    ensures !romReopens ==> r.display.(pixelDrawn := m.display.pixelDrawn, reset := m.display.reset) == m.display
    ensures romReopens ==>
      r.display.(pixelDrawn := reinit(m).display.pixelDrawn, reset := reinit(m).display.reset) == reinit(m).display
    ensures |r.display.pixelDrawn| == |(if romReopens then reinit(m) else m).display.pixelDrawn|
  {
    var base := if romReopens then reinit(m) else m;
    base.(display := Display.ResetDisplay(base.display).(reset := false))
  }

  /** The machine after the timer update and event handling that open every due iteration. */
  function Polled(m: Machine, ticks: u32, events: Display.DisplayState -> Display.DisplayState): (r: Machine)
    requires |m.display.keyUp| == Display.AmountKeys
    ensures r == m.(timers := r.timers, sound := r.sound, display := r.display)
  {
    HandleEvents(TickTimers(m, ticks), events)
  }

  /** What one pass of the main loop did. */
  datatype Iteration =
    | Stopped(code: int)
    | Idle(m: Machine)
    | Restarted(m: Machine, reinitialised: bool)
    | Executed(m: Machine, atFetch: Machine, opcode: u16, atExecute: Machine, redrawn: bool)

  /**
   One pass of `while (poweredOn)`: nothing happens until an instruction slot
   is due; then the timers are updated, key releases cleared and events
   handled; a restart request is served instead of an instruction; otherwise
   the opcode is fetched, the program counter advanced by 2, the opcode
   executed, and a dirty display redrawn, where a failed redraw ends the
   program with -1.
   */
  function Step(
    m: Machine,
    ticks: u32,
    slotDue: bool,
    events: Display.DisplayState -> Display.DisplayState,
    romReopens: bool,
    reinit: Machine -> Machine,
    fetch: Machine -> u16,
    execute: (Machine, u16) -> Machine,
    redrawOk: bool): (r: Iteration)
    requires |m.display.keyUp| == Display.AmountKeys
    ensures !m.display.poweredOn <==> r == Stopped(0)
    ensures r.Stopped? ==> r.code == 0 || r.code == -1
    ensures r.Idle? <==> m.display.poweredOn && !slotDue
    ensures m.display.poweredOn && slotDue && !Polled(m, ticks, events).display.reset ==>
      r.Executed? || r == Stopped(-1)
    ensures m.display.poweredOn && slotDue ==> (r.Restarted? <==> Polled(m, ticks, events).display.reset)
    ensures r.Restarted? ==> r.m == Restart(Polled(m, ticks, events), romReopens, reinit)
    ensures r.Executed? ==> r.atFetch == Polled(m, ticks, events)
    ensures r == Stopped(-1) <==>
      && m.display.poweredOn && slotDue
      && !Polled(m, ticks, events).display.reset
      && execute(Polled(m, ticks, events).(pc := Add16(m.pc, 2)), fetch(Polled(m, ticks, events))).display.dirty
      && !redrawOk
    ensures m.display.poweredOn && !slotDue ==> r == Idle(m)
    ensures r.Restarted? ==> !r.m.display.reset && r.reinitialised == romReopens
    ensures r.Restarted? ==> forall p :: 0 <= p < |r.m.display.pixelDrawn| ==> !r.m.display.pixelDrawn[p]
    ensures r.Executed? ==>
      && r.atFetch == m.(timers := r.atFetch.timers, sound := r.atFetch.sound, display := r.atFetch.display)
      && !r.atFetch.display.reset
      && r.opcode == fetch(r.atFetch)
      && r.atExecute == r.atFetch.(pc := Add16(m.pc, 2))
      && (r.redrawn <==> execute(r.atExecute, r.opcode).display.dirty)
      && r.m == execute(r.atExecute, r.opcode).(display := r.m.display)
      && r.m.display == execute(r.atExecute, r.opcode).display.(dirty := false)
    ensures r == Stopped(-1) ==> !redrawOk
    ensures r.Idle? ==> r.m == m
  {
    if !m.display.poweredOn then Stopped(0)
    else if !slotDue then Idle(m)
    else
      var polled := Polled(m, ticks, events);
      if polled.display.reset then
        Restarted(Restart(polled, romReopens, reinit), romReopens)
      else
        var opcode := fetch(polled);
        var advanced := polled.(pc := Add16(polled.pc, 2));
        var done := execute(advanced, opcode);
        if done.display.dirty then
          if redrawOk then Executed(done.(display := done.display.(dirty := false)), polled, opcode, advanced, true)
          else Stopped(-1)
        else Executed(done, polled, opcode, advanced, false)
  }

  /**
   With an opcode engine that leaves the program counter alone, an executed
   iteration moves it on by exactly one instruction, wrapping as `uint16_t`.
   */
  lemma PcAdvancesByTwo(
    m: Machine, ticks: u32, events: Display.DisplayState -> Display.DisplayState,
    romReopens: bool, reinit: Machine -> Machine, fetch: Machine -> u16,
    execute: (Machine, u16) -> Machine, redrawOk: bool)
    requires |m.display.keyUp| == Display.AmountKeys
    requires forall x: Machine, op: u16 :: execute(x, op).pc == x.pc
    ensures
      var r := Step(m, ticks, true, events, romReopens, reinit, fetch, execute, redrawOk);
      r.Executed? ==> r.m.pc == (m.pc + 2) % Two16
  {
  }

  /**
   The loop keeps the machine well formed whenever the event handler, the
   re-initialisation and the opcode engine do: the timer update and the
   clearing of key releases and pixels never break an invariant.
   */
  lemma StepPreservesValid(
    m: Machine, ticks: u32, slotDue: bool, events: Display.DisplayState -> Display.DisplayState,
    romReopens: bool, reinit: Machine -> Machine, fetch: Machine -> u16,
    execute: (Machine, u16) -> Machine, redrawOk: bool)
    requires Valid(m)
    requires forall d :: Display.Valid(d) ==> Display.Valid(events(d))
    requires forall x :: Valid(x) ==> Valid(reinit(x))
    requires forall x, op :: Valid(x) ==> Valid(execute(x, op))
    ensures
      var r := Step(m, ticks, slotDue, events, romReopens, reinit, fetch, execute, redrawOk);
      (r.Idle? || r.Restarted? || r.Executed?) ==> Valid(r.m)
  {
    if m.display.poweredOn && slotDue {
      var timed := TickTimers(m, ticks);
      assert Valid(timed);
      assert Display.Valid(Display.ForgetReleases(timed.display));
      var polled := Polled(m, ticks, events);
      assert Valid(polled);
      if polled.display.reset {
        var base := if romReopens then reinit(polled) else polled;
        assert Valid(base);
        assert Display.Valid(Display.ResetDisplay(base.display));
      } else {
        var done := execute(polled.(pc := Add16(polled.pc, 2)), fetch(polled));
        assert Valid(done);
      }
    }
  }
}
