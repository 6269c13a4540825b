/** `run_tui`: fetch, switch the terminal to cbreak mode, then redraw once per
    tick and fetch again after every full cycle of `REFRESH_INTERVAL` ticks, until
    `q` is read or the process is interrupted; the saved terminal mode is always restored.
    The loop is modelled over a finite script of key polls and an oracle for the
    fetches, and what it does is recorded as a trace of events. */
module Refresh {
  import opened PoolData
  import opened Dashboard

  /** The two terminal attributes `tty.setcbreak` clears. */
  datatype TermMode = TermMode(canonical: bool, echo: bool)

  function Cbreak(m: TermMode): TermMode { m.(canonical := false, echo := false) }

  datatype Event =
    | Fetch(cycle: nat)                                 // fetch_all_stats(), the cycle-th time
    | SaveMode(mode: TermMode)                          // termios.tcgetattr
    | SetCbreak                                         // tty.setcbreak
    | LiveStart(frame: Frame)                           // Live(build_dashboard(data, countdown))
    | Update(cycle: nat, countdown: nat, frame: Frame)  // live.update(build_dashboard(data, countdown))
    | Sleep                                             // time.sleep(1)
    | Goodbye                                           // console.clear() and the exit message
    | Restore(mode: TermMode)                           // termios.tcsetattr(..., old_settings)

  /** The outcomes of the XLA and SALV requests of the n-th `fetch_all_stats` call. */
  type Oracle = nat -> (FetchOutcome, FetchOutcome)

  /** What `key_pressed()` returns at each tick, in order. Past its end the process
      receives an interrupt (Ctrl-C), which raises `KeyboardInterrupt` like `q` does. */
  type Keys = seq<Option<char>>

  /** The data of the cycle-th fetch. */
  function DataAt(fetch: Oracle, c: nat): PoolMap {
    FetchAllStats(fetch(c).0, fetch(c).1)
  }

  /** The frame drawn in a given cycle at a given countdown. */
  type FrameSource = (nat, nat) -> Frame

  /** `build_dashboard(data, countdown)` with the data of the current cycle. */
  function Frames(fetch: Oracle): FrameSource {
    (c: nat, j: nat) => Render(DataAt(fetch, c), j)
  }

  /** The first `k` ticks of cycle `c`: redraw with `countdown = j`, then sleep. */
  function CycleEvents(frames: FrameSource, c: nat, k: nat): seq<Event> {
    if k == 0 then []
    else CycleEvents(frames, c, k - 1) + [Update(c, k - 1, frames(c, k - 1)), Sleep]
  }

  /** `n` complete cycles, each followed by the next fetch. */
  function FullCycles(frames: FrameSource, n: nat): seq<Event> {
    if n == 0 then []
    else FullCycles(frames, n - 1) + CycleEvents(frames, n - 1, RefreshInterval) + [Fetch(n)]
  }

  /** The events of the first `s` ticks, counted over all cycles. */
  function TickEvents(frames: FrameSource, s: nat): seq<Event> {
    FullCycles(frames, s / RefreshInterval) + CycleEvents(frames, s / RefreshInterval, s % RefreshInterval)
  }

  /** The tick at which the loop stops: the first `q`, or the end of the script. */
  function StopTick(keys: Keys): (s: nat)
    ensures s <= |keys|
    ensures s < |keys| ==> keys[s] == Some('q')
    ensures forall i :: 0 <= i < s ==> keys[i] != Some('q')
  {
    if keys == [] || keys[0] == Some('q') then 0 else 1 + StopTick(keys[1..])
  }

  function Opening(mode: TermMode, frames: FrameSource): seq<Event> {
    [Fetch(0), SaveMode(mode), SetCbreak, LiveStart(frames(0, 0))]
  }

  function Closing(mode: TermMode): seq<Event> { [Goodbye, Restore(mode)] }

  /** The run that stops at tick `s`, drawing the frames `frames`. */
  function Trace(mode: TermMode, frames: FrameSource, s: nat): seq<Event> {
    Opening(mode, frames) + TickEvents(frames, s) + Closing(mode)
  }

  /** Everything `run_tui` does, from the first fetch to the restored terminal. */
  function RunTrace(mode: TermMode, fetch: Oracle, keys: Keys): (tr: seq<Event>)
    ensures |tr| >= 6
    ensures tr[0] == Fetch(0) && tr[1] == SaveMode(mode) && tr[2] == SetCbreak
    ensures tr[|tr| - 2] == Goodbye && tr[|tr| - 1] == Restore(mode)
  {
    Trace(mode, Frames(fetch), StopTick(keys))
  }

  lemma DivMod(c: nat, j: nat)
    requires j < RefreshInterval
    ensures (c * RefreshInterval + j) / RefreshInterval == c
    ensures (c * RefreshInterval + j) % RefreshInterval == j
  {
  }

  /** The loop stops at the first tick whose poll reads `q` or hits the end of the script. */
  lemma StopTickAt(keys: Keys, t: nat)
    requires t <= |keys| && (t == |keys| || keys[t] == Some('q'))
    requires forall i :: 0 <= i < t ==> keys[i] != Some('q')
    ensures StopTick(keys) == t
  {
  }

  lemma CycleAppended(frames: FrameSource, c: nat)
    ensures FullCycles(frames, c + 1) == FullCycles(frames, c) + CycleEvents(frames, c, RefreshInterval) + [Fetch(c + 1)]
  {
  }

  /** The trace as the loop builds it, cycle by cycle, is `RunTrace`. */
  lemma TraceOnExit(mode: TermMode, fetch: Oracle, keys: Keys, cycle: nat, countdown: nat)
    requires countdown < RefreshInterval
    requires StopTick(keys) == cycle * RefreshInterval + countdown
    ensures RunTrace(mode, fetch, keys) ==
            Opening(mode, Frames(fetch)) + (FullCycles(Frames(fetch), cycle) + CycleEvents(Frames(fetch), cycle, countdown)) + Closing(mode)
  {
    DivMod(cycle, countdown);
  }

  /** One pass of `for countdown in range(REFRESH_INTERVAL)`, starting at script
      position `start`: poll, stop on `q` or on the interrupt, else redraw and sleep.
      It returns the events, the number of completed ticks and whether it was interrupted. */
  method RunCycle(fetch: Oracle, keys: Keys, cycle: nat, data: PoolMap, start: nat)
      returns (events: seq<Event>, done: nat, interrupted: bool)
    requires start <= |keys| && data == DataAt(fetch, cycle)
    ensures done <= RefreshInterval && start + done <= |keys|
    ensures events == CycleEvents(Frames(fetch), cycle, done)
    ensures forall i :: start <= i < start + done ==> keys[i] != Some('q')
    ensures interrupted <==> done < RefreshInterval
    ensures interrupted ==> start + done == |keys| || keys[start + done] == Some('q')
  {
    events, done, interrupted := [], 0, false;
    var countdown: nat := 0;
    while countdown < RefreshInterval && !interrupted
      invariant done == countdown <= RefreshInterval && start + done <= |keys|
      invariant events == CycleEvents(Frames(fetch), cycle, done)
      invariant forall i :: start <= i < start + done ==> keys[i] != Some('q')
      invariant interrupted ==> done < RefreshInterval && (start + done == |keys| || keys[start + done] == Some('q'))
      decreases RefreshInterval - countdown, if interrupted then 0 else 1
    {
      if start + done == |keys| {
        interrupted := true;          // Ctrl-C: KeyboardInterrupt
      } else {
        var key := keys[start + done];  // key_pressed()
        if key == Some('q') {
          interrupted := true;        // raise KeyboardInterrupt
        } else {
          var frame := BuildDashboard(data, countdown);
          assert frame == Frames(fetch)(cycle, countdown);
          events := events + [Update(cycle, countdown, frame), Sleep];
          countdown := countdown + 1;
          done := countdown;
        }
      }
    }
  }

  /** The `while True` loop: one cycle of ticks, then a fetch, until a cycle is
      interrupted. It returns the events after the opening, with the cycle and the
      tick within it at which `KeyboardInterrupt` was raised. */
  method RefreshLoop(fetch: Oracle, keys: Keys, first: PoolMap)
      returns (events: seq<Event>, cycle: nat, countdown: nat)
    requires first == DataAt(fetch, 0)
    ensures countdown < RefreshInterval
    ensures StopTick(keys) == cycle * RefreshInterval + countdown
    ensures events == FullCycles(Frames(fetch), cycle) + CycleEvents(Frames(fetch), cycle, countdown)
  {
    cycle, countdown := 0, 0;
    var data := first;
    events := [];
    var tick: nat := 0;
    var interrupted := false;
    while !interrupted
      invariant tick <= |keys|
      invariant forall i :: 0 <= i < tick ==> keys[i] != Some('q')
      invariant data == DataAt(fetch, cycle)
      invariant !interrupted ==> tick == cycle * RefreshInterval && events == FullCycles(Frames(fetch), cycle)
      invariant interrupted ==> countdown < RefreshInterval && tick == cycle * RefreshInterval + countdown &&
                                (tick == |keys| || keys[tick] == Some('q')) &&
                                events == FullCycles(Frames(fetch), cycle) + CycleEvents(Frames(fetch), cycle, countdown)
      decreases |keys| - tick + (if interrupted then 0 else 1)
    {
      var ticks, done;
      ticks, done, interrupted := RunCycle(fetch, keys, cycle, data, tick);
      events := events + ticks;
      tick := tick + done;
      countdown := done;
      if !interrupted {
        cycle := cycle + 1;
        data := FetchAllStats(fetch(cycle).0, fetch(cycle).1);   // data = fetch_all_stats()
        events := events + [Fetch(cycle)];
        CycleAppended(Frames(fetch), cycle - 1);
      }
    }
    StopTickAt(keys, tick);
  }

  /** `run_tui`, with the terminal mode as a variable: fetch, save and switch the
      mode, show the first frame, run the loop until `KeyboardInterrupt`, print the
      goodbye, and in `finally` restore the saved mode. */
  method RunTui(mode: TermMode, fetch: Oracle, keys: Keys) returns (trace: seq<Event>, finalMode: TermMode)
    ensures trace == RunTrace(mode, fetch, keys)
    ensures finalMode == mode
  {
    var terminal := mode;
    var data := FetchAllStats(fetch(0).0, fetch(0).1);
    trace := [Fetch(0)];
    var oldSettings := terminal;
    trace := trace + [SaveMode(oldSettings)];
    terminal := Cbreak(terminal);
    trace := trace + [SetCbreak];
    // try:
    var frame := BuildDashboard(data, 0);
    trace := trace + [LiveStart(frame)];
    ghost var opening := trace;
    assert data == DataAt(fetch, 0);
    assert frame == Frames(fetch)(0, 0);
    assert opening == Opening(mode, Frames(fetch));
    var events, cycle, countdown := RefreshLoop(fetch, keys, data);
    trace := trace + events;
    // except KeyboardInterrupt:
    trace := trace + [Goodbye];
    // finally:
    terminal := oldSettings;
    trace := trace + [Restore(oldSettings)];
    finalMode := terminal;
    assert trace == opening + events + Closing(mode);
    TraceOnExit(mode, fetch, keys, cycle, countdown);
  }
}

