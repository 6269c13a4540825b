/** What the trace of `run_tui` shows: the order of ticks, where fetches fall,
    what quitting cuts off, and the terminal mode along the way. */
module RefreshProperties {
  import opened PoolData
  import opened Dashboard
  import opened Refresh

  /** The (cycle, countdown) of every redraw, in order. */
  function UpdatesOf(tr: seq<Event>): seq<(nat, nat)> {
    if tr == [] then []
    else (if tr[0].Update? then [(tr[0].cycle, tr[0].countdown)] else []) + UpdatesOf(tr[1..])
  }

  /** The cycle number of every fetch, in order. */
  function FetchesOf(tr: seq<Event>): seq<nat> {
    if tr == [] then []
    else (if tr[0].Fetch? then [tr[0].cycle] else []) + FetchesOf(tr[1..])
  }

  /** The terminal mode after an event: `tty.setcbreak` and `tcsetattr` change it. */
  function Step(m: TermMode, e: Event): TermMode {
    match e
    case SetCbreak => Cbreak(m)
    case Restore(saved) => saved
    case _ => m
  }

  function ModeAfter(m: TermMode, tr: seq<Event>): TermMode
    decreases |tr|
  {
    if tr == [] then m else ModeAfter(Step(m, tr[0]), tr[1..])
  }

  /** Events a tick consists of: redraws and sleeps. */
  predicate IsTickEvent(e: Event) { e.Update? || e.Sleep? }

  predicate TicksOnly(tr: seq<Event>) {
    forall e :: e in tr ==> IsTickEvent(e)
  }

  predicate ModeNeutral(e: Event) { !e.SetCbreak? && !e.Restore? }

  predicate NoModeChange(tr: seq<Event>) {
    forall e :: e in tr ==> ModeNeutral(e)
  }

  /** If the event at `i` is a later fetch, the two before it are the redraw of
      the last tick of the previous cycle (countdown `REFRESH_INTERVAL - 1`) and its sleep. */
  predicate FetchPrecededAt(tr: seq<Event>, i: nat)
    requires i < |tr|
  {
    tr[i].Fetch? && tr[i].cycle > 0 ==>
      2 <= i && tr[i - 1] == Sleep && tr[i - 2].Update? &&
      tr[i - 2].cycle + 1 == tr[i].cycle && tr[i - 2].countdown == RefreshInterval - 1
  }

  /** Every fetch after the first comes right after a full cycle of ticks. */
  predicate FetchAfterFullCycle(tr: seq<Event>) {
    forall i :: 0 <= i < |tr| ==> FetchPrecededAt(tr, i)
  }

  // ---------------------------------------------------------------------------
  // Projections and folds over concatenation

  lemma {:induction false} UpdatesAppend(a: seq<Event>, b: seq<Event>)
    ensures UpdatesOf(a + b) == UpdatesOf(a) + UpdatesOf(b)
  {
    if a == [] {
      assert a + b == b;
    } else {
      assert (a + b)[0] == a[0] && (a + b)[1..] == a[1..] + b;
      UpdatesAppend(a[1..], b);
    }
  }

  lemma {:induction false} FetchesAppend(a: seq<Event>, b: seq<Event>)
    ensures FetchesOf(a + b) == FetchesOf(a) + FetchesOf(b)
  {
    if a == [] {
      assert a + b == b;
    } else {
      assert (a + b)[0] == a[0] && (a + b)[1..] == a[1..] + b;
      FetchesAppend(a[1..], b);
    }
  }

  lemma {:induction false} ModeAfterAppend(m: TermMode, a: seq<Event>, b: seq<Event>)
    ensures ModeAfter(m, a + b) == ModeAfter(ModeAfter(m, a), b)
    decreases |a|
  {
    if a == [] {
      assert a + b == b;
    } else {
      assert (a + b)[0] == a[0] && (a + b)[1..] == a[1..] + b;
      ModeAfterAppend(Step(m, a[0]), a[1..], b);
    }
  }

  lemma ModeAfterOne(m: TermMode, e: Event)
    ensures ModeAfter(m, [e]) == Step(m, e)
  {
    assert [e][1..] == [];
  }

  lemma {:induction false} ModeAfterNoChange(m: TermMode, tr: seq<Event>)
    requires NoModeChange(tr)
    ensures ModeAfter(m, tr) == m
    decreases |tr|
  {
    if tr != [] {
      assert tr[0] in tr;
      assert forall e :: e in tr[1..] ==> e in tr;
      ModeAfterNoChange(m, tr[1..]);
    }
  }

  lemma {:induction false} FetchesOfTicksOnly(tr: seq<Event>)
    requires TicksOnly(tr)
    ensures FetchesOf(tr) == []
  {
    if tr != [] {
      assert tr[0] in tr;
      assert forall e :: e in tr[1..] ==> e in tr;
      FetchesOfTicksOnly(tr[1..]);
    }
  }

  lemma FetchAfterFullCycleAppend(a: seq<Event>, b: seq<Event>)
    requires FetchAfterFullCycle(a) && FetchAfterFullCycle(b)
    ensures FetchAfterFullCycle(a + b)
  {
    forall i | 0 <= i < |a + b| ensures FetchPrecededAt(a + b, i) {
      if i >= |a| {
        var j := i - |a|;
        assert FetchPrecededAt(b, j);
        assert b[j] == (a + b)[i];
        if j >= 2 { assert b[j - 1] == (a + b)[i - 1] && b[j - 2] == (a + b)[i - 2]; }
      } else {
        assert FetchPrecededAt(a, i);
        assert a[i] == (a + b)[i];
        if i >= 2 { assert a[i - 1] == (a + b)[i - 1] && a[i - 2] == (a + b)[i - 2]; }
      }
    }
  }

  lemma TicksOnlyPlacement(tr: seq<Event>)
    requires TicksOnly(tr)
    ensures FetchAfterFullCycle(tr) && NoModeChange(tr)
  {
    forall i | 0 <= i < |tr| ensures FetchPrecededAt(tr, i) {
      assert tr[i] in tr;
    }
  }

  // ---------------------------------------------------------------------------
  // One cycle of ticks

  lemma {:induction false} CycleTicksOnly(frames: FrameSource, c: nat, k: nat)
    ensures |CycleEvents(frames, c, k)| == 2 * k
    ensures TicksOnly(CycleEvents(frames, c, k))
  {
    if k > 0 {
      CycleTicksOnly(frames, c, k - 1);
      var prev := CycleEvents(frames, c, k - 1);
      var u := Update(c, k - 1, frames(c, k - 1));
      assert CycleEvents(frames, c, k) == prev + [u, Sleep];
      forall e | e in prev + [u, Sleep] ensures IsTickEvent(e) {
        if e !in prev { assert e == u || e == Sleep; }
      }
    }
  }

  lemma UpdatesOfTick(u: Event)
    requires u.Update?
    ensures UpdatesOf([u, Sleep]) == [(u.cycle, u.countdown)]
  {
    assert [u, Sleep][1..] == [Sleep];
    assert [Sleep][1..] == [];
  }

  lemma {:induction false} CycleUpdates(frames: FrameSource, c: nat, k: nat)
    ensures |UpdatesOf(CycleEvents(frames, c, k))| == k
    ensures forall j :: 0 <= j < k ==> UpdatesOf(CycleEvents(frames, c, k))[j] == (c, j)
  {
    if k > 0 {
      CycleUpdates(frames, c, k - 1);
      var prev := CycleEvents(frames, c, k - 1);
      var u := Update(c, k - 1, frames(c, k - 1));
      UpdatesOfTick(u);
      UpdatesAppend(prev, [u, Sleep]);
    }
  }

  /** Every redraw of a cycle shows the frame of its cycle and countdown. */
  predicate Framed(frames: FrameSource, tr: seq<Event>) {
    forall e :: e in tr && e.Update? ==> e.frame == frames(e.cycle, e.countdown)
  }

  lemma FramedAppend(frames: FrameSource, a: seq<Event>, b: seq<Event>)
    requires Framed(frames, a) && Framed(frames, b)
    ensures Framed(frames, a + b)
  {
    forall e | e in a + b && e.Update? ensures e.frame == frames(e.cycle, e.countdown) {
      if e in a {} else { assert e in b; }
    }
  }

  lemma {:induction false} CycleFramed(frames: FrameSource, c: nat, k: nat)
    ensures Framed(frames, CycleEvents(frames, c, k))
  {
    if k > 0 {
      CycleFramed(frames, c, k - 1);
      var u := Update(c, k - 1, frames(c, k - 1));
      assert forall e :: e in [u, Sleep] ==> e == u || e == Sleep;
      FramedAppend(frames, CycleEvents(frames, c, k - 1), [u, Sleep]);
    }
  }

  lemma {:induction false} FullCyclesFramed(frames: FrameSource, n: nat)
    ensures Framed(frames, FullCycles(frames, n))
  {
    if n > 0 {
      FullCyclesFramed(frames, n - 1);
      CycleFramed(frames, n - 1, RefreshInterval);
      var prev, cycle := FullCycles(frames, n - 1), CycleEvents(frames, n - 1, RefreshInterval);
      FramedAppend(frames, prev, cycle);
      assert forall e :: e in [Fetch(n)] ==> e == Fetch(n);
      FramedAppend(frames, prev + cycle, [Fetch(n)]);
    }
  }

  lemma TickEventsFramed(frames: FrameSource, s: nat)
    ensures Framed(frames, TickEvents(frames, s))
  {
    var n, k := s / RefreshInterval, s % RefreshInterval;
    FullCyclesFramed(frames, n);
    CycleFramed(frames, n, k);
    FramedAppend(frames, FullCycles(frames, n), CycleEvents(frames, n, k));
  }

  /** A complete cycle followed by its fetch satisfies the placement rule. */
  lemma CycleThenFetch(frames: FrameSource, c: nat)
    ensures FetchAfterFullCycle(CycleEvents(frames, c, RefreshInterval) + [Fetch(c + 1)])
  {
    var cycle := CycleEvents(frames, c, RefreshInterval);
    var closing := cycle + [Fetch(c + 1)];
    var prev := CycleEvents(frames, c, RefreshInterval - 1);
    var u := Update(c, RefreshInterval - 1, frames(c, RefreshInterval - 1));
    CycleTicksOnly(frames, c, RefreshInterval);
    CycleTicksOnly(frames, c, RefreshInterval - 1);
    assert cycle == prev + [u, Sleep];
    assert closing[2 * RefreshInterval - 1] == Sleep;
    assert closing[2 * RefreshInterval - 2] == u;
    forall i | 0 <= i < |closing| ensures FetchPrecededAt(closing, i) {
      if i < |cycle| {
        assert closing[i] == cycle[i] && cycle[i] in cycle;
      }
    }
  }

  // ---------------------------------------------------------------------------
  // Full cycles

  /** Appending the countdowns 0 .. 29 of cycle `n` to the first `n` cycles' ticks
      keeps tick t at (t / 30, t % 30). */
  lemma NumberedTicks(prev: seq<(nat, nat)>, cycle: seq<(nat, nat)>, n: nat, k: nat)
    requires k <= RefreshInterval
    requires |prev| == n * RefreshInterval && |cycle| == k
    requires forall t :: 0 <= t < |prev| ==> prev[t] == (t / RefreshInterval, t % RefreshInterval)
    requires forall j :: 0 <= j < k ==> cycle[j] == (n, j)
    ensures forall t :: 0 <= t < |prev + cycle| ==>
              (prev + cycle)[t] == (t / RefreshInterval, t % RefreshInterval)
  {
    forall t | n * RefreshInterval <= t < |prev + cycle|
      ensures (prev + cycle)[t] == (t / RefreshInterval, t % RefreshInterval)
    {
      DivMod(n, t - n * RefreshInterval);
    }
  }

  lemma {:induction false} FullCyclesUpdates(frames: FrameSource, n: nat)
    ensures |UpdatesOf(FullCycles(frames, n))| == n * RefreshInterval
    ensures forall t :: 0 <= t < n * RefreshInterval ==>
              UpdatesOf(FullCycles(frames, n))[t] == (t / RefreshInterval, t % RefreshInterval)
  {
    if n > 0 {
      FullCyclesUpdates(frames, n - 1);
      var prev := FullCycles(frames, n - 1);
      var cycle := CycleEvents(frames, n - 1, RefreshInterval);
      CycleUpdates(frames, n - 1, RefreshInterval);
      ProjectOne(Fetch(n));
      UpdatesAppend(prev + cycle, [Fetch(n)]);
      UpdatesAppend(prev, cycle);
      assert UpdatesOf(FullCycles(frames, n)) == UpdatesOf(prev) + UpdatesOf(cycle);
      NumberedTicks(UpdatesOf(prev), UpdatesOf(cycle), n - 1, RefreshInterval);
    }
  }

  lemma {:induction false} FullCyclesFetches(frames: FrameSource, n: nat)
    ensures |FetchesOf(FullCycles(frames, n))| == n
    ensures forall c :: 0 <= c < n ==> FetchesOf(FullCycles(frames, n))[c] == c + 1
  {
    if n > 0 {
      FullCyclesFetches(frames, n - 1);
      var prev := FullCycles(frames, n - 1);
      var cycle := CycleEvents(frames, n - 1, RefreshInterval);
      CycleTicksOnly(frames, n - 1, RefreshInterval);
      FetchesOfTicksOnly(cycle);
      assert FetchesOf([Fetch(n)]) == [n] by { assert [Fetch(n)][1..] == []; }
      FetchesAppend(prev + cycle, [Fetch(n)]);
      FetchesAppend(prev, cycle);
    }
  }

  lemma {:induction false} FullCyclesModes(frames: FrameSource, n: nat)
    ensures NoModeChange(FullCycles(frames, n))
    ensures FetchAfterFullCycle(FullCycles(frames, n))
  {
    if n > 0 {
      FullCyclesModes(frames, n - 1);
      var prev := FullCycles(frames, n - 1);
      var cycle := CycleEvents(frames, n - 1, RefreshInterval);
      CycleTicksOnly(frames, n - 1, RefreshInterval);
      CycleThenFetch(frames, n - 1);
      FetchAfterFullCycleAppend(prev, cycle + [Fetch(n)]);
      assert FullCycles(frames, n) == prev + (cycle + [Fetch(n)]);
      forall e | e in prev + (cycle + [Fetch(n)]) ensures ModeNeutral(e) {
        if e !in prev && e !in cycle { assert e == Fetch(n); }
      }
    }
  }

  // ---------------------------------------------------------------------------
  // The first s ticks

  lemma TickEventsUpdates(frames: FrameSource, s: nat)
    ensures |UpdatesOf(TickEvents(frames, s))| == s
    ensures forall t :: 0 <= t < s ==> UpdatesOf(TickEvents(frames, s))[t] == (t / RefreshInterval, t % RefreshInterval)
  {
    var n, k := s / RefreshInterval, s % RefreshInterval;
    FullCyclesUpdates(frames, n);
    CycleUpdates(frames, n, k);
    UpdatesAppend(FullCycles(frames, n), CycleEvents(frames, n, k));
    NumberedTicks(UpdatesOf(FullCycles(frames, n)), UpdatesOf(CycleEvents(frames, n, k)), n, k);
  }

  lemma TickEventsFetches(frames: FrameSource, s: nat)
    ensures |FetchesOf(TickEvents(frames, s))| == s / RefreshInterval
    ensures forall c :: 0 <= c < s / RefreshInterval ==> FetchesOf(TickEvents(frames, s))[c] == c + 1
  {
    var n, k := s / RefreshInterval, s % RefreshInterval;
    FullCyclesFetches(frames, n);
    CycleTicksOnly(frames, n, k);
    FetchesOfTicksOnly(CycleEvents(frames, n, k));
    FetchesAppend(FullCycles(frames, n), CycleEvents(frames, n, k));
  }

  lemma TickEventsModes(frames: FrameSource, s: nat)
    ensures NoModeChange(TickEvents(frames, s))
    ensures FetchAfterFullCycle(TickEvents(frames, s))
  {
    var n, k := s / RefreshInterval, s % RefreshInterval;
    FullCyclesModes(frames, n);
    CycleTicksOnly(frames, n, k);
    TicksOnlyPlacement(CycleEvents(frames, n, k));
    FetchAfterFullCycleAppend(FullCycles(frames, n), CycleEvents(frames, n, k));
  }

  lemma ProjectOne(e: Event)
    ensures UpdatesOf([e]) == if e.Update? then [(e.cycle, e.countdown)] else []
    ensures FetchesOf([e]) == if e.Fetch? then [e.cycle] else []
  {
    assert [e][1..] == [];
  }

  lemma OpeningProjections(mode: TermMode, frames: FrameSource)
    ensures UpdatesOf(Opening(mode, frames)) == []
    ensures FetchesOf(Opening(mode, frames)) == [0]
  {
    var a, b, c, d := Fetch(0), SaveMode(mode), SetCbreak, LiveStart(frames(0, 0));
    ProjectOne(a); ProjectOne(b); ProjectOne(c); ProjectOne(d);
    assert Opening(mode, frames) == [a, b] + [c, d];
    assert [a, b] == [a] + [b] && [c, d] == [c] + [d];
    UpdatesAppend([a], [b]);
    UpdatesAppend([c], [d]);
    UpdatesAppend([a, b], [c, d]);
    FetchesAppend([a], [b]);
    FetchesAppend([c], [d]);
    FetchesAppend([a, b], [c, d]);
  }

  lemma ClosingProjections(mode: TermMode)
    ensures UpdatesOf(Closing(mode)) == [] && FetchesOf(Closing(mode)) == []
  {
    ProjectOne(Goodbye); ProjectOne(Restore(mode));
    assert Closing(mode) == [Goodbye] + [Restore(mode)];
    UpdatesAppend([Goodbye], [Restore(mode)]);
    FetchesAppend([Goodbye], [Restore(mode)]);
  }

  lemma OpeningClosingShape(mode: TermMode, frames: FrameSource)
    ensures UpdatesOf(Opening(mode, frames)) == [] && UpdatesOf(Closing(mode)) == []
    ensures FetchesOf(Opening(mode, frames)) == [0] && FetchesOf(Closing(mode)) == []
    ensures FetchAfterFullCycle(Opening(mode, frames)) && FetchAfterFullCycle(Closing(mode))
  {
    OpeningProjections(mode, frames);
    ClosingProjections(mode);
    var o := Opening(mode, frames);
    assert forall i :: 0 <= i < |o| ==> FetchPrecededAt(o, i);
    assert forall i :: 0 <= i < |Closing(mode)| ==> FetchPrecededAt(Closing(mode), i);
  }

  // ---------------------------------------------------------------------------
  // The properties of the refresh loop

  /** The redraws are ticks 0 .. s-1 of the run, tick t drawn in cycle t / 30
      with countdown t % 30, where s is the tick at which `q` (or the interrupt) came:
      each cycle draws countdowns 0 .. 29 in order and the quitting tick is never drawn. */
  lemma TicksInOrder(mode: TermMode, frames: FrameSource, s: nat)
    ensures var u := UpdatesOf(Trace(mode, frames, s));
      |u| == s && forall t :: 0 <= t < |u| ==> u[t] == (t / RefreshInterval, t % RefreshInterval)
  {
    var o, mid, c := Opening(mode, frames), TickEvents(frames, s), Closing(mode);
    OpeningClosingShape(mode, frames);
    TickEventsUpdates(frames, s);
    UpdatesAppend(o, mid);
    UpdatesAppend(o + mid, c);
    assert UpdatesOf(Trace(mode, frames, s)) == UpdatesOf(mid);
  }

  /** Each redraw shows the frame of the data of its own cycle's fetch at its countdown. */
  lemma RedrawsShowCurrentData(mode: TermMode, fetch: Oracle, keys: Keys)
    ensures var tr := RunTrace(mode, fetch, keys);
      forall i :: 0 <= i < |tr| && tr[i].Update? ==>
        tr[i].frame == Render(DataAt(fetch, tr[i].cycle), tr[i].countdown)
    ensures RunTrace(mode, fetch, keys)[3] == LiveStart(Render(DataAt(fetch, 0), 0))
  {
    var frames := Frames(fetch);
    var s := StopTick(keys);
    var tr := RunTrace(mode, fetch, keys);
    TickEventsFramed(frames, s);
    assert tr == Opening(mode, frames) + TickEvents(frames, s) + Closing(mode);
    forall i | 0 <= i < |tr| && tr[i].Update?
      ensures tr[i].frame == frames(tr[i].cycle, tr[i].countdown)
    {
      if 4 <= i < 4 + |TickEvents(frames, s)| {
        assert tr[i] == TickEvents(frames, s)[i - 4];
        assert tr[i] in TickEvents(frames, s);
      }
    }
  }

  /** Fetches are numbered 0, 1, ...: the first before any tick and one more
      after each completed cycle, so there are `s / 30 + 1` of them in all. */
  lemma FetchesInOrder(mode: TermMode, frames: FrameSource, s: nat)
    ensures var f := FetchesOf(Trace(mode, frames, s));
      |f| == s / RefreshInterval + 1 && forall c :: 0 <= c < |f| ==> f[c] == c
  {
    var o, mid, c := Opening(mode, frames), TickEvents(frames, s), Closing(mode);
    OpeningClosingShape(mode, frames);
    TickEventsFetches(frames, s);
    FetchesAppend(o, mid);
    FetchesAppend(o + mid, c);
    var f, fm := FetchesOf(Trace(mode, frames, s)), FetchesOf(mid);
    assert f == [0] + fm;
    forall i | 0 <= i < |f| ensures f[i] == i {
      if i > 0 { assert f[i] == fm[i - 1]; }
    }
  }

  /** The first fetch is the first event, before the mode is saved and changed;
      every later fetch follows the last tick of a cycle. */
  lemma FetchPlacement(mode: TermMode, frames: FrameSource, s: nat)
    ensures var tr := Trace(mode, frames, s);
      tr[0] == Fetch(0) && tr[1] == SaveMode(mode) && tr[2] == SetCbreak &&
      FetchAfterFullCycle(tr)
  {
    var o, mid, c := Opening(mode, frames), TickEvents(frames, s), Closing(mode);
    OpeningClosingShape(mode, frames);
    TickEventsModes(frames, s);
    FetchAfterFullCycleAppend(o, mid);
    FetchAfterFullCycleAppend(o + mid, c);
  }

  /** The first three events leave the terminal in cbreak mode, the first two untouched. */
  lemma OpeningModes(mode: TermMode, frames: FrameSource, s: nat)
    ensures var tr := Trace(mode, frames, s);
      ModeAfter(mode, tr[..2]) == mode && ModeAfter(mode, tr[..3]) == Cbreak(mode)
  {
    var tr := Trace(mode, frames, s);
    assert tr[..2] == [Fetch(0)] + [SaveMode(mode)];
    ModeAfterAppend(mode, [Fetch(0)], [SaveMode(mode)]);
    ModeAfterOne(mode, Fetch(0));
    ModeAfterOne(mode, SaveMode(mode));
    assert tr[..3] == tr[..2] + [SetCbreak];
    ModeAfterAppend(mode, tr[..2], [SetCbreak]);
    ModeAfterOne(mode, SetCbreak);
  }

  /** Between the mode switch and the restore no event changes the mode. */
  lemma MiddleNeutral(mode: TermMode, frames: FrameSource, s: nat, i: nat)
    requires 3 <= i < |Trace(mode, frames, s)|
    ensures NoModeChange(Trace(mode, frames, s)[3..i])
  {
    var tr := Trace(mode, frames, s);
    var mid := TickEvents(frames, s);
    var o := Opening(mode, frames);
    TickEventsModes(frames, s);
    forall e | e in tr[3..i] ensures ModeNeutral(e) {
      var j :| 3 <= j < i && tr[j] == e;
      if j == 3 { assert e == o[3]; }
      else if j < 4 + |mid| { assert e == mid[j - 4]; assert mid[j - 4] in mid; }
      else { assert e == Goodbye; }
    }
  }

  /** The terminal is in its original mode for the first fetch, in cbreak mode from
      the first frame until the goodbye message, and back in the saved mode at the end. */
  lemma TerminalRestored(mode: TermMode, frames: FrameSource, s: nat)
    ensures var tr := Trace(mode, frames, s);
      ModeAfter(mode, tr[..2]) == mode &&
      (forall i :: 3 <= i < |tr| ==> ModeAfter(mode, tr[..i]) == Cbreak(mode)) &&
      tr[|tr| - 1] == Restore(mode) && ModeAfter(mode, tr) == mode
  {
    var tr := Trace(mode, frames, s);
    OpeningModes(mode, frames, s);
    forall i | 3 <= i < |tr| ensures ModeAfter(mode, tr[..i]) == Cbreak(mode) {
      assert tr[..i] == tr[..3] + tr[3..i];
      ModeAfterAppend(mode, tr[..3], tr[3..i]);
      MiddleNeutral(mode, frames, s, i);
      ModeAfterNoChange(Cbreak(mode), tr[3..i]);
    }
    assert tr == tr[..|tr| - 1] + [Restore(mode)];
    ModeAfterAppend(mode, tr[..|tr| - 1], [Restore(mode)]);
    ModeAfterOne(ModeAfter(mode, tr[..|tr| - 1]), Restore(mode));
  }

  /** Pressing `q` at tick 5 of the first cycle: ticks 0 .. 4 are drawn, no 6th tick,
      no second fetch, and the run ends with the goodbye and the restored mode. */
  lemma QuitAtTickFive(mode: TermMode, fetch: Oracle, rest: Keys)
    ensures var tr := RunTrace(mode, fetch, [None, None, None, None, None, Some('q')] + rest);
      UpdatesOf(tr) == [(0, 0), (0, 1), (0, 2), (0, 3), (0, 4)] &&
      FetchesOf(tr) == [0] &&
      tr[|tr| - 2..] == [Goodbye, Restore(mode)]
  {
    var keys := [None, None, None, None, None, Some('q')] + rest;
    assert keys[5] == Some('q');
    StopTickAt(keys, 5);
    TicksInOrder(mode, Frames(fetch), 5);
    FetchesInOrder(mode, Frames(fetch), 5);
  }

  /** Pressing `q` at the first poll of the second cycle: all 30 ticks of the first
      cycle are drawn, the last at countdown 29, and the second fetch has happened. */
  lemma QuitAfterFullCycle(mode: TermMode, fetch: Oracle, rest: Keys)
    ensures var tr := RunTrace(mode, fetch, seq(RefreshInterval, _ => None) + [Some('q')] + rest);
      |UpdatesOf(tr)| == RefreshInterval && UpdatesOf(tr)[RefreshInterval - 1] == (0, RefreshInterval - 1) &&
      FetchesOf(tr) == [0, 1]
  {
    var keys := seq(RefreshInterval, _ => None) + [Some('q')] + rest;
    assert keys[RefreshInterval] == Some('q');
    assert forall i :: 0 <= i < RefreshInterval ==> keys[i] == None;
    StopTickAt(keys, RefreshInterval);
    TicksInOrder(mode, Frames(fetch), RefreshInterval);
    FetchesInOrder(mode, Frames(fetch), RefreshInterval);
  }
}
