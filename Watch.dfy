/** The stopwatch's timing and lap state: elapsed time in milliseconds, whether it
    is running, and the laps recorded so far in chronological order. The
    `Stopwatch` class holds that state and has one method per button (Start,
    Pause, Stop, Reset, Lap) plus the 10 ms timer tick; `Step` is the same
    transition on values, used to reason about whole sequences of presses. */
module Watch {

  /** One recorded lap, as the source's `Lap` interface. */
  datatype Lap = Lap(time: int, difference: int)

  datatype State = State(time: int, running: bool, laps: seq<Lap>)

  /** A button press, or one firing of the timer. */
  datatype Event = StartPressed | PausePressed | StopPressed | ResetPressed | LapPressed | Tick

  /** Milliseconds added by one firing of the timer. */
  const TickMillis := 10

  const Initial := State(0, false, [])

  /** The `time` field of the most recent lap, or 0 when no lap is recorded. */
  function LastLapTime(laps: seq<Lap>): int {
    if |laps| > 0 then laps[|laps| - 1].time else 0
  }

  /** The record the Lap button appends at elapsed time `time`. It subtracts the
      previous lap's own `time` field, not the elapsed time at which that lap was
      taken, and the difference subtracts it once more. */
  function NextLap(laps: seq<Lap>, time: int): Lap {
    var lapTime := time - LastLapTime(laps);
    Lap(lapTime, lapTime - LastLapTime(laps))
  }

  /** Whether the control for `e` is enabled: Start only while stopped, Pause,
      Stop and Lap (and the timer) only while running, Reset always. */
  predicate Enabled(s: State, e: Event) {
    match e
    case StartPressed => !s.running
    case ResetPressed => true
    case _ => s.running
  }

  /** The effect of `e` on `s`; a disabled control has no effect. */
  function Step(s: State, e: Event): State {
    if !Enabled(s, e) then s
    else match e
      case StartPressed => s.(running := true, laps := [])
      case PausePressed => s.(running := false)
      case StopPressed => s.(running := false, time := 0)
      case ResetPressed => s.(time := 0, laps := [])
      case LapPressed => s.(laps := s.laps + [NextLap(s.laps, s.time)])
      case Tick => s.(time := s.time + TickMillis)
  }

  /** The state after the events `es`, in order. */
  function Run(s: State, es: seq<Event>): State
    decreases |es|
  {
    if es == [] then s else Run(Step(s, es[0]), es[1..])
  }

  function Ticks(n: nat): (es: seq<Event>)
    ensures |es| == n && forall i :: 0 <= i < n ==> es[i] == Tick
  {
    if n == 0 then [] else [Tick] + Ticks(n - 1)
  }

  /** A disabled button does nothing: Start while running (so no second timer and
      no change to the elapsed time), and Pause, Stop and Lap while stopped, as
      does a timer firing after the watch has stopped. */
  lemma DisabledControls(s: State)
    ensures s.running ==> Step(s, StartPressed) == s
    ensures !s.running ==> Step(s, PausePressed) == s && Step(s, StopPressed) == s
                           && Step(s, LapPressed) == s && Step(s, Tick) == s
  {
  }

  /** What holds in every reachable state: the elapsed time is a non-negative
      multiple of the tick, no lap has a negative `time`, and while running the
      last lap's `time` does not exceed the elapsed time. */
  ghost predicate Inv(s: State) {
    s.time >= 0 && s.time % TickMillis == 0
    && (forall i :: 0 <= i < |s.laps| ==> s.laps[i].time >= 0)
    && (s.running ==> LastLapTime(s.laps) <= s.time)
  }

  lemma StepKeepsInv(s: State, e: Event)
    requires Inv(s)
    ensures Inv(Step(s, e))
  {
    if e == LapPressed && s.running {
      var laps := s.laps + [NextLap(s.laps, s.time)];
      assert forall i :: 0 <= i < |s.laps| ==> laps[i] == s.laps[i];
    }
  }

  lemma {:induction false} RunKeepsInv(s: State, es: seq<Event>)
    requires Inv(s)
    ensures Inv(Run(s, es))
    decreases |es|
  {
    if es != [] {
      StepKeepsInv(s, es[0]);
      RunKeepsInv(Step(s, es[0]), es[1..]);
    }
  }

  /** From a fresh stopwatch, whatever is pressed and however often the timer
      fires, the invariant holds. */
  lemma ReachableInv(es: seq<Event>)
    ensures Inv(Run(Initial, es))
  {
    RunKeepsInv(Initial, es);
  }

  lemma {:induction false} RunAppend(s: State, a: seq<Event>, b: seq<Event>)
    ensures Run(s, a + b) == Run(Run(s, a), b)
    decreases |a|
  {
    if a == [] {
      assert a + b == b;
    } else {
      assert (a + b)[0] == a[0];
      assert (a + b)[1..] == a[1..] + b;
      RunAppend(Step(s, a[0]), a[1..], b);
    }
  }

  /** While running, n ticks add exactly 10 * n milliseconds and change nothing else. */
  lemma {:induction false} TicksAdvance(s: State, n: nat)
    requires s.running
    ensures Run(s, Ticks(n)) == s.(time := s.time + TickMillis * n)
    decreases n
  {
    if n > 0 {
      assert Ticks(n)[1..] == Ticks(n - 1);
      TicksAdvance(Step(s, Tick), n - 1);
    }
  }

  /** While not running, the timer has no effect. */
  lemma {:induction false} TicksWhileStopped(s: State, n: nat)
    requires !s.running
    ensures Run(s, Ticks(n)) == s
    decreases n
  {
    if n > 0 {
      assert Ticks(n)[1..] == Ticks(n - 1);
      TicksWhileStopped(s, n - 1);
    }
  }

  /** Two laps after a start from zero, the first after `n1` ticks and the second
      `n2` ticks later: the first records its elapsed time twice, the second the
      time since the first and that minus the first lap's time. Laps at 1000 ms
      and at 2500 ms (`n1 == 100`, `n2 == 150`) give `{1000, 1000}` and
      `{1500, 500}`. */
  lemma TwoLaps(n1: nat, n2: nat)
    ensures Run(State(0, true, []), Ticks(n1) + [LapPressed] + Ticks(n2) + [LapPressed]).laps
            == [Lap(TickMillis * n1, TickMillis * n1), Lap(TickMillis * n2, TickMillis * n2 - TickMillis * n1)]
  {
    var t1 := TickMillis * n1;
    var s0 := State(0, true, []);
    var s1 := State(t1, true, [Lap(t1, t1)]);
    var s2 := State(t1 + TickMillis * n2, true, [Lap(t1, t1)]);
    TicksAdvance(s0, n1);
    RunOne(State(t1, true, []), LapPressed);
    RunAppend(s0, Ticks(n1), [LapPressed]);
    assert Run(s0, Ticks(n1) + [LapPressed]) == s1;
    TicksAdvance(s1, n2);
    RunAppend(s0, Ticks(n1) + [LapPressed], Ticks(n2));
    assert Run(s0, Ticks(n1) + [LapPressed] + Ticks(n2)) == s2;
    RunOne(s2, LapPressed);
    RunAppend(s0, Ticks(n1) + [LapPressed] + Ticks(n2), [LapPressed]);
  }

  lemma RunOne(s: State, e: Event)
    ensures Run(s, [e]) == Step(s, e)
  {
    assert [e][1..] == [];
  }

  /** A third lap at 4000 ms records 2500, not the 1500 ms that passed since the
      second lap: each lap's `time` is the elapsed time minus the previous lap's
      `time`. */
  lemma ThirdLap()
    ensures NextLap([Lap(1000, 1000), Lap(1500, 500)], 4000) == Lap(2500, 1000)
  {
  }

  /** A lap record joins the list only through the Lap button while running, and it
      is then the one `NextLap` computes, after all the earlier ones. */
  lemma LapsGrowOnlyByLap(s: State, e: Event)
    requires |Step(s, e).laps| > |s.laps|
    ensures e == LapPressed && s.running
    ensures Step(s, e).laps == s.laps + [NextLap(s.laps, s.time)]
  {
  }

  /** Between a Start and the next Start or Reset, laps are only ever appended:
      the earlier list is a prefix of the later one. */
  lemma {:induction false} LapsKeptWithoutClear(s: State, es: seq<Event>)
    requires forall i :: 0 <= i < |es| ==> es[i] != StartPressed && es[i] != ResetPressed
    ensures s.laps <= Run(s, es).laps
    decreases |es|
  {
    if es != [] {
      LapsKeptWithoutClear(Step(s, es[0]), es[1..]);
    }
  }

  /** The stopwatch component's state and its handlers. */
  class Stopwatch {
    var time: int
    var running: bool
    var laps: seq<Lap>

    function Snapshot(): State
      reads this
    {
      State(time, running, laps)
    }

    ghost predicate Valid()
      reads this
    {
      Inv(Snapshot())
    }

    constructor ()
      ensures Valid()
      ensures time == 0 && !running && laps == []
    {
      time := 0;
      running := false;
      laps := [];
    }

    /** Start: runs the watch and clears the laps; the elapsed time is kept. */
    method Start()
      requires Valid() && !running
      modifies this
      ensures Valid()
      ensures time == old(time) && running && laps == []
      ensures Snapshot() == Step(old(Snapshot()), StartPressed)
    {
      running := true;
      laps := [];
    }

    /** Pause: stops the watch, keeping the elapsed time and the laps. */
    method Pause()
      requires Valid() && running
      modifies this
      ensures Valid()
      ensures time == old(time) && !running && laps == old(laps)
      ensures Snapshot() == Step(old(Snapshot()), PausePressed)
    {
      running := false;
    }

    /** Stop: stops the watch and sets the elapsed time to zero; the laps are kept. */
    method Stop()
      requires Valid() && running
      modifies this
      ensures Valid()
      ensures time == 0 && !running && laps == old(laps)
      ensures Snapshot() == Step(old(Snapshot()), StopPressed)
    {
      running := false;
      time := 0;
    }

    /** Reset: sets the elapsed time to zero and clears the laps, running or not. */
    method Reset()
      requires Valid()
      modifies this
      ensures Valid()
      ensures time == 0 && running == old(running) && laps == []
      ensures Snapshot() == Step(old(Snapshot()), ResetPressed)
    {
      time := 0;
      laps := [];
    }

    /** Lap: appends one record computed from the elapsed time and the previous
        lap's `time`; the earlier records are untouched. */
    method RecordLap()
      requires Valid() && running
      modifies this
      ensures Valid()
      ensures time == old(time) && running
      ensures |laps| == |old(laps)| + 1 && laps[..|old(laps)|] == old(laps)
      ensures laps[|laps| - 1].time == time - LastLapTime(old(laps))
      ensures laps[|laps| - 1].difference == laps[|laps| - 1].time - LastLapTime(old(laps))
      ensures Snapshot() == Step(old(Snapshot()), LapPressed)
    {
      var lastLapTime := if |laps| > 0 then laps[|laps| - 1].time else 0;
      var lapTime := time - lastLapTime;
      laps := laps + [Lap(lapTime, lapTime - lastLapTime)];
      StepKeepsInv(old(Snapshot()), LapPressed);
    }

    /** One firing of the 10 ms timer, which is active only while running. */
    method Tick()
      requires Valid() && running
      modifies this
      ensures Valid()
      ensures time == old(time) + TickMillis && running && laps == old(laps)
      ensures Snapshot() == Step(old(Snapshot()), Event.Tick)
    {
      time := time + TickMillis;
    }
  }
}
