/** The control loop of the ice-tower daemon and its hysteresis decision.

    Each tick sleeps, reads the CPU temperature, appends it to the measurement
    window and then decides: a tower that is off is switched on when the share
    of readings strictly above the temperature limit is strictly greater than
    the percentage limit; a tower that is on is switched off when the share of
    readings strictly below the limit is strictly greater than the percentage
    limit. The decision runs on whatever the window holds, full or not, and
    divides by the number of readings it holds.

    The endless loop is modelled as a fold over a finite sequence of readings;
    the sensor is that sequence and the tower is a `bool`.
 */
module Controller {
  import opened Outcomes
  import opened Percentage
  import opened MeasurementWindow

  /** The daemon's parsed arguments. */
  datatype Config = Config(pin: int, delay: int, temperature: real, window: int, percentage: real)

  /** What one tick does to the tower: nothing, `tower.on()` or `tower.off()`. */
  datatype Action = Keep | TurnOn | TurnOff

  /** The daemon between two ticks: its window and whether the tower is on. */
  datatype State = State(window: Window<real>, on: bool)

  /** The state after a run and the action taken at each tick. */
  datatype Outcome = Outcome(state: State, actions: seq<Action>)

  /** The comparator `lambda x: x > limit`. */
  function Above(limit: real): real -> bool {
    x => x > limit
  }

  /** The comparator `lambda x: x < limit`. */
  function Below(limit: real): real -> bool {
    x => x < limit
  }

  /** The tower's state after `action`. */
  function Apply(on: bool, action: Action): bool {
    match action
    case Keep => on
    case TurnOn => true
    case TurnOff => false
  }

  /** The decision on a window `items` for a tower in state `on`, with
      temperature limit `limit` and percentage limit `pct`. */
  function Decide(items: seq<real>, on: bool, limit: real, pct: real): (r: Result<Action>)
    ensures r.Err? <==> |items| == 0
    ensures r.Err? ==> r.fault == ZeroDivisionError
    ensures r.Ok? && !on ==>
      r.value != TurnOff && (r.value == TurnOn <==> Exceeds(Count(items, Above(limit)), |items|, pct))
    ensures r.Ok? && on ==>
      r.value != TurnOn && (r.value == TurnOff <==> Exceeds(Count(items, Below(limit)), |items|, pct))
  {
    if !on then
      var actual :- CountPercentage(items, Above(limit));
      PercentageExceedsIff(items, Above(limit), pct);
      if actual > pct then Ok(TurnOn) else Ok(Keep)
    else
      var actual :- CountPercentage(items, Below(limit));
      PercentageExceedsIff(items, Below(limit), pct);
      if actual > pct then Ok(TurnOff) else Ok(Keep)
  }

  /** One pass of the loop body: sleep (a negative delay raises ValueError),
      read `reading`, append it, decide and act. */
  function Tick(cfg: Config, s: State, reading: real): (r: Result<(State, Action)>)
    requires s.window.Valid()
    ensures r.Err? <==> cfg.delay < 0 || s.window.capacity == 0
    ensures r.Err? ==> r.fault == (if cfg.delay < 0 then ValueError else ZeroDivisionError)
    ensures r.Ok? ==> r.value.0.window.Valid() && r.value.0.window.capacity == s.window.capacity
    ensures r.Ok? ==> r.value.0.window.items == Last(s.window.items + [reading], s.window.capacity)
    ensures r.Ok? ==> r.value.0.on == Apply(s.on, r.value.1)
    ensures r.Ok? ==> (r.value.1 == TurnOn ==> !s.on) && (r.value.1 == TurnOff ==> s.on)
    ensures r.Ok? ==>
      var w := Last(s.window.items + [reading], s.window.capacity);
      && (!s.on ==> (r.value.1 == TurnOn <==> Exceeds(Count(w, Above(cfg.temperature)), |w|, cfg.percentage)))
      && (s.on ==> (r.value.1 == TurnOff <==> Exceeds(Count(w, Below(cfg.temperature)), |w|, cfg.percentage)))
  {
    if cfg.delay < 0 then Err(ValueError)
    else
      var w := Append(s.window, reading);
      var action :- Decide(w.items, s.on, cfg.temperature, cfg.percentage);
      Ok((State(w, Apply(s.on, action)), action))
  }

  /** Ticks over `readings`, oldest first, from state `s`; the first fault ends the run. */
  function RunFrom(cfg: Config, s: State, readings: seq<real>): (r: Result<Outcome>)
    requires s.window.Valid()
    ensures r.Ok? ==> |r.value.actions| == |readings|
    ensures r.Ok? ==> r.value.state.window.Valid() && r.value.state.window.capacity == s.window.capacity
    decreases |readings|
  {
    if |readings| == 0 then Ok(Outcome(s, []))
    else
      var step :- Tick(cfg, s, readings[0]);
      var rest :- RunFrom(cfg, step.0, readings[1..]);
      Ok(Outcome(rest.state, [step.1] + rest.actions))
  }

  /** An empty window of the given capacity and a tower that is off. */
  function Initial(capacity: nat): State {
    State(Empty(capacity), false)
  }

  /** `main`: create the window (a negative `maxlen` raises ValueError), then
      tick once per reading, starting with the tower off. */
  function Run(cfg: Config, readings: seq<real>): (r: Result<Outcome>)
    ensures r.Ok? ==> |r.value.actions| == |readings|
    ensures r.Ok? ==> r.value.state.window.capacity == cfg.window
  {
    if cfg.window < 0 then Err(ValueError)
    else RunFrom(cfg, Initial(cfg.window), readings)
  }

  /** Replays `actions` on a device that starts in state `on`: the final state,
      or None if some action switches on a tower that is on or switches off a
      tower that is off. */
  function Replay(on: bool, actions: seq<Action>): Option<bool>
    decreases |actions|
  {
    if |actions| == 0 then Some(on)
    else
      match actions[0]
      case Keep => Replay(on, actions[1..])
      case TurnOn => if on then None else Replay(true, actions[1..])
      case TurnOff => if on then Replay(false, actions[1..]) else None
  }

  // ---------------------------------------------------------------------------
  // The decision
  // ---------------------------------------------------------------------------

  /** With a percentage limit of at least 50, no window has both a share above
      the limit and a share below it that exceed the percentage limit. */
  lemma NoWindowIsBothHotAndCold(items: seq<real>, limit: real, pct: real)
    requires pct >= 50.0
    ensures !(Exceeds(Count(items, Above(limit)), |items|, pct)
              && Exceeds(Count(items, Below(limit)), |items|, pct))
  {
    CountDisjoint(items, Above(limit), Below(limit));
    HalfSharesExclusive(Count(items, Above(limit)) as real, Count(items, Below(limit)) as real,
                        |items| as real, pct);
  }

  /** Over reals: two disjoint counts cannot both be more than `pct >= 50` percent of `n`. */
  lemma HalfSharesExclusive(a: real, b: real, n: real, pct: real)
    requires pct >= 50.0 && n >= 0.0 && a + b <= n
    ensures !(a * 100.0 > pct * n && b * 100.0 > pct * n)
  {
    var pn := pct * n;
    assert (pct - 50.0) * n >= 0.0;
    assert pn >= 50.0 * n;
    if a * 100.0 > pn {
      assert b * 100.0 <= n * 100.0 - a * 100.0 < n * 100.0 - pn <= pn;
    }
  }

  /** Hysteresis: with a percentage limit of at least 50, deciding again on the
      same window right after a decision never switches the tower back. */
  lemma DecideIsIdempotent(items: seq<real>, on: bool, limit: real, pct: real)
    requires |items| > 0 && pct >= 50.0
    ensures Decide(items, on, limit, pct).Ok?
    ensures Decide(items, Apply(on, Decide(items, on, limit, pct).value), limit, pct) == Ok(Keep)
  {
    NoWindowIsBothHotAndCold(items, limit, pct);
  }

  /** Without the bound of 50 the tower can chatter: with a percentage limit
      of 40, the window [50, 30] switches an off tower on and an on tower off. */
  lemma ChatterBelowHalf()
    ensures Decide([50.0, 30.0], false, 40.0, 40.0) == Ok(TurnOn)
    ensures Decide([50.0, 30.0], true, 40.0, 40.0) == Ok(TurnOff)
  {
    assert Count([50.0, 30.0], Above(40.0)) == 1 by {
      assert [50.0, 30.0][1..] == [30.0];
    }
    assert Count([50.0, 30.0], Below(40.0)) == 1 by {
      assert [50.0, 30.0][1..] == [30.0];
    }
  }

  /** A share exactly at the percentage limit does not switch the tower. */
  lemma BoundaryDoesNotSwitch(items: seq<real>, limit: real, pct: real)
    requires |items| > 0
    ensures (Count(items, Above(limit)) as real) * 100.0 == pct * (|items| as real)
            ==> Decide(items, false, limit, pct) == Ok(Keep)
    ensures (Count(items, Below(limit)) as real) * 100.0 == pct * (|items| as real)
            ==> Decide(items, true, limit, pct) == Ok(Keep)
  {
  }

  /** Eight readings above the limit followed by two equal to it, with a
      percentage limit of 80: the 80% share above does not exceed 80, so an off
      tower stays off; readings equal to the limit do not count as below, so an
      on tower stays on. */
  lemma EightOfTenAtEightyDoesNotSwitch(hot: seq<real>, limit: real)
    requires |hot| == 8
    requires forall i :: 0 <= i < |hot| ==> hot[i] > limit
    ensures Decide(hot + [limit, limit], false, limit, 80.0) == Ok(Keep)
    ensures Decide(hot + [limit, limit], true, limit, 80.0) == Ok(Keep)
  {
    var w := hot + [limit, limit];
    CountAllIff(hot, Above(limit));
    CountNoneIff([limit, limit], Above(limit));
    CountAppend(hot, [limit, limit], Above(limit));
    assert Count(w, Above(limit)) == 8;
    CountNoneIff(w, Below(limit));
  }

  /** Every reading strictly above the limit and a percentage limit below 100:
      an off tower is switched on. */
  lemma AllAboveSwitchesOn(items: seq<real>, limit: real, pct: real)
    requires |items| > 0 && pct < 100.0
    requires forall i :: 0 <= i < |items| ==> items[i] > limit
    ensures Decide(items, false, limit, pct) == Ok(TurnOn)
  {
    CountAllIff(items, Above(limit));
    BelowHundred(pct, |items| as real);
  }

  /** Every reading strictly below the limit and a percentage limit below 100:
      an on tower is switched off. */
  lemma AllBelowSwitchesOff(items: seq<real>, limit: real, pct: real)
    requires |items| > 0 && pct < 100.0
    requires forall i :: 0 <= i < |items| ==> items[i] < limit
    ensures Decide(items, true, limit, pct) == Ok(TurnOff)
  {
    CountAllIff(items, Below(limit));
    BelowHundred(pct, |items| as real);
  }

  /** `n * 100 > pct * n` for `pct < 100` and `n > 0`. */
  lemma BelowHundred(pct: real, n: real)
    requires pct < 100.0 && n > 0.0
    ensures n * 100.0 > pct * n
  {
    assert (100.0 - pct) * n > 0.0;
  }

  // ---------------------------------------------------------------------------
  // Runs
  // ---------------------------------------------------------------------------

  lemma {:induction false} RunFromFailsIff(cfg: Config, s: State, readings: seq<real>)
    requires s.window.Valid()
    ensures RunFrom(cfg, s, readings).Err?
        <==> |readings| > 0 && (cfg.delay < 0 || s.window.capacity == 0)
    ensures RunFrom(cfg, s, readings).Err?
        ==> RunFrom(cfg, s, readings).fault == (if cfg.delay < 0 then ValueError else ZeroDivisionError)
    decreases |readings|
  {
    if |readings| > 0 && cfg.delay >= 0 && s.window.capacity > 0 {
      var step := Tick(cfg, s, readings[0]).value;
      RunFromFailsIff(cfg, step.0, readings[1..]);
    }
  }

  /** A run fails exactly when the window size is negative (ValueError at
      creation), or when there is at least one tick and either the delay is
      negative (ValueError from the sleep) or the window size is zero (the
      window stays empty and the percentage divides by zero). */
  lemma RunFailsIff(cfg: Config, readings: seq<real>)
    ensures Run(cfg, readings).Err?
        <==> cfg.window < 0 || (|readings| > 0 && (cfg.delay < 0 || cfg.window == 0))
    ensures Run(cfg, readings).Err?
        ==> Run(cfg, readings).fault
            == (if cfg.window < 0 || cfg.delay < 0 then ValueError else ZeroDivisionError)
  {
    if cfg.window >= 0 {
      RunFromFailsIff(cfg, Initial(cfg.window), readings);
    }
  }

  lemma {:induction false} RunFromWindow(cfg: Config, s: State, readings: seq<real>)
    requires s.window.Valid()
    requires RunFrom(cfg, s, readings).Ok?
    ensures RunFrom(cfg, s, readings).value.state.window == AppendAll(s.window, readings)
    decreases |readings|
  {
    if |readings| > 0 {
      var step := Tick(cfg, s, readings[0]).value;
      RunFromWindow(cfg, step.0, readings[1..]);
    }
  }

  /** After a run over `n` readings with window size `W`, the window holds
      `min(n, W)` readings: the most recent ones, in the order they were read. */
  lemma RunKeepsRecentReadings(cfg: Config, readings: seq<real>)
    requires Run(cfg, readings).Ok?
    ensures |Run(cfg, readings).value.state.window.items| == Min(|readings|, cfg.window)
    ensures Run(cfg, readings).value.state.window.items == Last(readings, cfg.window)
  {
    RunFromWindow(cfg, Initial(cfg.window), readings);
    FillFromEmpty(cfg.window, readings);
  }

  lemma {:induction false} RunFromReplays(cfg: Config, s: State, readings: seq<real>)
    requires s.window.Valid()
    requires RunFrom(cfg, s, readings).Ok?
    ensures Replay(s.on, RunFrom(cfg, s, readings).value.actions)
            == Some(RunFrom(cfg, s, readings).value.state.on)
    decreases |readings|
  {
    if |readings| > 0 {
      var step := Tick(cfg, s, readings[0]).value;
      var rest := RunFrom(cfg, step.0, readings[1..]).value;
      RunFromReplays(cfg, step.0, readings[1..]);
      assert RunFrom(cfg, s, readings).value.actions == [step.1] + rest.actions;
      assert ([step.1] + rest.actions)[1..] == rest.actions;
    }
  }

  /** The tower only ever moves off to on or on to off: replaying the actions of
      a run from the initial off state never switches on a tower that is on or
      switches off a tower that is off, and ends in the run's final state. */
  lemma RunSwitchesAlternately(cfg: Config, readings: seq<real>)
    requires Run(cfg, readings).Ok?
    ensures Replay(false, Run(cfg, readings).value.actions) == Some(Run(cfg, readings).value.state.on)
  {
    RunFromReplays(cfg, Initial(cfg.window), readings);
  }

  /** The result of running over `readings` and then ticking once more on `x`. */
  function RunThenTick(cfg: Config, s: State, readings: seq<real>, x: real): Result<Outcome>
    requires s.window.Valid()
  {
    var prev :- RunFrom(cfg, s, readings);
    var step :- Tick(cfg, prev.state, x);
    Ok(Outcome(step.0, prev.actions + [step.1]))
  }

  /** Running over one more reading is running over the others, then one
      more tick from the state they reached. */
  lemma {:induction false} RunFromSnoc(cfg: Config, s: State, readings: seq<real>, x: real)
    requires s.window.Valid()
    ensures RunFrom(cfg, s, readings + [x]) == RunThenTick(cfg, s, readings, x)
    decreases |readings|
  {
    var rx := readings + [x];
    if |readings| == 0 {
      assert rx[0] == x && rx[1..] == [];
      assert readings + [x] == [x];
      match Tick(cfg, s, x)
      case Err(_) =>
      case Ok(step) =>
        assert [step.1] + [] == [] + [step.1];
    } else {
      TailOfSnoc(readings, x);
      match Tick(cfg, s, readings[0])
      case Err(_) =>
      case Ok(step) =>
        RunFromSnoc(cfg, step.0, readings[1..], x);
        SnocStep(cfg, s, readings, x, step);
    }
  }

  /** The inductive step of `RunFromSnoc`, given its hypothesis for the tail. */
  lemma {:induction false} SnocStep(cfg: Config, s: State, readings: seq<real>, x: real, step: (State, Action))
    requires s.window.Valid() && |readings| > 0
    requires Tick(cfg, s, readings[0]) == Ok(step)
    requires RunFrom(cfg, step.0, readings[1..] + [x]) == RunThenTick(cfg, step.0, readings[1..], x)
    ensures RunFrom(cfg, s, readings + [x]) == RunThenTick(cfg, s, readings, x)
  {
    TailOfSnoc(readings, x);
    match RunFrom(cfg, step.0, readings[1..])
    case Err(f) =>
      SnocStepTailFails(cfg, s, readings, x, step, f);
    case Ok(prev) =>
      SnocStepTailRuns(cfg, s, readings, x, step, prev);
  }

  lemma {:induction false} SnocStepTailFails(cfg: Config, s: State, readings: seq<real>, x: real, step: (State, Action), f: Fault)
    requires s.window.Valid() && |readings| > 0
    requires Tick(cfg, s, readings[0]) == Ok(step)
    requires (readings + [x])[0] == readings[0] && (readings + [x])[1..] == readings[1..] + [x]
    requires RunFrom(cfg, step.0, readings[1..]) == Err(f)
    requires RunFrom(cfg, step.0, readings[1..] + [x]) == Err(f)
    ensures RunFrom(cfg, s, readings + [x]) == Err(f)
    ensures RunThenTick(cfg, s, readings, x) == Err(f)
  {
  }

  lemma {:induction false} SnocStepTailRuns(cfg: Config, s: State, readings: seq<real>, x: real, step: (State, Action), prev: Outcome)
    requires s.window.Valid() && |readings| > 0
    requires Tick(cfg, s, readings[0]) == Ok(step)
    requires (readings + [x])[0] == readings[0] && (readings + [x])[1..] == readings[1..] + [x]
    requires RunFrom(cfg, step.0, readings[1..]) == Ok(prev)
    requires RunFrom(cfg, step.0, readings[1..] + [x]) == RunThenTick(cfg, step.0, readings[1..], x)
    ensures RunFrom(cfg, s, readings + [x]) == RunThenTick(cfg, s, readings, x)
  {
    assert RunFrom(cfg, s, readings) == Ok(Outcome(prev.state, [step.1] + prev.actions));
    match Tick(cfg, prev.state, x)
    case Err(f) =>
    case Ok(last) =>
      SnocStepBothRun(cfg, s, readings, x, step, prev, last);
  }

  lemma {:induction false} SnocStepBothRun(cfg: Config, s: State, readings: seq<real>, x: real,
                                           step: (State, Action), prev: Outcome, last: (State, Action))
    requires s.window.Valid() && |readings| > 0
    requires Tick(cfg, s, readings[0]) == Ok(step)
    requires (readings + [x])[0] == readings[0] && (readings + [x])[1..] == readings[1..] + [x]
    requires RunFrom(cfg, step.0, readings[1..] + [x]) == Ok(Outcome(last.0, prev.actions + [last.1]))
    ensures RunFrom(cfg, s, readings + [x]) == Ok(Outcome(last.0, ([step.1] + prev.actions) + [last.1]))
  {
    assert [step.1] + (prev.actions + [last.1]) == ([step.1] + prev.actions) + [last.1];
  }

  /** Each tick decides on the readings collected so far: the action the last
      tick of a run takes is the decision, from the state the earlier readings
      left, on the last `W` readings of the whole run (all of them while fewer
      than `W` have been read). */
  lemma RunLastTick(cfg: Config, readings: seq<real>, x: real)
    requires Run(cfg, readings + [x]).Ok?
    ensures Run(cfg, readings).Ok?
    ensures Decide(Last(readings + [x], cfg.window), Run(cfg, readings).value.state.on,
                   cfg.temperature, cfg.percentage).Ok?
    ensures var prev := Run(cfg, readings).value;
            var action := Decide(Last(readings + [x], cfg.window), prev.state.on,
                                 cfg.temperature, cfg.percentage).value;
            && Run(cfg, readings + [x]).value.actions == prev.actions + [action]
            && Run(cfg, readings + [x]).value.state.on == Apply(prev.state.on, action)
  {
    var s := Initial(cfg.window);
    RunFromSnoc(cfg, s, readings, x);
    RunFailsIff(cfg, readings + [x]);
    RunFailsIff(cfg, readings);
    var prev := Run(cfg, readings).value;
    RunKeepsRecentReadings(cfg, readings);
    LastOfLastAll(readings, [x], cfg.window);
    var w := Last(readings + [x], cfg.window);
    assert Append(prev.state.window, x).items == w;
  }

  /** There is no full-window guard: the first reading alone decides, so one
      reading above the limit switches the tower on whatever the window size. */
  lemma FirstReadingDecides(cfg: Config, x: real)
    requires cfg.window >= 1 && cfg.delay >= 0
    requires x > cfg.temperature && cfg.percentage < 100.0
    ensures Run(cfg, [x]).Ok?
    ensures Run(cfg, [x]).value.actions == [TurnOn]
    ensures Run(cfg, [x]).value.state.on
  {
    RunFailsIff(cfg, [x]);
    var s := Initial(cfg.window);
    assert Append(s.window, x).items == [x];
    assert Count([x], Above(cfg.temperature)) == 1;
    assert Tick(cfg, s, x).value.1 == TurnOn;
    var step := Tick(cfg, s, x).value;
    assert [x][1..] == [];
    assert RunFrom(cfg, step.0, []) == Ok(Outcome(step.0, []));
    assert Run(cfg, [x]).value.state == step.0;
  }
}
