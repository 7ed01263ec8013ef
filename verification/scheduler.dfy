/**
 * The polling loop of `main`: each tick derives the day state, and when it differs
 * from the remembered one asks for a theme of the matching mode and remembers the new
 * state. A theme command that raises aborts the tick before the state is remembered
 * (and before a one-shot run stops), so the next tick retries. A run is modelled over a
 * finite sequence of ticks; sleeping between ticks and interrupts are not modelled.
 */
module SchedulerLoop {
  import opened Wrappers
  import opened DayNight
  import opened Themes

  /** Light themes by day, dark themes by night. */
  function ModeFor(s: DayState): Mode {
    if s == Day then Light else Dark
  }

  /** What one tick observes: the current instant, the day's sun times, and how the theme command would end. */
  datatype TickInput = TickInput(now: int, sun: Option<SunTimes>, command: CommandResult)

  /** A detected transition and the theme request it caused. */
  datatype Switch = Switch(from: Option<DayState>, to: DayState, mode: Mode, selection: Selection)

  function StateOf(t: TickInput): DayState {
    CurrentState(t.now, t.sun)
  }

  function States(ticks: seq<TickInput>): (states: seq<DayState>)
    ensures |states| == |ticks|
    ensures forall i :: 0 <= i < |ticks| ==> states[i] == StateOf(ticks[i])
  {
    seq(|ticks|, i requires 0 <= i < |ticks| => StateOf(ticks[i]))
  }

  function Modes(events: seq<Switch>): (modes: seq<Mode>)
    ensures |modes| == |events|
    ensures forall i :: 0 <= i < |events| ==> modes[i] == events[i].mode
  {
    seq(|events|, i requires 0 <= i < |events| => events[i].mode)
  }

  /** The remembered state after a sequence of states, starting from `last`. */
  function Final(last: Option<DayState>, states: seq<DayState>): Option<DayState> {
    if states == [] then last else Some(states[|states| - 1])
  }

  /** The modes requested while the states are observed in order, starting from `last`. */
  function Requests(last: Option<DayState>, states: seq<DayState>): seq<Mode>
    decreases |states|
  {
    if states == [] then []
    else (if last != Some(states[0]) then [ModeFor(states[0])] else []) + Requests(Some(states[0]), states[1..])
  }

  /** Observing one more state adds a request exactly when it differs from the remembered one. */
  lemma {:induction false} RequestsSnoc(last: Option<DayState>, states: seq<DayState>, s: DayState)
    ensures Requests(last, states + [s])
            == Requests(last, states) + (if Final(last, states) != Some(s) then [ModeFor(s)] else [])
    decreases |states|
  {
    if states != [] {
      assert (states + [s])[1..] == states[1..] + [s];
      RequestsSnoc(Some(states[0]), states[1..], s);
    }
  }

  /**
   * Requests alternate between light and dark, and the first one never repeats the
   * mode of a state already remembered: no theme is asked for twice in a row.
   */
  lemma {:induction false} RequestsAlternate(last: Option<DayState>, states: seq<DayState>)
    ensures var r := Requests(last, states);
      && (last.Some? && r != [] ==> r[0] != ModeFor(last.value))
      && (forall i :: 0 <= i < |r| - 1 ==> r[i] != r[i + 1])
    decreases |states|
  {
    if states != [] {
      RequestsAlternate(Some(states[0]), states[1..]);
    }
  }

  /**
   * After a non-empty run the theme last asked for matches the current state; if none
   * was asked for, the state never left the remembered one.
   */
  lemma {:induction false} ThemeTracksState(last: Option<DayState>, states: seq<DayState>)
    requires states != []
    ensures var r := Requests(last, states);
      && (r != [] ==> r[|r| - 1] == ModeFor(states[|states| - 1]))
      && (r == [] ==> forall i :: 0 <= i < |states| ==> last == Some(states[i]))
    decreases |states|
  {
    if |states| > 1 {
      ThemeTracksState(Some(states[0]), states[1..]);
      var r := Requests(last, states);
      if r == [] {
        forall i | 0 <= i < |states| ensures last == Some(states[i]) {
          if i > 0 { assert states[i] == states[1..][i - 1]; }
        }
      }
    }
  }

  /** While the state stays where it is, no theme is requested. */
  lemma {:induction false} SteadyStateNoRequests(s: DayState, states: seq<DayState>)
    requires forall i :: 0 <= i < |states| ==> states[i] == s
    ensures Requests(Some(s), states) == []
    decreases |states|
  {
    if states != [] {
      SteadyStateNoRequests(s, states[1..]);
    }
  }

  /** The end-to-end case: day, then night after sunset, then night again gives one dark request. */
  lemma DayThenNightOnce()
    ensures Requests(Some(Day), [Night, Night]) == [Dark]
  {
  }

  /**
   * Whether the theme request of a tick that switches would end by raising: a theme is
   * picked, the command is run (no dry-run), and it raises.
   */
  predicate RaisesOn(catalog: Catalog, dryRun: bool, t: TickInput) {
    Bucket(catalog, ModeFor(StateOf(t))) != [] && !dryRun && t.command == Raised
  }

  /** The state remembered after one tick: unchanged when the tick's switch raised. */
  function Remembered(catalog: Catalog, dryRun: bool, last: Option<DayState>, t: TickInput): Option<DayState> {
    if last != Some(StateOf(t)) && RaisesOn(catalog, dryRun, t) then last else Some(StateOf(t))
  }

  function RememberedAfter(catalog: Catalog, dryRun: bool, last: Option<DayState>, ticks: seq<TickInput>): Option<DayState>
    decreases |ticks|
  {
    if ticks == [] then last else RememberedAfter(catalog, dryRun, Remembered(catalog, dryRun, last, ticks[0]), ticks[1..])
  }

  /** The modes requested over a sequence of ticks, starting from `last`, retries included. */
  function TickRequests(catalog: Catalog, dryRun: bool, last: Option<DayState>, ticks: seq<TickInput>): seq<Mode>
    decreases |ticks|
  {
    if ticks == [] then []
    else
      (if last != Some(StateOf(ticks[0])) then [ModeFor(StateOf(ticks[0]))] else [])
      + TickRequests(catalog, dryRun, Remembered(catalog, dryRun, last, ticks[0]), ticks[1..])
  }

  /** One more tick adds a request exactly when its state differs from the remembered one. */
  lemma {:induction false} TickRequestsSnoc(catalog: Catalog, dryRun: bool, last: Option<DayState>, ticks: seq<TickInput>, t: TickInput)
    ensures TickRequests(catalog, dryRun, last, ticks + [t])
            == TickRequests(catalog, dryRun, last, ticks)
               + (if RememberedAfter(catalog, dryRun, last, ticks) != Some(StateOf(t)) then [ModeFor(StateOf(t))] else [])
    ensures RememberedAfter(catalog, dryRun, last, ticks + [t])
            == Remembered(catalog, dryRun, RememberedAfter(catalog, dryRun, last, ticks), t)
    decreases |ticks|
  {
    if ticks != [] {
      assert (ticks + [t])[1..] == ticks[1..] + [t];
      TickRequestsSnoc(catalog, dryRun, Remembered(catalog, dryRun, last, ticks[0]), ticks[1..], t);
    }
  }

  /**
   * When no theme command raises, the tick-level rule is the state-level rule: a request
   * for every change of state and none otherwise.
   */
  lemma {:induction false} NoRaiseAgrees(catalog: Catalog, dryRun: bool, last: Option<DayState>, ticks: seq<TickInput>)
    requires forall i :: 0 <= i < |ticks| ==> !RaisesOn(catalog, dryRun, ticks[i])
    ensures TickRequests(catalog, dryRun, last, ticks) == Requests(last, States(ticks))
    ensures RememberedAfter(catalog, dryRun, last, ticks) == Final(last, States(ticks))
    decreases |ticks|
  {
    if ticks != [] {
      assert States(ticks)[1..] == States(ticks[1..]);
      NoRaiseAgrees(catalog, dryRun, Some(StateOf(ticks[0])), ticks[1..]);
    }
  }

  /** A switch whose theme command raised is requested again by the next tick in the same state. */
  lemma RaisedSwitchIsRetried(catalog: Catalog, dryRun: bool, last: Option<DayState>, t1: TickInput, t2: TickInput)
    requires last != Some(StateOf(t1)) && RaisesOn(catalog, dryRun, t1)
    requires StateOf(t2) == StateOf(t1)
    ensures TickRequests(catalog, dryRun, last, [t1, t2]) == [ModeFor(StateOf(t1)), ModeFor(StateOf(t1))]
  {
    var m := ModeFor(StateOf(t1));
    assert Remembered(catalog, dryRun, last, t1) == last;
    assert [t1, t2][1..] == [t2];
    assert [t2][1..] == [];
    assert TickRequests(catalog, dryRun, last, [t2]) == [m];
    assert TickRequests(catalog, dryRun, last, [t1, t2]) == [m] + TickRequests(catalog, dryRun, last, [t2]);
  }

  /**
   * The ticks a one-shot run executes: a tick whose switch raised does not reach the
   * one-shot stop, so the run goes on up to the first tick that does not raise.
   */
  function OneShotTicks(catalog: Catalog, dryRun: bool, ticks: seq<TickInput>): seq<TickInput>
    decreases |ticks|
  {
    if ticks == [] then []
    else if RaisesOn(catalog, dryRun, ticks[0]) then [ticks[0]] + OneShotTicks(catalog, dryRun, ticks[1..])
    else [ticks[0]]
  }

  /**
   * A one-shot run is a prefix of the ticks in which every tick but the last raised,
   * and it ends early only at a tick that did not raise.
   */
  lemma {:induction false} OneShotTicksShape(catalog: Catalog, dryRun: bool, ticks: seq<TickInput>)
    ensures var run := OneShotTicks(catalog, dryRun, ticks);
      && |run| <= |ticks| && run == ticks[..|run|]
      && (forall k :: 0 <= k < |run| - 1 ==> RaisesOn(catalog, dryRun, run[k]))
      && (|run| < |ticks| ==> run != [] && !RaisesOn(catalog, dryRun, run[|run| - 1]))
    decreases |ticks|
  {
    if ticks != [] && RaisesOn(catalog, dryRun, ticks[0]) {
      OneShotTicksShape(catalog, dryRun, ticks[1..]);
      var run := OneShotTicks(catalog, dryRun, ticks);
      var tail := OneShotTicks(catalog, dryRun, ticks[1..]);
      assert run == [ticks[0]] + tail;
      forall k | 0 <= k < |run| - 1 ensures RaisesOn(catalog, dryRun, run[k]) {
        if k > 0 { assert run[k] == tail[k - 1]; }
      }
      assert ticks[..|run|] == [ticks[0]] + ticks[1..][..|tail|];
    }
  }

  /** The ticks a run executes: all of them, or the one-shot prefix. */
  function Executed(catalog: Catalog, dryRun: bool, ticks: seq<TickInput>, oneShot: bool): seq<TickInput> {
    if oneShot then OneShotTicks(catalog, dryRun, ticks) else ticks
  }

  /** Past a prefix of raising ticks, the one-shot run continues with the rest. */
  lemma {:induction false} OneShotTicksSkip(catalog: Catalog, dryRun: bool, ticks: seq<TickInput>, i: nat)
    requires i <= |ticks|
    requires forall j :: 0 <= j < i ==> RaisesOn(catalog, dryRun, ticks[j])
    ensures OneShotTicks(catalog, dryRun, ticks) == ticks[..i] + OneShotTicks(catalog, dryRun, ticks[i..])
    decreases i
  {
    if i > 0 {
      var rest := ticks[1..];
      forall j | 0 <= j < i - 1
        ensures RaisesOn(catalog, dryRun, rest[j])
      {
        assert rest[j] == ticks[j + 1];
      }
      OneShotTicksSkip(catalog, dryRun, rest, i - 1);
      assert OneShotTicks(catalog, dryRun, ticks) == [ticks[0]] + OneShotTicks(catalog, dryRun, rest);
      assert rest[i - 1..] == ticks[i..];
      assert ticks[..i] == [ticks[0]] + rest[..i - 1];
    }
  }

  /** A one-shot run stops at the first tick that does not raise. */
  lemma OneShotStopsAt(catalog: Catalog, dryRun: bool, ticks: seq<TickInput>, i: nat)
    requires 0 < i <= |ticks|
    requires forall j :: 0 <= j < i - 1 ==> RaisesOn(catalog, dryRun, ticks[j])
    requires !RaisesOn(catalog, dryRun, ticks[i - 1])
    ensures OneShotTicks(catalog, dryRun, ticks) == ticks[..i]
  {
    OneShotTicksSkip(catalog, dryRun, ticks, i - 1);
    assert OneShotTicks(catalog, dryRun, ticks[i - 1..]) == [ticks[i - 1]];
    assert ticks[..i - 1] + [ticks[i - 1]] == ticks[..i];
  }

  /** When every command raises, a one-shot run goes through all the ticks. */
  lemma OneShotRunsThrough(catalog: Catalog, dryRun: bool, ticks: seq<TickInput>)
    requires forall j :: 0 <= j < |ticks| ==> RaisesOn(catalog, dryRun, ticks[j])
    ensures OneShotTicks(catalog, dryRun, ticks) == ticks
  {
    OneShotTicksSkip(catalog, dryRun, ticks, |ticks|);
    assert ticks[|ticks|..] == [];
    assert ticks[..|ticks|] == ticks;
  }

  /** When no theme command raises, the executed ticks' requests follow the state-level rule. */
  lemma NoRaiseRun(catalog: Catalog, dryRun: bool, ticks: seq<TickInput>, oneShot: bool)
    ensures var executed := Executed(catalog, dryRun, ticks, oneShot);
      (forall i :: 0 <= i < |ticks| ==> !RaisesOn(catalog, dryRun, ticks[i])) ==>
        TickRequests(catalog, dryRun, None, executed) == Requests(None, States(executed))
  {
    var executed := Executed(catalog, dryRun, ticks, oneShot);
    if forall i :: 0 <= i < |ticks| ==> !RaisesOn(catalog, dryRun, ticks[i]) {
      OneShotTicksShape(catalog, dryRun, ticks);
      assert forall j :: 0 <= j < |executed| ==> executed[j] == ticks[j];
      NoRaiseAgrees(catalog, dryRun, None, executed);
    }
  }

  /** One executed tick extends the requests and the remembered state by the tick-level rule. */
  lemma RunStep(catalog: Catalog, dryRun: bool, ticks: seq<TickInput>, i: nat,
                last: Option<DayState>, events: seq<Switch>, event: Option<Switch>)
    requires i < |ticks|
    requires last == RememberedAfter(catalog, dryRun, None, ticks[..i])
    requires Modes(events) == TickRequests(catalog, dryRun, None, ticks[..i])
    requires event.Some? <==> last != Some(StateOf(ticks[i]))
    requires event.Some? ==> event.value.mode == ModeFor(StateOf(ticks[i]))
    ensures Remembered(catalog, dryRun, last, ticks[i]) == RememberedAfter(catalog, dryRun, None, ticks[..i + 1])
    ensures Modes(events + (if event.Some? then [event.value] else [])) == TickRequests(catalog, dryRun, None, ticks[..i + 1])
  {
    assert ticks[..i + 1] == ticks[..i] + [ticks[i]];
    TickRequestsSnoc(catalog, dryRun, None, ticks[..i], ticks[i]);
    if event.Some? {
      assert Modes(events + [event.value]) == Modes(events) + [event.value.mode];
    } else {
      assert events + [] == events;
    }
  }

  /** The scheduler's state: the catalog, the dry-run flag and the last observed day state. */
  class Scheduler {
    const catalog: Catalog
    const dryRun: bool
    var lastState: Option<DayState>

    constructor (catalog: Catalog, dryRun: bool)
      ensures this.catalog == catalog && this.dryRun == dryRun && lastState == None
    {
      this.catalog := catalog;
      this.dryRun := dryRun;
      lastState := None;
    }

    /**
     * One tick: a switch is requested exactly when the state differs from the remembered
     * one, in the mode matching the new state; the new state is remembered unless the
     * theme command raised, whether or not the command reported success.
     */
    method Tick(input: TickInput) returns (event: Option<Switch>)
      modifies this
      ensures lastState == Remembered(catalog, dryRun, old(lastState), input)
      ensures event.Some? <==> old(lastState) != Some(StateOf(input))
      ensures event.Some? ==>
        && event.value.from == old(lastState)
        && event.value.to == StateOf(input)
        && event.value.mode == ModeFor(StateOf(input))
        && Consistent(catalog, event.value.mode, dryRun, event.value.selection)
        && (event.value.selection.ok <==> event.value.selection.choice.Some? && (dryRun || input.command == Succeeded))
        && (event.value.selection.raised <==> RaisesOn(catalog, dryRun, input))
    {
      var currentState := CurrentState(input.now, input.sun);
      event := None;
      if Some(currentState) != lastState {
        var themeMode := if currentState == Day then Light else Dark;
        var selection := SetRandomTheme(themeMode, catalog, dryRun, input.command);
        event := Some(Switch(lastState, currentState, themeMode, selection));
        if !selection.raised {
          lastState := Some(currentState);
        }
      }
    }
  }

  /** Every recorded switch honours the catalog and the dry-run flag. */
  predicate AllConsistent(catalog: Catalog, dryRun: bool, events: seq<Switch>) {
    forall k :: 0 <= k < |events| ==> Consistent(catalog, events[k].mode, dryRun, events[k].selection)
  }

  lemma AllConsistentAppend(catalog: Catalog, dryRun: bool, events: seq<Switch>, e: Switch)
    requires AllConsistent(catalog, dryRun, events)
    requires Consistent(catalog, e.mode, dryRun, e.selection)
    ensures AllConsistent(catalog, dryRun, events + [e])
  {
    forall k | 0 <= k < |events| + 1
      ensures Consistent(catalog, (events + [e])[k].mode, dryRun, (events + [e])[k].selection)
    {
      if k < |events| {
        assert (events + [e])[k] == events[k];
      }
    }
  }

  /** Every recorded switch ended with its theme command raising. */
  predicate AllRaised(events: seq<Switch>) {
    forall k :: 0 <= k < |events| ==> events[k].selection.raised
  }

  lemma AllRaisedAppend(events: seq<Switch>, e: Switch)
    requires AllRaised(events) && e.selection.raised
    ensures AllRaised(events + [e])
  {
    forall k | 0 <= k < |events| + 1 ensures (events + [e])[k].selection.raised {
      if k < |events| {
        assert (events + [e])[k] == events[k];
      }
    }
  }

  /**
   * A run of the loop over the given ticks: the modes requested are exactly those the
   * tick-level rule gives for the executed ticks (the state-level rule when no theme
   * command raises, by `NoRaiseRun`); every request honours the catalog; in one-shot
   * mode every request but the last ended by raising.
   */
  method Run(catalog: Catalog, dryRun: bool, oneShot: bool, ticks: seq<TickInput>)
    returns (events: seq<Switch>)
    ensures Modes(events) == TickRequests(catalog, dryRun, None, Executed(catalog, dryRun, ticks, oneShot))
    ensures AllConsistent(catalog, dryRun, events)
    ensures oneShot ==> events == [] || AllRaised(events[..|events| - 1])
  {
    var scheduler := new Scheduler(catalog, dryRun);
    events := [];
    var i := 0;
    ghost var stopped := false;
    while i < |ticks|
      invariant 0 <= i <= |ticks|
      invariant scheduler.catalog == catalog && scheduler.dryRun == dryRun
      invariant scheduler.lastState == RememberedAfter(catalog, dryRun, None, ticks[..i])
      invariant Modes(events) == TickRequests(catalog, dryRun, None, ticks[..i])
      invariant AllConsistent(catalog, dryRun, events)
      invariant oneShot ==> forall j :: 0 <= j < i ==> RaisesOn(catalog, dryRun, ticks[j])
      invariant oneShot ==> scheduler.lastState == None
      invariant oneShot ==> AllRaised(events)
    {
      ghost var last := scheduler.lastState;
      var event := scheduler.Tick(ticks[i]);
      RunStep(catalog, dryRun, ticks, i, last, events, event);
      ghost var before := events;
      if event.Some? {
        AllConsistentAppend(catalog, dryRun, events, event.value);
        if oneShot && event.value.selection.raised {
          AllRaisedAppend(events, event.value);
        }
        events := events + [event.value];
      }
      i := i + 1;
      if oneShot && !event.value.selection.raised {
        assert events[..|events| - 1] == before;
        OneShotStopsAt(catalog, dryRun, ticks, i);
        stopped := true;
        break;
      }
    }
    if !stopped {
      assert ticks[..i] == ticks;
      if oneShot {
        OneShotRunsThrough(catalog, dryRun, ticks);
      }
    }
    assert Executed(catalog, dryRun, ticks, oneShot) == ticks[..i];
  }
}
