/** The stopwatch's lap tracker: the current LapState, the list of completed laps, the
    two button handlers ("Lap" and the Start/Stop action), and what the widget displays.
    Every `Instant.now()` reading becomes a parameter in epoch milliseconds. */
module Stopwatch {
  import opened Decimal
  import opened Duration
  import opened Format

  /** `Instant.parse("2007-12-03T10:15:30.00Z")` in epoch milliseconds: the start time
      that the Start branch sets, whatever the clock says. */
  const FixedStartInstant: int := 1196676930000

  datatype Option<T> = None | Some(value: T)

  datatype LapState = Prepped | InProgress(startTime: int) | Completed(startTime: int, endTime: int)

  /** `LapState.Completed`, the element type of the lap history. */
  type CompletedLap = s: LapState | s.Completed? witness Completed(0, 0)

  /** The widget's state as a value: the current lap and the completed laps, oldest first. */
  datatype Session = Session(current: LapState, past: seq<CompletedLap>)

  /** A handler's effect: the new state, and the list handed to `onCompleteCallback`
      if the handler called it. */
  datatype Clicked = Clicked(after: Session, reported: Option<seq<CompletedLap>>)

  /** Both buttons are enabled unless the current lap is Completed. */
  predicate ButtonsEnabled(s: LapState): (enabled: bool)
    ensures enabled <==> s == Prepped || s.InProgress?
  {
    !s.Completed?
  }

  /** The action button's label. */
  function ActionLabel(s: LapState): (text: string)
    ensures text == "Finished" <==> !ButtonsEnabled(s)
    ensures text == "Stop" <==> s.InProgress?
    ensures text == "Start" <==> s == Prepped
  {
    if s.Completed? then "Finished" else if s.InProgress? then "Stop" else "Start"
  }

  /** The "Lap" handler on values: from InProgress it closes the running lap at the first
      reading and starts the next lap at the second; from any other state it does nothing. */
  function LapClicked(s: Session, endReading: int, startReading: int): (r: Session)
    ensures s.past <= r.past && |r.past| <= |s.past| + 1
    ensures s.current.InProgress? ==>
      && r.current == InProgress(startReading)
      && |r.past| == |s.past| + 1
      && r.past[|s.past|] == Completed(s.current.startTime, endReading)
    ensures !s.current.InProgress? ==> r == s
  {
    match s.current
    case InProgress(startTime) =>
      Session(InProgress(startReading), s.past + [Completed(startTime, endReading)])
    case _ => s
  }

  /** The Start/Stop handler on values: Start from Prepped (at the fixed instant), Stop
      from InProgress (closing the lap, recording it and reporting the history), and
      nothing from Completed. */
  function ActionClicked(s: Session, now: int): (c: Clicked)
    ensures s.past <= c.after.past && |c.after.past| <= |s.past| + 1
    ensures s.current == Prepped ==> c == Clicked(Session(InProgress(FixedStartInstant), s.past), None)
    ensures s.current.InProgress? ==>
      && c.after.current == Completed(s.current.startTime, now)
      && c.after.past == s.past + [c.after.current]
    ensures c.reported.Some? <==> s.current.InProgress?
    ensures c.reported.Some? ==> c.reported.value == c.after.past && FinishedIsLast(c.after)
    ensures s.current.Completed? ==> c == Clicked(s, None)
  {
    match s.current
    case Prepped => Clicked(Session(InProgress(FixedStartInstant), s.past), None)
    case InProgress(startTime) =>
      var finalLap: CompletedLap := Completed(startTime, now);
      var past: seq<CompletedLap> := s.past + [finalLap];
      Clicked(Session(finalLap, past), Some(past))
    case Completed(_, _) => Clicked(s, None)
  }

  /** A button press together with the clock readings its handler would take. */
  datatype Press = LapPress(endReading: int, startReading: int) | ActionPress(now: int)

  function Step(s: Session, p: Press): (c: Clicked) {
    match p
    case LapPress(t1, t2) => Clicked(LapClicked(s, t1, t2), None)
    case ActionPress(t) => ActionClicked(s, t)
  }

  /** The outcome of a sequence of presses: the final state and every list handed to the
      callback, in order. */
  datatype RunResult = RunResult(final: Session, reports: seq<seq<CompletedLap>>)

  function Run(s: Session, presses: seq<Press>): (r: RunResult)
    decreases |presses|
  {
    if presses == [] then RunResult(s, [])
    else
      var c := Step(s, presses[0]);
      var rest := Run(c.after, presses[1..]);
      RunResult(rest.final, (if c.reported.Some? then [c.reported.value] else []) + rest.reports)
  }

  /** When the current lap is Completed, it is the last lap of the history. */
  predicate FinishedIsLast(s: Session) {
    s.current.Completed? ==> |s.past| > 0 && s.past[|s.past| - 1] == s.current
  }

  /** The Stopwatch composable's remembered state: `currentLapState` and `pastLapStates`. */
  class StopwatchState {
    var currentLapState: LapState
    var pastLapStates: seq<CompletedLap>

    constructor (initialLapState: LapState := Prepped, initialPastLapStates: seq<CompletedLap> := [])
      ensures currentLapState == initialLapState
      ensures pastLapStates == initialPastLapStates
    {
      currentLapState := initialLapState;
      pastLapStates := initialPastLapStates;
    }

    function Snapshot(): Session
      reads this
    {
      Session(currentLapState, pastLapStates)
    }

    /** The "Lap" button's onClick, reading the clock twice: `endReading` for the end
        of the running lap, `startReading` for the start of the next. */
    method OnLapClick(endReading: int, startReading: int)
      modifies this
      ensures old(currentLapState).InProgress? ==>
        && pastLapStates == old(pastLapStates) + [Completed(old(currentLapState).startTime, endReading)]
        && currentLapState == InProgress(startReading)
      ensures !old(currentLapState).InProgress? ==>
        currentLapState == old(currentLapState) && pastLapStates == old(pastLapStates)
      ensures Snapshot() == LapClicked(old(Snapshot()), endReading, startReading)
    {
      if currentLapState.InProgress? {
        pastLapStates := pastLapStates + [Completed(currentLapState.startTime, endReading)];
        currentLapState := InProgress(startReading);
      }
    }

    /** The Start/Stop button's onClick; `now` is what `Instant.now()` reads if the Stop
        branch runs. Returns the list passed to `onCompleteCallback`, or None when the
        callback is not called. */
    method OnActionClick(now: int) returns (callbackArgument: Option<seq<CompletedLap>>)
      modifies this
      ensures old(currentLapState) == Prepped ==>
        && currentLapState == InProgress(FixedStartInstant)
        && pastLapStates == old(pastLapStates)
        && callbackArgument == None
      ensures old(currentLapState).InProgress? ==>
        && currentLapState == Completed(old(currentLapState).startTime, now)
        && pastLapStates == old(pastLapStates) + [currentLapState]
        && callbackArgument == Some(pastLapStates)
      ensures old(currentLapState).Completed? ==>
        && currentLapState == old(currentLapState)
        && pastLapStates == old(pastLapStates)
        && callbackArgument == None
      ensures Clicked(Snapshot(), callbackArgument) == ActionClicked(old(Snapshot()), now)
    {
      callbackArgument := None;
      if currentLapState == Prepped {
        currentLapState := InProgress(FixedStartInstant);
      } else if currentLapState.InProgress? {
        var finalLapState: CompletedLap := Completed(currentLapState.startTime, now);
        currentLapState := finalLapState;
        pastLapStates := pastLapStates + [finalLapState];
        callbackArgument := Some(pastLapStates);
      }
    }
  }

  /** A client of the class: a fresh stopwatch, Start, one Lap, then Stop. The callback
      receives both laps, the first starting at the fixed instant. */
  method StartLapStop(lapEnd: int, lapStart: int, stopTime: int) returns (reported: Option<seq<CompletedLap>>)
    ensures reported.Some?
    ensures reported.value == [Completed(FixedStartInstant, lapEnd), Completed(lapStart, stopTime)]
  {
    var stopwatch := new StopwatchState();
    var started := stopwatch.OnActionClick(lapEnd);
    stopwatch.OnLapClick(lapEnd, lapStart);
    assert stopwatch.pastLapStates == [Completed(FixedStartInstant, lapEnd)];
    reported := stopwatch.OnActionClick(stopTime);
  }

  /** Once the current lap is Completed both buttons are disabled, and the handlers would
      leave everything as it is even if they ran. */
  lemma DisabledHandlersAreNoOps(s: Session, t1: int, t2: int, now: int)
    requires !ButtonsEnabled(s.current)
    ensures LapClicked(s, t1, t2) == s
    ensures ActionClicked(s, now) == Clicked(s, None)
  {
  }

  /** "Lap" in Prepped does nothing either, although its button is enabled. */
  lemma LapInPreppedIsNoOp(s: Session, t1: int, t2: int)
    requires s.current == Prepped
    ensures ButtonsEnabled(s.current) && LapClicked(s, t1, t2) == s
  {
  }

  /** Both handlers keep a finished lap at the end of the history. */
  lemma HandlersKeepFinishedIsLast(s: Session, p: Press)
    requires FinishedIsLast(s)
    ensures FinishedIsLast(Step(s, p).after)
  {
  }

  /** Laps are only ever appended: the history before a run is a prefix of the history after. */
  lemma {:induction false} RunAppendsOnly(s: Session, presses: seq<Press>)
    ensures s.past <= Run(s, presses).final.past
    decreases |presses|
  {
    if presses != [] {
      var c := Step(s, presses[0]);
      RunAppendsOnly(c.after, presses[1..]);
    }
  }

  /** Each press appends at most one lap. */
  lemma {:induction false} RunGrowth(s: Session, presses: seq<Press>)
    ensures |Run(s, presses).final.past| <= |s.past| + |presses|
    decreases |presses|
  {
    if presses != [] {
      RunGrowth(Step(s, presses[0]).after, presses[1..]);
    }
  }

  /** From Completed nothing changes any more and the callback is never called again. */
  lemma {:induction false} RunFromCompleted(s: Session, presses: seq<Press>)
    requires s.current.Completed?
    ensures Run(s, presses) == RunResult(s, [])
    decreases |presses|
  {
    if presses != [] {
      assert Step(s, presses[0]) == Clicked(s, None);
      RunFromCompleted(s, presses[1..]);
    }
  }

  /** Starting from a state that is not yet Completed, a run calls the callback at most once;
      it has called it exactly when the run ends Completed, and then with the final history,
      whose last lap is the final state. */
  lemma {:induction false} RunCallbackOnce(s: Session, presses: seq<Press>)
    requires !s.current.Completed?
    ensures var RunResult(final, reports) := Run(s, presses);
      && |reports| <= 1
      && (|reports| == 1 <==> final.current.Completed?)
      && (|reports| == 1 ==> reports[0] == final.past && FinishedIsLast(final))
    decreases |presses|
  {
    if presses != [] {
      var c := Step(s, presses[0]);
      if c.after.current.Completed? {
        RunFromCompleted(c.after, presses[1..]);
      } else {
        RunCallbackOnce(c.after, presses[1..]);
      }
    }
  }

  /** Every reading in the presses is at least `clock` and none is earlier than the one
      before it (a clock that never goes backwards). */
  predicate MonotoneFrom(presses: seq<Press>, clock: int)
    decreases |presses|
  {
    presses == [] ||
    match presses[0]
    case LapPress(t1, t2) => clock <= t1 <= t2 && MonotoneFrom(presses[1..], t2)
    case ActionPress(t) => clock <= t && MonotoneFrom(presses[1..], t)
  }

  /** Every lap ends no earlier than it starts, and no lap starts before the previous one ends. */
  predicate Chronological(past: seq<CompletedLap>) {
    && (forall i :: 0 <= i < |past| ==> past[i].startTime <= past[i].endTime)
    && (forall i :: 0 <= i < |past| - 1 ==> past[i].endTime <= past[i + 1].startTime)
  }

  /** The history is chronological and bounded by `clock`, and a running lap started no
      earlier than the last completed one ended. */
  predicate OrderedUpTo(s: Session, clock: int) {
    && Chronological(s.past)
    && (forall i :: 0 <= i < |s.past| ==> s.past[i].endTime <= clock)
    && (s.current == Prepped ==> s.past == [] && FixedStartInstant <= clock)
    && (s.current.InProgress? ==>
          s.current.startTime <= clock
          && (|s.past| > 0 ==> s.past[|s.past| - 1].endTime <= s.current.startTime))
    && FinishedIsLast(s)
  }

  lemma {:induction false} RunKeepsOrder(s: Session, presses: seq<Press>, clock: int)
    requires OrderedUpTo(s, clock) && MonotoneFrom(presses, clock)
    ensures Chronological(Run(s, presses).final.past)
    decreases |presses|
  {
    if presses != [] {
      var next := match presses[0] case LapPress(_, t2) => t2 case ActionPress(t) => t;
      var c := Step(s, presses[0]);
      assert OrderedUpTo(c.after, next);
      RunKeepsOrder(c.after, presses[1..], next);
    }
  }

  /** From a fresh stopwatch (Prepped, with no earlier laps), with a clock that reads no earlier than the fixed start instant
      and never goes backwards, the recorded laps are in chronological order. */
  lemma FreshRunIsChronological(presses: seq<Press>)
    requires MonotoneFrom(presses, FixedStartInstant)
    ensures Chronological(Run(Session(Prepped, []), presses).final.past)
  {
    RunKeepsOrder(Session(Prepped, []), presses, FixedStartInstant);
  }

  /** The fresh-stopwatch condition cannot be dropped: a stopwatch handed earlier laps while
      still Prepped restarts from the fixed instant, so its next lap begins before the last
      earlier lap ended, even when the clock never goes backwards. */
  lemma InitialLapsBreakOrder(t: int, stop: int)
    requires t > FixedStartInstant && stop >= t
    ensures MonotoneFrom([ActionPress(t), ActionPress(stop)], t)
    ensures !Chronological(Run(Session(Prepped, [Completed(t - 1, t)]), [ActionPress(t), ActionPress(stop)]).final.past)
  {
    var presses := [ActionPress(t), ActionPress(stop)];
    var s0 := Session(Prepped, [Completed(t - 1, t)]);
    var s1 := Session(InProgress(FixedStartInstant), s0.past);
    var laps := [Completed(t - 1, t), Completed(FixedStartInstant, stop)];
    var s2 := Session(Completed(FixedStartInstant, stop), laps);
    assert presses[1..] == [ActionPress(stop)];
    assert [ActionPress(stop)][1..] == [];
    assert Step(s0, ActionPress(t)) == Clicked(s1, None);
    assert Step(s1, ActionPress(stop)).after == s2;
    assert Run(s1, [ActionPress(stop)]).final == s2;
    assert Run(s0, presses).final == s2;
    assert laps[0].endTime > laps[1].startTime;
  }

  /** Start, Lap, Lap, Stop on a fresh stopwatch: three laps, the first from the fixed
      instant, each later one starting at the second reading of the Lap that closed the one
      before, and the callback called once with all three. */
  lemma StartLapLapStop(a: int, b1: int, b2: int, c1: int, c2: int, d: int)
    ensures var laps: seq<CompletedLap> := [Completed(FixedStartInstant, b1), Completed(b2, c1), Completed(c2, d)];
      Run(Session(Prepped, []), [ActionPress(a), LapPress(b1, b2), LapPress(c1, c2), ActionPress(d)])
        == RunResult(Session(Completed(c2, d), laps), [laps])
  {
    var laps: seq<CompletedLap> := [Completed(FixedStartInstant, b1), Completed(b2, c1), Completed(c2, d)];
    var presses := [ActionPress(a), LapPress(b1, b2), LapPress(c1, c2), ActionPress(d)];
    var s1 := Session(InProgress(FixedStartInstant), []);
    var s2 := Session(InProgress(b2), laps[..1]);
    var s3 := Session(InProgress(c2), laps[..2]);
    var s4 := Session(Completed(c2, d), laps);
    assert laps[..2] + [Completed(c2, d)] == laps;
    assert Step(s3, ActionPress(d)) == Clicked(s4, Some(laps));
    assert Run(s4, []) == RunResult(s4, []);
    assert [laps] + [] == [laps];
    assert Run(s3, presses[3..]) == RunResult(s4, [laps]);
    assert [] + [laps] == [laps];
    assert Run(s2, presses[2..]) == RunResult(s4, [laps]) by {
      assert presses[2..][1..] == presses[3..];
      assert laps[..1] + [Completed(b2, c1)] == laps[..2];
      assert Step(s2, LapPress(c1, c2)) == Clicked(s3, None);
    }
    assert Run(s1, presses[1..]) == RunResult(s4, [laps]) by {
      assert presses[1..][1..] == presses[2..];
      assert [] + [Completed(FixedStartInstant, b1)] == laps[..1];
      assert Step(s1, LapPress(b1, b2)) == Clicked(s2, None);
    }
  }

  /** What the state shows in its two text lines. For InProgress it shows `live`, the
      remembered TimeElapsed that the 100 ms refresh overwrites; see LiveElapsed. */
  function StateTexts(s: LapState, live: TimeElapsed): (texts: (string, string))
    ensures |texts.0| >= 12
    ensures |texts.1| >= 6 && texts.1[|texts.1| - 5..] == " days"
  {
    match s
    case Prepped => ("00:00:00.000", "0 days")
    case InProgress(_) => (TimeText(live), DaysText(live))
    case Completed(startTime, endTime) =>
      var te := GetTimeBetween(startTime, endTime);
      (TimeText(te), DaysText(te))
  }

  /** The value the refresh loop stores while a lap runs: the time from its start to `now`. */
  function LiveElapsed(s: LapState, now: int): (te: TimeElapsed)
    requires s.InProgress?
    ensures s.startTime <= now ==> Normalized(te)
    ensures TotalMillis(te) == now - s.startTime
  {
    GetTimeBetween(s.startTime, now)
  }

  /** Prepped shows the texts of an all-zero TimeElapsed. A lap entered by Start (or a stopwatch
      created InProgress) shows the same until the first refresh, since the remembered value
      starts at zero; a lap entered by Lap keeps the previous lap's last value until then. */
  lemma PreppedTexts(live: TimeElapsed, startTime: int)
    ensures StateTexts(Prepped, live) == (TimeText(TimeElapsed(0, 0, 0, 0, 0)), DaysText(TimeElapsed(0, 0, 0, 0, 0)))
    ensures StateTexts(InProgress(startTime), TimeElapsed(0, 0, 0, 0, 0)) == StateTexts(Prepped, live)
  {
    assert LongToString(0) == "0";
    assert Zeros(1) == "0" && Zeros(2) == "00";
    assert ZeroPrefixed(0, 2) == "00";
    assert ZeroPrefixed(0, 3) == "000";
    assert TimeText(TimeElapsed(0, 0, 0, 0, 0)) == "00" + ":" + "00" + ":" + "00" + "." + "000";
    assert "00" + ":" + "00" + ":" + "00" + "." + "000" == "00:00:00.000";
    assert DaysText(TimeElapsed(0, 0, 0, 0, 0)) == "0 days";
  }

  /** A row of the lap list: `#index+1`, the lap's time line and its days line. */
  function LapRow(index: nat, lap: CompletedLap): (row: (string, string, string))
    ensures |row.0| >= 2 && row.0[0] == '#' && row.0[1..] == LongToString(index + 1)
    ensures |row.1| >= 12
    ensures |row.2| >= 6 && row.2[|row.2| - 5..] == " days"
  {
    var te := GetTimeBetween(lap.startTime, lap.endTime);
    ("#" + LongToString(index + 1), TimeText(te), DaysText(te))
  }

  /** Rows are numbered from 1, and a non-negative lap's time line is 12 characters. */
  lemma LapRowLayout(index: nat, lap: CompletedLap)
    ensures var row := LapRow(index, lap);
      && row.0[0] == '#' && ParseLong(row.0[1..]) == index + 1
      && (lap.startTime <= lap.endTime ==> |row.1| == 12)
  {
    var row := LapRow(index, lap);
    assert row.0[1..] == LongToString(index + 1);
    LongToStringRoundTrip(index + 1);
    if lap.startTime <= lap.endTime {
      TimeTextLayout(GetTimeBetween(lap.startTime, lap.endTime));
    }
  }

  /** When the stopwatch has finished, its header shows the same lines as the last row of
      the lap list. */
  lemma FinishedHeaderMatchesLastRow(s: Session, live: TimeElapsed)
    requires s.current.Completed? && FinishedIsLast(s)
    ensures var row := LapRow(|s.past| - 1, s.past[|s.past| - 1]);
      StateTexts(s.current, live) == (row.1, row.2)
  {
  }
}
