/*
  The bed probing state machine (G32).

  A probing run visits probe points one at a time. Each point goes through
  five moves, numbered by the point state 0..4: travel to the point, a fast
  move down watching the probe, a retract, a slow move down watching the
  probe, and a final retract. In all-points mode the heights measured at
  state 3 are collected, and when the last enabled point is done the valid
  heights are compacted to the front of the matrices for the least-squares
  fit of the bed corrections.

  Configuration (which points are enabled, the number of correction
  factors), the probe input, the measured height and the outcome of the fit
  are parameters here; the motion planner, replies and the numerics are not
  part of this model.
*/
module BedProbe {
  import opened Wrappers

  /** The errors probing reports. */
  datatype ProbeError =
    | InvalidPointNumber
    | NoProbePointsEnabled
    | Move
    | EndstopNotTriggeredInProbeMove
    | EndstopTriggeredBeforeProbeMove
    | TooFewPointsForCorrection
    | BadCorrections

  /** The G-code number that starts probing. */
  const ProbeCommand: nat := 32

  /** Cursor values outside the point range: no probing, and the after-probing hook running. */
  const NotProbing: int := -1
  const HookRunning: int := -2

  // ---------------------------------------------------------------------------
  // Enabled points
  // ---------------------------------------------------------------------------

  /** The first enabled point at or after `from`, or -1 when there is none. */
  function NextEnabled(enabled: seq<bool>, from: nat): (r: int)
    requires from <= |enabled|
    ensures r == -1 <==> forall j :: from <= j < |enabled| ==> !enabled[j]
    ensures r != -1 ==> from <= r < |enabled| && enabled[r] &&
                        forall j :: from <= j < r ==> !enabled[j]
    decreases |enabled| - from
  {
    if from == |enabled| then -1
    else if enabled[from] then from
    else NextEnabled(enabled, from + 1)
  }

  /** The enabled point indices from `from` on, in increasing order. */
  function EnabledFrom(enabled: seq<bool>, from: nat): (r: seq<nat>)
    requires from <= |enabled|
    decreases |enabled| - from
  {
    if from == |enabled| then []
    else if enabled[from] then [from] + EnabledFrom(enabled, from + 1)
    else EnabledFrom(enabled, from + 1)
  }

  /**
    The points an all-points run visits when it is at point `p`: `p` itself,
    then whatever the cursor moves on to after it.
  */
  function VisitOrder(enabled: seq<bool>, p: int): (r: seq<nat>)
    requires -1 <= p < |enabled|
    decreases if p < 0 then 0 else |enabled| - p
  {
    if p < 0 then [] else [p as nat] + VisitOrder(enabled, NextEnabled(enabled, p + 1))
  }

  /** Moving on from the disabled prefix does not change which points are visited. */
  lemma {:induction false} VisitOrderFrom(enabled: seq<bool>, from: nat)
    requires from <= |enabled|
    ensures VisitOrder(enabled, NextEnabled(enabled, from)) == EnabledFrom(enabled, from)
    decreases |enabled| - from
  {
    if from < |enabled| {
      VisitOrderFrom(enabled, from + 1);
    }
  }

  /**
    An all-points run (G32 without P) visits exactly the enabled points, each
    once, in increasing order.
  */
  lemma AllPointsVisitOrder(enabled: seq<bool>)
    ensures VisitOrder(enabled, NextEnabled(enabled, 0)) == EnabledFrom(enabled, 0)
    ensures forall i :: 0 <= i < |enabled| ==> (enabled[i] <==> i in EnabledFrom(enabled, 0))
  {
    VisitOrderFrom(enabled, 0);
    EnabledFromMembers(enabled, 0);
  }

  lemma {:induction false} EnabledFromMembers(enabled: seq<bool>, from: nat)
    requires from <= |enabled|
    ensures forall i :: 0 <= i < |enabled| ==> (i in EnabledFrom(enabled, from) <==> from <= i && enabled[i])
    decreases |enabled| - from
  {
    if from < |enabled| {
      EnabledFromMembers(enabled, from + 1);
    }
  }

  // ---------------------------------------------------------------------------
  // Point states and the decision after each probing move
  // ---------------------------------------------------------------------------

  /** The moves that watch the probe input: the two moves down. */
  predicate IsPointStateWatching(pointState: nat)
  {
    pointState == 1 || pointState == 3
  }

  /** What finished_handler does next: start the next move, or finish probing. */
  datatype Decision =
    | Continue(point: nat, pointState: nat, watchProbe: bool)
    | Finish(error: Option<ProbeError>)

  /**
    The choice finished_handler makes when a move of point `point` in state
    `pointState` has finished, checked in priority order: a move error, a
    watching move that the probe did not stop, the end of a point, and a
    next move that watches a probe already triggered.
  */
  function HandlerDecision(enabled: seq<bool>, point: nat, pointState: nat, singlePointMode: bool,
                           moveError: bool, aborted: bool, triggered: bool): (d: Decision)
    requires point < |enabled| && pointState <= 4
    ensures d.Continue? ==> d.point < |enabled| && d.pointState <= 4 &&
                            d.watchProbe == IsPointStateWatching(d.pointState)
  {
    if moveError then Finish(Some(Move))
    else if IsPointStateWatching(pointState) && !aborted then Finish(Some(EndstopNotTriggeredInProbeMove))
    else if pointState == 4 then
      var next := if singlePointMode then NotProbing else NextEnabled(enabled, point + 1);
      if next == NotProbing then Finish(None) else Continue(next, 0, false)
    else if IsPointStateWatching(pointState + 1) && triggered then Finish(Some(EndstopTriggeredBeforeProbeMove))
    else Continue(point, pointState + 1, IsPointStateWatching(pointState + 1))
  }

  /** Whether finished_handler records the height measured by this move. */
  predicate RecordsHeight(pointState: nat, singlePointMode: bool, moveError: bool, aborted: bool)
  {
    !moveError && !(IsPointStateWatching(pointState) && !aborted) &&
    pointState == 3 && !singlePointMode
  }

  /**
    The error checks of finished_handler in their priority order: a move
    error wins over everything, a watching move the probe did not stop comes
    next, and only a move that goes on may find the probe already triggered.
  */
  lemma HandlerPriority(enabled: seq<bool>, point: nat, pointState: nat, singlePointMode: bool,
                        moveError: bool, aborted: bool, triggered: bool)
    requires point < |enabled| && pointState <= 4
    ensures var d := HandlerDecision(enabled, point, pointState, singlePointMode, moveError, aborted, triggered);
      (moveError ==> d == Finish(Some(Move))) &&
      (d == Finish(Some(EndstopNotTriggeredInProbeMove)) <==>
         !moveError && IsPointStateWatching(pointState) && !aborted) &&
      (d == Finish(Some(EndstopTriggeredBeforeProbeMove)) <==>
         !moveError && !(IsPointStateWatching(pointState) && !aborted) && pointState < 4 &&
         IsPointStateWatching(pointState + 1) && triggered) &&
      (d.Continue? && d.pointState != 0 ==> d.point == point && d.pointState == pointState + 1) &&
      (d.Continue? && d.pointState == 0 ==> pointState == 4)
  {
  }

  /**
    From state 4: single-point mode ends probing; otherwise the cursor moves
    to the next enabled point in state 0, or probing ends when none remains.
  */
  lemma EndOfPoint(enabled: seq<bool>, point: nat, singlePointMode: bool, triggered: bool)
    requires point < |enabled|
    ensures var d := HandlerDecision(enabled, point, 4, singlePointMode, false, false, triggered);
      (singlePointMode ==> d == Finish(None)) &&
      (!singlePointMode && NextEnabled(enabled, point + 1) == -1 ==> d == Finish(None)) &&
      (!singlePointMode && NextEnabled(enabled, point + 1) != -1 ==>
         d == Continue(NextEnabled(enabled, point + 1), 0, false))
  {
  }

  /** The decision with the probe behaving: it stops each move down and is clear before it. */
  function GoodMove(enabled: seq<bool>, point: nat, pointState: nat, singlePointMode: bool): Decision
    requires point < |enabled| && pointState <= 4
  {
    HandlerDecision(enabled, point, pointState, singlePointMode, false,
                    IsPointStateWatching(pointState), false)
  }

  /**
    With the probe behaving, a point goes through the states 0, 1, 2, 3, 4 in
    order, watching the probe exactly on the moves of states 1 and 3, and
    then the run goes on at the next enabled point or finishes.
  */
  lemma PointCycle(enabled: seq<bool>, point: nat)
    requires point < |enabled|
    ensures GoodMove(enabled, point, 0, false) == Continue(point, 1, true)
    ensures GoodMove(enabled, point, 1, false) == Continue(point, 2, false)
    ensures GoodMove(enabled, point, 2, false) == Continue(point, 3, true)
    ensures GoodMove(enabled, point, 3, false) == Continue(point, 4, false)
    ensures GoodMove(enabled, point, 4, false) ==
      if NextEnabled(enabled, point + 1) == -1 then Finish(None)
      else Continue(NextEnabled(enabled, point + 1), 0, false)
  {
  }

  // ---------------------------------------------------------------------------
  // Compaction of the measured heights
  // ---------------------------------------------------------------------------

  /** A row of the coordinates matrix; its entries are not interpreted here. */
  type Row = seq<real>

  /** The measured heights (None stands for NaN), in order. */
  function ValidHeights(hs: seq<Option<real>>): (r: seq<Option<real>>)
    ensures |r| <= |hs|
    ensures forall k :: 0 <= k < |r| ==> r[k].Some?
  {
    if hs == [] then []
    else if hs[|hs| - 1].Some? then ValidHeights(hs[..|hs| - 1]) + [hs[|hs| - 1]]
    else ValidHeights(hs[..|hs| - 1])
  }

  /** The rows whose height was measured, in order. */
  function ValidRows(rows: seq<Row>, hs: seq<Option<real>>): (r: seq<Row>)
    requires |rows| == |hs|
    ensures |r| == |ValidHeights(hs)|
  {
    if hs == [] then []
    else if hs[|hs| - 1].Some? then ValidRows(rows[..|rows| - 1], hs[..|hs| - 1]) + [rows[|rows| - 1]]
    else ValidRows(rows[..|rows| - 1], hs[..|hs| - 1])
  }

  /** No measured height is lost by ValidHeights, and all of them are kept when all are measured. */
  lemma {:induction false} ValidHeightsKeeps(hs: seq<Option<real>>)
    ensures forall i :: 0 <= i < |hs| && hs[i].Some? ==> hs[i] in ValidHeights(hs)
    ensures (forall i :: 0 <= i < |hs| ==> hs[i].Some?) ==> ValidHeights(hs) == hs
    ensures ValidHeights(hs) == [] <==> forall i :: 0 <= i < |hs| ==> hs[i].None?
  {
    if hs != [] {
      var init := hs[..|hs| - 1];
      ValidHeightsKeeps(init);
      assert forall i :: 0 <= i < |init| ==> init[i] == hs[i];
      assert hs == init + [hs[|hs| - 1]];
    }
  }

  /**
    The state after compaction: the valid rows and their heights at the front,
    in their old order, and the slots after them as they were.
  */
  ghost predicate Compacted(oldRows: seq<Row>, oldHeights: seq<Option<real>>,
                            rows: seq<Row>, heights: seq<Option<real>>)
    requires |oldRows| == |oldHeights|
  {
    var n := |ValidHeights(oldHeights)|;
    |rows| == |oldRows| && |heights| == |oldHeights| &&
    heights[..n] == ValidHeights(oldHeights) && rows[..n] == ValidRows(oldRows, oldHeights) &&
    heights[n..] == oldHeights[n..] && rows[n..] == oldRows[n..]
  }

  /**
    The loop of probing_completing that moves each row with a measured height
    to the first free row, keeping their order, and counts them.
  */
  method CompactValidRows(coordinates: array<Row>, heights: array<Option<real>>) returns (numValid: nat)
    requires coordinates.Length == heights.Length
    modifies coordinates, heights
    ensures numValid == |ValidHeights(old(heights[..]))|
    ensures Compacted(old(coordinates[..]), old(heights[..]), coordinates[..], heights[..])
  {
    ghost var hs, rows := heights[..], coordinates[..];
    var n := heights.Length;
    numValid := 0;
    for i := 0 to n
      invariant numValid <= i
      invariant heights[..numValid] == ValidHeights(hs[..i])
      invariant coordinates[..numValid] == ValidRows(rows[..i], hs[..i])
      invariant forall j :: numValid <= j < n ==> heights[j] == hs[j] && coordinates[j] == rows[j]
    {
      CompactStep(rows, hs, i);
      if heights[i].None? {
        continue;
      }
      if i != numValid {
        coordinates[numValid] := coordinates[i];
        heights[numValid] := heights[i];
      }
      PrefixSnoc(heights[..], numValid);
      PrefixSnoc(coordinates[..], numValid);
      numValid := numValid + 1;
    }
    assert hs[..n] == hs && rows[..n] == rows;
    TailsAgree(heights[..], coordinates[..], hs, rows, numValid);
  }

  lemma PrefixSnoc<T>(s: seq<T>, k: nat)
    requires k < |s|
    ensures s[..k + 1] == s[..k] + [s[k]]
  {
  }

  lemma TailsAgree(heights: seq<Option<real>>, coordinates: seq<Row>, hs: seq<Option<real>>, rows: seq<Row>, m: nat)
    requires |heights| == |hs| == |coordinates| == |rows| && m <= |hs|
    requires forall j :: m <= j < |hs| ==> heights[j] == hs[j] && coordinates[j] == rows[j]
    ensures heights[m..] == hs[m..] && coordinates[m..] == rows[m..]
  {
  }

  /** One more row of the input adds its row and height to the valid ones when its height was measured. */
  lemma CompactStep(rows: seq<Row>, hs: seq<Option<real>>, i: nat)
    requires |rows| == |hs| && i < |hs|
    ensures ValidHeights(hs[..i + 1]) ==
      if hs[i].Some? then ValidHeights(hs[..i]) + [hs[i]] else ValidHeights(hs[..i])
    ensures ValidRows(rows[..i + 1], hs[..i + 1]) ==
      if hs[i].Some? then ValidRows(rows[..i], hs[..i]) + [rows[i]] else ValidRows(rows[..i], hs[..i])
  {
    assert hs[..i + 1][..i] == hs[..i];
    assert rows[..i + 1][..i] == rows[..i];
  }

  /**
    What probing_completing reports for the heights `hs`: too few valid
    heights for `numColumns` correction factors, then a fit that produced a
    NaN or infinite correction (`fitOk` false), and otherwise success, which
    starts the after-probing hook.
  */
  function CompletionOutcome(hs: seq<Option<real>>, numColumns: nat, fitOk: bool): (r: Option<ProbeError>)
    ensures r == Some(TooFewPointsForCorrection) <==> |ValidHeights(hs)| < numColumns
    ensures r == None <==> |ValidHeights(hs)| >= numColumns && fitOk
  {
    if |ValidHeights(hs)| < numColumns then Some(TooFewPointsForCorrection)
    else if !fitOk then Some(BadCorrections)
    else None
  }

  // ---------------------------------------------------------------------------
  // The module object
  // ---------------------------------------------------------------------------

  class BedProbeModule {
    /** Which probe points are enabled; their number is NumPoints. */
    const enabled: seq<bool>
    /** The number of correction factors fitted: the base factors plus the quadratic ones when enabled. */
    const numColumns: nat
    /** The height of each point measured in this run; None stands for NaN. */
    const heights: array<Option<real>>
    var currentPoint: int
    var pointState: nat
    var singlePointMode: bool
    var commandSent: bool
    var moveError: bool

    ghost predicate Valid()
      reads this
    {
      heights.Length == |enabled| &&
      HookRunning <= currentPoint < |enabled| && pointState <= 4
    }

    ghost predicate Probing()
      reads this
    {
      Valid() && 0 <= currentPoint
    }

    /** init: no probing in progress. */
    constructor (enabled: seq<bool>, numColumns: nat)
      ensures Valid() && currentPoint == NotProbing
      ensures this.enabled == enabled && this.numColumns == numColumns
      ensures heights[..] == seq(|enabled|, _ => None)
    {
      this.enabled := enabled;
      this.numColumns := numColumns;
      heights := new Option<real>[|enabled|](_ => None);
      currentPoint := NotProbing;
      pointState := 0;
    }

    /**
      skip_disabled_points_and_detect_end: the fold over all points that steps
      the cursor past each disabled point it lands on, then -1 past the end.
    */
    method SkipDisabledPoints()
      requires heights.Length == |enabled| && pointState <= 4 && 0 <= currentPoint <= |enabled|
      modifies this
      ensures Valid()
      ensures currentPoint == NextEnabled(enabled, old(currentPoint))
      ensures pointState == old(pointState) && singlePointMode == old(singlePointMode)
      ensures commandSent == old(commandSent) && moveError == old(moveError)
    {
      var from := currentPoint;
      var point := currentPoint;
      for i := 0 to |enabled|
        invariant from <= point <= if from < i then i else from
        invariant forall j :: from <= j < point ==> !enabled[j]
        invariant point < i ==> enabled[point]
      {
        if point == i && !enabled[i] {
          point := point + 1;
        }
      }
      if point >= |enabled| {
        point := NotProbing;
      }
      currentPoint := point;
    }

    /** probing_staring: every height of the new run starts out unmeasured. */
    method ProbingStarting()
      requires Valid()
      modifies heights
      ensures heights[..] == seq(|enabled|, _ => None)
    {
      for i := 0 to heights.Length
        invariant forall j :: 0 <= j < i ==> heights[j] == None
      {
        heights[i] := None;
      }
    }

    /**
      check_g_command: G32 starts probing. With P it probes only point P,
      which must be in 1..NumPoints; without P it probes every enabled point
      from the first one, and needs at least one. Other commands are passed on.
    */
    method CheckGCommand(number: nat, p: Option<nat>) returns (passOn: bool, error: Option<ProbeError>)
      requires Valid() && (number == ProbeCommand ==> currentPoint == NotProbing)
      modifies this, heights
      ensures Valid()
      ensures passOn <==> number != ProbeCommand
      ensures passOn ==> error == None && currentPoint == old(currentPoint) && heights[..] == old(heights[..])
      ensures !passOn && p.Some? && !(1 <= p.value <= |enabled|) ==>
        error == Some(InvalidPointNumber) && currentPoint == NotProbing && heights[..] == old(heights[..])
      ensures !passOn && p.Some? && 1 <= p.value <= |enabled| ==>
        error == None && currentPoint == p.value - 1 && singlePointMode
      ensures !passOn && p.None? && NextEnabled(enabled, 0) == -1 ==>
        error == Some(NoProbePointsEnabled) && currentPoint == NotProbing && !singlePointMode &&
        heights[..] == old(heights[..])
      ensures !passOn && p.None? && NextEnabled(enabled, 0) != -1 ==>
        error == None && currentPoint == NextEnabled(enabled, 0) && !singlePointMode
      ensures !passOn && error == None ==>
        Probing() && pointState == 0 && !commandSent && !moveError &&
        heights[..] == seq(|enabled|, _ => None)
      ensures (passOn || error.Some?) ==>
        pointState == old(pointState) && commandSent == old(commandSent) && moveError == old(moveError)
      ensures (passOn || (p.Some? && !(1 <= p.value <= |enabled|))) ==> singlePointMode == old(singlePointMode)
    {
      if number != ProbeCommand {
        return true, None;
      }
      if p.Some? {
        var pointNumber := p.value;
        if !(pointNumber >= 1 && pointNumber <= |enabled|) {
          return false, Some(InvalidPointNumber);
        }
        currentPoint := pointNumber - 1;
        singlePointMode := true;
      } else {
        currentPoint := 0;
        singlePointMode := false;
        SkipDisabledPoints();
        if currentPoint == NotProbing {
          return false, Some(NoProbePointsEnabled);
        }
      }
      pointState := 0;
      commandSent := false;
      moveError := false;
      ProbingStarting();
      return false, None;
    }

    /**
      pull_handler: the planner asks for work; the move of the current state is
      sent once, and asked again it only waits for that move to finish.
    */
    method PullHandler() returns (sendsMove: bool)
      requires Probing()
      modifies this
      ensures Probing() && commandSent
      ensures sendsMove == !old(commandSent)
      ensures currentPoint == old(currentPoint) && pointState == old(pointState)
      ensures singlePointMode == old(singlePointMode) && moveError == old(moveError)
    {
      if commandSent {
        return false;
      }
      commandSent := true;
      return true;
    }

    /** move_end_callback: a failed move is remembered until the move finishes. */
    method MoveEnd(error: bool)
      requires Probing() && commandSent
      modifies this
      ensures Probing()
      ensures moveError == (old(moveError) || error)
      ensures currentPoint == old(currentPoint) && pointState == old(pointState)
      ensures singlePointMode == old(singlePointMode) && commandSent == old(commandSent)
    {
      if error {
        moveError := true;
      }
    }

    /**
      probing_completing, as far as it is modelled: the compaction of the
      valid rows and the checks on their number and on the fit.
    */
    method ProbingCompleting(coordinates: array<Row>, fitOk: bool) returns (runHook: bool, error: Option<ProbeError>)
      requires Valid() && coordinates.Length == |enabled|
      modifies coordinates, heights
      ensures error == CompletionOutcome(old(heights[..]), numColumns, fitOk)
      ensures runHook <==> error == None
      ensures Compacted(old(coordinates[..]), old(heights[..]), coordinates[..], heights[..])
    {
      var numValid := CompactValidRows(coordinates, heights);
      if numValid < numColumns {
        return false, Some(TooFewPointsForCorrection);
      }
      if !fitOk {
        return false, Some(BadCorrections);
      }
      return true, None;
    }

    /**
      finish_probing: an error, or success in single-point mode, ends the
      command with the cursor at -1; success in all-points mode completes the
      correction, and when that succeeds the cursor is -2 while the
      after-probing hook runs.
    */
    method FinishProbing(err: Option<ProbeError>, coordinates: array<Row>, fitOk: bool)
      returns (reported: Option<ProbeError>, runHook: bool)
      requires Valid() && coordinates.Length == |enabled|
      modifies this, coordinates, heights
      ensures Valid()
      ensures err.Some? ==> reported == err && !runHook
      ensures err.None? && singlePointMode ==> reported == None && !runHook
      ensures err.None? && !singlePointMode ==>
        reported == CompletionOutcome(old(heights[..]), numColumns, fitOk) && (runHook <==> reported == None) &&
        Compacted(old(coordinates[..]), old(heights[..]), coordinates[..], heights[..])
      ensures (err.Some? || singlePointMode) ==> heights[..] == old(heights[..]) && coordinates[..] == old(coordinates[..])
      ensures currentPoint == if runHook then HookRunning else NotProbing
      ensures pointState == old(pointState) && singlePointMode == old(singlePointMode)
      ensures commandSent == old(commandSent) && moveError == old(moveError)
    {
      runHook := false;
      reported := err;
      if err.None? && !singlePointMode {
        runHook, reported := ProbingCompleting(coordinates, fitOk);
      }
      if !runHook {
        currentPoint := NotProbing;
        return;
      }
      currentPoint := HookRunning;
    }

    /** bed_probe_hook_completed: the command ends, with the hook's error if any. */
    method HookCompleted(error: bool) returns (reportsError: bool)
      requires Valid() && currentPoint == HookRunning
      modifies this
      ensures Valid() && currentPoint == NotProbing
      ensures reportsError == error
      ensures pointState == old(pointState) && singlePointMode == old(singlePointMode)
      ensures commandSent == old(commandSent) && moveError == old(moveError)
    {
      currentPoint := NotProbing;
      return error;
    }

    /**
      ProbePlannerClient::finished_handler: the move of the current point in
      the current state has finished. `aborted` says the probe stopped it,
      `triggered` is the probe input now, and `height` the height measured,
      recorded after the slow move down in all-points mode.
    */
    method FinishedHandler(aborted: bool, triggered: bool, height: real, coordinates: array<Row>, fitOk: bool)
      returns (next: Decision, reported: Option<ProbeError>, runHook: bool)
      requires Probing() && commandSent && coordinates.Length == |enabled|
      requires aborted ==> IsPointStateWatching(pointState)
      modifies this, coordinates, heights
      ensures Valid() && !commandSent && singlePointMode == old(singlePointMode) && moveError == old(moveError)
      ensures next.Finish? ==>
        pointState == if next.error == Some(EndstopTriggeredBeforeProbeMove) then old(pointState) + 1 else old(pointState)
      ensures next == HandlerDecision(enabled, old(currentPoint), old(pointState), singlePointMode,
                                      old(moveError), aborted, triggered)
      ensures var measured := if RecordsHeight(old(pointState), singlePointMode, old(moveError), aborted)
                              then old(heights[..])[old(currentPoint) := Some(height)] else old(heights[..]);
        (next.Continue? ==>
           currentPoint == next.point && pointState == next.pointState &&
           reported == None && !runHook && heights[..] == measured && coordinates[..] == old(coordinates[..])) &&
        (next.Finish? && (next.error.Some? || singlePointMode) ==>
           reported == next.error && !runHook && currentPoint == NotProbing &&
           heights[..] == measured && coordinates[..] == old(coordinates[..])) &&
        (next.Finish? && next.error.None? && !singlePointMode ==>
           reported == CompletionOutcome(measured, numColumns, fitOk) && (runHook <==> reported == None) &&
           currentPoint == (if runHook then HookRunning else NotProbing) &&
           Compacted(old(coordinates[..]), measured, coordinates[..], heights[..]))
    {
      next := HandlerDecision(enabled, currentPoint, pointState, singlePointMode, moveError, aborted, triggered);
      commandSent := false;
      if moveError {
        reported, runHook := FinishProbing(Some(Move), coordinates, fitOk);
        return;
      }
      if IsPointStateWatching(pointState) && !aborted {
        reported, runHook := FinishProbing(Some(EndstopNotTriggeredInProbeMove), coordinates, fitOk);
        return;
      }
      if pointState == 4 {
        if singlePointMode {
          currentPoint := NotProbing;
        } else {
          currentPoint := currentPoint + 1;
          SkipDisabledPoints();
        }
        if currentPoint == NotProbing {
          reported, runHook := FinishProbing(None, coordinates, fitOk);
          return;
        }
        pointState := 0;
        return next, None, false;
      }
      if pointState == 3 && !singlePointMode {
        heights[currentPoint] := Some(height);
      }
      pointState := pointState + 1;
      var watchProbe := IsPointStateWatching(pointState);
      if watchProbe && triggered {
        reported, runHook := FinishProbing(Some(EndstopTriggeredBeforeProbeMove), coordinates, fitOk);
        return;
      }
      return next, None, false;
    }
  }
}
