/*
  Heater control flags and heater waiting of the auxiliary control module.

  Each heater keeps a target temperature (None stands for NaN, "off"), an
  enabled flag, a was-not-unset flag the periodic control tick uses to
  restart the controller, and a report-thermal-runaway flag the control
  tick consumes. Waiting for heaters (M109/M116) records the heaters waited
  for and the heaters currently in range as bit masks, modelled as sets of
  heater indices; the temperature observer that watches each waited heater
  is its `observing` flag.

  Temperatures, ADC values, the controller, PWM and replies are not part of
  this model; where the source reads them, their outcome is a parameter.
*/
module AuxControl {
  import opened Wrappers

  /** TimeType is a 32-bit unsigned tick count that wraps around. */
  const TimeModulus: nat := 0x1_0000_0000

  /** Ticks from `start` to `now`, computed in TimeType as the source does. */
  function Elapsed(start: nat, now: nat): (r: nat)
    ensures r < TimeModulus
    ensures start <= now < start + TimeModulus ==> r == now - start
    ensures start < TimeModulus && now < TimeModulus ==>
              r == if start <= now then now - start else now + TimeModulus - start
  {
    (now - start) % TimeModulus
  }

  /** A clock reading `d` ticks after `start`, wrapped to TimeType, gives back `d`, wrap-around or not. */
  lemma ElapsedAcrossWrap(start: nat, d: nat)
    requires start < TimeModulus && d < TimeModulus
    ensures Elapsed(start, (start + d) % TimeModulus) == d
  {
  }

  /** The heater errors of this model. */
  datatype HeaterError = HeaterThermalRunaway | HeaterNotEnabled | WaitTimedOut

  /** get_state without the measured temperature's computation: what M105 and the JSON status show. */
  datatype HeaterState = HeaterState(current: real, target: Option<real>, error: bool)

  /** All fields of a heater, for "nothing else changes" contracts. */
  datatype HeaterFields = HeaterFields(target: Option<real>, enabled: bool, wasNotUnset: bool,
                                       reportThermalRunaway: bool, coldExtrusionAllowed: bool,
                                       observing: bool)

  /** What the rest of control_event_handler does after the flag handoff. */
  datatype Tick = Tick(runControl: bool, initControl: bool, reportRunaway: bool)

  /** The target an M104/M109 S value asks for: outside [minSafe, maxSafe] it is NaN, so the heater turns off. */
  function SafeTarget(s: real, minSafe: real, maxSafe: real): (t: Option<real>)
    ensures t.Some? <==> minSafe <= s <= maxSafe
    ensures t.Some? ==> t.value == s
  {
    if minSafe <= s <= maxSafe then Some(s) else None
  }

  class Heater {
    var target: Option<real>
    var enabled: bool
    var wasNotUnset: bool
    var reportThermalRunaway: bool
    /** The cold extrusion feature's flag. */
    var coldExtrusionAllowed: bool
    /** Whether this heater's temperature observer is running. */
    var observing: bool

    function Fields(): HeaterFields
      reads this
    {
      HeaterFields(target, enabled, wasNotUnset, reportThermalRunaway, coldExtrusionAllowed, observing)
    }

    /** Heater::init: off, with every flag cleared. */
    constructor ()
      ensures Fields() == HeaterFields(None, false, false, false, false, false)
    {
      target := None;
      enabled := false;
      wasNotUnset := false;
      reportThermalRunaway := false;
      coldExtrusionAllowed := false;
      observing := false;
    }

    /** The error flag of get_state: a target is set but the heater was disabled. */
    function GetState(current: real): (st: HeaterState)
      reads this
      ensures st.current == current && st.target == target
      ensures st.error <==> target.Some? && !enabled
    {
      HeaterState(current, target, target.Some? && !enabled)
    }

    /** set: a non-NaN target, and the heater enabled. */
    method Set(t: real)
      modifies this
      ensures Fields() == old(Fields()).(target := Some(t), enabled := true)
      ensures !GetState(0.0).error
    {
      target := Some(t);
      enabled := true;
    }

    /**
      unset: an orderly unset clears the target; a disorderly one (a safety
      shutdown) keeps it, so the error flag shows, and asks for a thermal
      runaway report when the heater was on.
    */
    method Unset(orderly: bool)
      modifies this
      ensures !enabled && !wasNotUnset
      ensures target == if orderly then None else old(target)
      ensures reportThermalRunaway == (old(reportThermalRunaway) || (!orderly && old(enabled)))
      ensures coldExtrusionAllowed == old(coldExtrusionAllowed) && observing == old(observing)
    {
      if orderly {
        target := None;
      } else if enabled {
        reportThermalRunaway := true;
      }
      enabled := false;
      wasNotUnset := false;
    }

    /** set_or_unset: a NaN target is an orderly unset. */
    method SetOrUnset(t: Option<real>)
      modifies this
      ensures t.Some? ==> Fields() == old(Fields()).(target := t, enabled := true)
      ensures t.None? ==> Fields() == old(Fields()).(target := None, enabled := false, wasNotUnset := false)
    {
      if t.Some? {
        Set(t.value);
      } else {
        Unset(true);
      }
    }

    /**
      handle_set_command applied at once (M109, or M104 with F): the S value
      `s` (0 when absent) outside the safe range turns the heater off.
    */
    method HandleSetCommand(s: real, minSafe: real, maxSafe: real)
      modifies this
      ensures minSafe <= s <= maxSafe ==> Fields() == old(Fields()).(target := Some(s), enabled := true)
      ensures !(minSafe <= s <= maxSafe) ==>
                Fields() == old(Fields()).(target := None, enabled := false, wasNotUnset := false)
    {
      SetOrUnset(SafeTarget(s, minSafe, maxSafe));
    }

    /** clear_error: a heater in error is enabled again with its old target; otherwise nothing changes. */
    method ClearError()
      modifies this
      ensures old(GetState(0.0).error) ==> Fields() == old(Fields()).(enabled := true)
      ensures !old(GetState(0.0).error) ==> Fields() == old(Fields())
      ensures !GetState(0.0).error
    {
      var t := target;
      var e := enabled;
      if t.Some? && !e {
        Set(t.value);
      }
    }

    /**
      The flags part of control_event_handler: after the safety check (an
      unsafe ADC reading is a disorderly unset), was-not-unset takes the
      enabled flag and the thermal runaway report is read and cleared.
      The controller runs when enabled, restarting when the heater was unset
      since the previous tick.
    */
    method ControlTick(adcUnsafe: bool) returns (tick: Tick)
      modifies this
      ensures var on := old(enabled) && !adcUnsafe;
        var kept := old(wasNotUnset) && !adcUnsafe;
        enabled == on && wasNotUnset == on && !reportThermalRunaway &&
        target == old(target) &&
        coldExtrusionAllowed == old(coldExtrusionAllowed) && observing == old(observing) &&
        tick == Tick(on, on && !kept, old(reportThermalRunaway) || (adcUnsafe && old(enabled)))
    {
      if adcUnsafe {
        Unset(false);
      }
      var on := enabled;
      var kept := wasNotUnset;
      wasNotUnset := on;
      var report := reportThermalRunaway;
      reportThermalRunaway := false;
      tick := Tick(on, on && !kept, report);
    }

    /** startObserving: the observer watches this heater's target. */
    method StartObserving()
      modifies this
      ensures Fields() == old(Fields()).(observing := true)
    {
      observing := true;
    }

    /** stopObserving. */
    method StopObserving()
      modifies this
      ensures Fields() == old(Fields()).(observing := false)
    {
      observing := false;
    }

    /** set_cold_extrude for this heater: only a heater in the mask takes on `allow`. */
    method SetColdExtrude(allow: bool, inMask: bool)
      modifies this
      ensures Fields() == if inMask then old(Fields()).(coldExtrusionAllowed := allow) else old(Fields())
    {
      if inMask {
        coldExtrusionAllowed := allow;
      }
    }
  }

  // ---------------------------------------------------------------------------
  // Starting a wait
  // ---------------------------------------------------------------------------

  /**
    start_wait for heater `i` and the requested mask: it applies to the
    heaters in the mask, or to all when the mask is empty. A heater with a
    target must be enabled and is then waited for; an explicitly named
    heater must have a target. Ok(true) means "wait for this heater".
  */
  function WaitCheck(f: HeaterFields, i: nat, mask: set<nat>): Result<bool, HeaterError>
  {
    if !(i in mask || mask == {}) then Ok(false)
    else if f.target.Some? then (if !f.enabled then Err(HeaterThermalRunaway) else Ok(true))
    else if i in mask then Err(HeaterNotEnabled)
    else Ok(false)
  }

  /** The source conditions behind WaitCheck, each error and the wait in both directions. */
  lemma WaitCheckMeaning(f: HeaterFields, i: nat, mask: set<nat>)
    ensures WaitCheck(f, i, mask) == Err(HeaterThermalRunaway) <==>
      (i in mask || mask == {}) && f.target.Some? && !f.enabled
    ensures WaitCheck(f, i, mask) == Err(HeaterNotEnabled) <==> i in mask && f.target.None?
    ensures WaitCheck(f, i, mask) == Ok(true) <==> (i in mask || mask == {}) && f.target.Some? && f.enabled
  {
  }

  /**
    The heaters do_wait_heaters waits for, checking heaters 0, 1, ... in
    order and stopping at the first that fails start_wait, with its index.
  */
  function WaitOutcome(fs: seq<HeaterFields>, mask: set<nat>): Result<set<nat>, (nat, HeaterError)>
  {
    if fs == [] then Ok({})
    else
      var i := |fs| - 1;
      var prev := WaitOutcome(fs[..i], mask);
      if prev.Err? then prev
      else match WaitCheck(fs[i], i, mask)
        case Err(e) => Err((i, e))
        case Ok(w) => Ok(if w then prev.value + {i} else prev.value)
  }

  /**
    A wait starts exactly when every heater passes start_wait; it then waits
    for exactly the heaters WaitCheck accepts. Otherwise the error is the one
    of the first heater that fails.
  */
  lemma {:induction false} WaitOutcomeMeaning(fs: seq<HeaterFields>, mask: set<nat>)
    ensures WaitOutcome(fs, mask).Ok? <==> forall i :: 0 <= i < |fs| ==> WaitCheck(fs[i], i, mask).Ok?
    ensures WaitOutcome(fs, mask).Ok? ==>
      forall i :: i in WaitOutcome(fs, mask).value <==> 0 <= i < |fs| && WaitCheck(fs[i], i, mask) == Ok(true)
    ensures WaitOutcome(fs, mask).Err? ==>
      var (k, e) := WaitOutcome(fs, mask).error;
      k < |fs| && WaitCheck(fs[k], k, mask) == Err(e) &&
      forall j :: 0 <= j < k ==> WaitCheck(fs[j], j, mask).Ok?
  {
    if fs != [] {
      var i := |fs| - 1;
      var init := fs[..i];
      WaitOutcomeMeaning(init, mask);
      assert forall j :: 0 <= j < i ==> init[j] == fs[j];
      var prev := WaitOutcome(init, mask);
      if prev.Ok? {
        match WaitCheck(fs[i], i, mask)
        case Err(e) =>
          assert WaitOutcome(fs, mask) == Err((i, e));
        case Ok(w) =>
          var s := WaitOutcome(fs, mask).value;
          assert s == if w then prev.value + {i} else prev.value;
          forall j
            ensures j in s <==> 0 <= j < |fs| && WaitCheck(fs[j], j, mask) == Ok(true)
          {
            if j == i {
              assert j !in prev.value;
            }
          }
      } else {
        assert WaitOutcome(fs, mask) == prev;
        var (k, e) := prev.error;
        assert k < i && init[k] == fs[k];
      }
    }
  }

  /** One more heater after a prefix that passed: WaitOutcome adds it or stops at it. */
  lemma WaitOutcomeSnoc(fs: seq<HeaterFields>, mask: set<nat>, i: nat)
    requires i < |fs| && WaitOutcome(fs[..i], mask).Ok?
    ensures var prev := WaitOutcome(fs[..i], mask).value;
      WaitOutcome(fs[..i + 1], mask) ==
        match WaitCheck(fs[i], i, mask)
        case Err(e) => Err((i, e))
        case Ok(w) => Ok(if w then prev + {i} else prev)
  {
    assert fs[..i + 1][..i] == fs[..i];
  }

  /** With an empty mask no heater can fail for having no target: only a disabled heater with a target stops the wait. */
  lemma WaitAllHeaters(fs: seq<HeaterFields>)
    ensures WaitOutcome(fs, {}).Ok? <==> forall i :: 0 <= i < |fs| ==> (fs[i].target.Some? ==> fs[i].enabled)
    ensures WaitOutcome(fs, {}).Ok? ==>
      forall i :: i in WaitOutcome(fs, {}).value <==> 0 <= i < |fs| && fs[i].target.Some?
  {
    WaitOutcomeMeaning(fs, {});
    forall i | 0 <= i < |fs|
      ensures WaitCheck(fs[i], i, {}).Ok? <==> (fs[i].target.Some? ==> fs[i].enabled)
      ensures WaitCheck(fs[i], i, {}) == Ok(true) <==> fs[i].target.Some? && fs[i].enabled
    {
      WaitCheckMeaning(fs[i], i, {});
    }
  }

  /** The wait ends with the in-range heaters equal to the waited ones, or on the timeout. */
  function WaitEnds(inrange: set<nat>, waiting: set<nat>, elapsed: nat, timeout: nat): (r: Option<Option<HeaterError>>)
    ensures r.Some? <==> inrange == waiting || elapsed >= timeout
    ensures r.Some? ==> (r.value == Some(WaitTimedOut) <==> elapsed >= timeout)
    ensures r.Some? ==> (r.value == None <==> elapsed < timeout)
  {
    if inrange == waiting || elapsed >= timeout then
      Some(if elapsed >= timeout then Some(WaitTimedOut) else None)
    else None
  }

  // ---------------------------------------------------------------------------
  // The module object
  // ---------------------------------------------------------------------------

  /** How a wait in progress stands after an event. */
  datatype WaitStatus = StillWaiting | Completed(error: Option<HeaterError>)

  class AuxControlModule {
    const heaters: seq<Heater>
    /** CWaitTimeoutTicks. */
    const waitTimeout: nat
    var waitingHeaters: set<nat>
    var inrangeHeaters: set<nat>
    var waitStartedTime: nat

    ghost predicate Valid()
      reads this, heaters
    {
      (forall i, j :: 0 <= i < j < |heaters| ==> heaters[i] != heaters[j]) &&
      (forall i :: i in waitingHeaters ==> i < |heaters|) &&
      (forall i :: 0 <= i < |heaters| ==> (heaters[i].observing <==> i in waitingHeaters)) &&
      waitStartedTime < TimeModulus
    }

    function AllFields(): (fs: seq<HeaterFields>)
      reads this, heaters
      ensures |fs| == |heaters|
      ensures forall i :: 0 <= i < |heaters| ==> fs[i] == heaters[i].Fields()
    {
      seq(|heaters|, i reads heaters requires 0 <= i < |heaters| => heaters[i].Fields())
    }

    /** AuxControlModule::init with each heater's init already run. */
    constructor (heaters: seq<Heater>, waitTimeout: nat)
      requires forall i, j :: 0 <= i < j < |heaters| ==> heaters[i] != heaters[j]
      requires forall i :: 0 <= i < |heaters| ==> !heaters[i].observing
      ensures Valid() && this.heaters == heaters && this.waitTimeout == waitTimeout
      ensures waitingHeaters == {}
    {
      this.heaters := heaters;
      this.waitTimeout := waitTimeout;
      waitingHeaters := {};
      inrangeHeaters := {};
      waitStartedTime := 0;
    }

    /** update_wait_mask over all heaters: the heaters named in the command. */
    method NamedMask(named: set<nat>) returns (mask: set<nat>)
      ensures mask == set i | 0 <= i < |heaters| && i in named
    {
      mask := {};
      for i := 0 to |heaters|
        invariant mask == set j | 0 <= j < i && j in named
      {
        if i in named {
          mask := mask + {i};
        }
      }
    }

    /** stop_wait over all heaters: the observers of the waited heaters stop. */
    method StopWaits()
      requires Valid()
      modifies heaters
      ensures forall i :: 0 <= i < |heaters| ==> !heaters[i].observing
      ensures AllFields() == seq(|heaters|, i requires 0 <= i < |heaters| => old(AllFields())[i].(observing := false))
    {
      ghost var before := AllFields();
      for i := 0 to |heaters|
        invariant forall j :: 0 <= j < |heaters| ==>
          heaters[j].Fields() == if j < i then before[j].(observing := false) else before[j]
      {
        if i in waitingHeaters {
          heaters[i].StopObserving();
        }
      }
    }

    /** complete_wait: the command ends (with `error` if any), the observers stop and nothing is waited for. */
    method CompleteWait(error: Option<HeaterError>) returns (status: WaitStatus)
      requires Valid() && waitingHeaters != {}
      modifies this, heaters
      ensures Valid() && waitingHeaters == {} && status == Completed(error)
      ensures AllFields() == seq(|heaters|, i requires 0 <= i < |heaters| => old(AllFields())[i].(observing := false))
      ensures inrangeHeaters == old(inrangeHeaters) && waitStartedTime == old(waitStartedTime)
    {
      StopWaits();
      waitingHeaters := {};
      status := Completed(error);
    }

    /** check_wait_completion at time `now`. */
    method CheckWaitCompletion(now: nat) returns (status: WaitStatus)
      requires Valid() && waitingHeaters != {}
      modifies this, heaters
      ensures Valid() && inrangeHeaters == old(inrangeHeaters) && waitStartedTime == old(waitStartedTime)
      ensures var ends := WaitEnds(old(inrangeHeaters), old(waitingHeaters), Elapsed(waitStartedTime, now), waitTimeout);
        (ends.None? ==> status == StillWaiting && waitingHeaters == old(waitingHeaters) &&
                        AllFields() == old(AllFields())) &&
        (ends.Some? ==> status == Completed(ends.value) && waitingHeaters == {} &&
                        AllFields() == seq(|heaters|, i requires 0 <= i < |heaters| => old(AllFields())[i].(observing := false)))
    {
      var reached := inrangeHeaters == waitingHeaters;
      var timedOut := Elapsed(waitStartedTime, now) >= waitTimeout;
      if reached || timedOut {
        status := CompleteWait(if timedOut then Some(WaitTimedOut) else None);
      } else {
        status := StillWaiting;
      }
    }

    /** observer_handler: heater `i` entered or left its target range. */
    method ObserverHandler(i: nat, inRange: bool, now: nat) returns (status: WaitStatus)
      requires Valid() && i < |heaters| && heaters[i].observing
      modifies this, heaters
      ensures Valid() && waitStartedTime == old(waitStartedTime)
      ensures inrangeHeaters == if inRange then old(inrangeHeaters) + {i} else old(inrangeHeaters) - {i}
      ensures var ends := WaitEnds(inrangeHeaters, old(waitingHeaters), Elapsed(waitStartedTime, now), waitTimeout);
        (ends.None? ==> status == StillWaiting && waitingHeaters == old(waitingHeaters) &&
                        AllFields() == old(AllFields())) &&
        (ends.Some? ==> status == Completed(ends.value) && waitingHeaters == {} &&
                        AllFields() == seq(|heaters|, i requires 0 <= i < |heaters| => old(AllFields())[i].(observing := false)))
    {
      if inRange {
        inrangeHeaters := inrangeHeaters + {i};
      } else {
        inrangeHeaters := inrangeHeaters - {i};
      }
      status := CheckWaitCompletion(now);
    }

    /** start_wait of heater `i`: its check, and on a wait its bit and its observer. */
    method StartWait(i: nat, mask: set<nat>) returns (error: Option<HeaterError>)
      requires Valid() && i < |heaters| && i !in waitingHeaters
      modifies this, heaters[i]
      ensures var r := WaitCheck(old(heaters[i].Fields()), i, mask);
        error == (if r.Err? then Some(r.error) else None) &&
        waitingHeaters == (if r == Ok(true) then old(waitingHeaters) + {i} else old(waitingHeaters)) &&
        heaters[i].Fields() == old(heaters[i].Fields()).(observing := r == Ok(true))
      ensures inrangeHeaters == old(inrangeHeaters) && waitStartedTime == old(waitStartedTime)
    {
      error := None;
      if i in mask || mask == {} {
        var target := heaters[i].target;
        var enabled := heaters[i].enabled;
        if target.Some? {
          if !enabled {
            return Some(HeaterThermalRunaway);
          }
          waitingHeaters := waitingHeaters + {i};
          heaters[i].StartObserving();
        } else if i in mask {
          return Some(HeaterNotEnabled);
        }
      }
    }

    /** The state of do_wait_heaters once heaters 0 .. i-1 have passed start_wait. */
    ghost predicate WaitingFor(before: seq<HeaterFields>, i: nat, mask: set<nat>)
      reads this, heaters
    {
      i <= |before| == |heaters| &&
      (forall a, b :: 0 <= a < b < |heaters| ==> heaters[a] != heaters[b]) &&
      WaitOutcome(before[..i], mask) == Ok(waitingHeaters) &&
      (forall j :: j in waitingHeaters ==> j < i) &&
      (forall j :: 0 <= j < |heaters| ==> heaters[j].Fields() == before[j].(observing := j in waitingHeaters)) &&
      waitStartedTime < TimeModulus
    }

    /** One turn of the do_wait_heaters loop: start_wait of heater `i`. */
    method WaitStep(ghost before: seq<HeaterFields>, i: nat, mask: set<nat>) returns (failure: Option<HeaterError>)
      requires i < |heaters| && WaitingFor(before, i, mask)
      modifies this, heaters[i]
      ensures inrangeHeaters == old(inrangeHeaters) && waitStartedTime == old(waitStartedTime)
      ensures failure.None? ==> WaitingFor(before, i + 1, mask)
      ensures failure.Some? ==>
        WaitOutcome(before[..i + 1], mask) == Err((i, failure.value)) && Valid() &&
        waitingHeaters == old(waitingHeaters) && heaters[i].Fields() == old(heaters[i].Fields())
    {
      WaitOutcomeSnoc(before, mask, i);
      failure := StartWait(i, mask);
    }

    /**
      do_wait_heaters at time `now`: start a wait for the heaters of `mask`
      (all of them when empty). When a heater fails start_wait nothing is
      waited for and its error is returned; otherwise the wait is active
      exactly when some heater is waited for.
    */
    method DoWaitHeaters(mask: set<nat>, now: nat) returns (error: Option<HeaterError>, active: bool)
      requires Valid() && waitingHeaters == {} && now < TimeModulus
      modifies this, heaters
      ensures Valid() && inrangeHeaters == {} && waitStartedTime == now
      ensures var outcome := WaitOutcome(old(AllFields()), mask);
        (outcome.Err? ==>
          error == Some(outcome.error.1) && !active && waitingHeaters == {} && AllFields() == old(AllFields())) &&
        (outcome.Ok? ==>
          error == None && waitingHeaters == outcome.value && (active <==> waitingHeaters != {}) &&
          AllFields() == seq(|heaters|, i requires 0 <= i < |heaters| =>
                               old(AllFields())[i].(observing := i in outcome.value)))
    {
      ghost var before := AllFields();
      inrangeHeaters := {};
      waitStartedTime := now;
      for i := 0 to |heaters|
        invariant inrangeHeaters == {} && waitStartedTime == now
        invariant WaitingFor(before, i, mask)
        invariant forall j :: 0 <= j < |heaters| ==> !before[j].observing
      {
        var failure := WaitStep(before, i, mask);
        if failure.Some? {
          WaitOutcomeFails(before, mask, i + 1);
          StopWaits();
          waitingHeaters := {};
          assert forall j :: 0 <= j < |heaters| ==> heaters[j].Fields() == before[j];
          return failure, false;
        }
      }
      assert before[..|heaters|] == before;
      active := waitingHeaters != {};
      error := None;
    }

    /**
      What control_event_handler does for heater `i` with the ADC reading
      unsafe or not: the flag handoff, and a wait in progress ends with
      HeaterThermalRunaway when its heater is no longer enabled.
    */
    method ControlEvent(i: nat, adcUnsafe: bool) returns (tick: Tick, status: WaitStatus)
      requires Valid() && i < |heaters|
      modifies this, heaters
      ensures Valid()
      ensures inrangeHeaters == old(inrangeHeaters) && waitStartedTime == old(waitStartedTime)
      ensures var on := old(heaters[i].enabled) && !adcUnsafe;
        tick == Tick(on, on && !(old(heaters[i].wasNotUnset) && !adcUnsafe),
                     old(heaters[i].reportThermalRunaway) || (adcUnsafe && old(heaters[i].enabled)))
      ensures var on := old(heaters[i].enabled) && !adcUnsafe;
        var ticked := old(AllFields())[i := old(heaters[i].Fields()).(enabled := on, wasNotUnset := on,
                                                                       reportThermalRunaway := false)];
        (old(heaters[i].observing) && !on ==>
           status == Completed(Some(HeaterThermalRunaway)) && waitingHeaters == {} &&
           AllFields() == seq(|heaters|, j requires 0 <= j < |heaters| => ticked[j].(observing := false))) &&
        (!(old(heaters[i].observing) && !on) ==>
           status == StillWaiting && waitingHeaters == old(waitingHeaters) && AllFields() == ticked)
    {
      ghost var before := AllFields();
      tick := heaters[i].ControlTick(adcUnsafe);
      ghost var ticked := before[i := heaters[i].Fields()];
      assert AllFields() == ticked by {
        forall j | 0 <= j < |heaters| && j != i
          ensures heaters[j].Fields() == before[j]
        {
          assert heaters[j] != heaters[i];
        }
      }
      if heaters[i].observing && !heaters[i].enabled {
        status := CompleteWait(Some(HeaterThermalRunaway));
      } else {
        status := StillWaiting;
      }
    }

    /**
      handle_cold_extrude_command: without P nothing changes (the flags are
      printed); with P the heaters named in the command, or all heaters when
      none is named, allow cold extrusion exactly when P > 0.
    */
    method HandleColdExtrudeCommand(p: Option<nat>, named: set<nat>)
      requires Valid()
      modifies heaters
      ensures Valid()
      ensures p.None? ==> AllFields() == old(AllFields())
      ensures p.Some? ==>
        var m := set i | 0 <= i < |heaters| && i in named;
        AllFields() == seq(|heaters|, i requires 0 <= i < |heaters| =>
          if i in m || m == {} then old(AllFields())[i].(coldExtrusionAllowed := p.value > 0)
          else old(AllFields())[i])
    {
      if p.None? {
        return;
      }
      var allow := p.value > 0;
      var mask := NamedMask(named);
      ghost var m := mask;
      if mask == {} {
        mask := AllHeatersMask(|heaters|);
      }
      ghost var before := AllFields();
      for i := 0 to |heaters|
        invariant forall j :: 0 <= j < |heaters| ==>
          heaters[j].Fields() == if j < i && (j in m || m == {}) then before[j].(coldExtrusionAllowed := allow) else before[j]
      {
        heaters[i].SetColdExtrude(allow, i in mask);
      }
    }
  }

  /** AllHeatersMask: every heater index below `n`. */
  function AllHeatersMask(n: nat): (r: set<nat>)
    ensures forall i :: i in r <==> 0 <= i < n
  {
    if n == 0 then {} else AllHeatersMask(n - 1) + {n - 1}
  }

  /** Once a prefix of the heaters fails start_wait, WaitOutcome keeps that failure. */
  lemma {:induction false} WaitOutcomeFails(fs: seq<HeaterFields>, mask: set<nat>, n: nat)
    requires n <= |fs| && WaitOutcome(fs[..n], mask).Err?
    ensures WaitOutcome(fs, mask) == WaitOutcome(fs[..n], mask)
    decreases |fs| - n
  {
    if n < |fs| {
      assert fs[..n + 1][..n] == fs[..n];
      WaitOutcomeFails(fs, mask, n + 1);
    } else {
      assert fs[..n] == fs;
    }
  }
}
