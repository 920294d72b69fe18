/** The per-frame fire-response decision: which actuator commands one frame's
    detections cause, and how the controller's state (the previous-detection
    flag, the valve level and the last aim) moves from frame to frame. These
    functions specify the imperative controller in module Controller. */
module Decision {
  import opened Actuators

  datatype Option<T> = None | Some(value: T)

  /** A rectangle `(x, y, w, h)` reported by the fire detector: top-left
      corner and size, in pixels. */
  datatype Region = Region(x: int, y: int, w: int, h: int)

  /** Horizontal middle of a 640-pixel-wide frame. */
  const Midline: int := 320

  /** Servo angles (degrees) for a fire on the left, on the right, and for the
      centre / rest position. */
  const LeftAngle: int := 30
  const RightAngle: int := 150
  const CenterAngle: int := 90

  /** The valve argument used when fire stops being seen. */
  const CloseValve: string := "close"

  /** Angle the nozzle is aimed at for a region whose left edge is at `x`:
      the left edge, not the centre, is compared with the midline. */
  function AimAngle(x: int): (angle: int)
  {
    if x < Midline then LeftAngle
    else if x > Midline then RightAngle
    else CenterAngle
  }

  /** The three aiming cases are disjoint and exhaustive, and each holds
      exactly when the left edge is on that side of the midline. */
  lemma AimAngleCases(x: int)
    ensures AimAngle(x) == LeftAngle <==> x < Midline
    ensures AimAngle(x) == RightAngle <==> x > Midline
    ensures AimAngle(x) == CenterAngle <==> x == Midline
    ensures AimAngle(x) in {LeftAngle, CenterAngle, RightAngle}
  {
  }

  /** A region further right is never aimed at further left. */
  lemma AimAngleMonotone(x1: int, x2: int)
    requires x1 <= x2
    ensures AimAngle(x1) <= AimAngle(x2)
  {
  }

  /** Commands issued for one detected region: aim, then open the valve. */
  function RegionCommands(r: Region): (cmds: seq<Command>)
  {
    [SetServo(AimAngle(r.x)), SetSolenoid(OpenValve)]
  }

  /** Commands issued by the loop over all detected regions, in order. */
  function DetectionCommands(ds: seq<Region>): (cmds: seq<Command>)
  {
    if ds == [] then [] else RegionCommands(ds[0]) + DetectionCommands(ds[1..])
  }

  /** Commands issued when fire stops being seen: back to centre, valve shut. */
  const ReturnToRest: seq<Command> := [SetServo(CenterAngle), SetSolenoid(CloseValve)]

  /** All commands of one frame, given whether fire was seen in the previous
      frame: one pair per region, then the rest pair on a falling edge. */
  function FrameCommands(previously: bool, ds: seq<Region>): (cmds: seq<Command>)
  {
    DetectionCommands(ds) + (if |ds| == 0 && previously then ReturnToRest else [])
  }

  lemma {:induction false} DetectionCommandsAppend(ds: seq<Region>, r: Region)
    ensures DetectionCommands(ds + [r]) == DetectionCommands(ds) + RegionCommands(r)
  {
    if ds == [] {
      assert DetectionCommands([r]) == RegionCommands(r) + DetectionCommands([]);
    } else {
      assert (ds + [r])[0] == ds[0];
      assert (ds + [r])[1..] == ds[1..] + [r];
      DetectionCommandsAppend(ds[1..], r);
    }
  }

  /** The loop over regions emits exactly one (aim, open) pair per region, in
      detection order, with the aim first in each pair. */
  lemma {:induction false} DetectionCommandsPairs(ds: seq<Region>)
    ensures |DetectionCommands(ds)| == 2 * |ds|
    ensures forall i :: 0 <= i < |ds| ==>
      DetectionCommands(ds)[2 * i] == SetServo(AimAngle(ds[i].x)) &&
      DetectionCommands(ds)[2 * i + 1] == SetSolenoid(OpenValve)
  {
    if ds != [] {
      DetectionCommandsPairs(ds[1..]);
      var rest := DetectionCommands(ds[1..]);
      assert DetectionCommands(ds) == RegionCommands(ds[0]) + rest;
      forall i | 0 <= i < |ds|
        ensures DetectionCommands(ds)[2 * i] == SetServo(AimAngle(ds[i].x))
        ensures DetectionCommands(ds)[2 * i + 1] == SetSolenoid(OpenValve)
      {
        if i > 0 {
          assert ds[i] == ds[1..][i - 1];
          assert DetectionCommands(ds)[2 * i] == rest[2 * (i - 1)];
          assert DetectionCommands(ds)[2 * i + 1] == rest[2 * (i - 1) + 1];
        }
      }
    }
  }

  /** The loop over regions never closes the valve: every valve command it
      issues is "open". */
  lemma {:induction false} DetectionCommandsOnlyOpen(ds: seq<Region>)
    ensures forall c :: c in DetectionCommands(ds) && c.SetSolenoid? ==> c.state == OpenValve
  {
    if ds != [] {
      DetectionCommandsOnlyOpen(ds[1..]);
    }
  }

  /** A frame with n > 0 detections emits exactly n (aim, open) pairs, in
      detection order, and nothing else, whatever the previous frame saw. */
  lemma DetectingFrame(previously: bool, ds: seq<Region>)
    requires |ds| > 0
    ensures |FrameCommands(previously, ds)| == 2 * |ds|
    ensures forall i :: 0 <= i < |ds| ==>
      FrameCommands(previously, ds)[2 * i] == SetServo(AimAngle(ds[i].x)) &&
      FrameCommands(previously, ds)[2 * i + 1] == SetSolenoid(OpenValve)
    ensures SetSolenoid(CloseValve) !in FrameCommands(previously, ds)
  {
    DetectionCommandsPairs(ds);
    DetectionCommandsOnlyOpen(ds);
    assert FrameCommands(previously, ds) == DetectionCommands(ds);
  }

  /** A frame without detections emits the rest pair after a frame with
      detections, and nothing after a frame without. */
  lemma QuietFrame(previously: bool)
    ensures FrameCommands(previously, []) ==
      if previously then [SetServo(CenterAngle), SetSolenoid(CloseValve)] else []
  {
  }

  /** The valve is told to close in a frame exactly on a falling edge: fire
      was seen in the previous frame and is not seen in this one. */
  lemma CloseOnlyOnFallingEdge(previously: bool, ds: seq<Region>)
    ensures SetSolenoid(CloseValve) in FrameCommands(previously, ds) <==> previously && |ds| == 0
  {
    if |ds| > 0 {
      DetectingFrame(previously, ds);
    } else {
      assert DetectionCommands(ds) == [];
      assert FrameCommands(previously, ds) == if previously then ReturnToRest else [];
    }
  }

  /** What the controller remembers between frames: whether fire was seen in
      the previous frame, the level last driven on the valve pin, and the
      last angle the servo was commanded to (None before any move). */
  datatype ControlState = ControlState(previously: bool, valve: Level, aim: Option<int>)

  /** At start-up no fire has been seen, the valve pin is LOW and the servo
      has not been moved. */
  const Initial: ControlState := ControlState(false, Low, None)

  /** Effect of one command on the state. */
  function Apply(s: ControlState, c: Command): (s': ControlState)
  {
    match c
    case SetServo(angle) => s.(aim := Some(angle))
    case SetSolenoid(state) => s.(valve := SolenoidLevel(state))
  }

  /** Effect of a sequence of commands on the state, in order. */
  function ApplyAll(s: ControlState, cmds: seq<Command>): (s': ControlState)
    decreases |cmds|
  {
    if cmds == [] then s else ApplyAll(Apply(s, cmds[0]), cmds[1..])
  }

  lemma {:induction false} ApplyAllAppend(s: ControlState, a: seq<Command>, b: seq<Command>)
    ensures ApplyAll(s, a + b) == ApplyAll(ApplyAll(s, a), b)
    decreases |a|
  {
    if a == [] {
      assert a + b == b;
    } else {
      assert (a + b)[0] == a[0];
      assert (a + b)[1..] == a[1..] + b;
      ApplyAllAppend(Apply(s, a[0]), a[1..], b);
    }
  }

  lemma ApplyAllPair(s: ControlState, c1: Command, c2: Command)
    ensures ApplyAll(s, [c1, c2]) == Apply(Apply(s, c1), c2)
  {
    calc {
      ApplyAll(s, [c1, c2]);
      { assert [c1, c2][1..] == [c2]; }
      ApplyAll(Apply(s, c1), [c2]);
      { assert [c2][1..] == []; }
      ApplyAll(Apply(Apply(s, c1), c2), []);
    }
  }

  /** The state after one frame: its commands applied, then the flag set to
      whether this frame saw fire. */
  function StepState(s: ControlState, ds: seq<Region>): (s': ControlState)
  {
    ApplyAll(s, FrameCommands(s.previously, ds)).(previously := |ds| > 0)
  }

  /** After the loop over a non-empty list of regions the valve is open and
      the servo points at the last region's side; the flag is untouched. */
  lemma {:induction false} AfterDetections(s: ControlState, ds: seq<Region>)
    requires |ds| > 0
    ensures ApplyAll(s, DetectionCommands(ds)) ==
      s.(valve := High, aim := Some(AimAngle(ds[|ds| - 1].x)))
    decreases |ds|
  {
    var s1 := ApplyAll(s, RegionCommands(ds[0]));
    assert s1 == ApplyAll(Apply(s, SetServo(AimAngle(ds[0].x))), [SetSolenoid(OpenValve)]);
    assert s1 == s.(valve := High, aim := Some(AimAngle(ds[0].x)));
    ApplyAllAppend(s, RegionCommands(ds[0]), DetectionCommands(ds[1..]));
    if |ds| > 1 {
      AfterDetections(s1, ds[1..]);
      assert ds[1..][|ds[1..]| - 1] == ds[|ds| - 1];
    }
  }

  /** One frame's effect on the state, case by case. */
  lemma StepStateCases(s: ControlState, ds: seq<Region>)
    ensures StepState(s, ds).previously == (|ds| > 0)
    ensures |ds| > 0 ==>
      StepState(s, ds) == ControlState(true, High, Some(AimAngle(ds[|ds| - 1].x)))
    ensures |ds| == 0 && s.previously ==>
      StepState(s, ds) == ControlState(false, Low, Some(CenterAngle))
    ensures |ds| == 0 && !s.previously ==> StepState(s, ds) == s
  {
    if |ds| > 0 {
      AfterDetections(s, ds);
      assert FrameCommands(s.previously, ds) == DetectionCommands(ds);
    } else if s.previously {
      assert FrameCommands(s.previously, ds) == ReturnToRest;
      assert ApplyAll(s, ReturnToRest) == ApplyAll(s.(aim := Some(CenterAngle)), [SetSolenoid(CloseValve)]);
    }
  }

  /** The cross-frame invariant: the valve pin is HIGH exactly when the
      previous frame saw fire, and while no fire is remembered the servo
      either was never moved or was last sent to the centre. */
  predicate Consistent(s: ControlState)
  {
    && (s.valve == High <==> s.previously)
    && (!s.previously ==> s.aim == None || s.aim == Some(CenterAngle))
  }

  lemma InitialConsistent()
    ensures Consistent(Initial)
  {
  }

  /** Every frame keeps the invariant. */
  lemma StepPreservesConsistent(s: ControlState, ds: seq<Region>)
    requires Consistent(s)
    ensures Consistent(StepState(s, ds))
  {
    StepStateCases(s, ds);
  }

  /** The state after a sequence of frames. */
  function Run(s: ControlState, frames: seq<seq<Region>>): (s': ControlState)
    decreases |frames|
  {
    if frames == [] then s else Run(StepState(s, frames[0]), frames[1..])
  }

  /** All commands issued over a sequence of frames, in order. */
  function RunCommands(s: ControlState, frames: seq<seq<Region>>): (cmds: seq<Command>)
    decreases |frames|
  {
    if frames == [] then []
    else FrameCommands(s.previously, frames[0]) + RunCommands(StepState(s, frames[0]), frames[1..])
  }

  lemma {:induction false} RunAppend(s: ControlState, frames: seq<seq<Region>>, ds: seq<Region>)
    ensures Run(s, frames + [ds]) == StepState(Run(s, frames), ds)
    ensures RunCommands(s, frames + [ds]) ==
      RunCommands(s, frames) + FrameCommands(Run(s, frames).previously, ds)
    decreases |frames|
  {
    if frames == [] {
      assert RunCommands(s, [ds]) == FrameCommands(s.previously, ds) + RunCommands(StepState(s, ds), []);
    } else {
      assert (frames + [ds])[0] == frames[0];
      assert (frames + [ds])[1..] == frames[1..] + [ds];
      RunAppend(StepState(s, frames[0]), frames[1..], ds);
    }
  }

  /** From a consistent state, any sequence of frames ends consistent. */
  lemma {:induction false} RunPreservesConsistent(s: ControlState, frames: seq<seq<Region>>)
    requires Consistent(s)
    ensures Consistent(Run(s, frames))
    decreases |frames|
  {
    if frames != [] {
      StepPreservesConsistent(s, frames[0]);
      RunPreservesConsistent(StepState(s, frames[0]), frames[1..]);
    }
  }

  /** Starting from start-up, after any sequence of frames the valve is open
      exactly when the last frame saw fire, and the last aim is absent or the
      centre whenever the last frame saw none. */
  lemma RunFromInitial(frames: seq<seq<Region>>)
    ensures Consistent(Run(Initial, frames))
    ensures |frames| > 0 ==> Run(Initial, frames).previously == (|frames[|frames| - 1]| > 0)
    ensures |frames| > 0 && |frames[|frames| - 1]| > 0 ==>
      var last := frames[|frames| - 1];
      Run(Initial, frames).aim == Some(AimAngle(last[|last| - 1].x))
  {
    RunPreservesConsistent(Initial, frames);
    if |frames| > 0 {
      var init := frames[..|frames| - 1];
      assert frames == init + [frames[|frames| - 1]];
      RunAppend(Initial, init, frames[|frames| - 1]);
      StepStateCases(Run(Initial, init), frames[|frames| - 1]);
    }
  }
}
