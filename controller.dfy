/** The frame loop that drives the sprayer. The fire flag lives in the
    controller object (the source keeps it in a module-level variable); the
    valve level, the last aim and the pin writes stand for the hardware the
    source drives through GPIO. */
module Controller {
  import opened Actuators
  import opened Decision

  /** Outcome of one camera read: either the read failed, or a frame was
      captured, the detector found `detections` in it, and the JPEG encoder
      did or did not succeed on it. */
  datatype Capture =
    | CaptureFailed
    | Captured(detections: seq<Region>, encodes: bool)

  function DetectionsOf(c: Capture): (ds: seq<Region>)
  {
    match c
    case CaptureFailed => []
    case Captured(ds, _) => ds
  }

  /** Number of reads the loop processes: it stops at the first failed read. */
  function Cut(cs: seq<Capture>): (n: nat)
    ensures n <= |cs|
    ensures forall i :: 0 <= i < n ==> cs[i].Captured?
    ensures n < |cs| ==> cs[n].CaptureFailed?
  {
    if cs == [] || cs[0].CaptureFailed? then 0 else 1 + Cut(cs[1..])
  }

  /** Detections of the first `n` captures, frame by frame. */
  function FramesUpTo(cs: seq<Capture>, n: nat): (frames: seq<seq<Region>>)
    requires n <= |cs|
    ensures |frames| == n
  {
    if n == 0 then [] else FramesUpTo(cs, n - 1) + [DetectionsOf(cs[n - 1])]
  }

  lemma FramesUpToNext(cs: seq<Capture>, n: nat)
    requires n < |cs|
    ensures FramesUpTo(cs, n + 1) == FramesUpTo(cs, n) + [DetectionsOf(cs[n])]
  {
  }

  /** Bookkeeping for one turn of the frame loop: appending a frame's
      commands and writes to those of the frames before it. */
  lemma FrameProcessed(s0: ControlState, frames: seq<seq<Region>>, ds: seq<Region>,
                       cmds: seq<Command>, frameCmds: seq<Command>,
                       w0: seq<Write>, before: seq<Write>, after: seq<Write>)
    requires cmds == RunCommands(s0, frames)
    requires frameCmds == FrameCommands(Run(s0, frames).previously, ds)
    requires before == w0 + LowerAll(cmds)
    requires after == before + LowerAll(frameCmds)
    ensures cmds + frameCmds == RunCommands(s0, frames + [ds])
    ensures Run(s0, frames + [ds]) == StepState(Run(s0, frames), ds)
    ensures after == w0 + LowerAll(cmds + frameCmds)
  {
    RunAppend(s0, frames, ds);
    LowerAllAppend(cmds, frameCmds);
  }

  /** Whether a frame encodes has no bearing on the decisions: two capture
      sequences that differ only in which frames fail to encode drive the
      loop over the same frames with the same detections. */
  lemma {:induction false} EncodingDoesNotAffectDecisions(cs: seq<Capture>, cs': seq<Capture>)
    requires |cs| == |cs'|
    requires forall i :: 0 <= i < |cs| ==>
      cs[i].CaptureFailed? == cs'[i].CaptureFailed? && DetectionsOf(cs[i]) == DetectionsOf(cs'[i])
    ensures Cut(cs) == Cut(cs')
    ensures FramesUpTo(cs, Cut(cs)) == FramesUpTo(cs', Cut(cs'))
  {
    if cs != [] && cs[0].Captured? {
      EncodingDoesNotAffectDecisions(cs[1..], cs'[1..]);
    }
    SameFrames(cs, cs', Cut(cs));
  }

  lemma {:induction false} SameFrames(cs: seq<Capture>, cs': seq<Capture>, n: nat)
    requires n <= |cs| == |cs'|
    requires forall i :: 0 <= i < |cs| ==> DetectionsOf(cs[i]) == DetectionsOf(cs'[i])
    ensures FramesUpTo(cs, n) == FramesUpTo(cs', n)
  {
    if n > 0 {
      SameFrames(cs, cs', n - 1);
    }
  }

  /** Indices, among the first `n` captures, of the frames that reach the
      stream: those that encode; the others are skipped. */
  function StreamedUpTo(cs: seq<Capture>, n: nat): (streamed: seq<nat>)
    requires n <= |cs|
  {
    if n == 0 then []
    else StreamedUpTo(cs, n - 1) + (if cs[n - 1].Captured? && cs[n - 1].encodes then [n - 1] else [])
  }

  /** Among the first `n` captures, exactly the frames that encode reach the
      stream, each once, in capture order. */
  lemma {:induction false} StreamedUpToSpec(cs: seq<Capture>, n: nat)
    requires n <= |cs|
    ensures forall k: nat :: k in StreamedUpTo(cs, n) <==> k < n && cs[k].Captured? && cs[k].encodes
    ensures forall i :: 0 <= i < |StreamedUpTo(cs, n)| ==> StreamedUpTo(cs, n)[i] < n
    ensures forall i, j :: 0 <= i < j < |StreamedUpTo(cs, n)| ==> StreamedUpTo(cs, n)[i] < StreamedUpTo(cs, n)[j]
  {
    if n > 0 {
      StreamedUpToSpec(cs, n - 1);
    }
  }

  class FireController {
    /** Whether the previous frame saw fire. */
    var previously: bool
    /** Level last driven on the valve pin. */
    var valve: Level
    /** Angle the servo was last commanded to; None before the first move. */
    var aim: Option<int>
    /** Every write the servo and valve pins have received, in order. */
    var writes: seq<Write>
    /** Position in `writes` of the last valve-pin write. */
    ghost var lastPin: nat
    /** Position in `writes` of the duty cycle of the last servo move. */
    ghost var lastMove: nat

    function State(): (s: ControlState)
      reads this
    {
      ControlState(previously, valve, aim)
    }

    ghost predicate Valid()
      reads this
    {
      && Consistent(State())
      && PulseThenStop(writes)
      && LastPinAt(writes, lastPin, valve)
      && AimWritten()
    }

    /** Once the servo has been moved, the last duty cycle that drove it is
        the one for the angle held in `aim`. */
    ghost predicate AimWritten()
      reads this
    {
      aim.Some? ==> LastMoveAt(writes, lastMove, DutyCycle(aim.value as real))
    }

    /** Start-up: PWM started at duty 0, valve pin driven LOW, no fire seen. */
    constructor ()
      ensures Valid()
      ensures State() == Initial
      ensures writes == [Duty(ServoStop), Pin(Low)]
    {
      previously := false;
      valve := Low;
      aim := None;
      writes := [Duty(ServoStop), Pin(Low)];
      lastPin := 1;
      lastMove := 0;
    }

    /** Moves the servo: the computed duty cycle, then the signal stopped. */
    method SetServoAngle(angle: int)
      modifies this
      ensures State() == Apply(old(State()), SetServo(angle))
      ensures writes == old(writes) + [Duty(DutyCycle(angle as real)), Duty(ServoStop)]
      ensures lastPin == old(lastPin)
      ensures LastPinAt(old(writes), lastPin, valve) ==> LastPinAt(writes, lastPin, valve)
      ensures AimWritten()
    {
      var dutyCycle := DutyCycle(angle as real);
      lastMove := |writes|;
      writes := writes + [Duty(dutyCycle)];
      writes := writes + [Duty(ServoStop)];
      aim := Some(angle);
    }

    /** Drives the valve pin HIGH for "open" and LOW for anything else. */
    method ControlSolenoid(state: string)
      modifies this
      ensures State() == Apply(old(State()), SetSolenoid(state))
      ensures writes == old(writes) + [Pin(SolenoidLevel(state))]
      ensures LastPinAt(writes, lastPin, valve)
      ensures old(AimWritten()) ==> AimWritten()
    {
      if state == OpenValve {
        valve := High;
      } else {
        valve := Low;
      }
      lastPin := |writes|;
      writes := writes + [Pin(valve)];
    }

    /** The body of the loop over regions: aims by the region's left edge
        against the midline, then opens the valve. Returns the two commands
        issued. */
    method AimAndOpen(region: Region) returns (issued: seq<Command>)
      modifies this
      ensures issued == RegionCommands(region)
      ensures previously == old(previously)
      ensures LastPinAt(writes, lastPin, valve)
      ensures AimWritten()
      ensures State() == ApplyAll(old(State()), issued)
      ensures writes == old(writes) + LowerAll(issued)
    {
      if region.x < Midline {
        SetServoAngle(LeftAngle);
        issued := [SetServo(LeftAngle)];
      } else if region.x > Midline {
        SetServoAngle(RightAngle);
        issued := [SetServo(RightAngle)];
      } else {
        SetServoAngle(CenterAngle);
        issued := [SetServo(CenterAngle)];
      }
      ControlSolenoid(OpenValve);
      issued := issued + [SetSolenoid(OpenValve)];
      ApplyAllPair(old(State()), issued[0], issued[1]);
      LowerAllPair(issued[0], issued[1]);
    }

    /** The falling-edge branch: servo back to the centre, valve closed. */
    method ReturnToCenter() returns (issued: seq<Command>)
      modifies this
      ensures issued == ReturnToRest
      ensures previously == old(previously)
      ensures LastPinAt(writes, lastPin, valve)
      ensures AimWritten()
      ensures State() == ApplyAll(old(State()), issued)
      ensures writes == old(writes) + LowerAll(issued)
    {
      SetServoAngle(CenterAngle);
      ControlSolenoid(CloseValve);
      issued := [SetServo(CenterAngle), SetSolenoid(CloseValve)];
      ApplyAllPair(old(State()), issued[0], issued[1]);
      LowerAllPair(issued[0], issued[1]);
    }

    /** The loop over the frame's regions: for each one, aim by its left
        edge and open the valve. Returns the commands issued, in order. */
    method AimAtAll(detections: seq<Region>) returns (cmds: seq<Command>)
      requires LastPinAt(writes, lastPin, valve)
      modifies this
      ensures cmds == DetectionCommands(detections)
      ensures previously == old(previously)
      ensures State() == ApplyAll(old(State()), cmds)
      ensures writes == old(writes) + LowerAll(cmds)
      ensures LastPinAt(writes, lastPin, valve)
      ensures old(AimWritten()) ==> AimWritten()
    {
      cmds := [];
      for i := 0 to |detections|
        invariant previously == old(previously)
        invariant cmds == DetectionCommands(detections[..i])
        invariant State() == ApplyAll(old(State()), cmds)
        invariant writes == old(writes) + LowerAll(cmds)
        invariant LastPinAt(writes, lastPin, valve)
        invariant old(AimWritten()) ==> AimWritten()
      {
        var issued := AimAndOpen(detections[i]);
        ApplyAllAppend(old(State()), cmds, issued);
        LowerAllAppend(cmds, issued);
        assert detections[..i + 1] == detections[..i] + [detections[i]];
        DetectionCommandsAppend(detections[..i], detections[i]);
        cmds := cmds + issued;
      }
      assert detections[..|detections|] == detections;
    }

    /** Processes one frame's detections: for each region, aim by its left
        edge and open the valve; on a falling edge, return to the centre and
        close the valve; then remember whether this frame saw fire. Returns
        the commands issued, in order. */
    method Step(detections: seq<Region>) returns (cmds: seq<Command>)
      requires Valid()
      modifies this
      ensures Valid()
      ensures cmds == FrameCommands(old(previously), detections)
      ensures State() == StepState(old(State()), detections)
      ensures previously == (|detections| > 0)
      ensures writes == old(writes) + LowerAll(cmds)
    {
      var fireDetected := |detections| > 0;
      cmds := AimAtAll(detections);
      if !fireDetected && previously {
        var issued := ReturnToCenter();
        ApplyAllAppend(old(State()), cmds, issued);
        LowerAllAppend(cmds, issued);
        cmds := cmds + issued;
      }
      assert cmds == FrameCommands(old(previously), detections);
      previously := fireDetected;
      StepPreservesConsistent(old(State()), detections);
      assert writes == old(writes) + LowerAll(cmds);
      assert PulseThenStop(old(writes));
      PulseThenStopAppend(old(writes), cmds);
    }

    /** The streaming loop: reads captures until one fails (or none are
        left), runs Step on each frame's detections, and passes on only the
        frames that encode. The flag is updated before encoding, so a frame
        that fails to encode still counts as seen. Returns the indices of the
        streamed frames and all commands issued. */
    method GenerateFrames(captures: seq<Capture>) returns (streamed: seq<nat>, cmds: seq<Command>)
      requires Valid()
      modifies this
      ensures Valid()
      ensures State() == Run(old(State()), FramesUpTo(captures, Cut(captures)))
      ensures cmds == RunCommands(old(State()), FramesUpTo(captures, Cut(captures)))
      ensures streamed == StreamedUpTo(captures, Cut(captures))
      ensures writes == old(writes) + LowerAll(cmds)
    {
      streamed, cmds := [], [];
      var i := 0;
      ghost var frames: seq<seq<Region>> := [];
      while i < |captures| && captures[i].Captured?
        invariant 0 <= i <= Cut(captures)
        invariant frames == FramesUpTo(captures, i)
        invariant Valid()
        invariant State() == Run(old(State()), frames)
        invariant cmds == RunCommands(old(State()), frames)
        invariant streamed == StreamedUpTo(captures, i)
        invariant writes == old(writes) + LowerAll(cmds)
      {
        var detections := captures[i].detections;
        ghost var writesBefore := writes;
        var frameCmds := Step(detections);
        FrameProcessed(old(State()), frames, detections, cmds, frameCmds, old(writes), writesBefore, writes);
        FramesUpToNext(captures, i);
        cmds := cmds + frameCmds;
        frames := frames + [detections];
        if captures[i].encodes {
          streamed := streamed + [i];
        }
        i := i + 1;
      }
    }
  }
}
