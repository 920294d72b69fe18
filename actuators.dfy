/** The actuator layer of the fire sprayer: a hobby servo on a 50 Hz PWM pin
    that aims the nozzle, and a relay-driven solenoid valve on a plain GPIO
    output pin. The controller talks to it through two calls,
    `set_servo_angle(angle)` and `control_solenoid(state)`; each call turns
    into writes on the pins. */
module Actuators {

  /** Logic level of a GPIO output pin. */
  datatype Level = Low | High

  /** One call the controller makes into the actuator layer. */
  datatype Command =
    | SetServo(angle: int)        // set_servo_angle(angle), angle in degrees
    | SetSolenoid(state: string)  // control_solenoid(state)

  /** One write the pins receive: a duty-cycle change (percent) on the servo's
      PWM channel, or a level on the valve pin. */
  datatype Write = Duty(percent: real) | Pin(level: Level)

  /** Duty cycle that stops the servo's PWM signal. */
  const ServoStop: real := 0.0

  /** The argument that opens the valve; every other argument closes it. */
  const OpenValve: string := "open"

  /** Duty cycle (percent) for a servo angle (degrees): 0..180 degrees is
      spread linearly over 2.5..12.5 percent. Python's `/` is true division
      here; the model uses exact reals. */
  function DutyCycle(angle: real): (d: real)
    ensures (d - 2.5) * 18.0 == angle
    ensures 0.0 <= angle <= 180.0 <==> 2.5 <= d <= 12.5
  {
    2.5 + angle / 18.0
  }

  /** The angle a duty cycle commands: the inverse of DutyCycle. */
  function AngleOfDuty(d: real): (angle: real)
    ensures DutyCycle(angle) == d
  {
    (d - 2.5) * 18.0
  }

  lemma DutyCycleInverse(angle: real)
    ensures AngleOfDuty(DutyCycle(angle)) == angle
  {
  }

  /** A larger angle never gets a smaller duty cycle, and distinct angles get
      distinct duty cycles. */
  lemma DutyCycleMonotone(a: real, b: real)
    requires a <= b
    ensures DutyCycle(a) <= DutyCycle(b)
    ensures a < b ==> DutyCycle(a) < DutyCycle(b)
  {
  }

  /** The ends and the middle of the servo's range. */
  lemma DutyCycleLandmarks()
    ensures DutyCycle(0.0) == 2.5
    ensures DutyCycle(90.0) == 7.5
    ensures DutyCycle(180.0) == 12.5
  {
  }

  /** Level that `control_solenoid(state)` drives onto the valve pin: HIGH
      exactly for the string "open", LOW for anything else. */
  function SolenoidLevel(state: string): (l: Level)
    ensures l == High <==> state == OpenValve
    ensures l == Low <==> state != OpenValve
  {
    if state == OpenValve then High else Low
  }

  /** The argument "close" used by callers closes the valve. */
  lemma CloseDrivesLow()
    ensures SolenoidLevel("close") == Low
  {
  }

  /** The write at position `k` of `ws` is the last valve-pin write, and it
      drove the pin to `level`: every later write is a duty-cycle write. */
  ghost predicate LastPinAt(ws: seq<Write>, k: nat, level: Level)
  {
    && k < |ws|
    && ws[k] == Pin(level)
    && forall j :: k < j < |ws| ==> ws[j].Duty?
  }

  /** The write at position `k` of `ws` is the last servo move, to duty cycle
      `d`: every later duty-cycle write stops the signal. */
  ghost predicate LastMoveAt(ws: seq<Write>, k: nat, d: real)
  {
    && k < |ws|
    && ws[k] == Duty(d)
    && forall j :: k < j < |ws| && ws[j].Duty? ==> ws[j] == Duty(ServoStop)
  }

  /** Pin writes one command causes: a servo move writes the computed duty
      cycle and then stops the signal; a valve command writes one level. */
  function Lower(c: Command): (ws: seq<Write>)
  {
    match c
    case SetServo(angle) => [Duty(DutyCycle(angle as real)), Duty(ServoStop)]
    case SetSolenoid(state) => [Pin(SolenoidLevel(state))]
  }

  /** Pin writes of a sequence of commands, in order. */
  function LowerAll(cmds: seq<Command>): (ws: seq<Write>)
  {
    if cmds == [] then [] else Lower(cmds[0]) + LowerAll(cmds[1..])
  }

  lemma {:induction false} LowerAllAppend(a: seq<Command>, b: seq<Command>)
    ensures LowerAll(a + b) == LowerAll(a) + LowerAll(b)
  {
    if a == [] {
      assert a + b == b;
    } else {
      assert (a + b)[1..] == a[1..] + b;
      LowerAllAppend(a[1..], b);
    }
  }

  lemma LowerAllPair(c1: Command, c2: Command)
    ensures LowerAll([c1, c2]) == Lower(c1) + Lower(c2)
  {
    calc {
      LowerAll([c1, c2]);
      { assert [c1, c2][1..] == [c2]; }
      Lower(c1) + LowerAll([c2]);
      { assert [c2][1..] == []; }
      Lower(c1) + (Lower(c2) + []);
      { assert Lower(c2) + [] == Lower(c2); }
      Lower(c1) + Lower(c2);
    }
  }

  /** Every duty-cycle write that drives the servo is immediately followed by
      a write that stops the signal: the servo is never left powered. */
  ghost predicate PulseThenStop(ws: seq<Write>)
  {
    forall i :: 0 <= i < |ws| && ws[i].Duty? && ws[i].percent != ServoStop ==>
      i + 1 < |ws| && ws[i + 1] == Duty(ServoStop)
  }

  lemma PulseThenStopOne(ws: seq<Write>, c: Command)
    requires PulseThenStop(ws)
    ensures PulseThenStop(ws + Lower(c))
  {
  }

  /** Appending the writes of any commands keeps every pulse followed by a
      stop. */
  lemma {:induction false} PulseThenStopAppend(ws: seq<Write>, cmds: seq<Command>)
    requires PulseThenStop(ws)
    ensures PulseThenStop(ws + LowerAll(cmds))
    decreases |cmds|
  {
    if cmds != [] {
      PulseThenStopOne(ws, cmds[0]);
      PulseThenStopAppend(ws + Lower(cmds[0]), cmds[1..]);
      assert ws + LowerAll(cmds) == ws + Lower(cmds[0]) + LowerAll(cmds[1..]);
    } else {
      assert ws + LowerAll(cmds) == ws;
    }
  }
}
