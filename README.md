# Fire sprayer control loop — Dafny model

This project models the decision core of a Raspberry Pi fire sprayer
(`test.py`). A camera frame is run through a fire detector. The detector
returns a list of rectangles. For every rectangle the controller aims a
servo-mounted nozzle to the left (30°), right (150°) or centre (90°), then
opens a solenoid valve. When fire stops being seen, the servo goes back to
90° and the valve is closed. A module-level flag, `fire_detected_previously`,
remembers whether the previous frame saw fire. The flag is what makes the
"return and close" pair fire only on the falling edge.

The model has three modules:

- `Actuators` (`actuators.dfy`) covers the two actuator calls. `DutyCycle`
  is the angle-to-PWM mapping of `set_servo_angle`, over exact reals.
  `SolenoidLevel` is the branch of `control_solenoid`. `Lower` gives the pin
  writes each call causes. `PulseThenStop` says every duty-cycle pulse is
  followed by a stop.
- `Decision` (`decision.dfy`) holds the pure specification of one frame
  and of a run of frames. `AimAngle` picks the angle. `FrameCommands` lists
  the commands one frame issues. `StepState` and `Run` give the state
  afterwards. `Consistent` is the cross-frame invariant tying the valve and
  the servo to the flag.
- `Controller` (`controller.dfy`) is the imperative side. Class
  `FireController` holds the flag, the valve level, the last commanded
  angle and the log of pin writes. `SetServoAngle` and `ControlSolenoid`
  are the two actuator calls. `AimAtAll` is the `for` loop over regions.
  `Step` is lines 58-83 of `generate_frames`. `GenerateFrames` is the
  `while True` loop over camera reads. `Step` and `GenerateFrames` keep
  `Valid()`. The actuator calls are specified by their effect on `State()`
  and `writes`. `Valid()` holds the cross-frame invariant, the
  pulse-then-stop property of the pin log, the fact that the last
  valve-pin write in the log drove the pin to the level held in `valve`,
  and, once the servo has moved, the fact that the last servo duty cycle
  in the log is the one for the angle held in `aim`.

Points of `test.py`'s behaviour the model follows:

- A region is classified by its left edge `x` against the constant 320,
  not by its centre `x + w/2`.
- Every detected region is acted on, not only the first. The servo ends up
  pointing at the side of the last region.
- The valve closes in the very frame where detection drops out. There is
  no cooldown delay.
- The code has no notification, alarm or re-notification guard, so the
  model has none.

## Model

| member | source | states |
|---|---|---|
| Actuators.DutyCycle | test.py:29 | the duty cycle `d` for angle `a` satisfies `(d - 2.5) * 18 = a`; `a` lies in [0, 180] exactly when `d` lies in [2.5, 12.5] |
| Actuators.AngleOfDuty | test.py:29 | every duty cycle is reached by some angle (the mapping is onto) |
| Actuators.DutyCycleInverse | test.py:29 | the duty cycle determines the angle: AngleOfDuty undoes DutyCycle |
| Actuators.DutyCycleMonotone | test.py:29 | a larger angle never gets a smaller duty cycle; a strictly larger one gets a strictly larger duty cycle |
| Actuators.DutyCycleLandmarks | test.py:29 | 0°, 90° and 180° map to 2.5 %, 7.5 % and 12.5 % |
| Actuators.SolenoidLevel | test.py:36-42 | the valve pin goes HIGH exactly for the string "open" and LOW for every other string |
| Actuators.CloseDrivesLow | test.py:36-42 | the "close" argument callers pass (test.py:80) drives the valve pin LOW |
| Actuators.PulseThenStopAppend | test.py:28-32 | after any sequence of servo and valve calls, every nonzero duty write is immediately followed by a duty-0 write |
| Decision.AimAngleCases | test.py:66-72 | left edge < 320 gives 30°, > 320 gives 150°, = 320 gives 90°; each case holds exactly under its condition, so the three are disjoint and exhaustive |
| Decision.AimAngleMonotone | test.py:66-72 | a region further right is never aimed further left |
| Decision.DetectionCommandsPairs | test.py:62-75 | the region loop emits exactly one (aim, open) pair per region, in detection order, aim first |
| Decision.DetectionCommandsOnlyOpen | test.py:62-75 | every valve command the region loop issues is "open" |
| Decision.DetectingFrame | test.py:58-80 | a frame with n > 0 regions emits exactly 2n commands, the n pairs in order, and no close command, whatever the previous frame saw |
| Decision.QuietFrame | test.py:77-80 | a frame with no regions emits `aim 90, close` after a frame with fire and nothing after a frame without |
| Decision.CloseOnlyOnFallingEdge | test.py:58-80 | a frame tells the valve to close if and only if the previous frame saw fire and this one sees none |
| Decision.AfterDetections | test.py:62-75 | after the region loop the valve is HIGH and the last aim is the angle for the last region |
| Decision.StepStateCases | test.py:58-83 | after a frame the flag equals "this frame saw fire"; the valve and aim are (HIGH, angle of last region), (LOW, 90°) on a falling edge, or unchanged on an idle frame |
| Decision.InitialConsistent | test.py:15-24 | the start-up state (flag false, valve LOW, servo never moved) satisfies the invariant |
| Decision.StepPreservesConsistent | test.py:58-83 | one frame keeps the invariant: valve HIGH iff flag set, and with the flag clear the last aim is absent or 90° |
| Decision.RunPreservesConsistent | test.py:46-83 | any sequence of frames keeps the invariant |
| Decision.RunFromInitial | test.py:15-83 | from start-up, after any frames: valve HIGH iff the last frame saw fire; the flag is the last frame's detection; when the last frame saw fire, the aim is the angle for its last region; otherwise it is absent or 90° (Consistent) |
| Controller.Cut | test.py:48-52 | the loop processes exactly the reads before the first failed read |
| Controller.EncodingDoesNotAffectDecisions | test.py:83-89 | which frames fail to encode changes neither the frames processed nor their detections, so the flag and actuators are unaffected |
| Controller.StreamedUpToSpec | test.py:85-92 | a processed frame is streamed if and only if it encodes; streamed frames keep capture order |
| Controller.FireController.constructor | test.py:15-24 | start-up: PWM at duty 0, valve pin LOW, flag false, servo not yet moved, invariant holds, and the last pin write is the LOW just written |
| Controller.FireController.SetServoAngle | test.py:28-32 | writes the computed duty cycle, then duty 0; records the angle, and that duty cycle becomes the last servo move in the log; nothing else changes, so the last valve-pin write stays the same |
| Controller.FireController.ControlSolenoid | test.py:36-42 | drives the valve pin to SolenoidLevel(state); that write becomes the last pin write, matching `valve`; nothing else changes, so the last servo move still matches `aim` |
| Controller.FireController.AimAndOpen | test.py:62-75 | one loop iteration: aims by the region's left edge, then opens the valve; the flag is unchanged; the last pin write matches `valve` and the last servo move matches `aim` |
| Controller.FireController.AimAtAll | test.py:62-75 | issues exactly DetectionCommands(regions); the state and pin log follow from those commands; the flag is unchanged; the last pin write still matches `valve`, and the last servo move still matches `aim` |
| Controller.FireController.ReturnToCenter | test.py:78-80 | aims 90°, then closes the valve; the last servo move in the log is the 90° duty cycle and the last pin write is LOW |
| Controller.FireController.Step | test.py:58-83 | issues exactly FrameCommands(old flag, regions); the new state is StepState of the old; the flag becomes "regions non-empty"; the pins receive those commands' writes; Valid() is kept, so the last valve-pin write is HIGH exactly when the flag is set and the last servo move is the duty cycle for `aim` |
| Controller.FireController.GenerateFrames | test.py:46-92 | processes reads up to the first failure; the final state and commands are Run and RunCommands of those frames; streams exactly the frames that encode; keeps the invariant |

## Left out

- The Flask app, the `/video` route and the multipart JPEG framing (test.py:7, 91-98) are not modelled. They are HTTP plumbing. A streamed frame appears only as its capture index.
- Camera capture, grayscale conversion and the Haar cascade `detectMultiScale` (test.py:20-21, 49-56) are not modelled. They are external vision code. Each read is an input: failed, or a list of integer rectangles plus whether JPEG encoding succeeds.
- JPEG encoding (test.py:86-90) is external. Only its success or failure is an input.
- Rectangle drawing with 20-pixel padding and every `print` (test.py:39, 42, 51, 63-64, 88) are not modelled. They have no effect on the decisions.
- GPIO and PWM setup, `time.sleep(0.5)` and the shutdown `finally` block (test.py:12-17, 31, 103-114) are not modelled, except the initial duty 0 (test.py:16) and valve LOW (test.py:17), which the constructor records. The rest is hardware set-up and timing.
- Actuators.DutyCycle: computed over exact reals. The model does not capture Python float rounding of `angle / 18`.
- `generate_frames` is a generator driven by a `/video` client (test.py:46-98). Its loop runs only while that client streams, and it ends at a failed read or when the client disconnects at a `yield`. GenerateFrames runs over a finite sequence of reads, which covers both endings. A disconnect during fire leaves the flag set and the valve HIGH, and the next generator starts from that state. GenerateFrames covers this case because it requires only `Valid()`, not the start-up state.
- Concurrent Flask clients, each running its own generator over the shared global flag and camera, are not modelled. The model has one controller object and one loop.
