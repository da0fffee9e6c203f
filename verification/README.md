# Whiteboard plotter: wire protocol and motion control in Dafny

This project models the control path of a two-wire whiteboard plotter. A
laptop and a Raspberry Pi robot exchange framed messages over TCP:

    MAGIC (1 byte) | type tag (1 byte) | body length (u32) | body

The robot turns target points into the lengths of the two wires that hang
the marker from the top corners of the board. It turns those lengths into
stepper-motor step counts. It then drives both motors in rounds: when no motor
is stuck the loop runs `MaxSteps` rounds, and in each round every motor that still has steps
to make, and a positive speed, makes one step. A motor with the smaller
delta therefore finishes first; the per-motor speeds only set pulse delays,
which are not modelled.

| file | models |
|---|---|
| `Wrappers.dfy` | `Option` |
| `Bytes.dfy` | bytes, the u32 length field and the 8-byte double images, little-endian |
| `Wire.dfy` | `network/message.py`: the five message kinds, their tags, `build_header` and `to_str` |
| `Streams.dfy` | a TCP connection as a class: the bytes the peer will send, a read cursor and the bytes sent |
| `Framing.dfy` | what both readers share: the resync loop that skips to MAGIC and the header reads |
| `Utf8.dfy` | the UTF-8 encoding used by `send_error` |
| `RobotSide.dfy` | `network/robot.py`: `receive_message`, `send_ok`, `send_error` |
| `LaptopSide.dfy` | `network/laptop.py`: `wait_for_bot` and the three `send_*` methods |
| `Kinematics.dfy` | `robot/kinematics.py`: anchors, wire lengths, step counts, deltas, bounds |
| `Motion.dfy` | `robot/motion_controller.py`: the motors, `move_to`, the coordinated stepping loop, `execute_path`, `draw_line`, `home` |

Each reader is modelled twice:

- as a function over the unread bytes (`RobotRead`, `LaptopRead`), which the lemmas are about;
- as a method on the connection that advances its cursor the way the source's `recv` calls do (`Robot.ReceiveMessage`, `Laptop.WaitForBot`). Each method is proved equal to its function.

In the motion controller, `move_to` and the stepping loop are methods of a `MotionController` class. The class holds the current position and two `StepperMotor` objects. Each move is specified by the kinematics functions.

## Model

| member | source | states |
|---|---|---|
| Wire.LongTypeAcceptsExactlyKindTags | network/message.py:5-19 | constructing a message succeeds exactly for the tags C, G, P, K, E, and raises ValueError (None) for any other tag |
| Wire.TagsIdentifyKinds | network/message.py:8-17 | no two kinds share a tag, so the tag alone determines the kind |
| Wire.LongType | network/message.py:5-19 | every message kind's tag is accepted by the constructor, and nothing longer or shorter than one byte is |
| Wire.Body | network/message.py:38-87 | a position body is 16 bytes, a pen body 1 byte, and only an Error body can be longer than 16 bytes |
| Wire.BuildHeader | network/message.py:29-30 | the header exists iff the length fits a u32; it is 6 bytes: MAGIC, the tag, and a length field that reads back as the length |
| Wire.Encode | network/message.py:29-87 | a frame exists iff the body length fits a u32; byte 0 is MAGIC; byte 1 is the message's own tag; the length field equals the number of bytes after the header; those bytes are the body |
| Wire.OnlyHugeErrorsFailToEncode | network/message.py:86-87 | only an Error message with a reason of 2^32 bytes or more fails to encode (struct.error) |
| Wire.BodyShapes | network/message.py:38-87 | position bodies are 16 bytes, x then y as doubles; the pen body is one byte, 'd' iff pendown is truthy; the Ok body is empty; the Error body is the reason verbatim |
| Wire.OkFrameIsHeaderOnly | network/message.py:75-76 | the Ok frame is the 6-byte header alone, with length field 0 |
| Bytes.DecodeEncode | network/message.py:30 | decoding the little-endian image of n gives back n |
| Bytes.EncodeDecode | network/robot.py:31 | every byte string is the little-endian image of the number it decodes to |
| Bytes.PackU32 | network/message.py:30 | the length field is 4 bytes and unpacks to the length packed |
| Bytes.UnpackPackU32 | network/robot.py:30-31 | the 4 length bytes are determined by the value they unpack to |
| Bytes.PackUnpackDouble | network/robot.py:36 | an 8-byte image unpacked and packed again is unchanged |
| Utf8.EncodeChar | network/robot.py:57 | one character gives 1 to 4 bytes according to its code point, with the UTF-8 lead and continuation byte ranges, and those bytes decode to the code point |
| Utf8.Encode | network/robot.py:57 | the encoding of a string is between 1 and 4 bytes per character, and ASCII text is copied byte for byte |
| Streams.Socket.Recv | network/robot.py:26-30 | recv(n) returns the next min(n, remaining) bytes and advances the cursor by exactly that many |
| Streams.Socket.SendAll | network/robot.py:54 | sendall appends exactly its data to what was sent |
| Framing.FirstMagic | network/robot.py:26-28 | the resync loop stops at the first MAGIC byte; no byte before it is MAGIC |
| Framing.FirstMagicAfterGarbage | network/robot.py:26-28 | bytes without MAGIC in front of the stream only shift where the first MAGIC is |
| Framing.ScanHeader | network/robot.py:26-31 | no MAGIC means no frame; a stream ending inside the 6 header bytes is a short header; otherwise the tag and u32 length follow the first MAGIC |
| Framing.ScanAfterGarbage | network/laptop.py:36-41 | garbage before the frame changes neither the tag nor the length, only the positions |
| Framing.ScanEncoded | network/laptop.py:36-41 | the header of an encoded frame, after garbage, reads back as the message's tag and body length |
| Framing.SkipToMagic | network/robot.py:26-28 | the one-byte loop consumes exactly the bytes up to and including the first MAGIC, or the whole stream when there is none |
| Framing.ReadHeader | network/robot.py:26-31 | the resync loop and the header reads give the scan of the unread bytes and consume exactly what the scan counts |
| RobotSide.RobotDispatch | network/robot.py:34-50 | C, G and P read their body and others read nothing; the message has the tag read; exactly the tags other than C, G, P raise ValueError; a C or G body of other than 16 bytes fails with struct.error, and a 16-byte one gives x and y unpacked from its two halves; P means pen down iff the body is 'd' |
| RobotSide.RobotRead | network/robot.py:25-50 | a read never consumes more than is there, and gets no message iff the stream holds no '%' |
| RobotSide.RobotShortHeader | network/robot.py:26-31 | a stream that ends fewer than 6 bytes after its first '%' fails with struct.error, having consumed all of its bytes |
| RobotSide.RobotSkipsGarbage | network/robot.py:26-28 | bytes without '%' before a frame are skipped and change nothing else |
| RobotSide.RobotDispatchesBody | network/robot.py:34-48 | dispatching a command's own tag, length and body gives the command back, with its pen value as a bool |
| RobotSide.RobotReadsFrontFrame | network/robot.py:29-48 | a header at the front of the stream leads to the dispatch of what follows it, after exactly 6 header bytes |
| RobotSide.RobotReadsEncodedFront | network/robot.py:26-48 | an encoded command at the front of the stream reads back as itself, consuming exactly its frame |
| RobotSide.RobotReadsEncoded | network/robot.py:26-48 | after any garbage, an encoded C, G or P frame with MAGIC '%' reads back as the same message, consuming the garbage and the frame |
| RobotSide.RobotRefusesReplies | network/robot.py:49-50 | Ok and Error frames fail with ValueError after the 6 header bytes, leaving their bodies unread |
| RobotSide.RobotIgnoresOtherMagic | network/robot.py:11 | the robot compares against '%', so a frame sent with another MAGIC is not seen as starting at its first byte |
| RobotSide.Robot.ReceiveMessage | network/robot.py:25-50 | the method's result and cursor advance are those of RobotRead on the unread bytes |
| RobotSide.Robot.SendOk | network/robot.py:52-54 | sends exactly the Ok frame |
| RobotSide.Robot.SendError | network/robot.py:56-59 | sends exactly the Error frame whose reason is the UTF-8 text, or nothing (struct.error) when the text is 2^32 bytes or longer |
| LaptopSide.LaptopDispatch | network/laptop.py:45-61 | the message has the tag read; exactly the five tags are accepted; a C/G body of other than 16 bytes fails with struct.error, and a 16-byte one gives x and y unpacked from its halves; P needs exactly 1 byte (ValueError otherwise) and keeps that byte as its truthy pen value; K is Ok whatever the body; E carries the body verbatim |
| LaptopSide.LaptopRead | network/laptop.py:34-63 | a read never consumes more than is there, and gets no message iff the stream holds no MAGIC |
| LaptopSide.LaptopShortHeader | network/laptop.py:36-41 | a stream that ends fewer than 6 bytes after its first MAGIC fails with struct.error, having consumed all of its bytes |
| LaptopSide.LaptopSkipsGarbage | network/laptop.py:36-38 | bytes without MAGIC before a frame are skipped and change nothing else |
| LaptopSide.LaptopReadsFrontFrame | network/laptop.py:39-42 | a complete frame at the front of the stream is read to its end before dispatch |
| LaptopSide.LaptopReadsWholeFrame | network/laptop.py:36-42 | after garbage, any complete frame is consumed whole, even one with an unknown tag, and dispatched on exactly its body |
| LaptopSide.LaptopReadsEncoded | network/laptop.py:34-63 | encoding then reading gives back C, G, K and E messages; a pen message comes back holding its body bytes |
| LaptopSide.LaptopTurnsPenUpIntoPenDown | network/laptop.py:52-55 | a pen-up frame reads back as a message that encodes again as pen down |
| LaptopSide.LaptopDispatchFixed | network/laptop.py:52-55 | a one-byte pen body is decoded exactly as the robot decodes it (network/robot.py:46-48), so the pen flag is always a bool; every other frame is dispatched as before |
| LaptopSide.LaptopReadFixed | network/laptop.py:34-63 | the fixed read consumes exactly what the original does, is starved in the same cases, and differs from it only in pen messages, whose flag is a bool |
| LaptopSide.LaptopFixedShortHeader | network/laptop.py:36-41 | the fixed read keeps the short-header error: struct.error, with all bytes consumed |
| LaptopSide.LaptopFixedRoundTrip | network/laptop.py:34-63 | with that change, encoding then reading is the identity for every message kind, pen up included |
| LaptopSide.Laptop.SendCurrentPos | network/laptop.py:22-24 | sends exactly the CurrentPos frame |
| LaptopSide.Laptop.SendGotoPos | network/laptop.py:26-28 | sends exactly the GotoPos frame |
| LaptopSide.Laptop.SendPenUpdown | network/laptop.py:30-32 | sends exactly the PenUpdown frame of the flag |
| LaptopSide.Laptop.WaitForBot | network/laptop.py:34-63 | the method's result and cursor advance are those of LaptopRead on the unread bytes |
| Kinematics.RoundHalfEven | robot/kinematics.py:63-66 | Python's round: within one half of its argument, and ties go to the even integer |
| Kinematics.RoundMonotone | robot/kinematics.py:63-66 | rounding never reverses order |
| Kinematics.ScaledRoundMonotone | robot/kinematics.py:63-66 | scaling by a positive steps-per-mm factor and then rounding keeps the order of lengths |
| Kinematics.Board.AnchorLengths | robot/kinematics.py:22-23 | the anchors are at (0,0) and (W,0): at the top-left corner the lengths are (0, W), and at the top-right corner (W, 0) |
| Kinematics.Board.WireLengths | robot/kinematics.py:25-49 | both lengths are non-negative, with tl² = x² + y² and tr² = (x − W)² + y² |
| Kinematics.Board.MirrorSymmetry | robot/kinematics.py:41-44 | the lengths at (W − x, y) are those at (x, y) with tl and tr swapped |
| Kinematics.Board.StepsMonotone | robot/kinematics.py:51-66 | step counts are within one half of length × steps_per_mm, and longer wires never get fewer steps |
| Kinematics.Board.StepsFromLengths | robot/kinematics.py:51-66 | each count is within half a step of length × steps_per_mm, and a non-negative length never gives a negative count |
| Kinematics.Board.StepsAt | robot/kinematics.py:68-80 | both counts are non-negative, each within half a step of the distance to its anchor × steps_per_mm |
| Kinematics.Board.DeltaSteps | robot/kinematics.py:82-101 | each delta is within one step of the exact change in wire length × steps_per_mm, and it takes the target's count to the current one |
| Kinematics.Board.DeltaAntisymmetric | robot/kinematics.py:93-101 | delta(p, p) = 0 and delta(b, a) = −delta(a, b) |
| Kinematics.Board.DeltaTelescopes | robot/kinematics.py:93-101 | delta(a, b) + delta(b, c) = delta(a, c) for each motor |
| Kinematics.Board.DeltaSign | robot/kinematics.py:96-101 | a wire that must get longer (or stay) has delta ≤ 0 (let out); one that must get shorter has delta ≥ 0 (reel in) |
| Kinematics.Board.CornersAndCentreInBounds | robot/kinematics.py:103-114 | the bounds are closed: the four corners and the centre pass validate_position |
| Kinematics.Board.OnBoardWiresAtMostDiagonal | robot/kinematics.py:103-114 | every position that passes validate_position needs wires no longer than the board's diagonal |
| Motion.MaxSteps | robot/motion_controller.py:113 | max_steps bounds both abs(delta) and equals one of them |
| Motion.MotorSpeed | robot/motion_controller.py:122-128 | a motor's speed never has the opposite sign of the requested speed |
| Motion.MotorSpeedTruncates | robot/motion_controller.py:122-128 | a motor's speed is the largest whole number not above abs(d) / max_steps × speed |
| Motion.MotorSpeedBounds | robot/motion_controller.py:122-128 | a zero delta gets 0; every speed is between 0 and speed; the largest delta gets all of speed; a nonzero delta gets 0 iff abs(d) × speed < max_steps |
| Motion.NegativeSpeedNeverSteps | robot/motion_controller.py:122-128 | with a negative speed no motor gets a positive speed |
| Motion.Pass | robot/motion_controller.py:145-154 | in one round a motor makes at most one step; it makes one exactly when it has steps left and a positive speed |
| Motion.Run | robot/motion_controller.py:144-155 | after n rounds a motor has at most the steps it started with and at least that many minus n |
| Motion.RunClosedForm | robot/motion_controller.py:144-155 | after n rounds, a motor with a positive speed has max(remaining − n, 0) steps left, and one without any has all of them left |
| Motion.LoopTermination | robot/motion_controller.py:144-155 | when neither motor is stuck, both counts reach 0 exactly from round max_steps on; a stuck motor's count never decreases, so the loop never ends |
| Motion.SmallDeltaStalls | robot/motion_controller.py:128 | deltas (1, 2001) at speed 2000 give the first motor speed 0, and its count stays 1 for ever |
| Motion.FixedMotorSpeed | robot/motion_controller.py:128 | the speed with a floor of 1: a zero delta still gets 0, a nonzero delta at least 1, and any positive truncated speed is kept |
| Motion.FixedSpeedsFinish | robot/motion_controller.py:144-155 | with the floored speeds no motor is stuck, and the loop ends after max_steps rounds |
| Motion.LastInBoundsIsLastValid | robot/motion_controller.py:187-190 | the end of a path is the last waypoint on the board, or the start when there is none |
| Motion.LerpBetween | robot/motion_controller.py:173-175 | interpolation starts at x1, ends at x2 and stays between them |
| Motion.LinePoints | robot/motion_controller.py:172-175 | draw_line visits steps + 1 points |
| Motion.LineStaysOnBoard | robot/motion_controller.py:160-176 | a line starts at (x1, y1) and ends at (x2, y2); when both ends are on the board every point is too, so the marker ends at (x2, y2) |
| Motion.StepperMotor.Enable | robot/motion_controller.py:56-59 | the motor is enabled |
| Motion.StepperMotor.Disable | robot/motion_controller.py:61-64 | the motor is disabled |
| Motion.StepperMotor.SetDirection | robot/motion_controller.py:131-133 | the direction is set as given; the controller passes delta > 0 |
| Motion.StepperMotor.StepOnce | robot/motion_controller.py:153 | one more pulse has been sent |
| Motion.MotionController.constructor | robot/motion_controller.py:16-48 | the controller starts at the centre of the board with two distinct fresh motors at position 0 |
| Motion.MotionController.EnableAllMotors | robot/motion_controller.py:56-59 | both motors are enabled |
| Motion.MotionController.DisableAllMotors | robot/motion_controller.py:61-64 | both motors are disabled |
| Motion.MotionController.Cleanup | robot/motion_controller.py:202-208 | both motors end disabled |
| Motion.MotionController.ExecuteCoordinatedMove | robot/motion_controller.py:101-158 | no steps changes nothing; otherwise the motors are enabled and pointed by the sign of their deltas. Then either a zero speed divides by zero, or the loop stalls exactly when a nonzero delta gets no positive speed, or each position changes by exactly its delta, with abs(delta) pulses in max_steps rounds |
| Motion.MotionController.StepMotors | robot/motion_controller.py:139-158 | the loop runs until no motor can step; each count left is Run of the rounds taken, and each position has moved by one per step in the delta's direction |
| Motion.MotionController.MoveTo | robot/motion_controller.py:66-99 | off-board targets are refused and change nothing; otherwise the move runs at the given or default speed, and on completion the position is exactly the target and each motor moved by its kinematic delta. The motor positions plus the steps of the current position stay constant |
| Motion.MotionController.Home | robot/motion_controller.py:192-200 | a move to the centre at the default speed: refused only when the centre is off the board (never for a board of non-negative size); it stalls exactly when that move stalls; otherwise the marker ends at the centre |
| Motion.MotionController.ExecutePath | robot/motion_controller.py:178-190 | off-board waypoints are skipped; it stops at the first on-board waypoint whose move from where the path got to stalls, and finishes only when no such move stalls; otherwise the marker ends at the last waypoint on the board, and the motor positions still match the kinematics |
| Motion.MotionController.DrawLine | robot/motion_controller.py:160-176 | steps = 0 divides by zero and moves nothing; a negative count visits nothing; otherwise it stops at the first on-board point of the line whose move stalls, finishes only when no such move stalls, and then the marker ends where execute_path over LinePoints would |

## Left out

- Socket setup (`Robot.__init__`, `Laptop.__init__`: bind, listen, accept, connect) is not modelled. The classes are built on an already connected `Socket`.
- Short reads and blocking are not modelled: `recv(n)` returns the next min(n, remaining) bytes of a fixed byte sequence.
- When the stream ends before a MAGIC byte, `recv(1)` returns empty bytes for ever and the resync loop spins. The model stops and reports `Starved`.
- Floating point is not modelled. Coordinates on the wire are 64-bit patterns (`Bits64`), and struct "dd" is treated as an 8-byte image with a proved inverse.
- Kinematics and interpolation use exact reals, so binary64 rounding of products, quotients and `sqrt` is not captured.
- Motion.MotorSpeed: the speed `int(abs(steps) / max_steps * speed)` is computed on exact rationals, not in binary64. In binary64 `1 / 49 * 49` is just below 1, so deltas (1, 49) at speed 49 stall in the source while the model gives speed 1 and `MoveTo` reports `Moved`; and deltas (201, 400) at speed 2000 give 1004 in binary64 but 1005 here. `MotorSpeedBounds`' "0 iff abs(d) × speed < max_steps", and the stall conditions of `ExecuteCoordinatedMove` and `MoveTo`, hold for exact arithmetic only.
- `math.sqrt` is a parameter of the board, assumed to be the non-negative square root.
- `Config.steps_per_mm` (which uses π) is a positive real parameter of the board. The board's width and height are real parameters too, not required to be positive; `AnchorLengths` and `Home` take a non-negative size as a hypothesis.
- Motion.MaxSpeed: the configured `MAX_SPEED` is fixed at its configured value, 2000 steps per second, instead of being a parameter like the other configuration values; `config.py` is not part of this model.
- Native byte order for struct "I" and "d" is fixed as little-endian.
- The package MAGIC (`network/__init__`) is not part of this model. Encoders and the laptop reader take it as a parameter; the robot reader uses its own '%'. MAGIC is taken to be one byte, so a header is 6 bytes; a longer MAGIC would change both resync loops, which compare and skip one byte at a time.
- `pretty_print` and all logging are not modelled. `PenUpdownMessage.pretty_print` would raise NameError for pen up (network/message.py:68).
- `threading.Lock` in `move_to` is not modelled; the model is single-threaded.
- GPIO setup and cleanup, `time.sleep` and the pulse delays are not modelled. `base_delay` matters only for its division by zero, which is modelled.
- `stepper_motor.py` is not part of this model. A motor is the position, enabled flag, direction and pulse count the controller uses. Its initial state (position 0, disabled, forward) is assumed.
- Speeds are integers. A fractional `speed` argument to `move_to` is not modelled.
- `draw_line`'s default of 50 steps is not modelled: the count is always passed explicitly.
- Motion.MotionController.ExecuteCoordinatedMove: when it returns `Stalled`, the source never returns. The model states that the stall happens, not the partial motor state at that point; `LoopTermination` shows that the loop spins from there.
- RobotSide.Robot.SendError: takes the error text as a string of Unicode scalar values, so every text encodes. The source raises UnicodeEncodeError for a string holding a lone surrogate, and AttributeError for a `bytes` argument, which its annotation declares; neither error is modelled.
- Motion.MotionController.MoveTo: a zero division or a stall states only that the current position is unchanged, not where the motors are.
- Entry points and test harnesses are not modelled: robot/main.py, `test_robot`, `laptop_tester`, and the motor test scripts.
- vector_to_path.py, laptop/transmitter.py and the openCV scripts are outside the modelled core.

## Findings

| source | as written | input that shows it | evidently intended | confidence | as-written member | corrected member |
|---|---|---|---|---|---|---|
| network/laptop.py:55 | `PenUpdownMessage(body)` stores the one-byte body, which is truthy for b'u' as well as b'd' | a pen-up frame (tag P, body "u") read by `wait_for_bot` and encoded again | `PenUpdownMessage(body == b'd')`, as network/robot.py:48 does | high, not executed | LaptopSide.LaptopTurnsPenUpIntoPenDown | LaptopSide.LaptopFixedRoundTrip |
| robot/motion_controller.py:128 | `int(abs(steps) / max_steps * speed)` truncates to 0 for a nonzero delta, and the loop at lines 144-151 then skips that motor for ever | deltas (1, 2001) at the default speed 2000 | every motor with steps to make gets a speed of at least 1 | medium, not executed | Motion.SmallDeltaStalls | Motion.FixedSpeedsFinish |
