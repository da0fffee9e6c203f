/**
 * The robot's motion controller: two stepper motors reel the wires in and
 * out, and the controller keeps the marker's Cartesian position. Pulse
 * timing, sleeping, GPIO and the lock are not modelled; every pulse is one
 * counted call of `StepOnce`.
 */
module Motion {
  import opened Wrappers
  import opened Kinematics

  /** The default speed, in steps per second, used when a move gives none. */
  const MaxSpeed: int := 2000

  function Abs(n: int): nat { if n < 0 then -n else n }

  function Max(a: nat, b: nat): nat { if a < b then b else a }

  /** How a motor's recorded position moves per pulse: +1 for a positive delta, -1 otherwise. */
  function Unit(d: int): int { if d > 0 then 1 else -1 }

  /** How far the recorded position has moved after `taken` pulses for delta `d`. */
  function Travel(d: int, taken: int): int { if d > 0 then taken else -taken }

  /** The largest number of steps either motor has to make. */
  function MaxSteps(delta: Steps): (m: nat)
    ensures Abs(delta.tl) <= m && Abs(delta.tr) <= m
    ensures m == Abs(delta.tl) || m == Abs(delta.tr)
  {
    Max(Abs(delta.tl), Abs(delta.tr))
  }

  /*
   * Speeds
   */

  /**
   * The speed given to one motor: zero for a zero delta, otherwise the exact
   * value of `|d| / maxSteps * speed` truncated toward zero.
   */
  function MotorSpeed(d: int, maxSteps: nat, speed: int): (s: int)
    requires maxSteps > 0
    ensures speed >= 0 ==> s >= 0
    ensures speed <= 0 ==> s <= 0
  {
    if d == 0 then 0 else TruncatedQuotient(Abs(d) * speed, maxSteps)
  }

  /** `int(n / m)`: the exact quotient truncated toward zero. */
  function TruncatedQuotient(n: int, m: nat): int
    requires m > 0
  {
    if n >= 0 then n / m else -(-n / m)
  }

  lemma DivBounds(n: nat, m: nat)
    requires m > 0
    ensures (n / m) * m <= n < (n / m + 1) * m
  {
  }

  lemma MulMonotone(a: nat, b: nat, c: nat)
    requires a <= b
    ensures a * c <= b * c
  {
  }

  /**
   * The speed of a motor with a nonzero delta is the largest whole number of
   * steps per second not above its share `|d| / maxSteps` of `speed`.
   */
  lemma MotorSpeedTruncates(d: int, maxSteps: nat, speed: int)
    requires maxSteps > 0 && d != 0 && speed >= 0
    ensures MotorSpeed(d, maxSteps, speed) * maxSteps <= Abs(d) * speed < (MotorSpeed(d, maxSteps, speed) + 1) * maxSteps
  {
    var n := Abs(d) * speed;
    MulMonotone(0, Abs(d), speed);
    assert MotorSpeed(d, maxSteps, speed) == n / maxSteps;
    DivBounds(n, maxSteps);
  }

  /**
   * No motor is faster than `speed`, the motor with the largest delta gets
   * all of it, a zero delta gets 0, and a motor with a nonzero delta gets 0
   * exactly when `|d| * speed < maxSteps`.
   */
  lemma MotorSpeedBounds(d: int, maxSteps: nat, speed: int)
    requires maxSteps > 0 && Abs(d) <= maxSteps && speed >= 0
    ensures d == 0 ==> MotorSpeed(d, maxSteps, speed) == 0
    ensures 0 <= MotorSpeed(d, maxSteps, speed) <= speed
    ensures Abs(d) == maxSteps ==> MotorSpeed(d, maxSteps, speed) == speed
    ensures d != 0 ==> (MotorSpeed(d, maxSteps, speed) == 0 <==> Abs(d) * speed < maxSteps)
  {
    if d != 0 {
      var n := Abs(d) * speed;
      MulMonotone(0, Abs(d), speed);
      var s := n / maxSteps;
      assert MotorSpeed(d, maxSteps, speed) == s;
      MulMonotone(Abs(d), maxSteps, speed);
      QuotientAtMost(n, maxSteps, speed);
      if Abs(d) == maxSteps {
        QuotientExact(maxSteps, speed);
      }
      DivBounds(n, maxSteps);
      if s > 0 {
        MulMonotone(1, s, maxSteps);
      }
    }
  }

  /** A quotient is at most `k` when the dividend is at most `m * k`. */
  lemma QuotientAtMost(n: nat, m: nat, k: nat)
    requires m > 0 && n <= m * k
    ensures n / m <= k
  {
    DivBounds(n, m);
    if n / m > k {
      MulMonotone(k + 1, n / m, m);
    }
  }

  lemma QuotientExact(m: nat, k: nat)
    requires m > 0
    ensures (m * k) / m == k
  {
    DivBounds(m * k, m);
    var q := (m * k) / m;
    if q < k {
      MulMonotone(q + 1, k, m);
    }
  }

  /** With a negative speed no motor gets a positive speed. */
  lemma NegativeSpeedNeverSteps(d: int, maxSteps: nat, speed: int)
    requires maxSteps > 0 && speed < 0
    ensures MotorSpeed(d, maxSteps, speed) <= 0
  {
  }

  /** A motor that has steps to make but no positive speed: the stepping loop skips it forever. */
  predicate Stuck(d: int, motorSpeed: int) {
    d != 0 && motorSpeed <= 0
  }

  /**
   * Whether the stepping loop of a move with these deltas and this speed
   * would spin forever: it runs (some delta is nonzero and the base delay
   * is defined) and some motor gets no positive speed.
   */
  predicate Stalls(delta: Steps, speed: int) {
    var m := MaxSteps(delta);
    m > 0 && speed != 0 &&
    (Stuck(delta.tl, MotorSpeed(delta.tl, m, speed)) || Stuck(delta.tr, MotorSpeed(delta.tr, m, speed)))
  }

  /*
   * The stepping loop, one motor at a time
   */

  /** One round of the stepping loop for one motor: it steps when it has steps left and a positive speed. */
  function Pass(remaining: nat, motorSpeed: int): (r: nat)
    ensures r <= remaining <= r + 1
    ensures motorSpeed <= 0 ==> r == remaining
    ensures remaining > 0 && motorSpeed > 0 ==> r < remaining
  {
    if remaining > 0 && motorSpeed > 0 then remaining - 1 else remaining
  }

  /**
   * The steps a motor has left after `n` rounds of the loop: never more than
   * it started with, and at most one fewer per round.
   */
  function Run(remaining: nat, motorSpeed: int, n: nat): (r: nat)
    ensures r <= remaining <= r + n
  {
    if n == 0 then remaining else Pass(Run(remaining, motorSpeed, n - 1), motorSpeed)
  }

  /**
   * A motor with a positive speed loses one step per round until it has
   * none; a motor without one never moves.
   */
  lemma {:induction false} RunClosedForm(remaining: nat, motorSpeed: int, n: nat)
    ensures motorSpeed > 0 ==> Run(remaining, motorSpeed, n) == if n >= remaining then 0 else remaining - n
    ensures motorSpeed <= 0 ==> Run(remaining, motorSpeed, n) == remaining
  {
    if n > 0 {
      RunClosedForm(remaining, motorSpeed, n - 1);
    }
  }

  /**
   * When both motors can move, the loop `while remaining > 0` stops after
   * exactly `MaxSteps(delta)` rounds; when one of them is stuck, its count
   * stays positive and the loop never stops.
   */
  lemma LoopTermination(delta: Steps, sTl: int, sTr: int, n: nat)
    ensures !Stuck(delta.tl, sTl) && !Stuck(delta.tr, sTr) ==>
      ((Run(Abs(delta.tl), sTl, n) == 0 && Run(Abs(delta.tr), sTr, n) == 0) <==> n >= MaxSteps(delta))
    ensures Stuck(delta.tl, sTl) ==> Run(Abs(delta.tl), sTl, n) == Abs(delta.tl) > 0
    ensures Stuck(delta.tr, sTr) ==> Run(Abs(delta.tr), sTr, n) == Abs(delta.tr) > 0
  {
    RunClosedForm(Abs(delta.tl), sTl, n);
    RunClosedForm(Abs(delta.tr), sTr, n);
  }

  /**
   * The speed as the truncation was evidently meant to work: a motor with a
   * nonzero delta never gets less than one step per second.
   */
  function FixedMotorSpeed(d: int, maxSteps: nat, speed: int): (s: int)
    requires maxSteps > 0
    ensures d == 0 ==> s == 0
    ensures MotorSpeed(d, maxSteps, speed) >= 1 ==> s == MotorSpeed(d, maxSteps, speed)
    ensures d != 0 ==> s >= 1
  {
    var s := MotorSpeed(d, maxSteps, speed);
    if d != 0 && s < 1 then 1 else s
  }

  /** With the fixed speeds no motor is ever stuck, and the loop always ends after `MaxSteps` rounds. */
  lemma FixedSpeedsFinish(delta: Steps, speed: int)
    requires MaxSteps(delta) > 0
    ensures var m := MaxSteps(delta);
      var sTl, sTr := FixedMotorSpeed(delta.tl, m, speed), FixedMotorSpeed(delta.tr, m, speed);
      !Stuck(delta.tl, sTl) && !Stuck(delta.tr, sTr) &&
      Run(Abs(delta.tl), sTl, m) == 0 && Run(Abs(delta.tr), sTr, m) == 0
  {
    var m := MaxSteps(delta);
    LoopTermination(delta, FixedMotorSpeed(delta.tl, m, speed), FixedMotorSpeed(delta.tr, m, speed), m);
  }

  /**
   * As written, one step on one wire and 2001 on the other at the default
   * speed truncates the first motor's speed to 0: that motor is stuck and
   * the move never ends.
   */
  lemma SmallDeltaStalls()
    ensures MotorSpeed(1, 2001, MaxSpeed) == 0
    ensures Stalls(Steps(1, 2001), MaxSpeed)
    ensures forall n: nat :: Run(1, MotorSpeed(1, 2001, MaxSpeed), n) == 1
  {
    forall n: nat
      ensures Run(1, MotorSpeed(1, 2001, MaxSpeed), n) == 1
    {
      RunClosedForm(1, 0, n);
    }
  }

  /*
   * Paths and lines
   */

  /** The waypoint the marker ends at after visiting `ps` from `start`: the last one on the board. */
  function LastInBounds(b: Board, start: Point, ps: seq<Point>): Point {
    if ps == [] then start
    else if b.InBounds(ps[|ps| - 1].x, ps[|ps| - 1].y) then ps[|ps| - 1]
    else LastInBounds(b, start, ps[..|ps| - 1])
  }

  /**
   * The end of a path is `start` when no waypoint is on the board, and
   * otherwise the waypoint on the board that no later one on the board follows.
   */
  lemma {:induction false} LastInBoundsIsLastValid(b: Board, start: Point, ps: seq<Point>)
    ensures var p := LastInBounds(b, start, ps);
      (p == start && forall k :: 0 <= k < |ps| ==> !b.InBounds(ps[k].x, ps[k].y)) ||
      (exists j :: 0 <= j < |ps| && p == ps[j] && b.InBounds(p.x, p.y) &&
         forall k :: j < k < |ps| ==> !b.InBounds(ps[k].x, ps[k].y))
  {
    if ps != [] {
      var n := |ps| - 1;
      if !b.InBounds(ps[n].x, ps[n].y) {
        LastInBoundsIsLastValid(b, start, ps[..n]);
        var p := LastInBounds(b, start, ps[..n]);
        if p == start && forall k :: 0 <= k < n ==> !b.InBounds(ps[..n][k].x, ps[..n][k].y) {
          assert forall k :: 0 <= k < |ps| ==> !b.InBounds(ps[k].x, ps[k].y) by {
            forall k | 0 <= k < |ps|
              ensures !b.InBounds(ps[k].x, ps[k].y)
            {
              if k < n { assert ps[k] == ps[..n][k]; }
            }
          }
        } else {
          var j :| 0 <= j < n && p == ps[..n][j] && b.InBounds(p.x, p.y) &&
            forall k :: j < k < n ==> !b.InBounds(ps[..n][k].x, ps[..n][k].y);
          assert p == ps[j];
          assert forall k :: j < k < |ps| ==> !b.InBounds(ps[k].x, ps[k].y) by {
            forall k | j < k < |ps|
              ensures !b.InBounds(ps[k].x, ps[k].y)
            {
              if k < n { assert ps[k] == ps[..n][k]; }
            }
          }
        }
      }
    }
  }

  /**
   * Of the first `n` waypoints of `ps`, visited from `start`, none that is on
   * the board is reached by a move that stalls at the default speed; each
   * move starts where the path had got to.
   */
  ghost predicate MovesDoNotStall(b: Board, start: Point, ps: seq<Point>, n: nat)
    requires b.Valid() && n <= |ps|
  {
    forall j :: 0 <= j < n && b.InBounds(ps[j].x, ps[j].y) ==>
      var from := LastInBounds(b, start, ps[..j]);
      !Stalls(b.DeltaSteps(from.x, from.y, ps[j].x, ps[j].y), MaxSpeed)
  }

  /** A path stays stall-free for one more waypoint when that waypoint's move does not stall. */
  lemma MovesDoNotStallStep(b: Board, start: Point, ps: seq<Point>, n: nat)
    requires b.Valid() && n < |ps| && MovesDoNotStall(b, start, ps, n)
    requires b.InBounds(ps[n].x, ps[n].y) ==>
      var from := LastInBounds(b, start, ps[..n]);
      !Stalls(b.DeltaSteps(from.x, from.y, ps[n].x, ps[n].y), MaxSpeed)
    ensures MovesDoNotStall(b, start, ps, n + 1)
  {
  }

  /** `a + t * (b - a)`: the point a fraction `t` of the way from `a` to `b`. */
  function Lerp(a: real, b: real, t: real): real { a + t * (b - a) }

  /** `i / n` as a real. */
  function Fraction(i: int, n: int): real
    requires n != 0
  {
    i as real / n as real
  }

  lemma ProductNonNegative(a: real, b: real)
    requires a >= 0.0 && b >= 0.0
    ensures a * b >= 0.0
  {
  }

  /** Interpolation starts at `a`, ends at `b`, and stays between them. */
  lemma LerpBetween(a: real, b: real, t: real)
    requires 0.0 <= t <= 1.0
    ensures Lerp(a, b, 0.0) == a && Lerp(a, b, 1.0) == b
    ensures a <= b ==> a <= Lerp(a, b, t) <= b
    ensures b <= a ==> b <= Lerp(a, b, t) <= a
  {
    if a <= b {
      ProductNonNegative(t, b - a);
      ProductNonNegative(1.0 - t, b - a);
      assert (1.0 - t) * (b - a) == (b - a) - t * (b - a);
    } else {
      ProductNonNegative(t, a - b);
      ProductNonNegative(1.0 - t, a - b);
      assert (1.0 - t) * (a - b) == (a - b) - t * (a - b);
      assert t * (b - a) == -(t * (a - b));
    }
  }

  lemma FractionInUnit(i: int, n: int)
    requires 0 <= i <= n && n > 0
    ensures 0.0 <= Fraction(i, n) <= 1.0
    ensures i == 0 ==> Fraction(i, n) == 0.0
    ensures i == n ==> Fraction(i, n) == 1.0
  {
  }

  /** The `i`-th of the `n + 1` points `draw_line` visits. */
  function LinePoint(x1: real, y1: real, x2: real, y2: real, n: int, i: int): Point
    requires n != 0
  {
    Point(Lerp(x1, x2, Fraction(i, n)), Lerp(y1, y2, Fraction(i, n)))
  }

  /** The points `draw_line` visits, for `i` in `range(n + 1)`. */
  function LinePoints(x1: real, y1: real, x2: real, y2: real, n: int): (ps: seq<Point>)
    requires n > 0
    ensures |ps| == n + 1
  {
    seq(n + 1, i requires 0 <= i <= n => LinePoint(x1, y1, x2, y2, n, i))
  }

  /**
   * A line starts and ends at its end points, and when both are on the
   * board every point in between is too, so the marker ends at `(x2, y2)`.
   */
  lemma LineStaysOnBoard(b: Board, start: Point, x1: real, y1: real, x2: real, y2: real, n: int)
    requires n > 0
    ensures LinePoints(x1, y1, x2, y2, n)[0] == Point(x1, y1)
    ensures LinePoints(x1, y1, x2, y2, n)[n] == Point(x2, y2)
    ensures b.InBounds(x1, y1) && b.InBounds(x2, y2) ==>
      forall i :: 0 <= i <= n ==> b.InBounds(LinePoints(x1, y1, x2, y2, n)[i].x, LinePoints(x1, y1, x2, y2, n)[i].y)
    ensures b.InBounds(x2, y2) ==> LastInBounds(b, start, LinePoints(x1, y1, x2, y2, n)) == Point(x2, y2)
  {
    var ps := LinePoints(x1, y1, x2, y2, n);
    FractionInUnit(0, n);
    FractionInUnit(n, n);
    LerpBetween(x1, x2, 0.0);
    LerpBetween(y1, y2, 0.0);
    assert ps[0] == LinePoint(x1, y1, x2, y2, n, 0);
    assert ps[n] == LinePoint(x1, y1, x2, y2, n, n);
    if b.InBounds(x1, y1) && b.InBounds(x2, y2) {
      forall i | 0 <= i <= n
        ensures b.InBounds(ps[i].x, ps[i].y)
      {
        FractionInUnit(i, n);
        LerpBetween(x1, x2, Fraction(i, n));
        LerpBetween(y1, y2, Fraction(i, n));
        assert ps[i] == LinePoint(x1, y1, x2, y2, n, i);
      }
    }
  }

  /*
   * The hardware
   */

  /** A stepper motor as the controller sees it. */
  class StepperMotor {
    /** The step count the controller keeps for this motor. */
    var position: int
    var enabled: bool
    /** The direction pin: forward reels the wire in. */
    var forward: bool
    /** The number of step pulses sent so far. */
    var pulses: nat

    constructor ()
      ensures position == 0 && !enabled && forward && pulses == 0
    {
      position := 0;
      enabled := false;
      forward := true;
      pulses := 0;
    }

    method Enable()
      modifies this`enabled
      ensures enabled
    {
      enabled := true;
    }

    method Disable()
      modifies this`enabled
      ensures !enabled
    {
      enabled := false;
    }

    method SetDirection(fwd: bool)
      modifies this`forward
      ensures forward == fwd
    {
      forward := fwd;
    }

    /** One step pulse; the controller updates `position` itself. */
    method StepOnce()
      modifies this`pulses
      ensures pulses == old(pulses) + 1
    {
      pulses := pulses + 1;
    }
  }

  /** How a move ends: refused, done, spinning forever, or a division by a zero speed. */
  datatype MoveResult = OutOfBounds | Moved | Stalled | ZeroDivision

  /** How a path ends: every waypoint visited, stuck at waypoint `index`, or a line of zero steps. */
  datatype PathResult = PathDone | PathStalled(index: nat) | PathZeroDivision

  class MotionController {
    const kin: Board
    const tl: StepperMotor
    const tr: StepperMotor
    var currentX: real
    var currentY: real

    ghost predicate Valid() {
      tl != tr && kin.Valid()
    }

    /**
     * What the motors' recorded positions add up to with the steps of the
     * current position: completed moves keep it fixed, so the recorded
     * positions always follow the wire lengths.
     */
    ghost function Offset(): Steps
      requires Valid()
      reads this, tl, tr
    {
      var here := kin.StepsAt(currentX, currentY);
      Steps(tl.position + here.tl, tr.position + here.tr)
    }

    /** The controller starts at the centre of the board with two fresh, disabled motors. */
    constructor (board: Board)
      requires board.Valid()
      ensures Valid() && kin == board
      ensures currentX == board.width / 2.0 && currentY == board.height / 2.0
      ensures fresh(tl) && fresh(tr)
      ensures tl.position == 0 && tr.position == 0 && !tl.enabled && !tr.enabled
    {
      kin := board;
      tl := new StepperMotor();
      tr := new StepperMotor();
      currentX := board.width / 2.0;
      currentY := board.height / 2.0;
    }

    method EnableAllMotors()
      requires Valid()
      modifies tl`enabled, tr`enabled
      ensures tl.enabled && tr.enabled
    {
      tl.Enable();
      tr.Enable();
    }

    method DisableAllMotors()
      requires Valid()
      modifies tl`enabled, tr`enabled
      ensures !tl.enabled && !tr.enabled
    {
      tl.Disable();
      tr.Disable();
    }

    /** Shutting down leaves both motors disabled; the GPIO release is not modelled. */
    method Cleanup()
      requires Valid()
      modifies tl`enabled, tr`enabled
      ensures !tl.enabled && !tr.enabled
    {
      DisableAllMotors();
    }

    /**
     * Drive both motors through their deltas, one step per motor per round
     * until each motor's count is 0.
     * A move with no steps does nothing; otherwise the motors are enabled
     * and pointed, and then either the speed is zero (the base delay divides
     * by it), or some motor is stuck and the loop spins, or both motors
     * step exactly their deltas in `MaxSteps(delta)` rounds.
     */
    method ExecuteCoordinatedMove(delta: Steps, speed: int) returns (r: MoveResult, rounds: nat)
      requires Valid()
      modifies tl, tr
      ensures r != OutOfBounds
      ensures MaxSteps(delta) == 0 ==> r == Moved && rounds == 0 && unchanged(tl, tr)
      ensures MaxSteps(delta) > 0 ==> tl.enabled && tr.enabled
      ensures MaxSteps(delta) > 0 ==> tl.forward == (if delta.tl != 0 then delta.tl > 0 else old(tl.forward))
      ensures MaxSteps(delta) > 0 ==> tr.forward == (if delta.tr != 0 then delta.tr > 0 else old(tr.forward))
      ensures r == ZeroDivision <==> MaxSteps(delta) > 0 && speed == 0
      ensures r == ZeroDivision ==> tl.position == old(tl.position) && tr.position == old(tr.position)
      ensures r == Stalled <==> Stalls(delta, speed)
      ensures r == Moved ==> tl.position == old(tl.position) + delta.tl && tr.position == old(tr.position) + delta.tr
      ensures r == Moved ==> tl.pulses == old(tl.pulses) + Abs(delta.tl) && tr.pulses == old(tr.pulses) + Abs(delta.tr)
      ensures r == Moved ==> rounds == MaxSteps(delta)
    {
      var m := MaxSteps(delta);
      rounds := 0;
      if m == 0 {
        return Moved, 0;
      }
      EnableAllMotors();
      var sTl := MotorSpeed(delta.tl, m, speed);
      var sTr := MotorSpeed(delta.tr, m, speed);
      if delta.tl != 0 { tl.SetDirection(delta.tl > 0); }
      if delta.tr != 0 { tr.SetDirection(delta.tr > 0); }
      if speed == 0 {
        return ZeroDivision, 0;
      }
      var remTl, remTr;
      remTl, remTr, rounds := StepMotors(delta, sTl, sTr);
      LoopTermination(delta, sTl, sTr, rounds);
      RunClosedForm(Abs(delta.tl), sTl, rounds);
      RunClosedForm(Abs(delta.tr), sTr, rounds);
      assert remTl > 0 <==> Stuck(delta.tl, sTl);
      assert remTr > 0 <==> Stuck(delta.tr, sTr);
      assert Stalls(delta, speed) <==> Stuck(delta.tl, sTl) || Stuck(delta.tr, sTr);
      if remTl > 0 || remTr > 0 {
        return Stalled, rounds;
      }
      r := Moved;
    }

    /**
     * The stepping loop: each round, every motor that has steps left and a
     * positive speed makes one step and records it, until no motor can
     * step. What is left of each motor after `rounds` rounds is `Run`.
     */
    method StepMotors(delta: Steps, sTl: int, sTr: int) returns (remTl: nat, remTr: nat, rounds: nat)
      requires Valid()
      modifies tl`position, tl`pulses, tr`position, tr`pulses
      ensures remTl == Run(Abs(delta.tl), sTl, rounds) && remTr == Run(Abs(delta.tr), sTr, rounds)
      ensures !(remTl > 0 && sTl > 0) && !(remTr > 0 && sTr > 0)
      ensures rounds <= MaxSteps(delta)
      ensures tl.position == old(tl.position) + Travel(delta.tl, Abs(delta.tl) - remTl)
      ensures tr.position == old(tr.position) + Travel(delta.tr, Abs(delta.tr) - remTr)
      ensures tl.pulses == old(tl.pulses) + (Abs(delta.tl) - remTl)
      ensures tr.pulses == old(tr.pulses) + (Abs(delta.tr) - remTr)
    {
      remTl, remTr, rounds := Abs(delta.tl), Abs(delta.tr), 0;
      while (remTl > 0 && sTl > 0) || (remTr > 0 && sTr > 0)
        invariant remTl == Run(Abs(delta.tl), sTl, rounds) && remTr == Run(Abs(delta.tr), sTr, rounds)
        invariant remTl <= Abs(delta.tl) && remTr <= Abs(delta.tr)
        invariant rounds <= MaxSteps(delta)
        invariant tl.position == old(tl.position) + Travel(delta.tl, Abs(delta.tl) - remTl)
        invariant tr.position == old(tr.position) + Travel(delta.tr, Abs(delta.tr) - remTr)
        invariant tl.pulses == old(tl.pulses) + (Abs(delta.tl) - remTl)
        invariant tr.pulses == old(tr.pulses) + (Abs(delta.tr) - remTr)
        decreases remTl + remTr
      {
        RunClosedForm(Abs(delta.tl), sTl, rounds);
        RunClosedForm(Abs(delta.tr), sTr, rounds);
        if remTl > 0 && sTl > 0 {
          tl.StepOnce();
          remTl := remTl - 1;
          tl.position := tl.position + Unit(delta.tl);
        }
        if remTr > 0 && sTr > 0 {
          tr.StepOnce();
          remTr := remTr - 1;
          tr.position := tr.position + Unit(delta.tr);
        }
        rounds := rounds + 1;
      }
    }

    /**
     * `move_to`: refuse a target off the board and change nothing; otherwise
     * run the move at `speed` (the default when none is given), and record
     * the target as the new position once the move completes.
     */
    method MoveTo(x: real, y: real, speed: Option<int>) returns (r: MoveResult)
      requires Valid()
      modifies this, tl, tr
      ensures r == OutOfBounds <==> !kin.InBounds(x, y)
      ensures r == OutOfBounds ==> unchanged(this, tl, tr)
      ensures r == Moved ==> currentX == x && currentY == y
      ensures r != Moved ==> currentX == old(currentX) && currentY == old(currentY)
      ensures var delta := kin.DeltaSteps(old(currentX), old(currentY), x, y);
        var s := if speed.Some? then speed.value else MaxSpeed;
        kin.InBounds(x, y) ==>
          (r == ZeroDivision <==> MaxSteps(delta) > 0 && s == 0) &&
          (r == Stalled <==> Stalls(delta, s)) &&
          (r == Moved ==> tl.position == old(tl.position) + delta.tl && tr.position == old(tr.position) + delta.tr)
      ensures r == Moved || r == OutOfBounds ==> Offset() == old(Offset())
    {
      if !kin.InBounds(x, y) {
        return OutOfBounds;
      }
      var s := if speed.Some? then speed.value else MaxSpeed;
      var delta := kin.DeltaSteps(currentX, currentY, x, y);
      var rounds;
      r, rounds := ExecuteCoordinatedMove(delta, s);
      if r == Moved {
        currentX := x;
        currentY := y;
      }
    }

    /** `home`: a move to the centre of the board at the default speed, which a board of non-negative size always has on it. */
    method Home() returns (r: MoveResult)
      requires Valid()
      modifies this, tl, tr
      ensures r != ZeroDivision
      ensures r == OutOfBounds <==> !kin.InBounds(kin.width / 2.0, kin.height / 2.0)
      ensures kin.width >= 0.0 && kin.height >= 0.0 ==> r != OutOfBounds
      ensures kin.InBounds(kin.width / 2.0, kin.height / 2.0) ==>
        (r == Stalled <==> Stalls(kin.DeltaSteps(old(currentX), old(currentY), kin.width / 2.0, kin.height / 2.0), MaxSpeed))
      ensures r == Moved ==> currentX == kin.width / 2.0 && currentY == kin.height / 2.0
      ensures r != Moved ==> currentX == old(currentX) && currentY == old(currentY)
      ensures r == Moved || r == OutOfBounds ==> Offset() == old(Offset())
    {
      if kin.width >= 0.0 && kin.height >= 0.0 {
        kin.CornersAndCentreInBounds();
      }
      r := MoveTo(kin.width / 2.0, kin.height / 2.0, None);
    }

    /**
     * `execute_path`: move to each waypoint in turn at the default speed,
     * skipping those off the board. Unless a move gets stuck, the marker ends
     * at the last waypoint on the board, with the recorded motor positions
     * still following the wire lengths.
     */
    method ExecutePath(positions: seq<Point>) returns (r: PathResult)
      requires Valid()
      modifies this, tl, tr
      ensures r != PathZeroDivision
      ensures r == PathDone ==> Point(currentX, currentY) == LastInBounds(kin, old(Point(currentX, currentY)), positions)
      ensures r == PathDone ==> Offset() == old(Offset())
      ensures r == PathDone ==> MovesDoNotStall(kin, old(Point(currentX, currentY)), positions, |positions|)
      ensures r.PathStalled? ==> r.index < |positions| && MovesDoNotStall(kin, old(Point(currentX, currentY)), positions, r.index)
      ensures r.PathStalled? ==> (r.index < |positions| &&
        Point(currentX, currentY) == LastInBounds(kin, old(Point(currentX, currentY)), positions[..r.index]))
      ensures r.PathStalled? ==> (r.index < |positions| &&
        kin.InBounds(positions[r.index].x, positions[r.index].y) &&
        Stalls(kin.DeltaSteps(currentX, currentY, positions[r.index].x, positions[r.index].y), MaxSpeed))
    {
      var start := Point(currentX, currentY);
      var i := 0;
      while i < |positions|
        invariant 0 <= i <= |positions|
        invariant Point(currentX, currentY) == LastInBounds(kin, start, positions[..i])
        invariant Offset() == old(Offset())
        invariant MovesDoNotStall(kin, start, positions, i)
      {
        var res := MoveTo(positions[i].x, positions[i].y, None);
        if res == Stalled {
          return PathStalled(i);
        }
        MovesDoNotStallStep(kin, start, positions, i);
        assert positions[..i + 1][..i] == positions[..i];
        i := i + 1;
      }
      assert positions[..i] == positions;
      r := PathDone;
    }

    /**
     * `draw_line`: visit the `steps + 1` evenly spaced points from
     * `(x1, y1)` to `(x2, y2)`. No steps divides by zero before moving, a
     * negative count visits nothing.
     */
    method DrawLine(x1: real, y1: real, x2: real, y2: real, steps: int) returns (r: PathResult)
      requires Valid()
      modifies this, tl, tr
      ensures steps == 0 <==> r == PathZeroDivision
      ensures steps <= 0 ==> unchanged(this, tl, tr)
      ensures steps < 0 ==> r == PathDone
      ensures steps > 0 && r == PathDone ==>
        Point(currentX, currentY) == LastInBounds(kin, old(Point(currentX, currentY)), LinePoints(x1, y1, x2, y2, steps))
      ensures r == PathDone ==> Offset() == old(Offset())
      ensures steps > 0 && r == PathDone ==> MovesDoNotStall(kin, old(Point(currentX, currentY)), LinePoints(x1, y1, x2, y2, steps), steps + 1)
      ensures r.PathStalled? ==> (steps > 0 && r.index <= steps &&
        MovesDoNotStall(kin, old(Point(currentX, currentY)), LinePoints(x1, y1, x2, y2, steps), r.index))
      ensures r.PathStalled? ==> (steps > 0 && r.index <= steps &&
        Point(currentX, currentY) == LastInBounds(kin, old(Point(currentX, currentY)), LinePoints(x1, y1, x2, y2, steps)[..r.index]))
      ensures r.PathStalled? ==> (steps > 0 && r.index <= steps &&
        var p := LinePoints(x1, y1, x2, y2, steps)[r.index];
        kin.InBounds(p.x, p.y) && Stalls(kin.DeltaSteps(currentX, currentY, p.x, p.y), MaxSpeed))
    {
      if steps == 0 {
        return PathZeroDivision;
      }
      if steps < 0 {
        return PathDone;
      }
      var start := Point(currentX, currentY);
      ghost var ps := LinePoints(x1, y1, x2, y2, steps);
      var i := 0;
      while i < steps + 1
        invariant 0 <= i <= steps + 1
        invariant Point(currentX, currentY) == LastInBounds(kin, start, ps[..i])
        invariant Offset() == old(Offset())
        invariant MovesDoNotStall(kin, start, ps, i)
      {
        var t := Fraction(i, steps);
        var x := Lerp(x1, x2, t);
        var y := Lerp(y1, y2, t);
        assert Point(x, y) == ps[i];
        var res := MoveTo(x, y, None);
        if res == Stalled {
          return PathStalled(i);
        }
        MovesDoNotStallStep(kin, start, ps, i);
        assert ps[..i + 1][..i] == ps[..i];
        i := i + 1;
      }
      assert ps[..i] == ps;
      r := PathDone;
    }
  }
}
