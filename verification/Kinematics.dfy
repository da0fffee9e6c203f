/**
 * The geometry of the two-wire suspension: wires run from the top-left
 * corner (0, 0) and the top-right corner (width, 0) to the marker, with y
 * growing downwards. Lengths are in millimetres and exact reals.
 */
module Kinematics {

  /** `f` is the non-negative square root on the non-negative reals. */
  ghost predicate IsSqrt(f: real -> real) {
    forall v: real {:trigger f(v)} :: v >= 0.0 ==> f(v) >= 0.0 && Sq(f(v)) == v
  }

  function Sq(v: real): real { v * v }

  /** A length in millimetres times a steps-per-millimetre factor. */
  function Scale(len: real, k: real): real { len * k }

  /** Python's `round` on a float: to the nearest integer, ties to the even one. */
  function RoundHalfEven(r: real): (n: int)
    ensures (n as real) - 0.5 <= r <= (n as real) + 0.5
    ensures (r == (n as real) - 0.5 || r == (n as real) + 0.5) ==> n % 2 == 0
  {
    var f := r.Floor;
    var frac := r - f as real;
    if frac < 0.5 then f
    else if frac > 0.5 then f + 1
    else if f % 2 == 0 then f
    else f + 1
  }

  /** Rounding never reverses order. */
  lemma RoundMonotone(r: real, s: real)
    requires r <= s
    ensures RoundHalfEven(r) <= RoundHalfEven(s)
  {
  }

  /** Squaring is strictly increasing on the non-negative reals. */
  lemma SquareIncreasing(a: real, b: real)
    requires 0.0 <= a < b
    ensures Sq(a) < Sq(b)
  {
    var d, t := b - a, b + a;
    assert d * t > 0.0;
    assert d * t == Sq(b) - Sq(a);
  }

  /** Non-negative reals with equal squares are equal. */
  lemma SquareInjective(a: real, b: real)
    requires a >= 0.0 && b >= 0.0 && Sq(a) == Sq(b)
    ensures a == b
  {
    if a < b {
      SquareIncreasing(a, b);
    } else if b < a {
      SquareIncreasing(b, a);
    }
  }

  /** Scaling by a positive factor keeps the order of lengths. */
  lemma ScaleOrder(l1: real, l2: real, k: real)
    requires k > 0.0 && l1 <= l2
    ensures Scale(l1, k) <= Scale(l2, k)
  {
    assert (l2 - l1) * k >= 0.0;
    assert (l2 - l1) * k == l2 * k - l1 * k;
  }

  /** A non-negative length scaled by a positive factor is non-negative. */
  lemma ScaleNonNegative(len: real, k: real)
    ensures k > 0.0 && len >= 0.0 ==> Scale(len, k) >= 0.0
  {
    if k > 0.0 && len >= 0.0 {
      ScaleOrder(0.0, len, k);
    }
  }

  /** Squaring keeps the order of non-negative reals. */
  lemma SquareMonotone(a: real, b: real)
    requires 0.0 <= a <= b
    ensures Sq(a) <= Sq(b)
  {
    if a < b {
      SquareIncreasing(a, b);
    }
  }

  /** Scaling by a positive factor and rounding keeps the order of lengths. */
  lemma ScaledRoundMonotone(l1: real, l2: real, k: real)
    requires k > 0.0 && l1 <= l2
    ensures RoundHalfEven(Scale(l1, k)) <= RoundHalfEven(Scale(l2, k))
  {
    ScaleOrder(l1, l2, k);
    RoundMonotone(Scale(l1, k), Scale(l2, k));
  }

  datatype Point = Point(x: real, y: real)
  datatype Lengths = Lengths(tl: real, tr: real)
  datatype Steps = Steps(tl: int, tr: int)

  /**
   * The board and the calibration the kinematics is built from. `sqrt` is the
   * math library's square root.
   */
  datatype Board = Board(width: real, height: real, stepsPerMm: real, sqrt: real -> real) {

    ghost predicate Valid() {
      stepsPerMm > 0.0 && IsSqrt(sqrt)
    }

    /** The fixed anchors, top-left and top-right. */
    function AnchorTl(): Point { Point(0.0, 0.0) }
    function AnchorTr(): Point { Point(width, 0.0) }

    /** `cartesian_to_wire_lengths`: the Euclidean distance from each anchor. */
    function WireLengths(x: real, y: real): (l: Lengths)
      requires Valid()
      ensures l.tl >= 0.0 && Sq(l.tl) == Sq(x) + Sq(y)
      ensures l.tr >= 0.0 && Sq(l.tr) == Sq(x - width) + Sq(y)
    {
      Lengths(sqrt(Sq(x - AnchorTl().x) + Sq(y - AnchorTl().y)),
              sqrt(Sq(x - AnchorTr().x) + Sq(y - AnchorTr().y)))
    }

    /**
     * `wire_lengths_to_steps`: each length times steps per millimetre,
     * rounded to the nearest whole step, so a wire of non-negative length
     * never gets a negative count.
     */
    function StepsFromLengths(l: Lengths): (s: Steps)
      ensures -0.5 <= (s.tl as real) - Scale(l.tl, stepsPerMm) <= 0.5
      ensures -0.5 <= (s.tr as real) - Scale(l.tr, stepsPerMm) <= 0.5
      ensures stepsPerMm > 0.0 && l.tl >= 0.0 ==> s.tl >= 0
      ensures stepsPerMm > 0.0 && l.tr >= 0.0 ==> s.tr >= 0
    {
      ScaleNonNegative(l.tl, stepsPerMm);
      ScaleNonNegative(l.tr, stepsPerMm);
      Steps(RoundHalfEven(Scale(l.tl, stepsPerMm)), RoundHalfEven(Scale(l.tr, stepsPerMm)))
    }

    /**
     * `cartesian_to_steps`: non-negative counts, each within half a step of
     * the distance to its anchor times steps per millimetre.
     */
    function StepsAt(x: real, y: real): (s: Steps)
      requires Valid()
      ensures s.tl >= 0 && s.tr >= 0
      ensures -0.5 <= (s.tl as real) - Scale(WireLengths(x, y).tl, stepsPerMm) <= 0.5
      ensures -0.5 <= (s.tr as real) - Scale(WireLengths(x, y).tr, stepsPerMm) <= 0.5
    {
      StepsFromLengths(WireLengths(x, y))
    }

    /**
     * `calculate_delta_steps`: current steps minus target steps; positive
     * means the wire gets shorter (reel in). Rounding each end costs at most
     * one step against the exact change in length.
     */
    function DeltaSteps(cx: real, cy: real, tx: real, ty: real): (d: Steps)
      requires Valid()
      ensures d.tl + StepsAt(tx, ty).tl == StepsAt(cx, cy).tl
      ensures d.tr + StepsAt(tx, ty).tr == StepsAt(cx, cy).tr
      ensures -1.0 <= (d.tl as real) - (Scale(WireLengths(cx, cy).tl, stepsPerMm) - Scale(WireLengths(tx, ty).tl, stepsPerMm)) <= 1.0
      ensures -1.0 <= (d.tr as real) - (Scale(WireLengths(cx, cy).tr, stepsPerMm) - Scale(WireLengths(tx, ty).tr, stepsPerMm)) <= 1.0
    {
      var current, target := StepsAt(cx, cy), StepsAt(tx, ty);
      Steps(current.tl - target.tl, current.tr - target.tr)
    }

    /** `validate_position`: inside the board, edges included. */
    predicate InBounds(x: real, y: real) {
      0.0 <= x <= width && 0.0 <= y <= height
    }

    /** Longer wires never get fewer steps, and steps are within half a step of exact. */
    lemma StepsMonotone(l1: Lengths, l2: Lengths)
      requires stepsPerMm > 0.0 && l1.tl <= l2.tl && l1.tr <= l2.tr
      ensures StepsFromLengths(l1).tl <= StepsFromLengths(l2).tl
      ensures StepsFromLengths(l1).tr <= StepsFromLengths(l2).tr
      ensures -0.5 <= (StepsFromLengths(l1).tl as real) - Scale(l1.tl, stepsPerMm) <= 0.5
      ensures -0.5 <= (StepsFromLengths(l1).tr as real) - Scale(l1.tr, stepsPerMm) <= 0.5
    {
      ScaledRoundMonotone(l1.tl, l2.tl, stepsPerMm);
      ScaledRoundMonotone(l1.tr, l2.tr, stepsPerMm);
    }

    /** A wire of length zero sits at its anchor; the other wire then spans the board. */
    lemma AnchorLengths()
      requires Valid() && width >= 0.0
      ensures WireLengths(0.0, 0.0) == Lengths(0.0, width)
      ensures WireLengths(width, 0.0) == Lengths(width, 0.0)
    {
      SqrtOfSquare(width);
      SqrtOfSquare(0.0);
      assert Sq(0.0 - width) + Sq(0.0 - 0.0) == Sq(width);
      assert Sq(width - 0.0) + Sq(0.0 - 0.0) == Sq(width);
      assert Sq(width - width) + Sq(0.0 - 0.0) == Sq(0.0);
    }

    lemma SqrtOfSquare(v: real)
      requires Valid() && v >= 0.0
      ensures sqrt(Sq(v)) == v
    {
      assert Sq(v) >= 0.0;
      SquareInjective(sqrt(Sq(v)), v);
    }

    /** Reflecting the point across the board's vertical centre line swaps the two lengths. */
    lemma MirrorSymmetry(x: real, y: real)
      requires Valid()
      ensures WireLengths(width - x, y) == Lengths(WireLengths(x, y).tr, WireLengths(x, y).tl)
    {
      assert Sq(width - x - 0.0) == Sq(x - width);
      assert Sq(width - x - width) == Sq(x - 0.0);
    }

    /** The delta of staying put is zero, and a move back undoes the move. */
    lemma DeltaAntisymmetric(xa: real, ya: real, xb: real, yb: real)
      requires Valid()
      ensures DeltaSteps(xa, ya, xa, ya) == Steps(0, 0)
      ensures DeltaSteps(xb, yb, xa, ya) == Steps(-DeltaSteps(xa, ya, xb, yb).tl, -DeltaSteps(xa, ya, xb, yb).tr)
    {
    }

    /** Deltas of two consecutive moves add up to the delta of the direct move. */
    lemma DeltaTelescopes(xa: real, ya: real, xb: real, yb: real, xc: real, yc: real)
      requires Valid()
      ensures DeltaSteps(xa, ya, xb, yb).tl + DeltaSteps(xb, yb, xc, yc).tl == DeltaSteps(xa, ya, xc, yc).tl
      ensures DeltaSteps(xa, ya, xb, yb).tr + DeltaSteps(xb, yb, xc, yc).tr == DeltaSteps(xa, ya, xc, yc).tr
    {
    }

    /**
     * The sign convention: a motor whose wire must get longer (or stay) has a
     * delta of at most 0 (let out); one whose wire must get shorter has a
     * delta of at least 0 (reel in).
     */
    lemma DeltaSign(cx: real, cy: real, tx: real, ty: real)
      requires Valid()
      ensures WireLengths(tx, ty).tl >= WireLengths(cx, cy).tl ==> DeltaSteps(cx, cy, tx, ty).tl <= 0
      ensures WireLengths(tx, ty).tl <= WireLengths(cx, cy).tl ==> DeltaSteps(cx, cy, tx, ty).tl >= 0
      ensures WireLengths(tx, ty).tr >= WireLengths(cx, cy).tr ==> DeltaSteps(cx, cy, tx, ty).tr <= 0
      ensures WireLengths(tx, ty).tr <= WireLengths(cx, cy).tr ==> DeltaSteps(cx, cy, tx, ty).tr >= 0
    {
      var c, t := WireLengths(cx, cy), WireLengths(tx, ty);
      if t.tl >= c.tl { ScaledRoundMonotone(c.tl, t.tl, stepsPerMm); }
      if t.tl <= c.tl { ScaledRoundMonotone(t.tl, c.tl, stepsPerMm); }
      if t.tr >= c.tr { ScaledRoundMonotone(c.tr, t.tr, stepsPerMm); }
      if t.tr <= c.tr { ScaledRoundMonotone(t.tr, c.tr, stepsPerMm); }
    }

    /** The bounds are closed: the four corners and the centre are on the board. */
    lemma CornersAndCentreInBounds()
      requires width >= 0.0 && height >= 0.0
      ensures InBounds(0.0, 0.0) && InBounds(width, 0.0) && InBounds(0.0, height) && InBounds(width, height)
      ensures InBounds(width / 2.0, height / 2.0)
    {
    }

    /** On the board, neither wire is longer than the board's diagonal. */
    lemma OnBoardWiresAtMostDiagonal(x: real, y: real)
      requires Valid() && InBounds(x, y)
      ensures Sq(WireLengths(x, y).tl) <= Sq(width) + Sq(height)
      ensures Sq(WireLengths(x, y).tr) <= Sq(width) + Sq(height)
    {
      SquareMonotone(x, width);
      SquareMonotone(width - x, width);
      SquareMonotone(y, height);
      assert Sq(x - width) == Sq(width - x);
    }
  }
}
