/** The Hilbert curve of order k as a recursive quadrant decomposition.
    This is the specification the codec's two loops are proved against.

    The 2^k x 2^k grid splits into four quadrants of side s = 2^(k-1),
    visited in the order given by the quadrant code d = 0, 1, 2, 3 (the
    quadrant bits (rx, ry) are (0,0), (0,1), (1,1), (1,0)). Inside each
    quadrant the curve is the order-(k-1) curve, carried into that
    quadrant by Ascend and out of it by Descend. AscendIsRotation and
    DescendIsRotation show that these are the shared rotation Rotate
    followed (or preceded) by the quadrant's shift, as the codec's loops
    apply them. Positions d * 4^(k-1) .. (d+1) * 4^(k-1) - 1 of the curve
    lie in quadrant d.

    The decomposition is written with comparisons and constant multiples
    only; the bit arithmetic of the source is in module Codec. */
module Curve {
  import opened Arith

  /** A grid cell, the (x, y) tuple of the source. */
  datatype Point = Point(x: int, y: int)

  /** p lies in the n x n square [0, n) x [0, n). */
  predicate InSquare(n: int, p: Point)
  {
    0 <= p.x < n && 0 <= p.y < n
  }

  /** Both coordinates reduced modulo n (floor remainder, as in Python). */
  function Reduce(n: int, p: Point): (r: Point)
    requires n > 0
    ensures InSquare(n, r)
    ensures InSquare(n, p) ==> r == p
  {
    if InSquare(n, p) then
      DivModUnique(p.x, n, 0, p.x);
      DivModUnique(p.y, n, 0, p.y);
      Point(p.x % n, p.y % n)
    else
      Point(p.x % n, p.y % n)
  }

  // ---------------------------------------------------------------------
  // The shared rotation
  // ---------------------------------------------------------------------

  /** _hilbert_rotate: when ry == 0 the quadrant is reflected about its
      centre if rx == 1, and then transposed; when ry != 0 nothing
      changes. A cell of [0, n)^2 stays in [0, n)^2. */
  function Rotate(n: int, p: Point, rx: int, ry: int): (r: Point)
    ensures InSquare(n, p) ==> InSquare(n, r)
  {
    if ry == 0 then
      if rx == 1 then Point(n - 1 - p.y, n - 1 - p.x) else Point(p.y, p.x)
    else
      p
  }

  /** The rotation undoes itself, whatever the quadrant bits. */
  lemma RotateInvolution(n: int, p: Point, rx: int, ry: int)
    ensures Rotate(n, Rotate(n, p, rx, ry), rx, ry) == p
  {
  }

  /** The rotation maps [0, n)^2 onto itself: every cell of it is the
      image of a cell of it, namely of its own rotation. */
  lemma RotateOnto(n: int, q: Point, rx: int, ry: int)
    requires InSquare(n, q)
    ensures InSquare(n, Rotate(n, q, rx, ry))
    ensures Rotate(n, Rotate(n, q, rx, ry), rx, ry) == q
  {
    RotateInvolution(n, q, rx, ry);
  }

  /** The three cases of the rotation: identity when ry == 1, a plain
      transposition when rx == ry == 0, the anti-diagonal reflection
      when rx == 1 and ry == 0. */
  lemma RotateCases(n: int, p: Point, rx: int)
    ensures Rotate(n, p, rx, 1) == p
    ensures Rotate(n, p, 0, 0) == Point(p.y, p.x)
    ensures Rotate(n, p, 1, 0) == Point(n - 1 - p.y, n - 1 - p.x)
  {
  }

  /** Rotating with scale n commutes with reducing modulo n. This is why
      the inverse conversion may rotate with the current scale s while its
      x, y still carry the bits above s (and may have gone negative). */
  lemma RotateReduce(n: int, p: Point, rx: int, ry: int)
    requires n > 0
    ensures Reduce(n, Rotate(n, p, rx, ry)) == Rotate(n, Reduce(n, p), rx, ry)
  {
    if ry == 0 && rx == 1 {
      DivModUnique(n - 1 - p.y, n, -(p.y / n), n - 1 - p.y % n);
      DivModUnique(n - 1 - p.x, n, -(p.x / n), n - 1 - p.x % n);
    }
  }

  // ---------------------------------------------------------------------
  // Quadrants
  // ---------------------------------------------------------------------

  /** The x bit of quadrant d: quadrants 0 and 1 are the low half of x,
      quadrants 2 and 3 the high half. */
  function QuadrantX(d: int): (rx: int)
    ensures rx == 0 || rx == 1
  {
    if d < 2 then 0 else 1
  }

  /** The y bit of quadrant d: quadrants 1 and 2 are the high half of y,
      quadrants 0 and 3 the low half. */
  function QuadrantY(d: int): (ry: int)
    ensures ry == 0 || ry == 1
  {
    if d == 1 || d == 2 then 1 else 0
  }

  /** The quadrant of the bits (rx, ry), `(3 * rx) ^ ry`:
      (0,0) -> 0, (0,1) -> 1, (1,1) -> 2, (1,0) -> 3. */
  function QuadrantCode(rx: int, ry: int): (d: int)
    requires rx == 0 || rx == 1
    requires ry == 0 || ry == 1
    ensures 0 <= d < 4
  {
    if rx == 0 then ry else 3 - ry
  }

  /** Reading the quadrant bits of a digit and encoding them again gives
      back the digit. */
  lemma QuadrantCodeOfDigit(d: int)
    requires 0 <= d < 4
    ensures QuadrantCode(QuadrantX(d), QuadrantY(d)) == d
  {
  }

  /** Encoding two quadrant bits and reading them back gives the bits. */
  lemma QuadrantBitsOfCode(rx: int, ry: int)
    requires rx == 0 || rx == 1
    requires ry == 0 || ry == 1
    ensures QuadrantX(QuadrantCode(rx, ry)) == rx
    ensures QuadrantY(QuadrantCode(rx, ry)) == ry
  {
  }

  /** The offset s * b of a quadrant along one axis, for a bit b. */
  function Shift(s: int, b: int): int
    requires b == 0 || b == 1
  {
    if b == 1 then s else 0
  }

  /** The quadrant code of the cell p of a 2s x 2s square: 0 lower
      left, 1 upper left, 2 upper right, 3 lower right (x to the right,
      y upwards). */
  function QuadrantOfPoint(s: int, p: Point): (d: int)
    ensures 0 <= d < 4
  {
    if p.x < s then (if p.y < s then 0 else 1)
    else (if p.y < s then 3 else 2)
  }

  /** One level up: the cell c of an s x s square carried into quadrant
      d of the 2s x 2s square. Quadrant 0 is c transposed, quadrants 1
      and 2 are c shifted, quadrant 3 is c reflected in the anti-diagonal
      and shifted right, so that the four sub-curves join end to end. */
  function Ascend(s: int, d: int, c: Point): (p: Point)
    requires 0 <= d < 4
    ensures InSquare(s, c) ==> InSquare(2 * s, p) && QuadrantOfPoint(s, p) == d
  {
    if d == 0 then Point(c.y, c.x)
    else if d == 1 then Point(c.x, c.y + s)
    else if d == 2 then Point(c.x + s, c.y + s)
    else Point(2 * s - 1 - c.y, s - 1 - c.x)
  }

  /** One level down: the cell p of a 2s x 2s square carried out of its
      quadrant into the s x s square; the inverse of Ascend. */
  function Descend(s: int, p: Point): (c: Point)
    ensures InSquare(2 * s, p) ==> InSquare(s, c)
  {
    if p.x < s then (if p.y < s then Point(p.y, p.x) else Point(p.x, p.y - s))
    else (if p.y < s then Point(s - 1 - p.y, 2 * s - 1 - p.x) else Point(p.x - s, p.y - s))
  }

  /** Carrying a cell up into quadrant d and back down gives the cell. */
  lemma DescendAscend(s: int, d: int, c: Point)
    requires 0 <= d < 4 && InSquare(s, c)
    ensures Descend(s, Ascend(s, d, c)) == c
  {
  }

  /** Carrying a cell down out of its quadrant and back up gives the
      cell. */
  lemma AscendDescend(s: int, p: Point)
    requires InSquare(2 * s, p)
    ensures Ascend(s, QuadrantOfPoint(s, p), Descend(s, p)) == p
  {
  }

  /** Ascend is the source's step: rotate with the quadrant's bits, then
      shift into the quadrant. */
  lemma AscendIsRotation(s: int, d: int, c: Point)
    requires 0 <= d < 4
    ensures
      var rx, ry := QuadrantX(d), QuadrantY(d);
      var r := Rotate(s, c, rx, ry);
      Ascend(s, d, c) == Point(r.x + Shift(s, rx), r.y + Shift(s, ry))
  {
  }

  /** Descend is the inverse step: the quadrant's bits are the
      comparisons with s, and the cell is shifted out of the quadrant and
      rotated with those bits. */
  lemma DescendIsRotation(s: int, p: Point)
    ensures
      var rx, ry := (if p.x < s then 0 else 1), (if p.y < s then 0 else 1);
      && QuadrantOfPoint(s, p) == QuadrantCode(rx, ry)
      && Descend(s, p) == Rotate(s, Point(p.x - Shift(s, rx), p.y - Shift(s, ry)), rx, ry)
  {
  }

  /** The first position of quadrant d on a curve whose quadrants hold q
      cells each: d * q. */
  function QuadrantStart(d: int, q: int): int
    requires 0 <= d < 4
  {
    if d == 0 then 0 else if d == 1 then q else if d == 2 then 2 * q else 3 * q
  }

  /** The quadrant holding position i, on a curve of 4q cells. */
  function QuadrantOf(i: int, q: int): (d: int)
    requires q > 0 && 0 <= i < 4 * q
    ensures 0 <= d < 4
    ensures QuadrantStart(d, q) <= i < QuadrantStart(d, q) + q
  {
    if i < q then 0 else if i < 2 * q then 1 else if i < 3 * q then 2 else 3
  }

  /** The position rest of quadrant d lies in quadrant d. */
  lemma QuadrantOfStart(d: int, q: int, rest: int)
    requires 0 <= d < 4 && 0 <= rest < q
    ensures QuadrantOf(QuadrantStart(d, q) + rest, q) == d
  {
  }

  // ---------------------------------------------------------------------
  // The two directions of the decomposition
  // ---------------------------------------------------------------------

  /** The cell at position i of the order-k curve: the quadrant holding
      i, and in it the cell of the rest of i on the order-(k-1) curve,
      carried up into that quadrant. */
  function PointOf(k: nat, i: int): (p: Point)
    requires 0 <= i < Pow4(k)
    ensures InSquare(Pow2(k), p)
  {
    if k == 0 then Point(0, 0)
    else
      var q := Pow4(k - 1);
      var d := QuadrantOf(i, q);
      Ascend(Pow2(k - 1), d, PointOf(k - 1, i - QuadrantStart(d, q)))
  }

  /** The position of cell p on the order-k curve: the quadrant holding
      p contributes its first position, and the cell, carried down out of
      that quadrant, gives the rest on the order-(k-1) curve. */
  function IndexOf(k: nat, p: Point): (i: int)
    requires InSquare(Pow2(k), p)
    ensures 0 <= i < Pow4(k)
  {
    if k == 0 then 0
    else
      var s := Pow2(k - 1);
      QuadrantStart(QuadrantOfPoint(s, p), Pow4(k - 1)) + IndexOf(k - 1, Descend(s, p))
  }

  /** PointOf at a position written as quadrant d followed by rest. */
  lemma PointOfQuadrant(k: nat, i: int, d: int, rest: int)
    requires k > 0 && 0 <= d < 4 && 0 <= rest < Pow4(k - 1)
    requires i == QuadrantStart(d, Pow4(k - 1)) + rest
    ensures 0 <= i < Pow4(k)
    ensures PointOf(k, i) == Ascend(Pow2(k - 1), d, PointOf(k - 1, rest))
  {
    QuadrantOfStart(d, Pow4(k - 1), rest);
  }

  /** IndexOf of a cell carried up into quadrant d. */
  lemma IndexOfAscend(k: nat, d: int, c: Point)
    requires k > 0 && 0 <= d < 4 && InSquare(Pow2(k - 1), c)
    ensures InSquare(Pow2(k), Ascend(Pow2(k - 1), d, c))
    ensures IndexOf(k, Ascend(Pow2(k - 1), d, c)) == QuadrantStart(d, Pow4(k - 1)) + IndexOf(k - 1, c)
  {
    DescendAscend(Pow2(k - 1), d, c);
  }

  /** IndexOf undoes PointOf at position i. */
  predicate RoundTripAt(k: nat, i: int)
    requires 0 <= i < Pow4(k)
  {
    IndexOf(k, PointOf(k, i)) == i
  }

  /** RoundTripAt, by induction on k. */
  lemma {:induction false} RoundTripInduction(k: nat, i: int)
    requires 0 <= i < Pow4(k)
    ensures RoundTripAt(k, i)
  {
    if k > 0 {
      var q := Pow4(k - 1);
      var d := QuadrantOf(i, q);
      var rest := i - QuadrantStart(d, q);
      PointOfQuadrant(k, i, d, rest);
      RoundTripInduction(k - 1, rest);
      IndexOfAscend(k, d, PointOf(k - 1, rest));
    }
  }

  /** Round trip, index -> point -> index: IndexOf undoes PointOf on
      every position of the curve. */
  lemma IndexOfPointOf(k: nat, i: int)
    requires 0 <= i < Pow4(k)
    ensures IndexOf(k, PointOf(k, i)) == i
  {
    RoundTripInduction(k, i);
  }

  /** Round trip, point -> index -> point: PointOf undoes IndexOf on
      every cell of the grid. */
  lemma {:induction false} PointOfIndexOf(k: nat, p: Point)
    requires InSquare(Pow2(k), p)
    ensures PointOf(k, IndexOf(k, p)) == p
  {
    if k > 0 {
      var s := Pow2(k - 1);
      var c := Descend(s, p);
      PointOfQuadrant(k, IndexOf(k, p), QuadrantOfPoint(s, p), IndexOf(k - 1, c));
      PointOfIndexOf(k - 1, c);
      AscendDescend(s, p);
    }
  }

  /** IndexOf is one-to-one on the grid. */
  lemma IndexOfInjective(k: nat, p: Point, p': Point)
    requires InSquare(Pow2(k), p) && InSquare(Pow2(k), p')
    requires IndexOf(k, p) == IndexOf(k, p')
    ensures p == p'
  {
    PointOfIndexOf(k, p);
    PointOfIndexOf(k, p');
  }

  /** PointOf is one-to-one on the positions of the curve. */
  lemma PointOfInjective(k: nat, i: int, i': int)
    requires 0 <= i < Pow4(k) && 0 <= i' < Pow4(k)
    requires PointOf(k, i) == PointOf(k, i')
    ensures i == i'
  {
    IndexOfPointOf(k, i);
    IndexOfPointOf(k, i');
  }

  /** The order-1 curve: position d is the cell of its quadrant bits,
      (0,0), (0,1), (1,1), (1,0). */
  lemma PointOfOrderOne(d: int)
    requires 0 <= d < 4
    ensures PointOf(1, d) == Point(QuadrantX(d), QuadrantY(d))
  {
    assert Pow4(0) == 1 && Pow2(0) == 1;
    PointOfQuadrant(1, d, d, 0);
    assert PointOf(0, 0) == Point(0, 0);
  }
}
