/** The Hilbert-curve codec: conversion between a position (index) along
    the Hilbert curve of a given order and a cell (x, y) of the
    2^order x 2^order grid, in both directions, as the two loops of the
    source compute it.

    hilbert_index_to_point reads the index two bits at a time from the
    least significant end and builds the cell from the smallest quadrant
    outwards; point_to_hilbert_index reads the coordinates one bit at a
    time from the most significant end. Each loop is proved against the
    quadrant decomposition of module Curve (PointOf and IndexOf), whose
    round trips carry over to the loops.

    Neither loop validates its input. An index outside [0, 4^order) is
    read modulo 4^order, and coordinates outside the grid are read modulo
    2^order, as the bit operations of the source do. */
module Codec {
  import opened Arith
  import opened Curve

  // ---------------------------------------------------------------------
  // The bit operations of the two loops
  // ---------------------------------------------------------------------

  /** rx of the forward loop: `1 & (t // 2)`. */
  function DigitRx(t: int): (rx: int)
    ensures rx == 0 || rx == 1
  {
    (t / 2) % 2
  }

  /** ry of the forward loop: `1 & (t ^ rx)`, the low bit of t
      exclusive-or rx (rx being a single bit). */
  function DigitRy(t: int): (ry: int)
    ensures ry == 0 || ry == 1
    ensures ry == 1 <==> t % 2 != DigitRx(t)
  {
    if t % 2 == DigitRx(t) then 0 else 1
  }

  /** Bit s of v, for s a power of two: `1 if (v & s) > 0 else 0` of the
      inverse loop. For s > 0, v / s is floor division, which agrees with
      Python's two's-complement `&` also when v is negative. */
  function BitAt(v: int, s: int): (b: int)
    requires s > 0
    ensures b == 0 || b == 1
  {
    (v / s) % 2
  }

  /** The forward loop's bits are the quadrant bits of the lowest base-4
      digit of t, whatever the sign of t. */
  lemma DigitBits(t: int)
    ensures DigitRx(t) == QuadrantX(t % 4)
    ensures DigitRy(t) == QuadrantY(t % 4)
  {
    var d := t % 4;
    DivModUnique(t, 4, t / 4, d);
    if d < 2 {
      DivModUnique(t, 2, 2 * (t / 4), d);
      DivModUnique(t / 2, 2, t / 4, 0);
    } else {
      DivModUnique(t, 2, 2 * (t / 4) + 1, d - 2);
      DivModUnique(t / 2, 2, t / 4, 1);
    }
  }

  /** The shift of a quadrant written as the source writes it, s * b. */
  lemma ShiftIsProduct(s: int, b: int)
    requires b == 0 || b == 1
    ensures Shift(s, b) == s * b
  {
  }

  /** The first position of quadrant d is d * q. */
  lemma QuadrantStartIsProduct(d: int, q: int)
    requires 0 <= d < 4
    ensures QuadrantStart(d, q) == q * d
  {
  }

  // ---------------------------------------------------------------------
  // One step of each loop against the decomposition
  // ---------------------------------------------------------------------

  /** One step of the forward loop. If (x, y) is the cell of the low j
      base-4 digits of index on the order-j curve and t holds the digits
      above them, then rotating (x, y) into the quadrant of the next digit
      and shifting it there gives the cell of the low j + 1 digits on the
      order-(j+1) curve. */
  lemma ForwardStep(j: nat, index: int, x: int, y: int, t: int)
    requires t == index / Pow4(j)
    requires Point(x, y) == PointOf(j, index % Pow4(j))
    ensures
      var s, rx, ry := Pow2(j), DigitRx(t), DigitRy(t);
      var r := Rotate(s, Point(x, y), rx, ry);
      Point(r.x + s * rx, r.y + s * ry) == PointOf(j + 1, index % Pow4(j + 1))
    ensures t / 4 == index / Pow4(j + 1)
  {
    var p, s := Pow4(j), Pow2(j);
    assert Pow4(j + 1) == p * 4 && Pow2(j + 1) == 2 * s;
    DigitSplit(index, p);
    var d := t % 4;
    DigitBits(t);
    QuadrantStartIsProduct(d, p);
    PointOfQuadrant(j + 1, index % Pow4(j + 1), d, index % p);
    AscendIsRotation(s, d, Point(x, y));
    ShiftIsProduct(s, DigitRx(t));
    ShiftIsProduct(s, DigitRy(t));
  }

  /** Reading bit s of each coordinate and rotating with scale s, as the
      inverse loop does, is one level of the decomposition applied to the
      cell read modulo 2s, once the result is read modulo s. */
  lemma DescendBits(s: int, cx: int, cy: int)
    requires s > 0
    ensures
      var p := Reduce(2 * s, Point(cx, cy));
      var rx, ry := BitAt(cx, s), BitAt(cy, s);
      && QuadrantOfPoint(s, p) == QuadrantCode(rx, ry)
      && Descend(s, p) == Reduce(s, Rotate(s, Point(cx, cy), rx, ry))
  {
    var p := Reduce(2 * s, Point(cx, cy));
    var rx, ry := BitAt(cx, s), BitAt(cy, s);
    ModDouble(cx, s);
    ModDouble(cy, s);
    DescendIsRotation(s, p);
    RotateReduce(s, Point(cx, cy), rx, ry);
  }

  /** One step of the inverse loop. With s == 2^(k-1), the position on
      the order-k curve of (cx, cy) read modulo 2^k is the quadrant's
      s * s * code plus the position on the order-(k-1) curve of the
      rotated cell read modulo s. */
  lemma InverseStep(k: nat, cx: int, cy: int)
    requires k > 0
    ensures
      var s := Pow2(k - 1);
      var rx, ry := BitAt(cx, s), BitAt(cy, s);
      var r := Rotate(s, Point(cx, cy), rx, ry);
      IndexOf(k, Reduce(Pow2(k), Point(cx, cy)))
        == s * s * QuadrantCode(rx, ry) + IndexOf(k - 1, Reduce(s, r))
  {
    var s := Pow2(k - 1);
    assert Pow2(k) == 2 * s;
    DescendBits(s, cx, cy);
    Pow4IsSquare(k - 1);
    QuadrantStartIsProduct(QuadrantCode(BitAt(cx, s), BitAt(cy, s)), Pow4(k - 1));
  }

  // ---------------------------------------------------------------------
  // The two conversions
  // ---------------------------------------------------------------------

  /** hilbert_index_to_point. The loop runs over s = 1, 2, 4, ... while
      s < 2^order; after j steps (x, y) is the cell of the low j base-4
      digits of index on the order-j curve and t holds the digits not yet
      read. An index outside [0, 4^order) is read modulo 4^order; inside
      it, point_to_hilbert_index gives the index back. */
  method HilbertIndexToPoint(order: nat, index: int) returns (x: int, y: int)
    ensures Point(x, y) == PointOf(order, index % Pow4(order))
    ensures 0 <= x < Pow2(order) && 0 <= y < Pow2(order)
    ensures 0 <= index < Pow4(order) ==> IndexOf(order, Point(x, y)) == index
  {
    var n := Pow2(order);
    x, y := 0, 0;
    var t := index;
    var s := 1;
    ghost var j: nat := 0;
    while s < n
      invariant j <= order && s == Pow2(j)
      invariant t == index / Pow4(j)
      invariant Point(x, y) == PointOf(j, index % Pow4(j))
      decreases n - s
    {
      if j == order {
        assert false;
      }
      ForwardStep(j, index, x, y, t);
      var rx := DigitRx(t);
      var ry := DigitRy(t);
      var r := Rotate(s, Point(x, y), rx, ry);
      x := r.x + s * rx;
      y := r.y + s * ry;
      t := t / 4;
      s := s * 2;
      j := j + 1;
    }
    if j < order {
      Pow2Increasing(j, order);
    }
    if 0 <= index < Pow4(order) {
      DivModUnique(index, Pow4(order), 0, index);
      IndexOfPointOf(order, index);
    }
  }

  /** point_to_hilbert_index. The loop runs over s = 2^(order-1), ..., 1;
      with s == 2^k / 2, what index has gathered plus the position on the
      order-k curve of the current (rotated) x, y, read modulo 2^k, is the
      answer. Coordinates outside the grid are read modulo 2^order; inside
      it, hilbert_index_to_point gives the cell back. */
  method PointToHilbertIndex(x: int, y: int, order: nat) returns (index: int)
    ensures index == IndexOf(order, Reduce(Pow2(order), Point(x, y)))
    ensures 0 <= index < Pow4(order)
    ensures InSquare(Pow2(order), Point(x, y)) ==> index == IndexOf(order, Point(x, y))
    ensures InSquare(Pow2(order), Point(x, y)) ==> PointOf(order, index) == Point(x, y)
  {
    var n := Pow2(order);
    index := 0;
    var s := n / 2;
    var cx, cy := x, y;
    ghost var k: nat := order;
    while s > 0
      invariant k <= order && s == Pow2(k) / 2
      invariant index + IndexOf(k, Reduce(Pow2(k), Point(cx, cy)))
             == IndexOf(order, Reduce(Pow2(order), Point(x, y)))
      decreases s
    {
      if k == 0 {
        assert false;
      }
      HalvePow2(k);
      InverseStep(k, cx, cy);
      var rx := BitAt(cx, s);
      var ry := BitAt(cy, s);
      index := index + s * s * QuadrantCode(rx, ry);
      var r := Rotate(s, Point(cx, cy), rx, ry);
      cx, cy := r.x, r.y;
      s := s / 2;
      k := k - 1;
    }
    if InSquare(Pow2(order), Point(x, y)) {
      PointOfIndexOf(order, Point(x, y));
    }
  }

  /** point_from_distance: the hilbertcurve-compatible name of
      hilbert_index_to_point, same argument order (order, index). */
  method PointFromDistance(order: nat, index: int) returns (x: int, y: int)
    ensures Point(x, y) == PointOf(order, index % Pow4(order))
    ensures 0 <= x < Pow2(order) && 0 <= y < Pow2(order)
    ensures 0 <= index < Pow4(order) ==> IndexOf(order, Point(x, y)) == index
  {
    x, y := HilbertIndexToPoint(order, index);
  }

  /** distance_from_point: the hilbertcurve-compatible name of
      point_to_hilbert_index, with the order first. */
  method DistanceFromPoint(order: nat, x: int, y: int) returns (index: int)
    ensures index == IndexOf(order, Reduce(Pow2(order), Point(x, y)))
    ensures 0 <= index < Pow4(order)
    ensures InSquare(Pow2(order), Point(x, y)) ==> PointOf(order, index) == Point(x, y)
  {
    index := PointToHilbertIndex(x, y, order);
  }
}
