/** Locality of the Hilbert curve: consecutive positions are neighbouring
    cells. The source never checks this; it is the defining property of
    the curve that its design promises (Chebyshev distance exactly 1 between
    consecutive points), proved here about the codec's quadrant
    decomposition. The proof shows the stronger fact that consecutive cells
    share an edge. */
module Adjacency {
  import opened Arith
  import opened Curve
  import opened Enumeration

  function Abs(v: int): (r: int)
    ensures r >= 0 && (r == v || r == -v)
  {
    if v < 0 then -v else v
  }

  /** p and q share an edge: one coordinate equal, the other one apart. */
  predicate UnitStep(p: Point, q: Point)
  {
    Abs(p.x - q.x) + Abs(p.y - q.y) == 1
  }

  /** max(|dx|, |dy|). */
  function Chebyshev(p: Point, q: Point): (r: int)
    ensures r >= 0
  {
    if Abs(p.x - q.x) < Abs(p.y - q.y) then Abs(p.y - q.y) else Abs(p.x - q.x)
  }

  /** Cells that share an edge are at Chebyshev distance 1. */
  lemma UnitStepChebyshev(p: Point, q: Point)
    requires UnitStep(p, q)
    ensures Chebyshev(p, q) == 1
  {
  }

  /** The rotation moves neighbours to neighbours: it is a reflection of
      the square. */
  lemma RotateKeepsStep(n: int, p: Point, q: Point, rx: int, ry: int)
    requires UnitStep(p, q)
    ensures UnitStep(Rotate(n, p, rx, ry), Rotate(n, q, rx, ry))
  {
  }

  /** Carrying two neighbours up into the same quadrant keeps them
      neighbours. */
  lemma AscendKeepsStep(s: int, d: int, p: Point, q: Point)
    requires 0 <= d < 4 && UnitStep(p, q)
    ensures UnitStep(Ascend(s, d, p), Ascend(s, d, q))
  {
    AscendIsRotation(s, d, p);
    AscendIsRotation(s, d, q);
    RotateKeepsStep(s, p, q, QuadrantX(d), QuadrantY(d));
  }

  /** The order-k curve visits cell p at position i. */
  predicate CellAt(k: nat, i: int, p: Point)
    requires 0 <= i < Pow4(k)
  {
    PointOf(k, i) == p
  }

  /** A cell of the order-(k-1) curve, carried up into quadrant d, is
      the cell of the order-k curve at the same position of quadrant d. */
  lemma CellInQuadrant(k: nat, d: int, rest: int, i: int, c: Point)
    requires k > 0 && 0 <= d < 4 && 0 <= rest < Pow4(k - 1)
    requires i == QuadrantStart(d, Pow4(k - 1)) + rest
    requires CellAt(k - 1, rest, c)
    ensures 0 <= i < Pow4(k) && CellAt(k, i, Ascend(Pow2(k - 1), d, c))
  {
    PointOfQuadrant(k, i, d, rest);
  }

  /** The order-k curve enters the grid at (0, 0). */
  lemma {:induction false} CurveStart(k: nat)
    ensures CellAt(k, 0, Point(0, 0))
  {
    if k > 0 {
      CurveStart(k - 1);
      CellInQuadrant(k, 0, 0, 0, Point(0, 0));
    }
  }

  /** The order-k curve leaves the grid at (2^k - 1, 0). */
  lemma {:induction false} CurveEnd(k: nat)
    ensures CellAt(k, Pow4(k) - 1, Point(Pow2(k) - 1, 0))
  {
    if k > 0 {
      var s, q := Pow2(k - 1), Pow4(k - 1);
      CurveEnd(k - 1);
      CellInQuadrant(k, 3, q - 1, Pow4(k) - 1, Point(s - 1, 0));
    }
  }

  /** Where the curve enters quadrant d: the entry (0, 0) of the
      order-(k-1) curve carried up into that quadrant. */
  lemma QuadrantEntry(k: nat, d: int)
    requires k > 0 && 0 <= d < 4
    ensures 0 <= QuadrantStart(d, Pow4(k - 1)) < Pow4(k)
    ensures CellAt(k, QuadrantStart(d, Pow4(k - 1)), Ascend(Pow2(k - 1), d, Point(0, 0)))
  {
    CurveStart(k - 1);
    CellInQuadrant(k, d, 0, QuadrantStart(d, Pow4(k - 1)), Point(0, 0));
  }

  /** Where the curve leaves quadrant d: the exit (s - 1, 0) of the
      order-(k-1) curve carried up into that quadrant. */
  lemma QuadrantExit(k: nat, d: int)
    requires k > 0 && 0 <= d < 4
    ensures 0 <= QuadrantStart(d, Pow4(k - 1)) + Pow4(k - 1) - 1 < Pow4(k)
    ensures CellAt(k, QuadrantStart(d, Pow4(k - 1)) + Pow4(k - 1) - 1, Ascend(Pow2(k - 1), d, Point(Pow2(k - 1) - 1, 0)))
  {
    var s, q := Pow2(k - 1), Pow4(k - 1);
    CurveEnd(k - 1);
    CellInQuadrant(k, d, q - 1, QuadrantStart(d, q) + q - 1, Point(s - 1, 0));
  }

  /** Positions i and i + 1 of the order-k curve are neighbouring cells. */
  predicate StepAt(k: nat, i: int)
    requires 0 <= i && i + 1 < Pow4(k)
  {
    UnitStep(PointOf(k, i), PointOf(k, i + 1))
  }

  /** Two neighbouring cells visited at positions i and i + 1 make a
      step of the curve. */
  lemma StepOfCells(k: nat, i: int, p: Point, p': Point)
    requires 0 <= i && i + 1 < Pow4(k)
    requires CellAt(k, i, p) && CellAt(k, i + 1, p') && UnitStep(p, p')
    ensures StepAt(k, i)
  {
  }

  /** Across the border of quadrants d and d + 1 the curve steps from
      the exit of one sub-curve to the entry of the next: from (0, s-1)
      to (0, s), from (s-1, s) to (s, s), from (2s-1, s) to (2s-1, s-1). */
  lemma QuadrantBorder(k: nat, d: int, i: int)
    requires k > 0 && 0 <= d < 3
    requires i == QuadrantStart(d, Pow4(k - 1)) + Pow4(k - 1) - 1
    ensures 0 <= i && i + 1 < Pow4(k) && StepAt(k, i)
  {
    var s := Pow2(k - 1);
    var exit, entry := Ascend(s, d, Point(s - 1, 0)), Ascend(s, d + 1, Point(0, 0));
    QuadrantExit(k, d);
    QuadrantEntry(k, d + 1);
    assert i + 1 == QuadrantStart(d + 1, Pow4(k - 1));
    assert UnitStep(exit, entry) by {
      if d == 0 {
        assert exit == Point(0, s - 1) && entry == Point(0, s);
      } else if d == 1 {
        assert exit == Point(s - 1, s) && entry == Point(s, s);
      } else {
        assert exit == Point(2 * s - 1, s) && entry == Point(2 * s - 1, s - 1);
      }
    }
    StepOfCells(k, i, exit, entry);
  }

  /** Inside quadrant d the curve is the order-(k-1) curve carried up
      into the quadrant, so its steps stay steps. */
  lemma QuadrantInside(k: nat, d: int, rest: int, i: int, c: Point, c': Point)
    requires k > 0 && 0 <= d < 4 && 0 <= rest && rest + 1 < Pow4(k - 1)
    requires i == QuadrantStart(d, Pow4(k - 1)) + rest
    requires CellAt(k - 1, rest, c) && CellAt(k - 1, rest + 1, c') && UnitStep(c, c')
    ensures 0 <= i && i + 1 < Pow4(k) && StepAt(k, i)
  {
    CellInQuadrant(k, d, rest, i, c);
    CellInQuadrant(k, d, rest + 1, i + 1, c');
    AscendKeepsStep(Pow2(k - 1), d, c, c');
  }

  /** Consecutive positions of the order-k curve are neighbouring cells.
      Inside one quadrant this is the order-(k-1) curve carried up into
      the quadrant; across the border of two quadrants it is
      QuadrantBorder. */
  lemma {:induction false} CurveAdjacent(k: nat, i: int)
    requires 0 <= i && i + 1 < Pow4(k)
    ensures StepAt(k, i)
  {
    if k == 0 {
      assert false;
    }
    var q := Pow4(k - 1);
    var d := QuadrantOf(i, q);
    var rest := i - QuadrantStart(d, q);
    if rest + 1 < q {
      CurveAdjacent(k - 1, rest);
      QuadrantInside(k, d, rest, i, PointOf(k - 1, rest), PointOf(k - 1, rest + 1));
    } else {
      QuadrantBorder(k, d, i);
    }
  }

  /** Consecutive points of generate_hilbert_points are at Chebyshev
      distance exactly 1. */
  lemma GeneratedPointsAdjacent(order: nat, i: int)
    requires 0 <= i && i + 1 < |GenerateHilbertPoints(order)|
    ensures Chebyshev(GenerateHilbertPoints(order)[i], GenerateHilbertPoints(order)[i + 1]) == 1
  {
    CurveAdjacent(order, i);
    UnitStepChebyshev(GenerateHilbertPoints(order)[i], GenerateHilbertPoints(order)[i + 1]);
  }
}
