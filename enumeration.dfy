/** The two whole-curve utilities built on the codec:
    generate_hilbert_points (every cell, in curve order) and
    hilbert_index_matrix (every cell's curve position, as a matrix indexed
    [x][y]). Both are comprehensions in the source, so both are functions
    here, written over the curve's specification functions: an entry the
    source computes with hilbert_index_to_point or point_to_hilbert_index
    is the PointOf or IndexOf that those loops are proved to compute. */
module Enumeration {
  import opened Arith
  import opened Curve
  import GridInverter

  /** The set of all cells of the order-k grid. */
  ghost function Grid(k: nat): set<Point>
  {
    set x, y | 0 <= x < Pow2(k) && 0 <= y < Pow2(k) :: Point(x, y)
  }

  /** generate_hilbert_points: the cell of every index 0 .. 2^(2*order)-1,
      in index order. */
  function GenerateHilbertPoints(order: nat): (pts: seq<Point>)
    ensures |pts| == Pow4(order)
    ensures forall i :: 0 <= i < |pts| ==> pts[i] == PointOf(order, i)
  {
    var numPoints := Pow2(2 * order);
    Pow2Double(order);
    seq(numPoints, i requires 0 <= i < numPoints => PointOf(order, i))
  }

  /** Every generated point lies on the grid. */
  lemma GeneratedPointsOnGrid(order: nat, i: int)
    requires 0 <= i < |GenerateHilbertPoints(order)|
    ensures InSquare(Pow2(order), GenerateHilbertPoints(order)[i])
  {
  }

  /** No cell is generated twice. */
  lemma GeneratedPointsDistinct(order: nat, i: int, j: int)
    requires 0 <= i < |GenerateHilbertPoints(order)| && 0 <= j < |GenerateHilbertPoints(order)|
    requires GenerateHilbertPoints(order)[i] == GenerateHilbertPoints(order)[j]
    ensures i == j
  {
    PointOfInjective(order, i, j);
  }

  /** Every cell of the grid is generated, at the position that
      point_to_hilbert_index assigns it. */
  lemma GeneratedPointsCoverGrid(order: nat, p: Point)
    requires InSquare(Pow2(order), p)
    ensures 0 <= IndexOf(order, p) < |GenerateHilbertPoints(order)|
    ensures GenerateHilbertPoints(order)[IndexOf(order, p)] == p
  {
    PointOfIndexOf(order, p);
  }

  /** "All (x, y) points": the generated points are exactly the cells of
      the grid. */
  lemma GeneratedPointsAreGrid(order: nat)
    ensures (set i | 0 <= i < |GenerateHilbertPoints(order)| :: GenerateHilbertPoints(order)[i]) == Grid(order)
  {
    var pts := GenerateHilbertPoints(order);
    var generated := set i | 0 <= i < |pts| :: pts[i];
    forall p | p in Grid(order)
      ensures p in generated
    {
      GeneratedPointsCoverGrid(order, p);
    }
  }

  /** The order-1 curve visits (0,0), (0,1), (1,1), (1,0). */
  lemma GenerateOrderOne()
    ensures GenerateHilbertPoints(1) == [Point(0, 0), Point(0, 1), Point(1, 1), Point(1, 0)]
  {
    var pts := GenerateHilbertPoints(1);
    assert |pts| == 4 by { assert Pow4(1) == 4 * Pow4(0); }
    assert pts[0] == Point(0, 0) by { PointOfOrderOne(0); }
    assert pts[1] == Point(0, 1) by { PointOfOrderOne(1); }
    assert pts[2] == Point(1, 1) by { PointOfOrderOne(2); }
    assert pts[3] == Point(1, 0) by { PointOfOrderOne(3); }
  }

  /** With order 0 the grid is one cell: index 0 is (0,0) and back, and
      the matrix is the single entry 0. */
  lemma OrderZero()
    ensures GenerateHilbertPoints(0) == [Point(0, 0)]
    ensures IndexOf(0, Point(0, 0)) == 0
    ensures HilbertIndexMatrix(0) == [[0]]
  {
    assert GenerateHilbertPoints(0)[0] == Point(0, 0);
    assert HilbertIndexMatrix(0)[0] == [0];
  }

  /** hilbert_index_matrix: a 2^order x 2^order matrix whose entry [x][y]
      is the curve position of cell (x, y). */
  function HilbertIndexMatrix(order: nat): (m: seq<seq<int>>)
    ensures |m| == Pow2(order)
    ensures forall x :: 0 <= x < |m| ==> |m[x]| == Pow2(order)
    ensures forall x, y :: 0 <= x < |m| && 0 <= y < |m[x]| ==> m[x][y] == IndexOf(order, Point(x, y))
  {
    var size := Pow2(order);
    seq(size, x requires 0 <= x < size => seq(size, y requires 0 <= y < size => IndexOf(order, Point(x, y))))
  }

  /** Every entry of the matrix is a position on the curve. */
  lemma MatrixEntriesInRange(order: nat, x: int, y: int)
    requires 0 <= x < Pow2(order) && 0 <= y < Pow2(order)
    ensures 0 <= HilbertIndexMatrix(order)[x][y] < Pow4(order)
  {
  }

  /** No position occurs twice in the matrix. */
  lemma MatrixEntriesDistinct(order: nat, x: int, y: int, x': int, y': int)
    requires 0 <= x < Pow2(order) && 0 <= y < Pow2(order)
    requires 0 <= x' < Pow2(order) && 0 <= y' < Pow2(order)
    requires HilbertIndexMatrix(order)[x][y] == HilbertIndexMatrix(order)[x'][y']
    ensures x == x' && y == y'
  {
    IndexOfInjective(order, Point(x, y), Point(x', y'));
  }

  /** Every position 0 .. 4^order-1 occurs in the matrix, at the cell the
      curve visits there: the matrix and the point sequence are dual. */
  lemma MatrixCoversIndices(order: nat, i: int)
    requires 0 <= i < Pow4(order)
    ensures var p := GenerateHilbertPoints(order)[i];
      HilbertIndexMatrix(order)[p.x][p.y] == i
  {
    IndexOfPointOf(order, i);
  }

  /** The values that occur in a matrix. */
  ghost function Entries(m: seq<seq<int>>): set<int>
  {
    set x, y | 0 <= x < |m| && 0 <= y < |m[x]| :: m[x][y]
  }

  /** The matrix's entries are exactly 0 .. 4^order-1. */
  lemma MatrixValuesAreIndices(order: nat)
    ensures forall i :: i in Entries(HilbertIndexMatrix(order)) <==> 0 <= i < Pow4(order)
  {
    var m := HilbertIndexMatrix(order);
    var values := Entries(m);
    forall i | 0 <= i < Pow4(order)
      ensures i in values
    {
      MatrixCoversIndices(order, i);
      var p := PointOf(order, i);
      assert 0 <= p.x < |m| && 0 <= p.y < |m[p.x]|;
    }
  }

  /** The keys of the inverted matrix are the curve's positions. */
  lemma InvertedMatrixKeys(order: nat, i: int)
    ensures i in GridInverter.CurveToCoordinates(HilbertIndexMatrix(order)) <==> 0 <= i < Pow4(order)
  {
    var m := HilbertIndexMatrix(order);
    if 0 <= i < Pow4(order) {
      MatrixCoversIndices(order, i);
      var p := PointOf(order, i);
      assert GridInverter.IsPosition(m, p.x, p.y) && m[p.x][p.y] == i;
    }
  }

  /** Each position of the inverted matrix maps to the cell the curve
      visits there. */
  lemma InvertedMatrixAt(order: nat, i: int)
    requires 0 <= i < Pow4(order)
    ensures var inv := GridInverter.CurveToCoordinates(HilbertIndexMatrix(order));
      i in inv && inv[i] == (PointOf(order, i).x, PointOf(order, i).y)
  {
    var m := HilbertIndexMatrix(order);
    var inv := GridInverter.CurveToCoordinates(m);
    InvertedMatrixKeys(order, i);
    var (x, y) := inv[i];
    assert GridInverter.IsPosition(m, x, y) && m[x][y] == i;
    PointOfIndexOf(order, Point(x, y));
  }

  /** The curve as a map from each position to its cell, written as
      the (x, y) pairs hilbert_curve_to_coordinates produces. */
  function CellMap(order: nat): map<int, (int, int)>
  {
    map i | 0 <= i < Pow4(order) :: (PointOf(order, i).x, PointOf(order, i).y)
  }

  /** Two maps with the same keys and the same value at every key are
      equal. */
  lemma SameMap(a: map<int, (int, int)>, b: map<int, (int, int)>)
    requires forall i :: i in a <==> i in b
    requires forall i :: i in b ==> a[i] == b[i]
    ensures a == b
  {
    assert forall i :: i in a.Keys <==> i in b.Keys;
    assert forall i :: i in b.Keys ==> a[i] == b[i];
  }

  /** Inverting the codec's matrix with hilbert_curve_to_coordinates gives
      the codec's forward map: each position maps to its cell. */
  lemma InvertedMatrixIsPointOf(order: nat)
    ensures GridInverter.CurveToCoordinates(HilbertIndexMatrix(order)) == CellMap(order)
  {
    var inv := GridInverter.CurveToCoordinates(HilbertIndexMatrix(order));
    var want := CellMap(order);
    forall i
      ensures i in inv <==> i in want
      ensures i in want ==> inv[i] == want[i]
    {
      InvertedMatrixKeys(order, i);
      if i in want {
        InvertedMatrixAt(order, i);
      }
    }
    SameMap(inv, want);
  }
}
