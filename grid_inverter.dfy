/** hilbert_curve_to_coordinates: inverts an arbitrary grid (a sequence of
    rows) into a map from each value to its (row, column) position. The
    dict comprehension scans row by row, left to right, and a later
    position of a repeated value overwrites an earlier one. Independent
    of the codec. */
module GridInverter {

  /** (x, y) is a position of the grid: row x, column y. */
  predicate IsPosition(grid: seq<seq<int>>, x: int, y: int)
  {
    0 <= x < |grid| && 0 <= y < |grid[x]|
  }

  /** (x, y) is a position the scan has passed once it has finished the
      rows before row k and the first j columns of row k. */
  predicate Scanned(grid: seq<seq<int>>, k: int, j: int, x: int, y: int)
  {
    IsPosition(grid, x, y) && (x < k || (x == k && y < j))
  }

  /** Row-major order: position (x, y) does not come after (x', y'). */
  predicate NotAfter(x: int, y: int, x': int, y': int)
  {
    x < x' || (x == x' && y <= y')
  }

  /** What the map holds after the scan reaches (k, j): exactly the
      values seen so far, each at the last position it was seen at. */
  ghost predicate Inverts(grid: seq<seq<int>>, k: int, j: int, m: map<int, (int, int)>)
  {
    && (forall v :: v in m <==> exists x, y :: Scanned(grid, k, j, x, y) && grid[x][y] == v)
    && (forall v :: v in m ==>
          && Scanned(grid, k, j, m[v].0, m[v].1)
          && grid[m[v].0][m[v].1] == v
          && forall x, y :: Scanned(grid, k, j, x, y) && grid[x][y] == v ==> NotAfter(x, y, m[v].0, m[v].1))
  }

  /** The inner comprehension over row x: columns 0 .. j-1 are entered
      into acc in order. */
  function ScanRow(grid: seq<seq<int>>, x: int, j: int, acc: map<int, (int, int)>): (m: map<int, (int, int)>)
    requires 0 <= x < |grid| && 0 <= j <= |grid[x]|
    requires Inverts(grid, x, 0, acc)
    ensures Inverts(grid, x, j, m)
    decreases j
  {
    if j == 0 then acc
    else
      var before := ScanRow(grid, x, j - 1, acc);
      var v := grid[x][j - 1];
      var m := before[v := (x, j - 1)];
      assert forall y :: Scanned(grid, x, j, x, y) ==> Scanned(grid, x, j - 1, x, y) || y == j - 1;
      assert forall x', y' :: Scanned(grid, x, j, x', y') ==> Scanned(grid, x, j - 1, x', y') || (x' == x && y' == j - 1);
      m
  }

  /** The outer comprehension: rows 0 .. k-1 are scanned in order. */
  function ScanRows(grid: seq<seq<int>>, k: int): (m: map<int, (int, int)>)
    requires 0 <= k <= |grid|
    ensures Inverts(grid, k, 0, m)
    decreases k
  {
    if k == 0 then map[]
    else
      var before := ScanRows(grid, k - 1);
      assert forall x, y :: Scanned(grid, k - 1, 0, x, y) <==> Scanned(grid, k, 0, x, y) && x < k - 1;
      var m := ScanRow(grid, k - 1, |grid[k - 1]|, before);
      assert forall x, y :: Scanned(grid, k - 1, |grid[k - 1]|, x, y) <==> Scanned(grid, k, 0, x, y);
      m
  }

  /** hilbert_curve_to_coordinates. The keys are exactly the values that
      occur in the grid; each key maps to a position holding it, and no
      position holding it comes later in row-major order. */
  function CurveToCoordinates(grid: seq<seq<int>>): (m: map<int, (int, int)>)
    ensures forall v :: v in m <==> exists x, y :: IsPosition(grid, x, y) && grid[x][y] == v
    ensures forall v :: v in m ==> IsPosition(grid, m[v].0, m[v].1) && grid[m[v].0][m[v].1] == v
    ensures forall v, x, y :: v in m && IsPosition(grid, x, y) && grid[x][y] == v ==> NotAfter(x, y, m[v].0, m[v].1)
  {
    var m := ScanRows(grid, |grid|);
    assert forall x, y :: Scanned(grid, |grid|, 0, x, y) <==> IsPosition(grid, x, y);
    m
  }
}
