# Hilbert curve codec in Dafny

This project models the Hilbert-curve codec of `hilbert_curve.py` and proves
its properties. The codec converts between a position (index) along the
Hilbert curve of a given order and a cell (x, y) of the 2^order x 2^order
grid.

- `hilbert_index_to_point` reads the index two bits at a time, from the
  least significant end.
- `point_to_hilbert_index` reads the coordinates one bit at a time, from the
  most significant end.
- Both loops share the quadrant rotation `_hilbert_rotate`.
- Three utilities are built on the codec:
  - `generate_hilbert_points`, every cell in curve order;
  - `hilbert_index_matrix`, the curve position of every cell, indexed `[x][y]`;
  - `hilbert_curve_to_coordinates`, which turns any grid into a map from
    value to position.
- `point_from_distance` and `distance_from_point` are aliases for the two
  conversions.

Modules:

- `Arith`: powers of two and four, and the facts about floor division that
  the loops rely on. Dafny's `/` and `%` with a positive divisor are
  Python's `//` and `%`.
- `Curve`: the curve as a recursive quadrant decomposition. It holds:
  - `PointOf` and `IndexOf`, the cell at a position and the position of a cell;
  - the one-level moves `Ascend` and `Descend`;
  - the shared rotation `Rotate`.
  Both round trips and injectivity are proved here.
- `Codec`: the two `while` loops as methods, with their bit operations
  written arithmetically. Each method is proved against `PointOf` and
  `IndexOf` through a one-step lemma (`ForwardStep`, `InverseStep`). The
  aliases are methods that call them.
- `Enumeration`: `generate_hilbert_points` and `hilbert_index_matrix` are
  comprehensions, so they are functions. Their entries are `PointOf` and
  `IndexOf`, which the loops are proved to compute; a function cannot call a
  method.
- `GridInverter`: the dict comprehension of `hilbert_curve_to_coordinates`.
  It is proved by structural recursion over the row-major scan.
- `Adjacency`: consecutive positions of the curve are neighbouring cells.
  This is the defining property of the curve; the code itself never checks it.

The source validates no input, and the model follows the code:

- An index outside [0, 4^order) is read modulo 4^order.
- Coordinates outside the grid are read modulo 2^order.

This is what the bit operations of the two loops compute. Python's `&` on a
negative number works on two's complement, which agrees with floor division
by a power of two. The inverse loop rotates with the current scale `s`, so
its intermediate coordinates may go negative; `RotateReduce` shows this does
not matter. The design of the system says out-of-range input should be
rejected as a precondition error. The code does no such check, and the model
follows the code: the methods have no preconditions, and their
postconditions state the wrap-around exactly.

## Model

| member | source | states |
|---|---|---|
| Arith.Pow4IsSquare | hilbert_curve.py:69 | 4^k == 2^k * 2^k: the s * s weight of a quadrant is the number of cells of the sub-curve |
| Arith.Pow2Double | hilbert_curve.py:84 | 2 ** (2 * order) == 4^order, the number of points generated |
| Arith.HalvePow2 | hilbert_curve.py:65 | n // 2 with n == 2^k is 2^(k-1), or 0 when k == 0 |
| Arith.ModDouble | hilbert_curve.py:67-68 | a value modulo 2s is its value modulo s plus s times bit s; that bit is its quotient by s |
| Arith.DigitSplit | hilbert_curve.py:48 | dividing by 4 splits off one base-4 digit: the remainder modulo 4P is the remainder modulo P plus P times the digit, and the quotient by 4P is the quotient by P divided by 4 |
| Curve.Reduce | hilbert_curve.py:66-68 | both coordinates reduced modulo n land in the n x n square, and a cell already in it is unchanged |
| Curve.Rotate | hilbert_curve.py:121-138 | _hilbert_rotate keeps a cell of [0, n)^2 in [0, n)^2 |
| Curve.RotateInvolution | hilbert_curve.py:133-138 | the rotation undoes itself, for every n, cell and bits |
| Curve.RotateOnto | hilbert_curve.py:133-138 | the rotation maps [0, n)^2 onto itself: each cell of it is the image of its own rotation, which also lies in it |
| Curve.RotateCases | hilbert_curve.py:133-138 | identity when ry == 1, swap when rx == ry == 0, (n-1-y, n-1-x) when rx == 1 and ry == 0 |
| Curve.RotateReduce | hilbert_curve.py:70 | rotating with scale n commutes with reducing modulo n, so negative intermediate coordinates of the inverse loop are harmless |
| Curve.QuadrantX | hilbert_curve.py:43 | the x bit of a quadrant digit is 0 or 1 |
| Curve.QuadrantY | hilbert_curve.py:44 | the y bit of a quadrant digit is 0 or 1 |
| Curve.QuadrantCode | hilbert_curve.py:69 | (3 * rx) ^ ry, for bits rx and ry, is a quadrant digit in [0, 4) |
| Curve.QuadrantCodeOfDigit | hilbert_curve.py:43-44 | encoding the bits of digit d gives back d |
| Curve.QuadrantBitsOfCode | hilbert_curve.py:69 | the bits of the code of (rx, ry) are rx and ry |
| Curve.QuadrantOfPoint | hilbert_curve.py:67-69 | the quadrant of a cell of the 2s x 2s square is a digit in [0, 4) |
| Curve.Ascend | hilbert_curve.py:45-47 | a cell of the s x s square, carried up into quadrant d, lies in the 2s x 2s square and in quadrant d |
| Curve.Descend | hilbert_curve.py:67-70 | a cell of the 2s x 2s square, carried down out of its quadrant, lies in the s x s square |
| Curve.DescendAscend | hilbert_curve.py:45-47 | carrying a cell up and back down gives the cell |
| Curve.AscendDescend | hilbert_curve.py:67-70 | carrying a cell down and back up into its quadrant gives the cell |
| Curve.AscendIsRotation | hilbert_curve.py:45-47 | carrying up into quadrant d is rotating with d's bits and then adding s * rx, s * ry |
| Curve.DescendIsRotation | hilbert_curve.py:67-70 | carrying down is reading the bits by comparison with s, subtracting the shift and rotating with those bits; the quadrant is their code |
| Curve.QuadrantOf | hilbert_curve.py:43-44 | the quadrant digit of position i is in [0, 4), and i lies in that quadrant's range of positions |
| Curve.QuadrantOfStart | hilbert_curve.py:43-44 | position rest of quadrant d lies in quadrant d |
| Curve.PointOf | hilbert_curve.py:27-50 | the cell at any position of the order-k curve lies on the 2^k x 2^k grid |
| Curve.IndexOf | hilbert_curve.py:52-72 | the position of any cell of the grid lies in [0, 4^k) |
| Curve.PointOfQuadrant | hilbert_curve.py:42-49 | the cell at position rest of quadrant d is the order-(k-1) cell of rest carried up into quadrant d |
| Curve.IndexOfAscend | hilbert_curve.py:66-71 | the position of a cell carried up into quadrant d is d's first position plus its order-(k-1) position |
| Curve.RoundTripInduction | hilbert_curve.py:169-172 | IndexOf undoes PointOf at every position, by induction on the order |
| Curve.IndexOfPointOf | hilbert_curve.py:169-172 | point_to_hilbert_index(hilbert_index_to_point(i)) == i for every i in [0, 4^k), at the level of the specification |
| Curve.PointOfIndexOf | hilbert_curve.py:52-72 | PointOf undoes IndexOf on every cell of the grid |
| Curve.IndexOfInjective | hilbert_curve.py:99-116 | distinct cells have distinct positions |
| Curve.PointOfInjective | hilbert_curve.py:74-85 | distinct positions have distinct cells |
| Curve.PointOfOrderOne | hilbert_curve.py:74-85 | the order-1 curve visits the cells of the quadrant bits (0,0), (0,1), (1,1), (1,0) |
| Codec.DigitRx | hilbert_curve.py:43 | 1 & (t // 2) is a bit |
| Codec.DigitRy | hilbert_curve.py:44 | 1 & (t ^ rx) is a bit, and it is 1 exactly when the low bit of t differs from rx |
| Codec.BitAt | hilbert_curve.py:67-68 | 1 if (v & s) > 0 else 0 is a bit |
| Codec.DigitBits | hilbert_curve.py:43-44 | the forward loop's rx and ry are the quadrant bits of the lowest base-4 digit of t, for every integer t |
| Codec.ShiftIsProduct | hilbert_curve.py:46-47 | the shift of a quadrant is s * rx (or s * ry), as the source writes it |
| Codec.QuadrantStartIsProduct | hilbert_curve.py:69 | the first position of quadrant d is q * d |
| Codec.ForwardStep | hilbert_curve.py:42-49 | one iteration of the forward loop turns the cell of the low j digits on the order-j curve into the cell of the low j+1 digits on the order-(j+1) curve, and t // 4 holds the digits still to be read |
| Codec.DescendBits | hilbert_curve.py:66-70 | reading bit s of x and y and rotating with scale s is one level down the decomposition, for the cell read modulo 2s |
| Codec.InverseStep | hilbert_curve.py:66-71 | one iteration of the inverse loop: the position of the cell modulo 2^k is s * s * code plus the order-(k-1) position of the rotated cell modulo s |
| Codec.HilbertIndexToPoint | hilbert_curve.py:27-50 | returns the cell at position index mod 4^order, on the grid; for an index in range, point_to_hilbert_index gives the index back |
| Codec.PointToHilbertIndex | hilbert_curve.py:52-72 | returns the position of (x, y) read modulo 2^order, in [0, 4^order); for a cell on the grid, that is its position and hilbert_index_to_point gives the cell back |
| Codec.PointFromDistance | hilbert_curve.py:143-145 | the same result as hilbert_index_to_point, with the same argument order |
| Codec.DistanceFromPoint | hilbert_curve.py:147-149 | the same result as point_to_hilbert_index, with the order first |
| GridInverter.ScanRow | hilbert_curve.py:97 | after columns 0 .. j-1 of row x, the map holds exactly the values seen so far, each at its last position in scan order |
| GridInverter.ScanRows | hilbert_curve.py:97 | after rows 0 .. k-1, the map holds exactly the values seen so far, each at its last position in scan order |
| GridInverter.CurveToCoordinates | hilbert_curve.py:87-97 | the keys are exactly the values present; each maps to a position holding it; no position holding it comes later in row-major order |
| Enumeration.GenerateHilbertPoints | hilbert_curve.py:74-85 | 4^order points; point i is the cell that hilbert_index_to_point gives for i |
| Enumeration.GeneratedPointsOnGrid | hilbert_curve.py:74-85 | every generated point lies on the grid |
| Enumeration.GeneratedPointsDistinct | hilbert_curve.py:74-85 | no cell is generated twice |
| Enumeration.GeneratedPointsCoverGrid | hilbert_curve.py:74-85 | every cell of the grid is generated, at the position point_to_hilbert_index assigns it |
| Enumeration.GeneratedPointsAreGrid | hilbert_curve.py:74-85 | the set of generated points is exactly the set of grid cells |
| Enumeration.GenerateOrderOne | hilbert_curve.py:74-85 | order 1 gives (0,0), (0,1), (1,1), (1,0) |
| Enumeration.OrderZero | hilbert_curve.py:38-42 | with order 0, the only point is (0,0), its index is 0, and the matrix is [[0]] |
| Enumeration.HilbertIndexMatrix | hilbert_curve.py:99-116 | 2^order rows of 2^order entries; entry [x][y] is the position of cell (x, y) |
| Enumeration.MatrixEntriesInRange | hilbert_curve.py:99-116 | every entry is in [0, 4^order) |
| Enumeration.MatrixEntriesDistinct | hilbert_curve.py:99-116 | no position occurs twice in the matrix |
| Enumeration.MatrixCoversIndices | hilbert_curve.py:99-116 | position i occurs at the entry of the i-th generated point: the matrix and the point sequence are dual |
| Enumeration.MatrixValuesAreIndices | hilbert_curve.py:99-116 | the set of entries is exactly 0 .. 4^order-1 |
| Enumeration.InvertedMatrixKeys | hilbert_curve.py:87-116 | inverting the matrix gives exactly the keys 0 .. 4^order-1 |
| Enumeration.InvertedMatrixAt | hilbert_curve.py:87-116 | inverting the matrix maps each position to the cell the curve visits there |
| Enumeration.InvertedMatrixIsPointOf | hilbert_curve.py:87-116 | inverting the matrix gives the whole map from position to cell |
| Adjacency.UnitStepChebyshev | hilbert_curve.py:74-85 | cells that share an edge are at Chebyshev distance 1 |
| Adjacency.RotateKeepsStep | hilbert_curve.py:121-138 | the rotation maps neighbouring cells to neighbouring cells |
| Adjacency.AscendKeepsStep | hilbert_curve.py:45-47 | carrying two neighbours up into one quadrant keeps them neighbours |
| Adjacency.CellInQuadrant | hilbert_curve.py:42-49 | a cell of the order-(k-1) curve, carried up into quadrant d, is the cell of the order-k curve at the same position of d |
| Adjacency.CurveStart | hilbert_curve.py:27-50 | the curve starts at (0, 0) |
| Adjacency.CurveEnd | hilbert_curve.py:27-50 | the curve ends at (2^k - 1, 0) |
| Adjacency.QuadrantEntry | hilbert_curve.py:27-50 | the curve enters quadrant d at (0, 0) carried up into d |
| Adjacency.QuadrantExit | hilbert_curve.py:27-50 | the curve leaves quadrant d at (s - 1, 0) carried up into d |
| Adjacency.StepOfCells | hilbert_curve.py:27-50 | two neighbouring cells visited at positions i and i + 1 make a step of the curve |
| Adjacency.QuadrantBorder | hilbert_curve.py:27-50 | the last cell of quadrant d and the first cell of quadrant d + 1 are neighbours |
| Adjacency.QuadrantInside | hilbert_curve.py:27-50 | inside one quadrant, steps of the order-(k-1) curve stay steps of the order-k curve |
| Adjacency.CurveAdjacent | hilbert_curve.py:27-50 | consecutive positions of the curve are cells that share an edge |
| Adjacency.GeneratedPointsAdjacent | hilbert_curve.py:74-85 | consecutive generated points are at Chebyshev distance exactly 1 |

## Left out

- `visualize_curve.py`: the Tkinter window and its floating-point pixel scaling. It is a display consumer of `generate_hilbert_points` and holds no logic of the codec.
- The `__main__` block of `hilbert_curve.py`: printing. Its self-test loop is `Curve.IndexOfPointOf` together with the ensures of `Codec.HilbertIndexToPoint`.
- `HILBERT_3` and `hilbert_position_at`: a static order-3 lookup table, not computed logic. It is laid out transposed with respect to the codec: the codec agrees with `HILBERT_3[y][x]`, not with the `[x][y]` that `hilbert_position_at` reads. The model does not include the table.
- Negative orders: `2 ** order` is then a Python float. The order is a `nat` throughout.
- Tuples versus sequences: the tuples returned by the source are `seq`s and `Point`s, and the dict is a `map`.
- Enumeration.GenerateHilbertPoints: built from `Curve.PointOf` rather than from calls of the forward loop. `Codec.HilbertIndexToPoint` is proved to return exactly `PointOf`.
- Enumeration.HilbertIndexMatrix: built from `Curve.IndexOf` rather than from calls of the inverse loop. `Codec.PointToHilbertIndex` is proved to return exactly `IndexOf` on the grid.
