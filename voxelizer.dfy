/**
 * The voxel grid scan of BuoyancyMaterial.CutIntoVoxels: the candidate
 * centres of a count x count x count grid laid over the collider's bounds,
 * filtered by the ray-cast inside test, in i-outer, j-middle, k-inner order.
 */
module Voxelizer {
  import opened Wrappers
  import opened Geometry
  import opened UnityMath

  /**
   * What the engine answers during voxelization. Each component stands for
   * an engine call the model does not interpret.
   */
  datatype Engine<C> = Engine(
    boundsAt: Quat -> Bounds,                    // collider.bounds with the body at the given rotation
    inverseTransformPoint: (Quat, Vec3) -> Vec3,  // transform.InverseTransformPoint at the given rotation
    raycast: (Ray, real) -> Option<C>,            // Physics.Raycast: the collider first hit within the length
    magnitude: Vec3 -> real,                     // Vector3.magnitude
    colliderOrigin: Vec3)                        // collider.transform.position

  /** Grid coordinates of one candidate voxel. */
  datatype Cell = Cell(i: int, j: int, k: int)

  /** Strict lexicographic order: i first, then j, then k. */
  predicate Before(a: Cell, b: Cell) {
    a.i < b.i || (a.i == b.i && (a.j < b.j || (a.j == b.j && a.k < b.k)))
  }

  predicate InGrid(c: Cell, n: int) {
    0 <= c.i < n && 0 <= c.j < n && 0 <= c.k < n
  }

  predicate Increasing(s: seq<Cell>) {
    forall p, q :: 0 <= p < q < |s| ==> Before(s[p], s[q])
  }

  /** Each cell comes before the next one. */
  predicate Chained(s: seq<Cell>) {
    forall p :: 0 < p < |s| ==> Before(s[p - 1], s[p])
  }

  /** The cells the inner loop visits: (i, j, 0) up to (i, j, k - 1). */
  function RowCells(i: int, j: int, k: nat): seq<Cell> {
    seq(k, p => Cell(i, j, p))
  }

  /** The cells the middle loop visits for rows 0 up to j - 1 of plane i. */
  function PlaneCells(n: nat, i: int, j: nat): seq<Cell> {
    if j == 0 then [] else PlaneCells(n, i, j - 1) + RowCells(i, j - 1, n)
  }

  /** The cells the outer loop visits for planes 0 up to i - 1. */
  function GridCells(n: nat, i: nat): seq<Cell> {
    if i == 0 then [] else GridCells(n, i - 1) + PlaneCells(n, i - 1, n)
  }

  lemma PlaneCellsUnfold(n: nat, i: int, j: nat)
    requires j > 0
    ensures PlaneCells(n, i, j) == PlaneCells(n, i, j - 1) + RowCells(i, j - 1, n)
  {
  }

  lemma GridCellsUnfold(n: nat, i: nat)
    requires i > 0
    ensures GridCells(n, i) == GridCells(n, i - 1) + PlaneCells(n, i - 1, n)
  {
  }

  /** Every cell of the n x n x n grid, in scan order. */
  function Grid(n: nat): seq<Cell> {
    GridCells(n, n)
  }

  /** Since Before is transitive, a chained sequence is increasing. */
  lemma {:induction false} ChainedIsIncreasing(s: seq<Cell>)
    requires Chained(s)
    ensures Increasing(s)
  {
    if |s| > 1 {
      var t := s[..|s| - 1];
      assert Chained(t) by {
        forall p | 0 < p < |t| ensures Before(t[p - 1], t[p]) {
          assert t[p - 1] == s[p - 1] && t[p] == s[p];
        }
      }
      ChainedIsIncreasing(t);
      forall p, q | 0 <= p < q < |s| ensures Before(s[p], s[q]) {
        if q < |s| - 1 {
          assert t[p] == s[p] && t[q] == s[q];
        } else if p < q - 1 {
          assert Before(t[p], t[q - 1]);
          assert Before(s[q - 1], s[q]);
        }
      }
    }
  }

  /** Two chained runs, the first ending before the second starts, make one. */
  lemma ChainedConcat(a: seq<Cell>, b: seq<Cell>)
    requires Chained(a) && Chained(b)
    requires |a| > 0 && |b| > 0 ==> Before(a[|a| - 1], b[0])
    ensures Chained(a + b)
  {
    var s := a + b;
    forall p | 0 < p < |s| ensures Before(s[p - 1], s[p]) {
      if p < |a| {
        assert s[p - 1] == a[p - 1] && s[p] == a[p];
      } else if p == |a| {
        assert s[p - 1] == a[|a| - 1] && s[p] == b[0];
      } else {
        assert s[p - 1] == b[p - 1 - |a|] && s[p] == b[p - |a|];
      }
    }
  }

  lemma IndexFront(a: seq<Cell>, b: seq<Cell>, q: nat) returns (p: nat)
    requires q < |a|
    ensures p == q && p < |a + b| && (a + b)[p] == a[q]
  {
    p := q;
  }

  lemma IndexBack(a: seq<Cell>, b: seq<Cell>, q: nat) returns (p: nat)
    requires q < |b|
    ensures p == |a| + q && p < |a + b| && (a + b)[p] == b[q]
  {
    p := |a| + q;
  }

  /** Row (i, j) up to k holds k cells, the p-th being (i, j, p). */
  lemma RowCellsAt(i: int, j: int, k: nat)
    ensures |RowCells(i, j, k)| == k
    ensures forall p :: 0 <= p < k ==> RowCells(i, j, k)[p] == Cell(i, j, p)
  {
  }

  lemma RowCellsChained(i: int, j: int, k: nat)
    ensures Chained(RowCells(i, j, k))
  {
    RowCellsAt(i, j, k);
  }

  lemma CubeAssoc(n: int)
    ensures n * (n * n) == n * n * n
  {
  }

  lemma MulStep(a: int, b: int)
    ensures (a - 1) * b + b == a * b
  {
  }

  lemma {:induction false} PlaneCellsLength(n: nat, i: int, j: nat)
    ensures |PlaneCells(n, i, j)| == j * n
  {
    if j > 0 {
      PlaneCellsUnfold(n, i, j);
      PlaneCellsLength(n, i, j - 1);
      RowCellsAt(i, j - 1, n);
      MulStep(j, n);
    }
  }

  /** The cell at position p of rows 0 up to j - 1 of plane i lies in one of those rows. */
  lemma {:induction false} PlaneCellAt(n: nat, i: int, j: nat, p: nat)
    requires p < |PlaneCells(n, i, j)|
    ensures var c := PlaneCells(n, i, j)[p]; c.i == i && 0 <= c.j < j && 0 <= c.k < n
  {
    var front, row := PlaneCells(n, i, j - 1), RowCells(i, j - 1, n);
    PlaneCellsUnfold(n, i, j);
    RowCellsAt(i, j - 1, n);
    if p < |front| {
      PlaneCellAt(n, i, j - 1, p);
      var q := IndexFront(front, row, p);
    } else {
      var q := IndexBack(front, row, p - |front|);
    }
  }

  /** A cell of rows 0 up to j - 1 of plane i is among the plane's cells, at position p. */
  lemma {:induction false} PlaneCellsHas(n: nat, i: int, j: nat, c: Cell) returns (p: nat)
    requires c.i == i && 0 <= c.j < j && 0 <= c.k < n
    ensures p < |PlaneCells(n, i, j)| && PlaneCells(n, i, j)[p] == c
  {
    PlaneCellsUnfold(n, i, j);
    if c.j < j - 1 {
      var q := PlaneCellsHas(n, i, j - 1, c);
      p := IndexFront(PlaneCells(n, i, j - 1), RowCells(i, j - 1, n), q);
    } else {
      RowCellsAt(i, j - 1, n);
      p := IndexBack(PlaneCells(n, i, j - 1), RowCells(i, j - 1, n), c.k);
    }
  }

  /** A non-empty plane starts at (i, 0, 0) and its rows up to j - 1 end at (i, j - 1, n - 1). */
  lemma {:induction false} PlaneCellsEnds(n: nat, i: int, j: nat)
    requires j > 0 && n > 0
    ensures |PlaneCells(n, i, j)| > 0
    ensures PlaneCells(n, i, j)[0] == Cell(i, 0, 0)
    ensures PlaneCells(n, i, j)[|PlaneCells(n, i, j)| - 1] == Cell(i, j - 1, n - 1)
  {
    var front, row := PlaneCells(n, i, j - 1), RowCells(i, j - 1, n);
    PlaneCellsUnfold(n, i, j);
    RowCellsAt(i, j - 1, n);
    var last := IndexBack(front, row, n - 1);
    if j > 1 {
      PlaneCellsEnds(n, i, j - 1);
      var first := IndexFront(front, row, 0);
    } else {
      var first := IndexBack(front, row, 0);
    }
  }

  lemma {:induction false} PlaneCellsChained(n: nat, i: int, j: nat)
    ensures Chained(PlaneCells(n, i, j))
  {
    if j > 0 {
      var front, row := PlaneCells(n, i, j - 1), RowCells(i, j - 1, n);
      PlaneCellsChained(n, i, j - 1);
      RowCellsChained(i, j - 1, n);
      RowCellsAt(i, j - 1, n);
      if j > 1 && n > 0 {
        PlaneCellsEnds(n, i, j - 1);
      }
      ChainedConcat(front, row);
      PlaneCellsUnfold(n, i, j);
    }
  }

  lemma {:induction false} GridCellsLength(n: nat, i: nat)
    ensures |GridCells(n, i)| == i * (n * n)
  {
    if i > 0 {
      GridCellsUnfold(n, i);
      GridCellsLength(n, i - 1);
      PlaneCellsLength(n, i - 1, n);
      MulStep(i, n * n);
    }
  }

  /** The cell at position p of planes 0 up to i - 1 lies in one of those planes. */
  lemma {:induction false} GridCellAt(n: nat, i: nat, p: nat)
    requires p < |GridCells(n, i)|
    ensures var c := GridCells(n, i)[p]; 0 <= c.i < i && 0 <= c.j < n && 0 <= c.k < n
  {
    var front, plane := GridCells(n, i - 1), PlaneCells(n, i - 1, n);
    GridCellsUnfold(n, i);
    if p < |front| {
      GridCellAt(n, i - 1, p);
      var q := IndexFront(front, plane, p);
    } else {
      PlaneCellAt(n, i - 1, n, p - |front|);
      var q := IndexBack(front, plane, p - |front|);
    }
  }

  lemma GridCellsSound(n: nat, i: nat)
    ensures forall p :: 0 <= p < |GridCells(n, i)| ==>
      var c := GridCells(n, i)[p]; 0 <= c.i < i && 0 <= c.j < n && 0 <= c.k < n
  {
    forall p | 0 <= p < |GridCells(n, i)|
      ensures var c := GridCells(n, i)[p]; 0 <= c.i < i && 0 <= c.j < n && 0 <= c.k < n
    {
      GridCellAt(n, i, p);
    }
  }

  /** A cell of planes 0 up to i - 1 is among the grid's cells, at position p. */
  lemma {:induction false} GridCellsHas(n: nat, i: nat, c: Cell) returns (p: nat)
    requires 0 <= c.i < i && 0 <= c.j < n && 0 <= c.k < n
    ensures p < |GridCells(n, i)| && GridCells(n, i)[p] == c
  {
    GridCellsUnfold(n, i);
    if c.i < i - 1 {
      var q := GridCellsHas(n, i - 1, c);
      p := IndexFront(GridCells(n, i - 1), PlaneCells(n, i - 1, n), q);
    } else {
      var q := PlaneCellsHas(n, i - 1, n, c);
      p := IndexBack(GridCells(n, i - 1), PlaneCells(n, i - 1, n), q);
    }
  }

  /** The first i planes, if there are any cells, end at (i - 1, n - 1, n - 1). */
  lemma GridCellsLast(n: nat, i: nat)
    requires i > 0 && n > 0
    ensures |GridCells(n, i)| > 0
    ensures GridCells(n, i)[|GridCells(n, i)| - 1] == Cell(i - 1, n - 1, n - 1)
  {
    var front, plane := GridCells(n, i - 1), PlaneCells(n, i - 1, n);
    GridCellsUnfold(n, i);
    PlaneCellsEnds(n, i - 1, n);
    var last := IndexBack(front, plane, |plane| - 1);
  }

  lemma {:induction false} GridCellsChained(n: nat, i: nat)
    ensures Chained(GridCells(n, i))
  {
    if i > 0 {
      var front, plane := GridCells(n, i - 1), PlaneCells(n, i - 1, n);
      GridCellsChained(n, i - 1);
      PlaneCellsChained(n, i - 1, n);
      if i > 1 && n > 0 {
        GridCellsLast(n, i - 1);
        PlaneCellsEnds(n, i - 1, n);
      } else if n == 0 {
        PlaneCellsLength(n, i - 1, n);
      }
      ChainedConcat(front, plane);
      GridCellsUnfold(n, i);
    }
  }

  /**
   * The scan visits each of the n^3 grid cells exactly once, in strict
   * lexicographic order (i, then j, then k).
   */
  lemma GridIsLexicographicEnumeration(n: nat)
    ensures |Grid(n)| == n * n * n
    ensures forall c :: c in Grid(n) <==> InGrid(c, n)
    ensures Increasing(Grid(n))
  {
    var g := Grid(n);
    GridCellsLength(n, n);
    CubeAssoc(n);
    GridCellsSound(n, n);
    GridCellsChained(n, n);
    ChainedIsIncreasing(g);
    forall c | c in g ensures InGrid(c, n) {
      var p :| 0 <= p < |g| && g[p] == c;
    }
    forall c | InGrid(c, n) ensures c in g {
      var p := GridCellsHas(n, n, c);
      assert g[p] == c;
    }
  }

  /** Mathf.RoundToInt(1f / normalizedVoxelSize): the voxels per axis. */
  function VoxelsPerAxis(fraction: real): (n: nat)
    requires fraction > 0.0
    ensures fraction <= 1.0 ==> n >= 1
    ensures n as real <= 1.0 / fraction + 0.5
  {
    var inverse := 1.0 / fraction;
    assert fraction <= 1.0 ==> inverse >= 1.0 by {
      if fraction <= 1.0 {
        assert inverse * fraction == 1.0;
      }
    }
    RoundToInt(inverse)
  }

  /** C#'s unchecked int multiplication: the product wrapped into [-2^31, 2^31). */
  function Int32Mul(a: int, b: int): (r: int)
    ensures -0x8000_0000 <= r < 0x8000_0000
    ensures (r - a * b) % 0x1_0000_0000 == 0
    ensures -0x8000_0000 <= a * b < 0x8000_0000 ==> r == a * b
  {
    (a * b + 0x8000_0000) % 0x1_0000_0000 - 0x8000_0000
  }

  /** The capacity handed to new List<Vector3>(...): count * count * count in int32 arithmetic. */
  function ListCapacity(count: int): int {
    Int32Mul(Int32Mul(count, count), count)
  }

  /** The capacity wraps negative, so constructing the list throws ArgumentOutOfRangeException. */
  predicate CapacityOverflows(fraction: real)
    requires fraction > 0.0
  {
    ListCapacity(VoxelsPerAxis(fraction)) < 0
  }

  lemma MulBoth(a: int, b: int, c: int, d: int)
    requires 0 <= a <= c && 0 <= b <= d
    ensures a * b <= c * d
  {
    assert a * b <= c * b;
    assert c * b <= c * d;
  }

  /** Up to 1290 voxels per axis the int32 cube is exact: 1290^3 = 2146689000 < 2^31. */
  lemma CubeFits(n: int)
    requires 0 <= n <= 1290
    ensures ListCapacity(n) == n * n * n
  {
    MulBoth(n, n, 1290, 1290);
    assert Int32Mul(n, n) == n * n;
    MulBoth(n * n, n, 1290 * 1290, 1290);
  }

  /** A normalized voxel size of at least 1/1290 gives at most 1290 voxels per axis. */
  lemma CountAtMost1290(fraction: real)
    requires fraction > 0.0 && fraction * 1290.0 >= 1.0
    ensures VoxelsPerAxis(fraction) <= 1290
  {
    var inverse := 1.0 / fraction;
    assert inverse * fraction == 1.0;
    assert inverse * (fraction * 1290.0) >= inverse;
    assert inverse <= 1290.0;
  }

  /**
   * For a normalized voxel size of at least 1/1290 the capacity is the exact
   * cube of the count, so the list is created.
   */
  lemma CapacityFits(fraction: real)
    requires fraction > 0.0 && fraction * 1290.0 >= 1.0
    ensures var n := VoxelsPerAxis(fraction); ListCapacity(n) == n * n * n
    ensures !CapacityOverflows(fraction)
  {
    var n := VoxelsPerAxis(fraction);
    CountAtMost1290(fraction);
    CubeFits(n);
    assert n * n * n >= 0 by {
      assert n * n >= 0;
      MulBoth(0, 0, n * n, n);
    }
  }

  /**
   * A normalized voxel size of 0.0005 gives 2000 voxels per axis, and
   * 2000^3 wraps to -589934592.
   */
  lemma CapacityOverflowsAtSmallSize()
    ensures VoxelsPerAxis(0.0005) == 2000
    ensures ListCapacity(2000) == -589934592
    ensures CapacityOverflows(0.0005)
  {
    assert 1.0 / 0.0005 == 2000.0;
    assert RoundToInt(2000.0) == 2000;
    assert Int32Mul(2000, 2000) == 4000000;
    assert Int32Mul(4000000, 2000) == -589934592;
  }

  /** voxelSize: the bounds' size scaled by the normalized voxel size, per axis. */
  function VoxelSize(b: Bounds, fraction: real): Vec3 {
    Vec3(b.size.x * fraction, b.size.y * fraction, b.size.z * fraction)
  }

  /** Distance from the bounds' minimum to the centre of voxel idx along one axis. */
  function CentreOffset(voxel: real, idx: int): real {
    voxel * (0.5 + idx as real)
  }

  /** The centre of cell c: half a voxel in from the bounds' minimum, then whole voxels. */
  function Candidate(b: Bounds, size: Vec3, c: Cell): Vec3 {
    Vec3(b.min.x + CentreOffset(size.x, c.i),
         b.min.y + CentreOffset(size.y, c.j),
         b.min.z + CentreOffset(size.z, c.k))
  }

  /** One axis of CandidateWithinBounds. */
  lemma AxisWithin(lo: real, extent: real, fraction: real, idx: int, n: nat)
    requires fraction > 0.0 && extent >= 0.0
    requires 0 <= idx < n && n as real <= 1.0 / fraction + 0.5
    ensures lo <= lo + CentreOffset(extent * fraction, idx) <= lo + extent
  {
    var t := fraction * (0.5 + idx as real);
    assert 0.5 + idx as real <= 1.0 / fraction;
    assert t <= fraction * (1.0 / fraction);
    assert t <= 1.0;
    MulNonNeg(extent, t);
    MulNonNeg(extent, 1.0 - t);
    assert (extent * fraction) * (0.5 + idx as real) == extent * t;
  }

  /** The three axes of CandidateWithinBounds, for any count n within 1 / fraction + 1/2. */
  lemma CandidateWithin(b: Bounds, fraction: real, n: nat, c: Cell)
    requires fraction > 0.0 && n as real <= 1.0 / fraction + 0.5
    requires b.size.x >= 0.0 && b.size.y >= 0.0 && b.size.z >= 0.0
    requires InGrid(c, n)
    ensures var p := Candidate(b, VoxelSize(b, fraction), c);
      && b.min.x <= p.x <= b.min.x + b.size.x
      && b.min.y <= p.y <= b.min.y + b.size.y
      && b.min.z <= p.z <= b.min.z + b.size.z
  {
    AxisWithin(b.min.x, b.size.x, fraction, c.i, n);
    AxisWithin(b.min.y, b.size.y, fraction, c.j, n);
    AxisWithin(b.min.z, b.size.z, fraction, c.k, n);
  }

  /**
   * Under exact arithmetic every candidate centre of the grid lies within
   * the bounds on each axis.
   */
  lemma CandidateWithinBounds(b: Bounds, fraction: real, c: Cell)
    requires fraction > 0.0
    requires b.size.x >= 0.0 && b.size.y >= 0.0 && b.size.z >= 0.0
    requires InGrid(c, VoxelsPerAxis(fraction))
    ensures var p := Candidate(b, VoxelSize(b, fraction), c);
      && b.min.x <= p.x <= b.min.x + b.size.x
      && b.min.y <= p.y <= b.min.y + b.size.y
      && b.min.z <= p.z <= b.min.z + b.size.z
  {
    CandidateWithin(b, fraction, VoxelsPerAxis(fraction), c);
  }

  /**
   * IsPointInsideCollider: a ray from the point toward the collider's origin,
   * as long as the bounds' diagonal, rejects the point exactly when the first
   * collider it hits is this one.
   */
  predicate IsPointInsideCollider<C(==)>(e: Engine<C>, own: C, b: Bounds, point: Vec3) {
    var rayLength := e.magnitude(b.size);
    var ray := Ray(point, Sub(e.colliderOrigin, point));
    match e.raycast(ray, rayLength)
    case Some(hit) => hit != own
    case None => true
  }

  /** Everything one voxelization pass works with, fixed for the pass. */
  datatype Scan<C> = Scan(engine: Engine<C>, own: C, bounds: Bounds, size: Vec3)

  predicate Accepted<C(==)>(sc: Scan<C>, c: Cell) {
    IsPointInsideCollider(sc.engine, sc.own, sc.bounds, Candidate(sc.bounds, sc.size, c))
  }

  /** The stored voxel of cell c: its centre in the body's local space at identity rotation. */
  function LocalPoint<C>(sc: Scan<C>, c: Cell): Vec3 {
    sc.engine.inverseTransformPoint(Identity, Candidate(sc.bounds, sc.size, c))
  }

  /** The voxels the scan keeps from the given cells, in their order. */
  function Kept<C(==)>(sc: Scan<C>, cells: seq<Cell>): seq<Vec3> {
    if |cells| == 0 then []
    else
      var last := cells[|cells| - 1];
      Kept(sc, cells[..|cells| - 1]) + (if Accepted(sc, last) then [LocalPoint(sc, last)] else [])
  }

  lemma {:induction false} KeptAppend<C>(sc: Scan<C>, a: seq<Cell>, b: seq<Cell>)
    ensures Kept(sc, a + b) == Kept(sc, a) + Kept(sc, b)
    decreases |b|
  {
    if |b| == 0 {
      assert a + b == a;
    } else {
      var b' := b[..|b| - 1];
      assert (a + b)[..|a + b| - 1] == a + b';
      assert (a + b)[|a + b| - 1] == b[|b| - 1];
      KeptAppend(sc, a, b');
    }
  }

  /** Scanning one more cell appends its voxel exactly when it is accepted. */
  lemma KeptExtend<C>(sc: Scan<C>, visited: seq<Cell>, c: Cell)
    ensures Kept(sc, visited + [c]) == Kept(sc, visited) + (if Accepted(sc, c) then [LocalPoint(sc, c)] else [])
  {
    assert (visited + [c])[..|visited|] == visited;
  }

  lemma {:induction false} KeptLength<C>(sc: Scan<C>, cells: seq<Cell>)
    ensures |Kept(sc, cells)| <= |cells|
  {
    if |cells| > 0 {
      KeptLength(sc, cells[..|cells| - 1]);
    }
  }

  /** v is the local point of some accepted cell among the given ones. */
  ghost predicate FromAccepted<C>(sc: Scan<C>, cells: seq<Cell>, v: Vec3) {
    exists p :: 0 <= p < |cells| && Accepted(sc, cells[p]) && v == LocalPoint(sc, cells[p])
  }

  /** Every kept voxel is the local point of some accepted cell. */
  lemma {:induction false} KeptSound<C>(sc: Scan<C>, cells: seq<Cell>)
    ensures forall m :: 0 <= m < |Kept(sc, cells)| ==> FromAccepted(sc, cells, Kept(sc, cells)[m])
  {
    if |cells| > 0 {
      var init, last := cells[..|cells| - 1], cells[|cells| - 1];
      KeptSound(sc, init);
      var r := Kept(sc, cells);
      assert r == Kept(sc, init) + (if Accepted(sc, last) then [LocalPoint(sc, last)] else []);
      forall m | 0 <= m < |r| ensures FromAccepted(sc, cells, r[m]) {
        if m < |Kept(sc, init)| {
          assert FromAccepted(sc, init, Kept(sc, init)[m]);
          var p :| 0 <= p < |init| && Accepted(sc, init[p]) && Kept(sc, init)[m] == LocalPoint(sc, init[p]);
          assert cells[p] == init[p];
        } else {
          var p := |cells| - 1;
          assert Accepted(sc, cells[p]) && r[m] == LocalPoint(sc, cells[p]);
        }
      }
    }
  }

  /**
   * An accepted cell p yields a voxel, and it sits right after the voxels of
   * the cells before p: so the output keeps the scan order.
   */
  lemma KeptPosition<C>(sc: Scan<C>, cells: seq<Cell>, p: int)
    requires 0 <= p < |cells| && Accepted(sc, cells[p])
    ensures |Kept(sc, cells[..p])| < |Kept(sc, cells)|
    ensures Kept(sc, cells)[|Kept(sc, cells[..p])|] == LocalPoint(sc, cells[p])
  {
    assert cells == cells[..p + 1] + cells[p + 1..];
    KeptAppend(sc, cells[..p + 1], cells[p + 1..]);
    assert cells[..p + 1][..p] == cells[..p];
  }

  /** The voxels of a longer prefix include those of a shorter one, plus the shorter's last accepted cell. */
  lemma KeptPrefixGrows<C>(sc: Scan<C>, cells: seq<Cell>, p: int, q: int)
    requires 0 <= p < q <= |cells|
    ensures |Kept(sc, cells[..p])| + (if Accepted(sc, cells[p]) then 1 else 0) <= |Kept(sc, cells[..q])|
  {
    assert cells[..q] == cells[..p + 1] + cells[p + 1..q];
    KeptAppend(sc, cells[..p + 1], cells[p + 1..q]);
    assert cells[..p + 1][..p] == cells[..p];
  }

  /** The pass over the grid, at identity rotation, that CutIntoVoxels performs. */
  function ScanAtIdentity<C>(e: Engine<C>, own: C, fraction: real): Scan<C> {
    var b := e.boundsAt(Identity);
    Scan(e, own, b, VoxelSize(b, fraction))
  }

  /** The voxels CutIntoVoxels returns. */
  function Voxelize<C(==)>(e: Engine<C>, own: C, fraction: real): seq<Vec3>
    requires fraction > 0.0
  {
    Kept(ScanAtIdentity(e, own, fraction), Grid(VoxelsPerAxis(fraction)))
  }

  lemma RowStep(visited: seq<Cell>, i: int, j: int, k: nat)
    ensures visited + RowCells(i, j, k + 1) == (visited + RowCells(i, j, k)) + [Cell(i, j, k)]
  {
  }

  lemma PlaneStep(visited: seq<Cell>, n: nat, i: int, j: nat)
    ensures visited + PlaneCells(n, i, j + 1) == (visited + PlaneCells(n, i, j)) + RowCells(i, j, n)
  {
  }

  /**
   * The innermost loop of CutIntoVoxels: walk k over row (i, j) and append
   * the local point of every cell whose centre is inside the collider.
   */
  method ScanRow<C(==)>(sc: Scan<C>, n: nat, i: int, j: int, ghost visited: seq<Cell>, start: seq<Vec3>)
    returns (voxels: seq<Vec3>)
    requires start == Kept(sc, visited)
    ensures voxels == Kept(sc, visited + RowCells(i, j, n))
  {
    voxels := start;
    assert visited + RowCells(i, j, 0) == visited;
    var k := 0;
    while k < n
      invariant 0 <= k <= n
      invariant voxels == Kept(sc, visited + RowCells(i, j, k))
    {
      // pX, pY, pZ: half a voxel in from bounds.min, then i, j, k whole voxels
      var point := Candidate(sc.bounds, sc.size, Cell(i, j, k));
      ghost var done := visited + RowCells(i, j, k);
      KeptExtend(sc, done, Cell(i, j, k));
      if IsPointInsideCollider(sc.engine, sc.own, sc.bounds, point) {
        voxels := voxels + [sc.engine.inverseTransformPoint(Identity, point)];
      }
      RowStep(visited, i, j, k);
      k := k + 1;
    }
  }

  /** The middle loop of CutIntoVoxels: walk j over plane i, one row at a time. */
  method ScanPlane<C(==)>(sc: Scan<C>, n: nat, i: int, ghost visited: seq<Cell>, start: seq<Vec3>)
    returns (voxels: seq<Vec3>)
    requires start == Kept(sc, visited)
    ensures voxels == Kept(sc, visited + PlaneCells(n, i, n))
  {
    voxels := start;
    assert visited + PlaneCells(n, i, 0) == visited;
    var j := 0;
    while j < n
      invariant 0 <= j <= n
      invariant voxels == Kept(sc, visited + PlaneCells(n, i, j))
    {
      ghost var done := visited + PlaneCells(n, i, j);
      voxels := ScanRow(sc, n, i, j, done, voxels);
      PlaneStep(visited, n, i, j);
      j := j + 1;
    }
  }

  /**
   * The outer loop of CutIntoVoxels: walk i over the n planes of the grid,
   * visiting the cells in lexicographic order.
   */
  method ScanGrid<C(==)>(sc: Scan<C>, n: nat) returns (voxels: seq<Vec3>)
    ensures voxels == Kept(sc, Grid(n))
  {
    voxels := [];
    var i := 0;
    while i < n
      invariant 0 <= i <= n
      invariant voxels == Kept(sc, GridCells(n, i))
    {
      voxels := ScanPlane(sc, n, i, GridCells(n, i), voxels);
      i := i + 1;
    }
  }

  /**
   * The voxels are exactly the local points of the accepted grid cells: at
   * most count^3 of them, every accepted cell contributes one, and every
   * voxel comes from an accepted cell of the grid.
   */
  lemma VoxelizeExactly<C>(e: Engine<C>, own: C, fraction: real)
    requires fraction > 0.0
    ensures var n := VoxelsPerAxis(fraction); |Voxelize(e, own, fraction)| <= n * n * n
    ensures forall c :: InGrid(c, VoxelsPerAxis(fraction)) && Accepted(ScanAtIdentity(e, own, fraction), c) ==>
      LocalPoint(ScanAtIdentity(e, own, fraction), c) in Voxelize(e, own, fraction)
    ensures forall v :: v in Voxelize(e, own, fraction) ==>
      exists c :: InGrid(c, VoxelsPerAxis(fraction)) && Accepted(ScanAtIdentity(e, own, fraction), c) &&
        v == LocalPoint(ScanAtIdentity(e, own, fraction), c)
  {
    var n := VoxelsPerAxis(fraction);
    var sc := ScanAtIdentity(e, own, fraction);
    var grid := Grid(n);
    var r := Kept(sc, grid);
    GridIsLexicographicEnumeration(n);
    KeptLength(sc, grid);
    forall c | InGrid(c, n) && Accepted(sc, c) ensures LocalPoint(sc, c) in r {
      assert c in grid;
      var p :| 0 <= p < |grid| && grid[p] == c;
      KeptPosition(sc, grid, p);
    }
    KeptSound(sc, grid);
    forall v | v in r
      ensures exists c :: InGrid(c, n) && Accepted(sc, c) && v == LocalPoint(sc, c)
    {
      var m :| 0 <= m < |r| && r[m] == v;
      assert FromAccepted(sc, grid, r[m]);
      var p :| 0 <= p < |grid| && Accepted(sc, grid[p]) && r[m] == LocalPoint(sc, grid[p]);
      assert grid[p] in grid;
    }
  }

  /** When every cell is accepted, the scan keeps the local point of each, in order. */
  lemma {:induction false} KeptAllAccepted<C>(sc: Scan<C>, cells: seq<Cell>)
    requires forall m :: 0 <= m < |cells| ==> Accepted(sc, cells[m])
    ensures |Kept(sc, cells)| == |cells|
    ensures forall m :: 0 <= m < |cells| ==> Kept(sc, cells)[m] == LocalPoint(sc, cells[m])
  {
    if |cells| > 0 {
      var init := cells[..|cells| - 1];
      KeptAllAccepted(sc, init);
      assert Accepted(sc, cells[|cells| - 1]);
      forall m | 0 <= m < |init| ensures init[m] == cells[m] { }
    }
  }

  /** When no cell is accepted, the scan keeps nothing. */
  lemma {:induction false} KeptNoneAccepted<C>(sc: Scan<C>, cells: seq<Cell>)
    requires forall m :: 0 <= m < |cells| ==> !Accepted(sc, cells[m])
    ensures Kept(sc, cells) == []
  {
    if |cells| > 0 {
      var init := cells[..|cells| - 1];
      forall m | 0 <= m < |init| ensures init[m] == cells[m] { }
      KeptNoneAccepted(sc, init);
      assert !Accepted(sc, cells[|cells| - 1]);
    }
  }

  /** A cell is accepted whenever the ray cast cannot report the body's own collider. */
  lemma AcceptedWhenRayNeverHitsItself<C>(sc: Scan<C>, c: Cell)
    requires forall r: Ray, l: real :: sc.engine.raycast(r, l) != Some(sc.own)
    ensures Accepted(sc, c)
  {
    var point := Candidate(sc.bounds, sc.size, c);
    var ray := Ray(point, Sub(sc.engine.colliderOrigin, point));
    var length := sc.engine.magnitude(sc.bounds.size);
    assert sc.engine.raycast(ray, length) != Some(sc.own);
  }

  /** A cell is rejected whenever the ray cast always reports the body's own collider. */
  lemma RejectedWhenRayAlwaysHitsItself<C>(sc: Scan<C>, c: Cell)
    requires forall r: Ray, l: real :: sc.engine.raycast(r, l) == Some(sc.own)
    ensures !Accepted(sc, c)
  {
    var point := Candidate(sc.bounds, sc.size, c);
    var ray := Ray(point, Sub(sc.engine.colliderOrigin, point));
    var length := sc.engine.magnitude(sc.bounds.size);
    assert sc.engine.raycast(ray, length) == Some(sc.own);
  }

  /**
   * If the ray cast never reports the body's own collider, every grid centre
   * counts as inside: the scan keeps all count^3 of them, in grid order.
   */
  lemma VoxelizeWhenRayNeverHitsItself<C>(e: Engine<C>, own: C, fraction: real)
    requires fraction > 0.0
    requires forall r: Ray, l: real :: e.raycast(r, l) != Some(own)
    ensures |Voxelize(e, own, fraction)| == |Grid(VoxelsPerAxis(fraction))|
    ensures var n := VoxelsPerAxis(fraction); |Voxelize(e, own, fraction)| == n * n * n
    ensures forall m :: 0 <= m < |Voxelize(e, own, fraction)| ==>
      Voxelize(e, own, fraction)[m] == LocalPoint(ScanAtIdentity(e, own, fraction), Grid(VoxelsPerAxis(fraction))[m])
  {
    var n := VoxelsPerAxis(fraction);
    var sc := ScanAtIdentity(e, own, fraction);
    var grid := Grid(n);
    GridCellsLength(n, n);
    CubeAssoc(n);
    forall m | 0 <= m < |grid| ensures Accepted(sc, grid[m]) {
      AcceptedWhenRayNeverHitsItself(sc, grid[m]);
    }
    KeptAllAccepted(sc, grid);
  }

  /**
   * If the ray cast always reports the body's own collider first, every grid
   * centre counts as outside and the scan keeps no voxel.
   */
  lemma VoxelizeWhenRayAlwaysHitsItself<C>(e: Engine<C>, own: C, fraction: real)
    requires fraction > 0.0
    requires forall r: Ray, l: real :: e.raycast(r, l) == Some(own)
    ensures Voxelize(e, own, fraction) == []
  {
    var sc := ScanAtIdentity(e, own, fraction);
    var grid := Grid(VoxelsPerAxis(fraction));
    forall m | 0 <= m < |grid| ensures !Accepted(sc, grid[m]) {
      RejectedWhenRayAlwaysHitsItself(sc, grid[m]);
    }
    KeptNoneAccepted(sc, grid);
  }
}
