/**
 * Axial hex coordinates, the six direction vectors and the neighbour
 * queries over a board.
 */
module HexUtilities {
  import opened Wrappers
  import opened Common

  /** An axial coordinate (q, r) of a hexagonal cell. */
  datatype HexCords = HexCords(q: int, r: int)

  /** Pieces are referred to by their index in the engine's piece arena. */
  type PieceId = nat

  /**
   * The board: every cell of the generated map, holding the visible piece or
   * nothing. A coordinate that is not a key is off the board.
   */
  type HexTileMap = map<HexCords, Option<PieceId>>

  /** The key order of the board: lexicographic on (q, r). */
  predicate Less(a: HexCords, b: HexCords) {
    a.q < b.q || (a.q == b.q && a.r < b.r)
  }

  lemma LessIsStrictTotalOrder(a: HexCords, b: HexCords, c: HexCords)
    ensures !Less(a, a)
    ensures Less(a, b) && Less(b, c) ==> Less(a, c)
    ensures a != b ==> (Less(a, b) <==> !Less(b, a))
    ensures a == b ==> !Less(a, b) && !Less(b, a)
  {
  }

  function Add(a: HexCords, b: HexCords): HexCords {
    HexCords(a.q + b.q, a.r + b.r)
  }

  /** a - b, the offset that leads from b to a. */
  function Diff(a: HexCords, b: HexCords): HexCords {
    HexCords(a.q - b.q, a.r - b.r)
  }

  /** Compound addition: `a` is updated component by component. */
  method AddAssign(a: HexCords, b: HexCords) returns (res: HexCords)
    ensures res == Add(a, b)
    ensures Diff(res, a) == b
  {
    res := a;
    res := res.(q := res.q + b.q);
    res := res.(r := res.r + b.r);
  }

  /** The six axial direction vectors, in the order of the source's table. */
  const Directions: seq<HexCords> :=
    [HexCords(-1, 1), HexCords(1, -1), HexCords(1, 0), HexCords(-1, 0), HexCords(0, -1), HexCords(0, 1)]

  /** A unit step on the hex grid: non-zero, and q, r and q + r all change by at most one. */
  predicate IsUnitStep(d: HexCords) {
    d != HexCords(0, 0) && -1 <= d.q <= 1 && -1 <= d.r <= 1 && -1 <= d.q + d.r <= 1
  }

  function Negate(d: HexCords): HexCords {
    HexCords(-d.q, -d.r)
  }

  /** Index of the opposite direction in the table. */
  function Opposite(i: nat): (j: nat)
    requires i < SizeOfAxialVectors
    ensures j < SizeOfAxialVectors && j != i
    ensures Directions[j] == Negate(Directions[i])
  {
    if i % 2 == 0 then i + 1 else i - 1
  }

  lemma DirectionsAreDistinct()
    ensures |Directions| == SizeOfAxialVectors
    ensures forall i, j :: 0 <= i < j < |Directions| ==> Directions[i] != Directions[j]
  {
  }

  /** The table holds exactly the unit steps of the hex grid. */
  lemma DirectionsAreTheUnitSteps(d: HexCords)
    ensures d in Directions <==> IsUnitStep(d)
  {
  }

  /** Every cell adjacent to `t`; the board plays no part. */
  function Neighbors(t: HexCords): (r: set<HexCords>)
    ensures |r| == SizeOfAxialVectors
    ensures t !in r
  {
    var s := set i | 0 <= i < |Directions| :: Add(t, Directions[i]);
    assert s == {Add(t, Directions[0]), Add(t, Directions[1]), Add(t, Directions[2]),
                 Add(t, Directions[3]), Add(t, Directions[4]), Add(t, Directions[5])};
    s
  }

  /** The six neighbours written out. */
  lemma NeighborsExplicit(t: HexCords)
    ensures Neighbors(t) == {HexCords(t.q - 1, t.r + 1), HexCords(t.q + 1, t.r - 1), HexCords(t.q + 1, t.r),
                             HexCords(t.q - 1, t.r), HexCords(t.q, t.r - 1), HexCords(t.q, t.r + 1)}
  {
    assert Neighbors(t) == {Add(t, Directions[0]), Add(t, Directions[1]), Add(t, Directions[2]),
                            Add(t, Directions[3]), Add(t, Directions[4]), Add(t, Directions[5])};
  }

  /** Neighbourhood is the same thing as being one unit step apart. */
  lemma NeighborsAreUnitSteps(t: HexCords, n: HexCords)
    ensures n in Neighbors(t) <==> IsUnitStep(Diff(n, t))
  {
    NeighborsExplicit(t);
  }

  lemma AdjacencyIsSymmetric(a: HexCords, b: HexCords)
    ensures b in Neighbors(a) <==> a in Neighbors(b)
  {
    NeighborsExplicit(a);
    NeighborsExplicit(b);
  }

  /** The cell is on the board and holds a piece. */
  predicate IsOccupied(m: HexTileMap, c: HexCords) {
    c in m && m[c].Some?
  }

  /** The cell is on the board and holds nothing. */
  predicate IsEmptyCell(m: HexTileMap, c: HexCords) {
    c in m && m[c].None?
  }

  function EmptyNeighbors(m: HexTileMap, t: HexCords): (r: set<HexCords>)
    ensures r <= Neighbors(t)
  {
    set n | n in Neighbors(t) && IsEmptyCell(m, n)
  }

  function OccupiedNeighbors(m: HexTileMap, t: HexCords): (r: set<HexCords>)
    ensures r <= Neighbors(t)
  {
    set n | n in Neighbors(t) && IsOccupied(m, n)
  }

  /** Counting the occupied neighbours is the same as looking for one. */
  lemma SomeNeighborOccupied(m: HexTileMap, t: HexCords)
    ensures |OccupiedNeighbors(m, t)| > 0 <==> exists n :: n in Neighbors(t) && IsOccupied(m, n)
  {
    var occ := OccupiedNeighbors(m, t);
    if |occ| > 0 {
      var n :| n in occ;
    }
    if exists n :: n in Neighbors(t) && IsOccupied(m, n) {
      var n :| n in Neighbors(t) && IsOccupied(m, n);
      assert n in occ;
    }
  }

  /**
   * The empty and the occupied neighbours split the on-board neighbours;
   * an off-board neighbour is in neither.
   */
  lemma NeighborQueriesPartition(m: HexTileMap, t: HexCords)
    ensures EmptyNeighbors(m, t) * OccupiedNeighbors(m, t) == {}
    ensures EmptyNeighbors(m, t) + OccupiedNeighbors(m, t) == Neighbors(t) * m.Keys
    ensures forall n :: n in Neighbors(t) && n !in m ==> n !in EmptyNeighbors(m, t) && n !in OccupiedNeighbors(m, t)
    ensures forall n :: n in EmptyNeighbors(m, t) ==> m[n] == None
    ensures forall n :: n in OccupiedNeighbors(m, t) ==> m[n].Some?
  {
  }

  /** Six occupied neighbours means every neighbour is an occupied board cell. */
  lemma SurroundedOnAllSides(m: HexTileMap, t: HexCords)
    ensures |OccupiedNeighbors(m, t)| == SizeOfAxialVectors <==> forall n :: n in Neighbors(t) ==> IsOccupied(m, n)
  {
    var o, all := OccupiedNeighbors(m, t), Neighbors(t);
    if forall n :: n in all ==> IsOccupied(m, n) {
      assert o == all;
    }
    if |o| == SizeOfAxialVectors {
      assert all == o + (all - o);
      assert o * (all - o) == {};
      assert all - o == {};
      forall n | n in all ensures IsOccupied(m, n) {
        assert n in o;
      }
    }
  }

  /** Subset cardinality, used by the termination measures. */
  lemma SubsetCardinality<T>(a: set<T>, b: set<T>)
    requires a <= b
    ensures |a| <= |b|
  {
    assert b == a + (b - a);
    assert a * (b - a) == {};
  }

  lemma StrictSubsetCardinality<T>(a: set<T>, b: set<T>, x: T)
    requires a <= b - {x} && x in b
    ensures |a| < |b|
  {
    SubsetCardinality(a, b - {x});
  }
}
