/**
 * The five destination generators, one per bug type, and the dispatch on
 * the bug type. Each generator works on the board as it is, with the moving
 * piece still on its original cell, and on the current frontier.
 */
module BugMoves {
  import opened Wrappers
  import opened Common
  import opened HexUtilities
  import opened BugTiles
  import opened HiveIntegrity
  import opened SpiderSearch

  /** The two gates of the walking bugs: the one-hive rule and freedom to move. */
  ghost predicate CanLeave(m: HexTileMap, origin: HexCords) {
    HiveStaysConnected(m, origin) && FreedomToMove(m, origin)
  }

  // ---------------------------------------------------------------- QueenBee

  /**
   * The Queen steps to an empty frontier neighbour that touches at least two
   * pieces; the Queen itself, still on the origin, is one of them.
   */
  ghost predicate IsQueenBeeMoveSet(m: HexTileMap, frontier: set<HexCords>, origin: HexCords, r: set<HexCords>) {
    if CanLeave(m, origin) then
      forall c :: c in r <==> c in EmptyNeighbors(m, origin) && c in frontier && |OccupiedNeighbors(m, c)| >= 2
    else r == {}
  }

  method QueenBeeMove(m: HexTileMap, frontier: set<HexCords>, origin: HexCords) returns (r: set<HexCords>)
    ensures IsQueenBeeMoveSet(m, frontier, origin, r)
  {
    var connected := CheckIntegrityOfHiveWithoutOneTile(m, origin);
    if !connected || !FreedomToMove(m, origin) {
      return {};
    }
    var neighbors := EmptyNeighbors(m, origin);
    r := set item | item in neighbors && item in frontier;
    r := RemovePossibleMovesAroundTileInPlace(m, r, origin);
  }

  /**
   * A Queen destination is one step away, in the frontier, and after the
   * step the Queen still touches a piece other than itself.
   */
  lemma QueenBeeKeepsContact(m: HexTileMap, frontier: set<HexCords>, origin: HexCords, r: set<HexCords>, c: HexCords)
    requires IsOccupied(m, origin) && IsQueenBeeMoveSet(m, frontier, origin, r) && c in r
    ensures c in Neighbors(origin) && c in frontier && IsEmptyCell(m, c)
    ensures origin in OccupiedNeighbors(m, c)
    ensures exists n :: n in OccupiedNeighbors(m, c) && n != origin
  {
    AdjacencyIsSymmetric(origin, c);
    var occ := OccupiedNeighbors(m, c);
    if forall n :: n in occ ==> n == origin {
      assert occ <= {origin};
      SubsetCardinality(occ, {origin});
      assert false;
    }
  }

  // ---------------------------------------------------------------- Beetle

  /**
   * A Beetle that carries a piece may go to any of the six neighbours. One
   * that carries nothing must pass the one-hive rule (there is no freedom to
   * move gate) and then may go to any neighbour except an empty board cell
   * with at most one occupied neighbour.
   */
  ghost predicate IsBeetleMoveSet(m: HexTileMap, origin: HexCords, carrying: bool, r: set<HexCords>) {
    if carrying then r == Neighbors(origin)
    else if HiveStaysConnected(m, origin) then
      forall c :: c in r <==> c in Neighbors(origin) && (IsEmptyCell(m, c) ==> |OccupiedNeighbors(m, c)| >= 2)
    else r == {}
  }

  method BeetleMove(m: HexTileMap, origin: HexCords, carried: Option<PieceId>) returns (r: set<HexCords>)
    ensures IsBeetleMoveSet(m, origin, carried.Some?, r)
    ensures (carried.Some? || HiveStaysConnected(m, origin)) ==> OccupiedNeighbors(m, origin) <= r
  {
    if carried.None? {
      var connected := CheckIntegrityOfHiveWithoutOneTile(m, origin);
      if !connected {
        return {};
      }
    }
    r := Neighbors(origin);
    if carried.None? {
      r := RemovePossibleMovesAroundTileInPlace(m, r, origin);
    }
  }

  // ---------------------------------------------------------------- Grasshopper

  /** The cell k steps from `origin` in direction `d`. */
  function Ray(origin: HexCords, d: HexCords, k: nat): HexCords {
    if k == 0 then origin else Add(Ray(origin, d, k - 1), d)
  }

  /**
   * `c` is where the Grasshopper lands jumping along `d`: it passes over at
   * least one piece, every cell it passes over holds one, and `c` does not
   * (it is empty or off the board).
   */
  ghost predicate IsLanding(m: HexTileMap, origin: HexCords, d: HexCords, c: HexCords) {
    exists k :: k >= 2 && c == Ray(origin, d, k) && !IsOccupied(m, Ray(origin, d, k))
      && forall j :: 1 <= j < k ==> IsOccupied(m, Ray(origin, d, j))
  }

  ghost predicate IsGrasshopperMoveSet(m: HexTileMap, origin: HexCords, r: set<HexCords>) {
    if HiveStaysConnected(m, origin) then
      forall c :: c in r <==> exists i :: 0 <= i < |Directions| && IsLanding(m, origin, Directions[i], c)
    else r == {}
  }

  /** Progress along a unit step `d`: grows by at least one with each step along `d`. */
  function Along(c: HexCords, d: HexCords): int {
    (if d.q > 0 then c.q else if d.q < 0 then -c.q else 0) +
    (if d.r > 0 then c.r else if d.r < 0 then -c.r else 0)
  }

  /** The board cells not behind `pos` along `d`; the jump loop shrinks this set. */
  function CellsAhead(m: HexTileMap, pos: HexCords, d: HexCords): set<HexCords> {
    set c | c in m && Along(c, d) >= Along(pos, d)
  }

  lemma StepShrinksCellsAhead(m: HexTileMap, pos: HexCords, d: HexCords)
    requires IsUnitStep(d) && pos in m
    ensures |CellsAhead(m, Add(pos, d), d)| < |CellsAhead(m, pos, d)|
  {
    StrictSubsetCardinality(CellsAhead(m, Add(pos, d), d), CellsAhead(m, pos, d), pos);
  }

  /** A jump along `d` has at most one landing cell. */
  lemma LandingIsUnique(m: HexTileMap, origin: HexCords, d: HexCords, c1: HexCords, c2: HexCords)
    requires IsLanding(m, origin, d, c1) && IsLanding(m, origin, d, c2)
    ensures c1 == c2
  {
    var k1 :| k1 >= 2 && c1 == Ray(origin, d, k1) && !IsOccupied(m, Ray(origin, d, k1))
      && forall j :: 1 <= j < k1 ==> IsOccupied(m, Ray(origin, d, j));
    var k2 :| k2 >= 2 && c2 == Ray(origin, d, k2) && !IsOccupied(m, Ray(origin, d, k2))
      && forall j :: 1 <= j < k2 ==> IsOccupied(m, Ray(origin, d, j));
    if k1 < k2 {
      assert false;
    } else if k2 < k1 {
      assert false;
    }
  }

  /** With no piece right next to the origin along `d` there is nothing to jump over. */
  lemma NoLandingWithoutNeighbor(m: HexTileMap, origin: HexCords, d: HexCords, c: HexCords)
    requires !IsOccupied(m, Add(origin, d))
    ensures !IsLanding(m, origin, d, c)
  {
    assert Ray(origin, d, 1) == Add(origin, d);
  }

  /**
   * The jump loop along one direction stopped at the k-th cell: the cells
   * before it hold pieces and it does not. Then the k-th cell is the only
   * landing when k >= 2, and there is none when k == 1.
   */
  lemma JumpStopped(m: HexTileMap, origin: HexCords, d: HexCords, k: nat)
    requires k >= 1 && !IsOccupied(m, Ray(origin, d, k))
    requires forall j :: 1 <= j < k ==> IsOccupied(m, Ray(origin, d, j))
    ensures forall c :: IsLanding(m, origin, d, c) <==> k >= 2 && c == Ray(origin, d, k)
  {
    forall c | IsLanding(m, origin, d, c) ensures k >= 2 && c == Ray(origin, d, k) {
      if k == 1 {
        NoLandingWithoutNeighbor(m, origin, d, c);
      } else {
        assert IsLanding(m, origin, d, Ray(origin, d, k));
        LandingIsUnique(m, origin, d, c, Ray(origin, d, k));
      }
    }
  }

  method GrasshopperMove(m: HexTileMap, origin: HexCords) returns (r: set<HexCords>)
    ensures IsGrasshopperMoveSet(m, origin, r)
  {
    var connected := CheckIntegrityOfHiveWithoutOneTile(m, origin);
    if !connected {
      return {};
    }
    r := {};
    for i := 0 to |Directions|
      invariant forall c :: c in r <==> exists j :: 0 <= j < i && IsLanding(m, origin, Directions[j], c)
    {
      var v := Directions[i];
      DirectionsAreTheUnitSteps(v);
      var pos := Add(origin, v);
      var moved := false;
      ghost var k: nat := 1;
      while pos in m && m[pos].Some?
        invariant k >= 1 && pos == Ray(origin, v, k) && (moved <==> k >= 2)
        invariant forall j :: 1 <= j < k ==> IsOccupied(m, Ray(origin, v, j))
        decreases |CellsAhead(m, pos, v)|
      {
        StepShrinksCellsAhead(m, pos, v);
        pos := AddAssign(pos, v);
        k := k + 1;
        moved := true;
      }
      JumpStopped(m, origin, v, k);
      if moved {
        r := r + {pos};
      }
    }
  }

  // ---------------------------------------------------------------- SoldierAnt

  /** The Ant may go to any frontier cell that is not surrounded. */
  ghost predicate IsSoldierAntMoveSet(m: HexTileMap, frontier: set<HexCords>, origin: HexCords, r: set<HexCords>) {
    if CanLeave(m, origin) then
      forall c :: c in r <==> c in frontier && |OccupiedNeighbors(m, c)| <= 4
    else r == {}
  }

  method SoldierAntMove(m: HexTileMap, frontier: set<HexCords>, origin: HexCords) returns (r: set<HexCords>)
    ensures IsSoldierAntMoveSet(m, frontier, origin, r)
  {
    var connected := CheckIntegrityOfHiveWithoutOneTile(m, origin);
    if !connected || !FreedomToMove(m, origin) {
      return {};
    }
    r := set hex | hex in frontier && !IsSpaceSurrounded(m, hex);
  }

  // ---------------------------------------------------------------- Spider

  /** The Spider goes to the frontier cells exactly three steps away. */
  ghost predicate IsSpiderMoveSet(m: HexTileMap, frontier: set<HexCords>, origin: HexCords, r: set<HexCords>) {
    if CanLeave(m, origin) then r == Layer(m, frontier, origin, 3) else r == {}
  }

  method SpiderMove(m: HexTileMap, frontier: set<HexCords>, origin: HexCords) returns (r: set<HexCords>)
    ensures IsSpiderMoveSet(m, frontier, origin, r)
    ensures r <= frontier && origin !in r
  {
    var connected := CheckIntegrityOfHiveWithoutOneTile(m, origin);
    if !connected || !FreedomToMove(m, origin) {
      return {};
    }
    r := FindPositionThreeSpacesFromOrigin(m, frontier, origin);
    SpiderDestinationsAreNew(m, frontier, origin);
  }

  /** A Spider destination is a frontier cell whose shortest walk from the origin takes exactly three steps. */
  lemma SpiderMovesAreThreeStepsAway(m: HexTileMap, frontier: set<HexCords>, origin: HexCords,
                                     r: set<HexCords>, c: HexCords)
    requires CanLeave(m, origin) && IsSpiderMoveSet(m, frontier, origin, r)
    ensures c in r <==> WithinSteps(m, frontier, origin, c, 3) && !WithinSteps(m, frontier, origin, c, 2)
  {
    SpiderDestinationsAtDistanceThree(m, frontier, origin, c);
  }

  // ---------------------------------------------------------------- Dispatch

  /** The destination set each bug type's rule allows. */
  ghost predicate IsLegalMoveSet(bug: BugType, m: HexTileMap, frontier: set<HexCords>, origin: HexCords,
                                 carried: Option<PieceId>, r: set<HexCords>)
  {
    match bug
    case QueenBee => IsQueenBeeMoveSet(m, frontier, origin, r)
    case Beetle => IsBeetleMoveSet(m, origin, carried.Some?, r)
    case Grasshopper => IsGrasshopperMoveSet(m, origin, r)
    case SoldierAnt => IsSoldierAntMoveSet(m, frontier, origin, r)
    case Spider => IsSpiderMoveSet(m, frontier, origin, r)
  }

  /** The virtual `Move` of the source: the bug type of the piece picks the generator. */
  method Move(bug: BugType, m: HexTileMap, frontier: set<HexCords>, origin: HexCords, carried: Option<PieceId>)
    returns (r: set<HexCords>)
    ensures IsLegalMoveSet(bug, m, frontier, origin, carried, r)
  {
    match bug
    case QueenBee => r := QueenBeeMove(m, frontier, origin);
    case Beetle => r := BeetleMove(m, origin, carried);
    case Grasshopper => r := GrasshopperMove(m, origin);
    case SoldierAnt => r := SoldierAntMove(m, frontier, origin);
    case Spider => r := SpiderMove(m, frontier, origin);
  }

  /** Only the Beetle and the Grasshopper can leave the frontier; each can leave the board too. */
  lemma FrontierBoundMoves(bug: BugType, m: HexTileMap, frontier: set<HexCords>, origin: HexCords,
                           carried: Option<PieceId>, r: set<HexCords>)
    requires IsLegalMoveSet(bug, m, frontier, origin, carried, r)
    requires bug != Beetle && bug != Grasshopper
    ensures r <= frontier
  {
    if bug == Spider && CanLeave(m, origin) {
      SpiderDestinationsAreNew(m, frontier, origin);
    }
  }
}
