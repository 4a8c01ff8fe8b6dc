/**
 * Bug kinds, the data every piece carries, the Beetle's carry slot and the
 * rules shared by every bug: the gate tests, the placement filter and the
 * destination filter around a tile.
 */
module BugTiles {
  import opened Wrappers
  import opened Common
  import opened HexUtilities

  datatype BugType = QueenBee | Beetle | SoldierAnt | Spider | Grasshopper

  /** What identifies a piece: its kind and its owner (the colour is display only). */
  datatype TileData = TileData(bug: BugType, playerId: int)

  /** For each Beetle id, the piece it covers; a Beetle without an entry covers nothing. */
  type CarryMap = map<PieceId, Option<PieceId>>

  function GetTileUnderBeetle(carry: CarryMap, beetle: PieceId): (r: Option<PieceId>)
    ensures beetle !in carry ==> r == None
  {
    if beetle in carry then carry[beetle] else None
  }

  function SetTileUnderBeetle(carry: CarryMap, beetle: PieceId, tile: Option<PieceId>): (r: CarryMap)
    ensures beetle in r && r.Keys == carry.Keys + {beetle}
  {
    carry[beetle := tile]
  }

  /** The carry slot returns what was stored last, and storing for one Beetle leaves the others alone. */
  lemma GetAfterSet(carry: CarryMap, beetle: PieceId, tile: Option<PieceId>, other: PieceId)
    ensures GetTileUnderBeetle(SetTileUnderBeetle(carry, beetle, tile), beetle) == tile
    ensures other != beetle ==>
      GetTileUnderBeetle(SetTileUnderBeetle(carry, beetle, tile), other) == GetTileUnderBeetle(carry, other)
  {
  }

  /** The piece on cell `c` exists in the arena and belongs to `player`. */
  predicate OwnedBy(m: HexTileMap, pieces: seq<TileData>, c: HexCords, player: int) {
    IsOccupied(m, c) && m[c].value < |pieces| && pieces[m[c].value].playerId == player
  }

  function OccupiedCells(m: HexTileMap): (r: set<HexCords>)
    ensures forall c :: c in r <==> IsOccupied(m, c)
  {
    set c | c in m && m[c].Some?
  }

  /** No cell of the board holds a piece. */
  predicate IsMapClear(m: HexTileMap) {
    forall c :: c in m ==> m[c].None?
  }

  lemma MapClearIffNoOccupiedCell(m: HexTileMap)
    ensures IsMapClear(m) <==> OccupiedCells(m) == {}
  {
    if !IsMapClear(m) {
      var c :| c in m && m[c].Some?;
      assert c in OccupiedCells(m);
    }
  }

  /** A cell is surrounded when more than four of its neighbours hold a piece. */
  predicate IsSpaceSurrounded(m: HexTileMap, c: HexCords) {
    |OccupiedNeighbors(m, c)| > 4
  }

  predicate FreedomToMove(m: HexTileMap, c: HexCords) {
    !IsSpaceSurrounded(m, c)
  }

  /** Surrounded means that at most one side of the cell is not an occupied board cell. */
  lemma SurroundedMeansAtMostOneOpenSide(m: HexTileMap, c: HexCords)
    ensures IsSpaceSurrounded(m, c) <==> |Neighbors(c) - OccupiedNeighbors(m, c)| <= 1
    ensures FreedomToMove(m, c) <==> |Neighbors(c) - OccupiedNeighbors(m, c)| >= 2
  {
    var all, occ := Neighbors(c), OccupiedNeighbors(m, c);
    assert all == occ + (all - occ);
    assert occ * (all - occ) == {};
  }

  /**
   * The destination filter around `tile`: drops from `moves` every empty
   * neighbour of `tile` that has at most one occupied neighbour.
   */
  function RemovePossibleMovesAroundTile(m: HexTileMap, moves: set<HexCords>, tile: HexCords): (r: set<HexCords>)
    ensures r <= moves
    ensures forall y :: y in moves && y !in Neighbors(tile) ==> y in r
    ensures forall y :: y in moves && IsOccupied(m, y) ==> y in r
  {
    set y | y in moves && !(y in EmptyNeighbors(m, tile) && |OccupiedNeighbors(m, y)| <= 1)
  }

  /** The overload that erases from the caller's set, one empty neighbour of `tile` at a time. */
  method RemovePossibleMovesAroundTileInPlace(m: HexTileMap, moves: set<HexCords>, tile: HexCords)
    returns (result: set<HexCords>)
    ensures result == RemovePossibleMovesAroundTile(m, moves, tile)
  {
    result := moves;
    var neighbors := EmptyNeighbors(m, tile);
    while neighbors != {}
      invariant neighbors <= EmptyNeighbors(m, tile)
      invariant forall y :: y in result <==>
        y in moves && !(y in EmptyNeighbors(m, tile) - neighbors && |OccupiedNeighbors(m, y)| <= 1)
      decreases neighbors
    {
      var n :| n in neighbors;
      if n in result && |OccupiedNeighbors(m, n)| <= 1 {
        result := result - {n};
      }
      neighbors := neighbors - {n};
    }
  }

  /** The frontier cells next to at least one piece of `player`. */
  function SpacesSurroundedByTheirColor(m: HexTileMap, pieces: seq<TileData>, frontier: set<HexCords>, player: int)
    : (r: set<HexCords>)
    ensures forall c :: c in r <==>
      c in frontier && exists i :: 0 <= i < |Directions| && OwnedBy(m, pieces, Add(c, Directions[i]), player)
  {
    set c | c in frontier && exists n :: n in OccupiedNeighbors(m, c) && OwnedBy(m, pieces, n, player)
  }

  /**
   * Where a piece from the hand may go: the whole frontier on the opening
   * turn, otherwise the frontier cells that touch one of the player's pieces.
   */
  function Place(m: HexTileMap, pieces: seq<TileData>, frontier: set<HexCords>, player: int, isZeroTurn: bool)
    : (r: set<HexCords>)
    ensures isZeroTurn ==> r == frontier
    ensures !isZeroTurn ==> forall c :: c in r <==>
      c in frontier && exists i :: 0 <= i < |Directions| && OwnedBy(m, pieces, Add(c, Directions[i]), player)
  {
    if isZeroTurn then frontier else SpacesSurroundedByTheirColor(m, pieces, frontier, player)
  }
}
