/**
 * The engine's rules that do not depend on its mutable state: the shape of
 * the generated board and its seed cell, the frontier of the hive and how
 * a placement or a move changes it, the board update of a move, and the
 * end-of-game conditions.
 */
module BoardRules {
  import opened Wrappers
  import opened Common
  import opened HexUtilities
  import opened BugTiles
  import opened HiveIntegrity
  import opened SpiderSearch
  import opened BugMoves

  datatype GameStatus = Normal | Draw | FirstPlayerWon | SecondPlayerWon

  // ---------------------------------------------------------------- Board shape

  /** C++ `a / 2`: the quotient is truncated toward zero, so the remainder has the sign of `a`. */
  function TruncHalf(a: int): (r: int)
    ensures 0 <= a ==> 0 <= a - 2 * r <= 1
    ensures a < 0 ==> -1 <= a - 2 * r <= 0
  {
    if a >= 0 then a / 2 else -((-a) / 2)
  }

  /** The cells of the generated board: `h` columns of twelve cells, each column shifted up by half its index. */
  predicate IsBoardCell(h: int, c: HexCords) {
    0 <= c.q < h && 0 <= c.r + c.q / 2 < HexagonVerticalCount
  }

  /** The cell the first piece must be placed on. */
  function Seed(h: nat): HexCords {
    HexCords(h / 2, TruncHalf(HexagonVerticalCount - h / 2))
  }

  /** The seed is a board cell in the middle column, halfway up it. */
  lemma SeedIsMidBoard(h: nat)
    requires h >= 1
    ensures IsBoardCell(h, Seed(h))
    ensures Seed(h).q == h / 2
    ensures 5 <= Seed(h).r + Seed(h).q / 2 <= 6
  {
  }

  /** Builds the empty board column by column; every board cell and nothing else is a key. */
  method GenerateBaseMap(h: int) returns (m: HexTileMap)
    ensures forall c :: c in m <==> IsBoardCell(h, c)
    ensures forall c :: c in m ==> m[c] == None
  {
    m := map[];
    var i := 0;
    while i < h
      invariant 0 <= i && (i <= h || i == 0)
      invariant forall c :: c in m <==> 0 <= c.q < i && 0 <= c.r + c.q / 2 < HexagonVerticalCount
      invariant forall c :: c in m ==> m[c] == None
    {
      var j := 0;
      while j < HexagonVerticalCount
        invariant 0 <= j <= HexagonVerticalCount
        invariant forall c :: c in m <==>
          (0 <= c.q < i && 0 <= c.r + c.q / 2 < HexagonVerticalCount) || (c.q == i && 0 <= c.r + i / 2 < j)
        invariant forall c :: c in m ==> m[c] == None
      {
        m := m[HexCords(i, j - i / 2) := None];
        j := j + 1;
      }
      i := i + 1;
    }
  }

  // ---------------------------------------------------------------- The frontier

  /** The frontier of the hive: the empty board cells next to at least one piece. */
  function FrontierOf(m: HexTileMap): (r: set<HexCords>)
    ensures forall c :: c in r ==> c in m && m[c] == None
  {
    set c | c in m && m[c].None? && OccupiedNeighbors(m, c) != {}
  }

  /** An empty board has no frontier. */
  lemma ClearBoardHasNoFrontier(m: HexTileMap)
    requires OccupiedCells(m) == {}
    ensures FrontierOf(m) == {}
  {
  }

  /** The empty neighbours of `o` that touch no piece at all: they leave the frontier when `o` is vacated. */
  function Stranded(m: HexTileMap, o: HexCords): (r: set<HexCords>)
    ensures r <= EmptyNeighbors(m, o)
    ensures forall y :: y in r ==> y !in FrontierOf(m)
  {
    set y | y in EmptyNeighbors(m, o) && OccupiedNeighbors(m, y) == {}
  }

  /** Occupied neighbours only depend on which neighbouring cells are occupied. */
  lemma SameOccupiedNeighbors(m: HexTileMap, m': HexTileMap, x: HexCords)
    requires forall n :: n in Neighbors(x) ==> (IsOccupied(m, n) <==> IsOccupied(m', n))
    ensures OccupiedNeighbors(m, x) == OccupiedNeighbors(m', x)
  {
  }

  /**
   * Putting a piece on board cell `c`, empty or not: the frontier loses `c`
   * and gains the empty neighbours of `c`.
   */
  lemma {:induction false} FrontierAfterOccupying(m: HexTileMap, c: HexCords, id: PieceId)
    requires c in m
    ensures (FrontierOf(m) - {c}) + EmptyNeighbors(m[c := Some(id)], c) == FrontierOf(m[c := Some(id)])
  {
    var m' := m[c := Some(id)];
    var lhs := (FrontierOf(m) - {c}) + EmptyNeighbors(m', c);
    forall x ensures x in lhs <==> x in FrontierOf(m') {
      if x != c && x in m && m[x].None? {
        AdjacencyIsSymmetric(x, c);
        if c in Neighbors(x) {
          assert c in OccupiedNeighbors(m', x);
        } else {
          SameOccupiedNeighbors(m, m', x);
        }
      }
    }
  }

  /**
   * A piece leaves `o` for another board cell `c`, uncovering `under` at
   * `o`. When `o` becomes empty and still touches a piece, the frontier of
   * the new board is the old frontier without `c`, with the empty neighbours
   * of `c` and with `o`, minus the neighbours of `o` left touching nothing.
   */
  lemma {:induction false} FrontierAfterMove(m: HexTileMap, o: HexCords, c: HexCords, under: Option<PieceId>, id: PieceId)
    requires c in m && IsOccupied(m, o) && c != o
    requires under.None? ==> c in Neighbors(o) || OccupiedNeighbors(m, o) != {}
    ensures var m' := m[o := under][c := Some(id)];
      var b := (FrontierOf(m) - {c}) + EmptyNeighbors(m', c);
      (if m'[o].None? then (b + {o}) - Stranded(m', o) else b) == FrontierOf(m')
  {
    var m' := m[o := under][c := Some(id)];
    var b := (FrontierOf(m) - {c}) + EmptyNeighbors(m', c);
    var b' := if m'[o].None? then (b + {o}) - Stranded(m', o) else b;
    if under.None? {
      if c in Neighbors(o) {
        assert c in OccupiedNeighbors(m', o);
      } else {
        var n :| n in OccupiedNeighbors(m, o);
        assert n in OccupiedNeighbors(m', o);
      }
    }
    forall x ensures x in b' <==> x in FrontierOf(m') {
      if x != c && x != o && x in m && m[x].None? {
        AdjacencyIsSymmetric(x, c);
        AdjacencyIsSymmetric(x, o);
        if c in Neighbors(x) {
          assert c in OccupiedNeighbors(m', x);
        } else if o in Neighbors(x) {
          assert o in OccupiedNeighbors(m, x);
          if under.Some? {
            assert o in OccupiedNeighbors(m', x);
          }
        } else {
          SameOccupiedNeighbors(m, m', x);
        }
      }
    }
  }

  /**
   * Every destination a generator offers on a board whose frontier is
   * `FrontierOf(m)` differs from the origin, and the vacated origin still
   * touches the hive: the destination is next to it, or it has a piece
   * beside it.
   */
  lemma LegalDestinationTouchesHive(bug: BugType, m: HexTileMap, o: HexCords, carried: Option<PieceId>,
                                    r: set<HexCords>, c: HexCords)
    requires IsOccupied(m, o) && IsLegalMoveSet(bug, m, FrontierOf(m), o, carried, r) && c in r
    ensures c != o
    ensures c in Neighbors(o) || OccupiedNeighbors(m, o) != {}
  {
    var frontier := FrontierOf(m);
    match bug
    case QueenBee =>
      assert CanLeave(m, o);
    case Beetle =>
    case Grasshopper =>
      assert HiveStaysConnected(m, o);
      var i :| 0 <= i < |Directions| && IsLanding(m, o, Directions[i], c);
      var d := Directions[i];
      var k :| k >= 2 && c == Ray(o, d, k) && !IsOccupied(m, Ray(o, d, k))
        && forall j :: 1 <= j < k ==> IsOccupied(m, Ray(o, d, j));
      assert Ray(o, d, 1) == Add(o, d) && IsOccupied(m, Ray(o, d, 1));
      assert Add(o, d) in Neighbors(o);
      assert Add(o, d) in OccupiedNeighbors(m, o);
    case SoldierAnt =>
      assert CanLeave(m, o);
      FrontierCellTouchesHive(m, o, c);
    case Spider =>
      assert CanLeave(m, o);
      SpiderDestinationsAreNew(m, frontier, o);
      FrontierCellTouchesHive(m, o, c);
  }

  /** A frontier cell reached by a walker that passed the one-hive rule touches the origin or the origin has company. */
  lemma FrontierCellTouchesHive(m: HexTileMap, o: HexCords, c: HexCords)
    requires IsOccupied(m, o) && HiveStaysConnected(m, o) && c in FrontierOf(m)
    ensures c != o
    ensures c in Neighbors(o) || OccupiedNeighbors(m, o) != {}
  {
    var rest := OccupiedCells(m) - {o};
    if rest == {} {
      var n :| n in OccupiedNeighbors(m, c);
      assert IsOccupied(m, n) && n !in rest;
      AdjacencyIsSymmetric(c, o);
    }
  }

  // ---------------------------------------------------------------- Moving a piece

  /**
   * The board and the Beetle carry slots after piece `id` leaves `o` for
   * `c`. A Beetle uncovers what it carried at `o` and picks up what was on
   * `c`; any other piece leaves `o` empty. An origin that is not a board
   * cell is left alone.
   */
  function BoardAfterMove(m: HexTileMap, carry: CarryMap, isBeetle: bool, o: HexCords, c: HexCords, id: PieceId)
    : (r: (HexTileMap, CarryMap))
    requires c in m
    ensures r.0.Keys == m.Keys
    ensures r.0[c] == Some(id)
    ensures forall x :: x in m && x != o && x != c ==> r.0[x] == m[x]
    ensures o in m && o != c ==> r.0[o] == (if isBeetle then GetTileUnderBeetle(carry, id) else None)
    ensures isBeetle && o in m && o != c ==> GetTileUnderBeetle(r.1, id) == m[c]
    ensures isBeetle && o in m ==> forall b :: b != id ==> GetTileUnderBeetle(r.1, b) == GetTileUnderBeetle(carry, b)
    ensures !isBeetle || o !in m ==> r.1 == carry
  {
    if o in m then
      if isBeetle then
        var m1 := m[o := GetTileUnderBeetle(carry, id)];
        (m1[c := Some(id)], SetTileUnderBeetle(carry, id, m1[c]))
      else
        (m[o := None][c := Some(id)], carry)
    else
      (m[c := Some(id)], carry)
  }

  /**
   * A Beetle on the ground that climbs onto a piece and steps back down to
   * where it came from leaves the board and its own carry slot as they were.
   */
  lemma BeetleClimbAndReturn(m: HexTileMap, carry: CarryMap, o: HexCords, c: HexCords, id: PieceId)
    requires o in m && c in m && o != c
    requires m[o] == Some(id) && GetTileUnderBeetle(carry, id) == None && IsOccupied(m, c)
    ensures var up := BoardAfterMove(m, carry, true, o, c, id);
      var down := BoardAfterMove(up.0, up.1, true, c, o, id);
      down.0 == m && GetTileUnderBeetle(down.1, id) == None && GetTileUnderBeetle(up.1, id) == m[c]
  {
    var up := BoardAfterMove(m, carry, true, o, c, id);
    var down := BoardAfterMove(up.0, up.1, true, c, o, id);
    assert down.0 == m;
  }

  // ---------------------------------------------------------------- End of game

  /** The visible piece on `c` is the Queen of `owner` and all six neighbours hold a piece. */
  predicate IsCagedQueen(m: HexTileMap, pieces: seq<TileData>, c: HexCords, owner: int) {
    OwnedBy(m, pieces, c, owner) && pieces[m[c].value].bug == QueenBee
    && |OccupiedNeighbors(m, c)| == SizeOfAxialVectors
  }

  /** Some cell holds the caged Queen of `owner`. */
  ghost predicate HasCagedQueen(m: HexTileMap, pieces: seq<TileData>, owner: int) {
    exists c :: IsCagedQueen(m, pieces, c, owner)
  }

  /** `player` has won: the other player's Queen is caged somewhere on the board. */
  ghost predicate PlayerWon(m: HexTileMap, pieces: seq<TileData>, player: int) {
    HasCagedQueen(m, pieces, (player + 1) % 2)
  }

  /** Winning means that each of the six cells around the opponent's visible Queen holds a piece. */
  lemma PlayerWonIffQueenSurrounded(m: HexTileMap, pieces: seq<TileData>, player: int)
    ensures PlayerWon(m, pieces, player) <==>
      exists c :: (OwnedBy(m, pieces, c, (player + 1) % 2) && pieces[m[c].value].bug == QueenBee
        && forall n :: n in Neighbors(c) ==> IsOccupied(m, n))
  {
    var owner := (player + 1) % 2;
    if PlayerWon(m, pieces, player) {
      var c :| IsCagedQueen(m, pieces, c, owner);
      SurroundedOnAllSides(m, c);
    }
    if exists c :: OwnedBy(m, pieces, c, owner) && pieces[m[c].value].bug == QueenBee
                     && forall n :: n in Neighbors(c) ==> IsOccupied(m, n) {
      var c :| OwnedBy(m, pieces, c, owner) && pieces[m[c].value].bug == QueenBee
                 && forall n :: n in Neighbors(c) ==> IsOccupied(m, n);
      SurroundedOnAllSides(m, c);
      assert IsCagedQueen(m, pieces, c, owner);
    }
  }

  /**
   * The status after a move: a player wins by caging the opponent's Queen,
   * which is only looked for once that Queen has left the hand; caging both
   * Queens at once is a draw.
   */
  ghost function Outcome(m: HexTileMap, pieces: seq<TileData>, firstPlacedQueen: bool, secondPlacedQueen: bool)
    : GameStatus
  {
    var firstWon := secondPlacedQueen && PlayerWon(m, pieces, 0);
    var secondWon := firstPlacedQueen && PlayerWon(m, pieces, 1);
    if firstWon && secondWon then Draw
    else if firstWon then FirstPlayerWon
    else if secondWon then SecondPlayerWon
    else Normal
  }

  /** Each status holds exactly when its combination of wins does. */
  lemma OutcomeCases(m: HexTileMap, pieces: seq<TileData>, firstPlacedQueen: bool, secondPlacedQueen: bool)
    ensures var s := Outcome(m, pieces, firstPlacedQueen, secondPlacedQueen);
      var firstWon := secondPlacedQueen && PlayerWon(m, pieces, 0);
      var secondWon := firstPlacedQueen && PlayerWon(m, pieces, 1);
      && (s == Draw <==> firstWon && secondWon)
      && (s == FirstPlayerWon <==> firstWon && !secondWon)
      && (s == SecondPlayerWon <==> secondWon && !firstWon)
      && (s == Normal <==> !firstWon && !secondWon)
  {
  }

  /** The game goes on exactly as long as no placed Queen is caged. */
  lemma GameEndsWhenAQueenIsCaged(m: HexTileMap, pieces: seq<TileData>, firstPlacedQueen: bool, secondPlacedQueen: bool)
    ensures Outcome(m, pieces, firstPlacedQueen, secondPlacedQueen) != Normal <==>
      (secondPlacedQueen && HasCagedQueen(m, pieces, 1)) || (firstPlacedQueen && HasCagedQueen(m, pieces, 0))
  {
    assert (0 + 1) % 2 == 1 && (1 + 1) % 2 == 0;
  }
}
