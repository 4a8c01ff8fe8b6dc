/**
 * The engine's invariant and its steps, stated on plain values: the board
 * and its border, the hands, the turn fields, the selection and the
 * end-of-game flag, as the engine's fields hold them.
 */
module EngineRules {
  import opened Wrappers
  import opened Common
  import opened HexUtilities
  import opened BugTiles
  import opened BugMoves
  import opened PlayerInventory
  import opened BoardRules

  /** What the selection points at: nothing, a new piece taken from the hand, or a piece on the board. */
  datatype SelectedTile = NoTile | NewTile(data: TileData) | BoardTile(id: PieceId)

  /** Every piece id on the board and in a carry slot names a piece of the arena. */
  predicate ArenaClosed(m: HexTileMap, carry: CarryMap, n: nat) {
    && (forall c :: c in m && m[c].Some? ==> m[c].value < n)
    && (forall b :: b in carry ==> b < n && (carry[b].Some? ==> carry[b].value < n))
  }

  /** How many pieces of the arena belong to `player`. */
  function PiecesOwnedBy(pieces: seq<TileData>, player: int): (r: nat)
    ensures r <= |pieces|
  {
    if pieces == [] then 0
    else PiecesOwnedBy(pieces[..|pieces| - 1], player) + (if pieces[|pieces| - 1].playerId == player then 1 else 0)
  }

  /** A new arena piece adds one to its owner's pieces and none to anyone else's. */
  lemma PiecesOwnedByAppend(pieces: seq<TileData>, data: TileData, player: int)
    ensures PiecesOwnedBy(pieces + [data], player) == PiecesOwnedBy(pieces, player) + (if data.playerId == player then 1 else 0)
  {
    assert (pieces + [data])[..|pieces|] == pieces;
  }

  /** Every piece of `player` is either on the board (in the arena) or still in the hand. */
  ghost predicate PiecesConserved(pieces: seq<TileData>, hand: seq<PlayerPiece>, player: int) {
    PiecesOwnedBy(pieces, player) + HandTotal(hand) == PiecesPerPlayer
  }

  /**
   * A player never has more than their eleven pieces in the arena, and has
   * all eleven there exactly when the hand is empty.
   */
  lemma ArenaHoldsAtMostThePlayersPieces(pieces: seq<TileData>, hand: seq<PlayerPiece>, player: int)
    requires PiecesConserved(pieces, hand, player) && WithinStartingCounts(hand)
    ensures PiecesOwnedBy(pieces, player) <= PiecesPerPlayer
    ensures PiecesOwnedBy(pieces, player) == PiecesPerPlayer <==> forall i :: 0 <= i < |hand| ==> hand[i].count == 0
  {
    HandTotalNonNegative(hand);
  }

  /** The board has the generated shape and its ids name arena pieces. */
  ghost predicate BoardOk(h: nat, m: HexTileMap, pieces: seq<TileData>, carry: CarryMap) {
    (forall c :: c in m <==> IsBoardCell(h, c)) && ArenaClosed(m, carry, |pieces|)
  }

  /** The border of the hive is the seed on an empty board and the frontier otherwise. */
  ghost predicate BorderOk(h: nat, m: HexTileMap, border: set<HexCords>) {
    if OccupiedCells(m) == {} then border == {Seed(h)} else border == FrontierOf(m)
  }

  /**
   * A hand selection is a pending piece of the player on turn; a board
   * selection is a piece of the player on turn that sits, visible, on the
   * recorded cell.
   */
  ghost predicate SelectionOk(m: HexTileMap, pieces: seq<TileData>, isPlayerTileSelected: bool, index: int,
                              selected: SelectedTile, cords: HexCords, onTurn: int, hand: seq<PlayerPiece>)
  {
    && (isPlayerTileSelected <==> selected.NewTile?)
    && (selected.NewTile? ==>
          0 <= index < |hand| && selected.data == TileData(hand[index].bug, onTurn) && hand[index].count > 0)
    && (selected.BoardTile? ==>
          cords in m && m[cords] == Some(selected.id) && selected.id < |pieces| && pieces[selected.id].playerId == onTurn)
  }

  /** On turn 4 a player whose Queen is still in the hand has nothing selected but the Queen. */
  ghost predicate SelectionDeadlineOk(turn: int, selected: SelectedTile, index: int, hand: seq<PlayerPiece>) {
    turn == 4 && !QueenPlacedIn(hand) && !selected.NoTile? ==> selected.NewTile? && index == 0
  }

  /**
   * The Queens that the deadline has already forced onto the board: the
   * starting player's once the other player is on turn 4, both after turn 4.
   */
  ghost predicate QueensDownBy(turn: int, onTurn: int, starting: int, hand0: seq<PlayerPiece>, hand1: seq<PlayerPiece>) {
    && (turn > 4 ==> QueenPlacedIn(hand0) && QueenPlacedIn(hand1))
    && (turn == 4 && onTurn != starting ==> QueenPlacedIn(if starting == 0 then hand0 else hand1))
  }

  /**
   * Passing the turn after a move made by `onTurn` keeps the Queens forced
   * down, provided the mover's Queen is down whenever the move was made on
   * turn 4.
   */
  lemma NextTurnKeepsQueensDown(turn: int, onTurn: int, hand0: seq<PlayerPiece>, hand1: seq<PlayerPiece>)
    requires 0 <= onTurn < 2 && QueensDownBy(turn, onTurn, 0, hand0, hand1)
    requires turn == 4 ==> QueenPlacedIn(if onTurn == 0 then hand0 else hand1)
    ensures QueensDownBy(turn + (if onTurn != 0 then 1 else 0), (onTurn + 1) % 2, 0, hand0, hand1)
  {
  }

  /** A selection whose destinations are on record has them from the rule of its kind. */
  ghost predicate MovesMatch(m: HexTileMap, pieces: seq<TileData>, carry: CarryMap, border: set<HexCords>,
                             moves: set<HexCords>, selected: SelectedTile, cords: HexCords,
                             onTurn: int, turn: int, queenPlaced: bool)
  {
    && (selected.NewTile? ==> moves == Place(m, pieces, border, onTurn, turn == 0))
    && (selected.BoardTile? && selected.id < |pieces| ==>
          if queenPlaced then
            IsLegalMoveSet(pieces[selected.id].bug, m, border, cords, GetTileUnderBeetle(carry, selected.id), moves)
          else moves == {})
  }

  /**
   * A placement keeps the board shape, the arena and the frontier, and
   * leaves a non-empty board.
   */
  lemma PlacementKeepsBoard(h: nat, m: HexTileMap, pieces: seq<TileData>, carry: CarryMap, border: set<HexCords>,
                            c: HexCords, data: TileData)
    requires BoardOk(h, m, pieces, carry) && BorderOk(h, m, border) && c in m && c in border
    ensures var m' := m[c := Some(|pieces|)];
      && BoardOk(h, m', pieces + [data], carry)
      && OccupiedCells(m') != {}
      && BorderOk(h, m', (border - {c}) + EmptyNeighbors(m', c))
  {
    var m' := m[c := Some(|pieces|)];
    assert c in OccupiedCells(m');
    if OccupiedCells(m) == {} {
      ClearBoardHasNoFrontier(m);
    }
    FrontierAfterOccupying(m, c, |pieces|);
  }

  /**
   * Putting a piece from hand entry `i` of the player on turn on a border
   * cell `c` keeps the engine's state in shape, leaves the frontier as the
   * border and, on turn 4, leaves that player's Queen on the board.
   */
  lemma PlacementKeepsEngine(h: nat, m: HexTileMap, pieces: seq<TileData>, carry: CarryMap, border: set<HexCords>,
                             turn: int, onTurn: int, hand0: seq<PlayerPiece>, hand1: seq<PlayerPiece>,
                             c: HexCords, data: TileData, i: int)
    requires EngineOk(h, m, pieces, carry, border, turn, onTurn, 0, hand0, hand1)
    requires c in m && c in border && data.playerId == onTurn
    requires var hand := if onTurn == 0 then hand0 else hand1;
      && 0 <= i < |hand| && hand[i].count > 0
      && (turn == 4 && !QueenPlacedIn(hand) ==> i == 0)
    ensures var m' := m[c := Some(|pieces|)];
      var hand := if onTurn == 0 then hand0 else hand1;
      var after := hand[i := PlayerPiece(hand[i].bug, hand[i].count - 1)];
      var border' := (border - {c}) + EmptyNeighbors(m', c);
      && EngineOk(h, m', pieces + [data], carry, border', turn, onTurn, 0,
                  if onTurn == 0 then after else hand0, if onTurn == 0 then hand1 else after)
      && (turn == 4 ==> QueenPlacedIn(after))
      && border' == FrontierOf(m')
  {
    var hand := if onTurn == 0 then hand0 else hand1;
    PlacementKeepsBoard(h, m, pieces, carry, border, c, data);
    TakeOneKeepsCountsInRange(hand, i);
    ChangeCountChangesTotal(hand, i, -1);
    PiecesOwnedByAppend(pieces, data, 0);
    PiecesOwnedByAppend(pieces, data, 1);
  }

  /**
   * A move of arena piece `id` from the occupied cell `o` to a destination
   * its rule offers keeps the board shape, the arena and the frontier.
   */
  lemma MoveKeepsBoard(h: nat, m: HexTileMap, pieces: seq<TileData>, carry: CarryMap, border: set<HexCords>,
                       o: HexCords, c: HexCords, id: PieceId, r: set<HexCords>)
    requires BoardOk(h, m, pieces, carry) && BorderOk(h, m, border)
    requires o in m && m[o] == Some(id) && id < |pieces| && c in m && c in r
    requires IsLegalMoveSet(pieces[id].bug, m, border, o, GetTileUnderBeetle(carry, id), r)
    ensures var after := BoardAfterMove(m, carry, pieces[id].bug == Beetle, o, c, id);
      var b := (border - {c}) + EmptyNeighbors(after.0, c);
      && c != o
      && BoardOk(h, after.0, pieces, after.1)
      && BorderOk(h, after.0, if after.0[o].None? then (b + {o}) - Stranded(after.0, o) else b)
  {
    assert o in OccupiedCells(m);
    assert border == FrontierOf(m);
    var isBeetle := pieces[id].bug == Beetle;
    var under := if isBeetle then GetTileUnderBeetle(carry, id) else None;
    LegalDestinationTouchesHive(pieces[id].bug, m, o, GetTileUnderBeetle(carry, id), r, c);
    FrontierAfterMove(m, o, c, under, id);
    var after := BoardAfterMove(m, carry, isBeetle, o, c, id);
    assert after.0 == m[o := under][c := Some(id)];
    assert c in OccupiedCells(after.0);
  }

  /**
   * Moving arena piece `id` of the player on turn from `o` to a destination
   * its rule offers keeps the engine's state in shape and leaves the
   * frontier as the border; the hands are not touched.
   */
  lemma MoveKeepsEngine(h: nat, m: HexTileMap, pieces: seq<TileData>, carry: CarryMap, border: set<HexCords>,
                        turn: int, onTurn: int, hand0: seq<PlayerPiece>, hand1: seq<PlayerPiece>,
                        o: HexCords, c: HexCords, id: PieceId, r: set<HexCords>)
    requires EngineOk(h, m, pieces, carry, border, turn, onTurn, 0, hand0, hand1)
    requires o in m && m[o] == Some(id) && id < |pieces| && c in m && c in r
    requires IsLegalMoveSet(pieces[id].bug, m, border, o, GetTileUnderBeetle(carry, id), r)
    ensures var after := BoardAfterMove(m, carry, pieces[id].bug == Beetle, o, c, id);
      var b := (border - {c}) + EmptyNeighbors(after.0, c);
      var border' := if after.0[o].None? then (b + {o}) - Stranded(after.0, o) else b;
      && EngineOk(h, after.0, pieces, after.1, border', turn, onTurn, 0, hand0, hand1)
      && border' == FrontierOf(after.0)
  {
    MoveKeepsBoard(h, m, pieces, carry, border, o, c, id, r);
    var after := BoardAfterMove(m, carry, pieces[id].bug == Beetle, o, c, id);
    assert c in OccupiedCells(after.0);
  }

  /**
   * The engine's state apart from the selection: the turn fields in range,
   * both hands within their starting counts, the board and its border in
   * shape, the Queens the deadline has forced down on the board, and each
   * player's pieces all either in the arena or in the hand.
   */
  ghost predicate EngineOk(h: nat, m: HexTileMap, pieces: seq<TileData>, carry: CarryMap, border: set<HexCords>,
                           turn: int, onTurn: int, starting: int, hand0: seq<PlayerPiece>, hand1: seq<PlayerPiece>)
  {
    && 0 <= onTurn < 2 && turn >= 0
    && WithinStartingCounts(hand0) && WithinStartingCounts(hand1)
    && BoardOk(h, m, pieces, carry)
    && BorderOk(h, m, border)
    && QueensDownBy(turn, onTurn, starting, hand0, hand1)
    && PiecesConserved(pieces, hand0, 0) && PiecesConserved(pieces, hand1, 1)
  }

  /** The game is stopped exactly when the position is decided. */
  ghost predicate StatusOk(interrupted: bool, m: HexTileMap, pieces: seq<TileData>,
                           hand0: seq<PlayerPiece>, hand1: seq<PlayerPiece>)
  {
    interrupted <==> Outcome(m, pieces, QueenPlacedIn(hand0), QueenPlacedIn(hand1)) != Normal
  }
}
