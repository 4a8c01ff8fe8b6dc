/**
 * The game engine: the board, the frontier of the hive, the two players'
 * hands, the selection made by the last clicks, the turn counter and the
 * end-of-game flag, updated in place by each mouse press.
 */
module Engine {
  import opened Wrappers
  import opened Common
  import opened HexUtilities
  import opened BugTiles
  import opened HiveIntegrity
  import opened BugMoves
  import opened PlayerInventory
  import opened BoardRules
  import opened EngineRules

  /**
   * One frame's mouse input as the renderer resolves it: no press, a press on
   * the hand entry `index` of the player on turn (-1 between entries), or a
   * press over a coordinate of the board area.
   */
  datatype MouseInput = NoPress | PlayerField(index: int) | HexMap(cell: HexCords)

  /** Largest value of a 32-bit `int`. */
  const IntMax: int := 0x7FFF_FFFF

  /** The coordinates held while no board piece is selected. */
  const InvalidCords: HexCords := HexCords(IntMax, IntMax)

  class GameEngine {
    var gameMap: HexTileMap
    /** The arena: the data of every piece put on the board so far, indexed by piece id. */
    var pieces: seq<TileData>
    /** The carry slot of every Beetle in the arena. */
    var underBeetle: CarryMap
    var borderOfHive: set<HexCords>
    var possibleMovesOfSelectedTile: set<HexCords>
    const hexagonHorizontalCount: nat
    var isPlayerTileSelected: bool
    var indexOfPlayerTileSelected: int
    var pointerToSelectedTile: SelectedTile
    var originalCordsOfSelectedTile: HexCords
    var turn: int
    var idOfPlayerOnTurn: int
    const startingPlayer: int
    const players: seq<Player>
    var gameInterupted: bool

    /** The two hands, the only heap state of the engine besides its own fields. */
    ghost function Hands(): set<array<PlayerPiece>> {
      if |players| == 2 then {players[0].pieces, players[1].pieces} else {}
    }

    /** The hand of player `i`, as a value. */
    ghost function Hand(i: int): seq<PlayerPiece>
      requires |players| == 2 && 0 <= i < 2
      reads players[i].pieces
    {
      players[i].pieces[..]
    }

    /** Two players with ids 0 and 1, each with a hand of its own; player 0 starts. */
    ghost predicate PlayersOk()
      reads Hands()
    {
      && |players| == 2 && players[0].pieces != players[1].pieces
      && players[0].Valid() && players[1].Valid()
      && players[0].playerId == 0 && players[1].playerId == 1
      && startingPlayer == 0
    }

    /** Everything but the selection and the end-of-game flag. */
    ghost predicate StateOk()
      reads this`gameMap, this`pieces, this`underBeetle, this`borderOfHive, this`turn, this`idOfPlayerOnTurn, Hands()
    {
      && PlayersOk()
      && EngineOk(hexagonHorizontalCount, gameMap, pieces, underBeetle, borderOfHive, turn, idOfPlayerOnTurn,
                  startingPlayer, Hand(0), Hand(1))
    }

    /** The status of the position, as the end-of-turn check computes it. */
    ghost function Status(): GameStatus
      reads this`gameMap, this`pieces, Hands()
      requires |players| == 2
    {
      Outcome(gameMap, pieces, QueenPlacedIn(Hand(0)), QueenPlacedIn(Hand(1)))
    }

    /** The game is stopped exactly when the position is decided. */
    ghost predicate StoppedWhenDecided()
      reads this`gameInterupted, this`gameMap, this`pieces, Hands()
    {
      |players| == 2 && StatusOk(gameInterupted, gameMap, pieces, Hand(0), Hand(1))
    }

    /** The selection is one the player on turn may hold. */
    ghost predicate SelectionValid()
      reads this, Hands()
      requires StateOk()
    {
      && SelectionOk(gameMap, pieces, isPlayerTileSelected, indexOfPlayerTileSelected, pointerToSelectedTile,
                     originalCordsOfSelectedTile, idOfPlayerOnTurn, Hand(idOfPlayerOnTurn))
      && SelectionDeadlineOk(turn, pointerToSelectedTile, indexOfPlayerTileSelected, Hand(idOfPlayerOnTurn))
    }

    ghost predicate Valid()
      reads this, Hands()
    {
      StateOk() && SelectionValid() && StoppedWhenDecided()
    }

    /** The destinations on record are those of the current selection (stale while nothing is selected). */
    ghost predicate MovesMatchSelection()
      reads this, Hands()
      requires Valid()
    {
      MovesMatch(gameMap, pieces, underBeetle, borderOfHive, possibleMovesOfSelectedTile, pointerToSelectedTile,
                 originalCordsOfSelectedTile, idOfPlayerOnTurn, turn, QueenPlacedIn(Hand(idOfPlayerOnTurn)))
    }

    /** Nothing is selected. */
    predicate Deselected()
      reads this
    {
      !isPlayerTileSelected && indexOfPlayerTileSelected == -1 && pointerToSelectedTile == NoTile
      && originalCordsOfSelectedTile == InvalidCords
    }

    twostate predicate KeepsBoard()
      reads this`gameMap, this`pieces, this`underBeetle, this`borderOfHive
    {
      gameMap == old(gameMap) && pieces == old(pieces) && underBeetle == old(underBeetle)
      && borderOfHive == old(borderOfHive)
    }

    twostate predicate KeepsTurn()
      reads this`turn, this`idOfPlayerOnTurn, this`gameInterupted
    {
      turn == old(turn) && idOfPlayerOnTurn == old(idOfPlayerOnTurn) && gameInterupted == old(gameInterupted)
    }

    twostate predicate KeepsSelection()
      reads this`isPlayerTileSelected, this`indexOfPlayerTileSelected, this`pointerToSelectedTile, this`originalCordsOfSelectedTile
    {
      isPlayerTileSelected == old(isPlayerTileSelected) && indexOfPlayerTileSelected == old(indexOfPlayerTileSelected)
      && pointerToSelectedTile == old(pointerToSelectedTile)
      && originalCordsOfSelectedTile == old(originalCordsOfSelectedTile)
    }

    twostate predicate KeepsHands()
      reads Hands()
      requires |players| == 2
    {
      Hand(0) == old(Hand(0)) && Hand(1) == old(Hand(1))
    }

    /**
     * The selected hand piece became piece `|old(pieces)|` on `c`, and the
     * hand entry it came from lost one piece.
     */
    twostate predicate Placement(c: HexCords)
      reads this`gameMap, this`pieces, this`underBeetle, Hands()
      requires |players| == 2
    {
      && old(pointerToSelectedTile).NewTile?
      && pieces == old(pieces) + [old(pointerToSelectedTile).data]
      && gameMap == old(gameMap)[c := Some(|old(pieces)|)]
      && underBeetle == old(underBeetle)
      && var p, i := old(idOfPlayerOnTurn), old(indexOfPlayerTileSelected);
         && 0 <= p < 2 && 0 <= i < |old(Hand(p))|
         && var entry := old(Hand(p))[i];
         && Hand(p) == old(Hand(p))[i := PlayerPiece(entry.bug, entry.count - 1)]
         && Hand(1 - p) == old(Hand(1 - p))
    }

    /** The selected board piece left its cell for `c`, as `BoardAfterMove` describes. */
    twostate predicate BoardMove(c: HexCords)
      reads this`gameMap, this`pieces, this`underBeetle, Hands()
      requires |players| == 2
    {
      && old(pointerToSelectedTile).BoardTile? && old(pointerToSelectedTile).id < |old(pieces)|
      && c in old(gameMap)
      && pieces == old(pieces)
      && KeepsHands()
      && var id := old(pointerToSelectedTile).id;
         (gameMap, underBeetle) == BoardAfterMove(old(gameMap), old(underBeetle), old(pieces)[id].bug == Beetle,
                                                  old(originalCordsOfSelectedTile), c, id)
    }

    /** The turn passed to the other player, or the game stopped. */
    twostate predicate TurnPassed()
      reads this`turn, this`idOfPlayerOnTurn, this`gameInterupted
    {
      && (!gameInterupted ==>
            && turn == old(turn) + (if old(idOfPlayerOnTurn) != startingPlayer then 1 else 0)
            && idOfPlayerOnTurn == (old(idOfPlayerOnTurn) + 1) % 2)
      && (gameInterupted ==> turn == old(turn) && idOfPlayerOnTurn == old(idOfPlayerOnTurn))
    }

    /** A new game: empty board, full hands, the seed as the only border cell, player 0 on turn. */
    constructor (h: nat)
      ensures Valid() && fresh(Hands())
      ensures hexagonHorizontalCount == h && pieces == [] && underBeetle == map[]
      ensures forall c :: c in gameMap <==> IsBoardCell(h, c)
      ensures IsMapClear(gameMap)
      ensures borderOfHive == {Seed(h)}
      ensures Hand(0) == InitialInventory() && Hand(1) == InitialInventory()
      ensures turn == 0 && idOfPlayerOnTurn == 0 && startingPlayer == 0 && !gameInterupted
      ensures pointerToSelectedTile == NoTile && !isPlayerTileSelected && possibleMovesOfSelectedTile == {}
    {
      hexagonHorizontalCount := h;
      var m := GenerateBaseMap(h);
      gameMap := m;
      pieces := [];
      underBeetle := map[];
      borderOfHive := {Seed(h)};
      possibleMovesOfSelectedTile := {};
      isPlayerTileSelected := false;
      indexOfPlayerTileSelected := 0;
      pointerToSelectedTile := NoTile;
      originalCordsOfSelectedTile := InvalidCords;
      turn := 0;
      idOfPlayerOnTurn := 0;
      startingPlayer := 0;
      var first := new Player(0);
      var second := new Player(1);
      players := [first, second];
      gameInterupted := false;
      new;
      InitialInventoryWithinStartingCounts();
      InitialHandSize();
      assert OccupiedCells(gameMap) == {};
      assert !HasCagedQueen(gameMap, pieces, 0) && !HasCagedQueen(gameMap, pieces, 1);
    }

    /** One frame of input: ignored once the game is over, otherwise routed and followed by a refresh of the destinations. */
    method CheckInputs(input: MouseInput)
      requires Valid() && MovesMatchSelection()
      requires input.PlayerField? ==> -1 <= input.index < DifferentPiecesCount
      modifies this, Hands()
      ensures Valid() && MovesMatchSelection()
      ensures old(gameInterupted) || input.NoPress? ==> unchanged(this) && unchanged(Hands())
      ensures !old(gameInterupted) && input.HexMap? && input.cell in old(gameMap)
              && input.cell in old(possibleMovesOfSelectedTile) && !old(pointerToSelectedTile).NoTile? ==>
                (if old(isPlayerTileSelected) then Placement(input.cell) else BoardMove(input.cell)) && TurnPassed()
    {
      if !gameInterupted {
        match input
        case NoPress =>
        case PlayerField(index) =>
          CheckInputInPlayerField(index);
          UpdatePossibleMovesOnSelectedTile();
        case HexMap(cell) =>
          PressOnHexMap(cell);
      }
    }

    /** The board branch of a frame's input: the press over `c`, then the refresh of the destinations. */
    method PressOnHexMap(c: HexCords)
      requires Valid() && MovesMatchSelection() && !gameInterupted
      modifies this, Hands()
      ensures Valid() && MovesMatchSelection()
      ensures c in old(gameMap) && c in old(possibleMovesOfSelectedTile) && !old(pointerToSelectedTile).NoTile? ==>
                (if old(isPlayerTileSelected) then Placement(c) else BoardMove(c)) && TurnPassed()
    {
      CheckInputInHexMap(c);
      UpdatePossibleMovesOnSelectedTile();
    }

    /**
     * A press on hand entry `index`: selects that piece if some are left and
     * the Queen deadline allows it, and clears the selection otherwise.
     */
    method CheckInputInPlayerField(index: int)
      requires Valid() && -1 <= index < DifferentPiecesCount
      modifies this`isPlayerTileSelected, this`indexOfPlayerTileSelected, this`pointerToSelectedTile, this`originalCordsOfSelectedTile
      ensures Valid() && KeepsBoard() && KeepsTurn()
      ensures possibleMovesOfSelectedTile == old(possibleMovesOfSelectedTile)
      ensures var hand := Hand(idOfPlayerOnTurn);
        var allowed := index != -1 && hand[index].count > 0 && (turn != 4 || index == 0 || QueenPlacedIn(hand));
        && (allowed ==>
              && isPlayerTileSelected && indexOfPlayerTileSelected == index
              && pointerToSelectedTile == NewTile(TileData(hand[index].bug, idOfPlayerOnTurn))
              && originalCordsOfSelectedTile == old(originalCordsOfSelectedTile))
        && (!allowed ==> Deselected())
    {
      if index != -1 {
        var player := players[idOfPlayerOnTurn];
        var selectedPiece := player.pieces[index];
        if selectedPiece.count > 0 && (turn != 4 || index == 0 || player.HasPlacedQueen()) {
          indexOfPlayerTileSelected := index;
          isPlayerTileSelected := true;
          pointerToSelectedTile := NewTile(player.GetTileDataAtIndex(index));
          return;
        }
      }
      InvalidateSelectedTileVariables();
    }

    /**
     * A press over cell `c`: a listed destination of the selection makes the
     * move; one of the player's own visible pieces becomes the selection (if
     * the Queen deadline allows it); anything else on the board changes
     * nothing; a press off the board clears the selection.
     */
    method CheckInputInHexMap(c: HexCords)
      requires Valid() && MovesMatchSelection() && !gameInterupted
      modifies this, Hands()
      ensures Valid()
      ensures possibleMovesOfSelectedTile == old(possibleMovesOfSelectedTile)
      ensures c !in old(gameMap) ==> Deselected() && KeepsBoard() && KeepsTurn() && unchanged(Hands())
      ensures c in old(gameMap) && c in old(possibleMovesOfSelectedTile) && !old(pointerToSelectedTile).NoTile? ==>
                Deselected() && TurnPassed()
                && (if old(isPlayerTileSelected) then Placement(c) else BoardMove(c))
      ensures c in old(gameMap) && !(c in old(possibleMovesOfSelectedTile) && !old(pointerToSelectedTile).NoTile?) ==>
                KeepsBoard() && KeepsTurn() && unchanged(Hands())
                && (if OwnedBy(old(gameMap), old(pieces), c, old(idOfPlayerOnTurn)) then
                      if old(turn) != 4 || QueenPlacedIn(Hand(idOfPlayerOnTurn)) then
                        !isPlayerTileSelected && indexOfPlayerTileSelected == -1
                        && pointerToSelectedTile == BoardTile(old(gameMap)[c].value) && originalCordsOfSelectedTile == c
                      else Deselected()
                    else KeepsSelection())
    {
      if c in gameMap {
        if c in possibleMovesOfSelectedTile && pointerToSelectedTile != NoTile {
          if isPlayerTileSelected {
            assert c in borderOfHive by {
              assert possibleMovesOfSelectedTile == Place(gameMap, pieces, borderOfHive, idOfPlayerOnTurn, turn == 0);
            }
          }
          MoveHex(c);
        } else if gameMap[c].Some? && pieces[gameMap[c].value].playerId == idOfPlayerOnTurn {
          SelectPieceOnBoard(c);
        }
      } else {
        InvalidateSelectedTileVariables();
      }
    }

    /**
     * A press on a cell holding a visible piece of the player on turn: that
     * piece becomes the selection, unless it is turn 4 and the player's Queen
     * is still in the hand, in which case the selection is cleared.
     */
    method SelectPieceOnBoard(c: HexCords)
      requires Valid() && c in gameMap && gameMap[c].Some? && gameMap[c].value < |pieces|
      requires pieces[gameMap[c].value].playerId == idOfPlayerOnTurn
      modifies this`isPlayerTileSelected, this`indexOfPlayerTileSelected, this`pointerToSelectedTile, this`originalCordsOfSelectedTile
      ensures Valid() && KeepsBoard() && KeepsTurn()
      ensures possibleMovesOfSelectedTile == old(possibleMovesOfSelectedTile)
      ensures if turn != 4 || QueenPlacedIn(Hand(idOfPlayerOnTurn)) then
                && !isPlayerTileSelected && indexOfPlayerTileSelected == -1
                && pointerToSelectedTile == BoardTile(gameMap[c].value) && originalCordsOfSelectedTile == c
              else Deselected()
    {
      InvalidateSelectedTileVariables();
      if turn != 4 || players[idOfPlayerOnTurn].HasPlacedQueen() {
        pointerToSelectedTile := BoardTile(gameMap[c].value);
        originalCordsOfSelectedTile := c;
      }
    }

    /**
     * Puts the selection on cell `c`, a destination listed for it, updates
     * the border of the hive, clears the selection and ends the turn.
     */
    method MoveHex(c: HexCords)
      requires StateOk() && !gameInterupted && (isPlayerTileSelected <==> pointerToSelectedTile.NewTile?)
      requires if isPlayerTileSelected then ReadyToPlace(c) else ReadyToMove(c)
      modifies this, Hands()
      ensures Valid() && Deselected() && TurnPassed()
      ensures possibleMovesOfSelectedTile == old(possibleMovesOfSelectedTile)
      ensures old(isPlayerTileSelected) ==> Placement(c)
      ensures !old(isPlayerTileSelected) ==> BoardMove(c)
      ensures borderOfHive == FrontierOf(gameMap)
    {
      if isPlayerTileSelected {
        PlaceSelectedTile(c);
      } else {
        MoveSelectedTile(c);
      }
      InvalidateSelectedTileVariables();
      ChangeTurn();
    }

    /** The selected hand piece may go on `c`: a border cell, with the hand entry and the Queen deadline allowing it. */
    ghost predicate ReadyToPlace(c: HexCords)
      reads this, Hands()
      requires StateOk()
    {
      && c in gameMap && c in borderOfHive && pointerToSelectedTile.NewTile?
      && pointerToSelectedTile.data.playerId == idOfPlayerOnTurn
      && var hand, i := Hand(idOfPlayerOnTurn), indexOfPlayerTileSelected;
         0 <= i < |hand| && hand[i].count > 0 && (turn == 4 && !QueenPlacedIn(hand) ==> i == 0)
    }

    /** The selected board piece sits on its recorded cell and `c` is among the destinations its rule offers. */
    ghost predicate ReadyToMove(c: HexCords)
      reads this, Hands()
      requires StateOk()
    {
      && c in gameMap && c in possibleMovesOfSelectedTile
      && (turn == 4 ==> QueenPlacedIn(Hand(idOfPlayerOnTurn)))
      && var o := originalCordsOfSelectedTile;
         && pointerToSelectedTile.BoardTile? && o in gameMap && gameMap[o] == Some(pointerToSelectedTile.id)
         && pointerToSelectedTile.id < |pieces|
         && IsLegalMoveSet(pieces[pointerToSelectedTile.id].bug, gameMap, borderOfHive, o,
                           GetTileUnderBeetle(underBeetle, pointerToSelectedTile.id), possibleMovesOfSelectedTile)
    }

    /** Everything a finished move leaves for the end-of-turn check. */
    ghost predicate ReadyToChangeTurn()
      reads this, Hands()
    {
      && StateOk() && Deselected() && !gameInterupted
      && (turn == 4 ==> QueenPlacedIn(Hand(idOfPlayerOnTurn)))
      && borderOfHive == FrontierOf(gameMap)
    }

    /** The placing half of `MoveHex`: the hand piece goes on `c` and leaves the hand. */
    method PlaceSelectedTile(c: HexCords)
      requires StateOk() && !gameInterupted && ReadyToPlace(c)
      modifies this, Hands()
      ensures StateOk() && !gameInterupted && KeepsTurn() && KeepsSelection()
      ensures turn == 4 ==> QueenPlacedIn(Hand(idOfPlayerOnTurn))
      ensures borderOfHive == FrontierOf(gameMap)
      ensures possibleMovesOfSelectedTile == old(possibleMovesOfSelectedTile)
      ensures Placement(c)
    {
      ghost var p, i := idOfPlayerOnTurn, indexOfPlayerTileSelected;
      ghost var hand := Hand(p);
      ghost var after := hand[i := PlayerPiece(hand[i].bug, hand[i].count - 1)];
      PlacementKeepsEngine(hexagonHorizontalCount, gameMap, pieces, underBeetle, borderOfHive, turn, p,
                           Hand(0), Hand(1), c, pointerToSelectedTile.data, i);
      players[idOfPlayerOnTurn].ModifieAvaiblePiecesCount(indexOfPlayerTileSelected, -1);
      assert Hand(p) == after;
      var id := |pieces|;
      pieces := pieces + [pointerToSelectedTile.data];
      gameMap := gameMap[c := Some(id)];
      ModifyBorderOfHive(c);
    }

    /** The moving half of `MoveHex`: the board piece leaves its cell for `c`. */
    method MoveSelectedTile(c: HexCords)
      requires StateOk() && !gameInterupted && ReadyToMove(c)
      modifies this`gameMap, this`underBeetle, this`borderOfHive
      ensures StateOk() && !gameInterupted && KeepsTurn() && KeepsSelection()
      ensures turn == 4 ==> QueenPlacedIn(Hand(idOfPlayerOnTurn))
      ensures borderOfHive == FrontierOf(gameMap)
      ensures possibleMovesOfSelectedTile == old(possibleMovesOfSelectedTile)
      ensures BoardMove(c)
    {
      var id := pointerToSelectedTile.id;
      var o := originalCordsOfSelectedTile;
      MoveKeepsEngine(hexagonHorizontalCount, gameMap, pieces, underBeetle, borderOfHive, turn, idOfPlayerOnTurn,
                      Hand(0), Hand(1), o, c, id, possibleMovesOfSelectedTile);
      ghost var after := BoardAfterMove(gameMap, underBeetle, pieces[id].bug == Beetle, o, c, id);
      if o in gameMap {
        if pieces[id].bug == Beetle {
          gameMap := gameMap[o := GetTileUnderBeetle(underBeetle, id)];
          underBeetle := SetTileUnderBeetle(underBeetle, id, gameMap[c]);
        } else {
          gameMap := gameMap[o := None];
        }
      }
      gameMap := gameMap[c := Some(id)];
      assert (gameMap, underBeetle) == after;
      ModifyBorderOfHiveFrom(c, o);
    }

    /** Ends a move: passes the turn while the game goes on, and stops the game once it is decided. */
    method ChangeTurn()
      requires ReadyToChangeTurn()
      modifies this`turn, this`idOfPlayerOnTurn, this`gameInterupted
      ensures Valid() && KeepsBoard() && KeepsSelection() && TurnPassed()
      ensures possibleMovesOfSelectedTile == old(possibleMovesOfSelectedTile)
      ensures gameInterupted <==> Status() != Normal
    {
      var status := CheckGameStatus();
      if status == Normal {
        NextTurnKeepsQueensDown(turn, idOfPlayerOnTurn, Hand(0), Hand(1));
        if startingPlayer != idOfPlayerOnTurn {
          turn := turn + 1;
        }
        idOfPlayerOnTurn := (idOfPlayerOnTurn + 1) % 2;
        return;
      }
      gameInterupted := true;
    }

    /** The status of the position: a player's win is only looked for once the opposing Queen has been placed. */
    method CheckGameStatus() returns (s: GameStatus)
      requires StateOk()
      ensures s == Status()
    {
      var playerOnePlacedQueen := players[0].HasPlacedQueen();
      var playerTwoPlacedQueen := players[1].HasPlacedQueen();
      var playerTwoWon, playerOneWon := false, false;
      if playerOnePlacedQueen {
        playerTwoWon := CheckIfPlayerWon(1);
      }
      if playerTwoPlacedQueen {
        playerOneWon := CheckIfPlayerWon(0);
      }
      if playerOneWon && playerTwoWon {
        s := Draw;
      } else if playerOneWon {
        s := FirstPlayerWon;
      } else if playerTwoWon {
        s := SecondPlayerWon;
      } else {
        s := Normal;
      }
    }

    /** Scans the board for the other player's visible Queen with all six neighbours occupied. */
    method CheckIfPlayerWon(player: int) returns (won: bool)
      requires StateOk()
      ensures won == PlayerWon(gameMap, pieces, player)
    {
      var owner := (player + 1) % 2;
      var cells := gameMap.Keys;
      while cells != {}
        invariant cells <= gameMap.Keys
        invariant forall c :: c in gameMap && c !in cells ==> !IsCagedQueen(gameMap, pieces, c, owner)
        decreases cells
      {
        var c :| c in cells;
        if gameMap[c].Some? {
          var tile := pieces[gameMap[c].value];
          if tile.bug == QueenBee && tile.playerId == owner {
            if |OccupiedNeighbors(gameMap, c)| == SizeOfAxialVectors {
              assert IsCagedQueen(gameMap, pieces, c, owner);
              return true;
            }
          }
        }
        cells := cells - {c};
      }
      won := false;
    }

    /** The border after a move: the cell entered as below, then the vacated origin and its stranded neighbours. */
    method ModifyBorderOfHiveFrom(present: HexCords, original: HexCords)
      modifies this`borderOfHive
      ensures gameMap == old(gameMap) && pieces == old(pieces) && underBeetle == old(underBeetle)
      ensures KeepsTurn() && KeepsSelection() && possibleMovesOfSelectedTile == old(possibleMovesOfSelectedTile)
      ensures var b := (old(borderOfHive) - {present}) + EmptyNeighbors(gameMap, present);
        borderOfHive == if original in gameMap && gameMap[original].None?
                        then (b + {originalCordsOfSelectedTile}) - Stranded(gameMap, original) else b
    {
      ModifyBorderOfHive(present);
      if original in gameMap && gameMap[original].None? {
        borderOfHive := borderOfHive + {originalCordsOfSelectedTile};
        EraseUnnecessarydHexesFromBorder(original);
      }
    }

    /** The border after a piece arrives on `present`: that cell leaves it and its empty neighbours join it. */
    method ModifyBorderOfHive(present: HexCords)
      modifies this`borderOfHive
      ensures gameMap == old(gameMap) && pieces == old(pieces) && underBeetle == old(underBeetle)
      ensures KeepsTurn() && KeepsSelection() && possibleMovesOfSelectedTile == old(possibleMovesOfSelectedTile)
      ensures borderOfHive == (old(borderOfHive) - {present}) + EmptyNeighbors(gameMap, present)
    {
      borderOfHive := borderOfHive - {present};
      var neighbors := EmptyNeighbors(gameMap, present);
      borderOfHive := borderOfHive + neighbors;
    }

    /** Drops from the border each empty neighbour of the vacated `original` that no longer touches a piece. */
    method EraseUnnecessarydHexesFromBorder(original: HexCords)
      modifies this`borderOfHive
      ensures gameMap == old(gameMap) && pieces == old(pieces) && underBeetle == old(underBeetle)
      ensures KeepsTurn() && KeepsSelection() && possibleMovesOfSelectedTile == old(possibleMovesOfSelectedTile)
      ensures borderOfHive == old(borderOfHive) - Stranded(gameMap, original)
    {
      var candidates := EmptyNeighbors(gameMap, original);
      ghost var all := candidates;
      while candidates != {}
        invariant candidates <= all
        invariant borderOfHive == old(borderOfHive) - (Stranded(gameMap, original) - candidates)
        invariant gameMap == old(gameMap) && pieces == old(pieces) && underBeetle == old(underBeetle)
        invariant KeepsTurn() && KeepsSelection() && possibleMovesOfSelectedTile == old(possibleMovesOfSelectedTile)
        decreases candidates
      {
        var candidate :| candidate in candidates;
        if !HasSomeBugHexNeighbor(candidate) {
          borderOfHive := borderOfHive - {candidate};
        }
        candidates := candidates - {candidate};
      }
    }

    /** Some neighbour of the cell holds a piece. */
    predicate HasSomeBugHexNeighbor(c: HexCords)
      reads this
      ensures HasSomeBugHexNeighbor(c) <==> exists n :: n in Neighbors(c) && IsOccupied(gameMap, n)
    {
      SomeNeighborOccupied(gameMap, c);
      |OccupiedNeighbors(gameMap, c)| > 0
    }

    /** Clears the selection; nothing else changes. */
    method InvalidateSelectedTileVariables()
      modifies this`isPlayerTileSelected, this`indexOfPlayerTileSelected, this`pointerToSelectedTile, this`originalCordsOfSelectedTile
      ensures Deselected() && KeepsBoard() && KeepsTurn()
      ensures possibleMovesOfSelectedTile == old(possibleMovesOfSelectedTile)
      ensures old(StateOk() && StoppedWhenDecided()) ==> Valid()
    {
      isPlayerTileSelected := false;
      indexOfPlayerTileSelected := -1;
      pointerToSelectedTile := NoTile;
      originalCordsOfSelectedTile := InvalidCords;
    }

    /**
     * Refreshes the destinations of the selection: placement cells for a hand
     * piece, the generator of its bug type for a board piece (nothing until
     * the player's Queen is down); with no selection the old set stays.
     */
    method UpdatePossibleMovesOnSelectedTile()
      requires Valid()
      modifies this`possibleMovesOfSelectedTile
      ensures Valid() && MovesMatchSelection()
      ensures KeepsBoard() && KeepsTurn() && KeepsSelection()
      ensures pointerToSelectedTile == NoTile ==> possibleMovesOfSelectedTile == old(possibleMovesOfSelectedTile)
    {
      if pointerToSelectedTile != NoTile {
        if isPlayerTileSelected {
          possibleMovesOfSelectedTile := Place(gameMap, pieces, borderOfHive, idOfPlayerOnTurn, turn == 0);
        } else if players[idOfPlayerOnTurn].HasPlacedQueen() {
          var id := pointerToSelectedTile.id;
          possibleMovesOfSelectedTile := Move(pieces[id].bug, gameMap, borderOfHive, originalCordsOfSelectedTile,
                                              GetTileUnderBeetle(underBeetle, id));
        } else {
          possibleMovesOfSelectedTile := {};
        }
      }
    }
  }
}
