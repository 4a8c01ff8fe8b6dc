# Hive rule engine in Dafny

This project models the rule engine of a two-player Hive board game whose
engine is written in C++. It covers five parts:

- **Hex coordinates and neighbourhood.** Axial coordinates and their order, and the six direction vectors. The neighbour queries run over a bounded board, a map from cell to piece-or-nothing. A cell that is not a key of the map is off the board, so it is neither empty nor occupied.
- **Rules shared by every bug.** These are:
  - the placement filter;
  - the one-hive check, a flood fill over a copy of the board;
  - the gate tests ("more than four occupied neighbours");
  - the destination filter around a tile;
  - the five destination generators, one per bug type: Queen Bee, Beetle, Grasshopper, Soldier Ant and Spider. The Spider's is a layered breadth-first search.
- **The game engine.** It is a class whose fields are updated in place, and it handles:
  - placing and moving pieces, including the Beetle's carried piece;
  - incremental upkeep of the hive's border (the frontier of empty cells touching the hive);
  - the turn counter and the player toggle;
  - win and draw detection and the end-of-game freeze;
  - the selection guards that enforce the Queen deadline on turn 4.
- **The player inventory.** A fixed array of five (bug, count) entries, updated in place.

Pieces live in an arena: the engine keeps `pieces: seq<TileData>`, and a cell holds `Option<PieceId>`. Each Beetle's carried piece is an entry of `underBeetle: map<PieceId, Option<PieceId>>`. These stand in for the shared pointers and dynamic casts of the C++ code.

Modules, in dependency order:

- `Common`: the integer constants.
- `Wrappers`: `Option`.
- `HexUtilities`: coordinates, directions and neighbour queries.
- `BugTiles`: bug types, tile data, the carry slot, gates, the placement and destination filters.
- `HiveIntegrity`: connectivity and the flood fill.
- `SpiderSearch`: the Spider's breadth-first search and its distance characterisation.
- `BugMoves`: the five move generators and their dispatch.
- `BoardRules`: the board shape and seed, the frontier and how it changes, the effect of a move, the game outcome.
- `PlayerInventory`: the hand and the `Player` class.
- `EngineRules`: the engine's invariant stated on values, and its preservation by placements, moves and turn changes.
- `Engine`: the `GameEngine` class.

The engine's invariant is `GameEngine.Valid()`. It covers:

- the board keeps its generated shape, and every piece id names an arena piece;
- the border is the centre seed on an empty board, and exactly `FrontierOf(gameMap)` otherwise;
- both hands stay within their starting counts;
- the Queens forced down by the turn-4 deadline are on the board;
- each player's eleven pieces are all either in the arena or in the hand;
- a selection is one the player on turn may hold;
- the game is stopped exactly when the position is decided.

The methods that start from a consistent state or return one all keep this invariant: the constructor, `CheckInputs`, `PressOnHexMap`, `CheckInputInPlayerField`, `CheckInputInHexMap`, `SelectPieceOnBoard`, `MoveHex`, `ChangeTurn` and `UpdatePossibleMovesOnSelectedTile`. The other methods are intermediate steps of a move:
- `PlaceSelectedTile` and `MoveSelectedTile` keep everything but the selection and the end-of-game flag.
- The border methods `ModifyBorderOfHive`, `ModifyBorderOfHiveFrom` and `EraseUnnecessarydHexesFromBorder` run while the border is being brought up to date. Their contracts give the new border exactly.
- `InvalidateSelectedTileVariables` restores the invariant whenever all but the selection held before.

The destinations on record match the selection's rule after every frame of input.

## Model

| member | source | states |
|---|---|---|
| HexUtilities.LessIsStrictTotalOrder | src/hexUtilities.cpp:8-10 | The coordinate order is irreflexive and transitive. It is total: for distinct cells exactly one precedes the other. |
| HexUtilities.AddAssign | src/hexUtilities.cpp:14-18 | Compound addition leaves the componentwise sum. The offset from the old value to the new one is the added vector. |
| HexUtilities.Opposite | src/hexUtilities.h:75-82 | Every direction's negation is another entry of the table, so the table is closed under negation. |
| HexUtilities.DirectionsAreDistinct | src/hexUtilities.h:75-82 | The table has exactly six entries, and they are pairwise distinct. |
| HexUtilities.DirectionsAreTheUnitSteps | src/hexUtilities.h:75-82 | A vector is in the table iff it is non-zero and its dq, dr and dq+dr all lie in {-1,0,1}. |
| HexUtilities.Neighbors | src/hexUtilities.cpp:20-28 | A cell has exactly six neighbours, it is not one of them, and the board plays no part. |
| HexUtilities.NeighborsExplicit | src/hexUtilities.cpp:20-28 | The neighbours are exactly the cell plus each of the six direction vectors. |
| HexUtilities.NeighborsAreUnitSteps | src/hexUtilities.cpp:20-28 | n neighbours t iff n - t is a unit step of the hex grid. |
| HexUtilities.AdjacencyIsSymmetric | src/hexUtilities.cpp:20-28 | b neighbours a iff a neighbours b. |
| HexUtilities.EmptyNeighbors | src/hexUtilities.cpp:30-41 | The empty neighbours are a subset of the neighbours. Their full content (exactly the on-board neighbours holding nothing) is stated by NeighborQueriesPartition. |
| HexUtilities.OccupiedNeighbors | src/hexUtilities.cpp:43-54 | The occupied neighbours are a subset of the neighbours. Their full content (exactly the on-board neighbours holding a piece) is stated by NeighborQueriesPartition. |
| HexUtilities.NeighborQueriesPartition | src/hexUtilities.cpp:30-54 | Empty and occupied neighbours are disjoint, and together they are the neighbours that are on the board. An off-board neighbour is in neither. Every empty neighbour holds nothing and every occupied one holds a piece. |
| HexUtilities.SomeNeighborOccupied | src/GameEngine.cpp:200-202 | Counting occupied neighbours above zero is the same as some neighbour holding a piece. |
| HexUtilities.SurroundedOnAllSides | src/GameEngine.cpp:164 | Six occupied neighbours means every one of the six neighbours is an occupied board cell, and conversely. |
| BugTiles.GetTileUnderBeetle | src/bugTiles.h:368 | A Beetle with no carry entry (a fresh one) carries nothing. |
| BugTiles.SetTileUnderBeetle | src/bugTiles.h:359 | Storing gives the Beetle a carry entry and adds no other Beetle. |
| BugTiles.GetAfterSet | src/bugTiles.h:359-371 | Reading a Beetle's carry slot returns exactly what was stored last. Storing for one Beetle leaves every other Beetle's slot alone. |
| BugTiles.OccupiedCells | src/bugTiles.cpp:108-115 | A cell is in the result iff it is on the board and holds a piece. |
| BugTiles.MapClearIffNoOccupiedCell | src/bugTiles.cpp:108-115 | The map is clear iff no cell holds a piece. |
| BugTiles.SurroundedMeansAtMostOneOpenSide | src/bugTiles.cpp:117-124 | "Surrounded" (more than four occupied neighbours) means at most one side is open. Freedom to move is its negation: at least two open sides. |
| BugTiles.RemovePossibleMovesAroundTile | src/bugTiles.cpp:24-43 | The filter only removes cells. It keeps every cell that is not next to the tile, and every occupied cell. |
| BugTiles.RemovePossibleMovesAroundTileInPlace | src/bugTiles.cpp:44-61 | Erasing the tile's poorly connected empty neighbours one at a time leaves exactly the filter's result. |
| BugTiles.SpacesSurroundedByTheirColor | src/bugTiles.cpp:63-78 | Keeps exactly the frontier cells that have, in one of the six directions, a neighbouring visible piece owned by the player. |
| BugTiles.Place | src/bugTiles.cpp:16-23 | On the opening turn the whole frontier is offered, with no colour rule. Otherwise the offer is exactly the frontier cells with a neighbouring piece owned by the player, as SpacesSurroundedByTheirColor characterises. |
| HiveIntegrity.ReachesSymmetric | src/bugTiles.cpp:80-106 | Reachability inside a set of cells is symmetric. |
| HiveIntegrity.ReachesTransitive | src/bugTiles.cpp:80-106 | Reachability inside a set of cells is transitive. |
| HiveIntegrity.ClosedPartHoldsReachable | src/bugTiles.cpp:93-100 | A part closed under adjacency contains everything reachable from its members. This is why the flood fill misses nothing. |
| HiveIntegrity.ConnectedIffAllReachedFrom | src/bugTiles.cpp:80-106 | A set is connected iff every member is reachable from one start cell. |
| HiveIntegrity.CheckIntegrityOfHiveWithoutOneTile | src/bugTiles.cpp:80-106 | The flood fill answers true iff three things hold: the cell is on the board; the remaining pieces are all connected; and they touch the cell, or none remain. The caller's map is taken by value and is unchanged. |
| SpiderSearch.StepCells | src/bugTiles.cpp:176-178 | One step from a cell leads only to neighbours that lie in the frontier. |
| SpiderSearch.LayerStep | src/bugTiles.cpp:172-189 | Layer d+1 holds the cells one step from layer d that were not seen before. The seen cells grow by exactly that layer. |
| SpiderSearch.LayerWithinVisited | src/bugTiles.cpp:172-189 | Each layer lies within the cells seen so far, and the origin is always seen. |
| SpiderSearch.EmptyLayerStaysEmpty | src/bugTiles.cpp:172-189 | Once a layer is empty, every later layer is empty: the search has ended. |
| SpiderSearch.ExpandNeighbors | src/bugTiles.cpp:176-186 | Processing one queue item marks and enqueues its unseen frontier neighbours; at depth 2 it records them as results instead. |
| SpiderSearch.SearchStarts | src/bugTiles.cpp:166-170 | The initial queue, holding only the origin at depth 0, satisfies the search invariant. |
| SpiderSearch.StartNextLayer | src/bugTiles.cpp:172-189 | When the current layer is used up and the queue is not empty, the search moves to the next depth, which is below 3. |
| SpiderSearch.PopKeepsSearchState | src/bugTiles.cpp:172-189 | Popping the head item and expanding it keeps the search invariant. |
| SpiderSearch.SearchEnds | src/bugTiles.cpp:172-191 | With the queue empty, the result is exactly layer 3. |
| SpiderSearch.FindPositionThreeSpacesFromOrigin | src/bugTiles.cpp:163-192 | The search returns exactly the cells first reached after three steps through empty frontier cells. |
| SpiderSearch.VisitedHasWalk | src/bugTiles.cpp:163-192 | Every cell seen within k steps has a walk of at most k steps from the origin. |
| SpiderSearch.VisitedIsWithinSteps | src/bugTiles.cpp:163-192 | A cell is seen within k steps iff some walk of at most k steps reaches it. |
| SpiderSearch.SpiderDestinationsAtDistanceThree | src/bugTiles.cpp:163-192 | A cell is a Spider result iff it is reachable in 3 steps but not in 2. |
| SpiderSearch.SpiderDestinationsAreNew | src/bugTiles.cpp:163-192 | Results lie in the frontier and never include the origin. A cell first reached at step 1 or 2 is never a result. |
| BugMoves.QueenBeeMove | src/bugTiles.cpp:129-148 | If lifting the Queen breaks the hive or she cannot slide, there are no destinations. Otherwise they are exactly her empty frontier neighbours that have at least two occupied neighbours. |
| BugMoves.QueenBeeKeepsContact | src/bugTiles.cpp:129-148 | Every Queen destination is an empty frontier neighbour. Besides the Queen herself, it touches at least one other piece. |
| BugMoves.BeetleMove | src/bugTiles.cpp:197-209 | A carrying Beetle gets all six neighbours. Otherwise it gets nothing if the hive breaks, and else all neighbours minus the empty ones with at most one occupied neighbour. Occupied neighbours are always offered. |
| BugMoves.StepShrinksCellsAhead | src/bugTiles.cpp:229-233 | Each step of the jump loop shrinks the board cells still ahead, so the loop ends. |
| BugMoves.LandingIsUnique | src/bugTiles.cpp:215-240 | Each direction gives the Grasshopper at most one landing cell. |
| BugMoves.NoLandingWithoutNeighbor | src/bugTiles.cpp:215-240 | A direction whose first cell holds no piece gives no landing. |
| BugMoves.JumpStopped | src/bugTiles.cpp:229-233 | Where the ray first meets a cell without a piece, that cell is the landing iff it is at least two cells away. |
| BugMoves.GrasshopperMove | src/bugTiles.cpp:215-240 | The Grasshopper gets nothing if lifting it breaks the hive. Otherwise it gets exactly the cells origin + k·d with k ≥ 2, where every cell passed over holds a piece and the landing cell does not. |
| BugMoves.SoldierAntMove | src/bugTiles.cpp:245-259 | If lifting the Ant breaks the hive or it cannot slide, there are no destinations. Otherwise they are exactly the frontier cells with at most four occupied neighbours. |
| BugMoves.SpiderMove | src/bugTiles.cpp:153-161 | If lifting the Spider breaks the hive or it cannot slide, there are no destinations. Otherwise they are the layer-3 cells of the search, which lie in the frontier and exclude the origin. |
| BugMoves.SpiderMovesAreThreeStepsAway | src/bugTiles.cpp:153-192 | When the Spider may leave, a cell is a destination iff it is reachable in 3 steps but not in 2. |
| BugMoves.Move | src/bugTiles.h:106 | Dispatch on the bug type returns that bug's destination set. |
| BugMoves.FrontierBoundMoves | src/bugTiles.cpp:245-259 | Queen, Spider and Soldier Ant destinations always lie in the frontier. |
| BoardRules.TruncHalf | src/GameEngine.cpp:22 | Halving truncates toward zero, as C++ integer division does, for negative values as well. |
| BoardRules.SeedIsMidBoard | src/GameEngine.cpp:22 | The first placement cell is a board cell in the middle column, halfway up it. |
| BoardRules.GenerateBaseMap | src/GameEngine.cpp:255-263 | The generated map holds exactly the board's cells, all empty. |
| BoardRules.FrontierOf | src/GameEngine.cpp:173-198 | Frontier cells are empty board cells. |
| BoardRules.ClearBoardHasNoFrontier | src/GameEngine.cpp:22 | An empty board has no frontier, so the centre seed is the only way to start. |
| BoardRules.Stranded | src/GameEngine.cpp:190-198 | The cells the border drops after a piece leaves are empty neighbours of the vacated cell that touch no piece. None of them is a frontier cell. |
| BoardRules.FrontierAfterOccupying | src/GameEngine.cpp:184-188 | After a piece arrives on a cell, the frontier is the old frontier minus that cell, plus its empty neighbours. |
| BoardRules.FrontierAfterMove | src/GameEngine.cpp:173-198 | After a move, the incremental border update gives exactly the new frontier. The destination leaves it and its empty neighbours join it. If the origin becomes empty, it joins, and its empty neighbours with no occupied neighbour leave. |
| BoardRules.LegalDestinationTouchesHive | src/GameEngine.cpp:173-182 | Every destination a rule offers differs from the origin. Either it is next to the origin, or the origin has an occupied neighbour. This is what makes the incremental border update exact. |
| BoardRules.FrontierCellTouchesHive | src/GameEngine.cpp:173-182 | The same holds for any frontier cell when lifting the piece keeps the hive connected. |
| BoardRules.BoardAfterMove | src/GameEngine.cpp:98-108 | After a move: the destination holds the mover; no other cell changes; and the origin gets the Beetle's carried piece, or becomes empty for any other bug. A Beetle now carries the destination's previous occupant, and other Beetles' slots are unchanged. |
| BoardRules.BeetleClimbAndReturn | src/GameEngine.cpp:101-104 | A Beetle that climbs onto a piece carries it. When it steps back, the board is restored and it carries nothing. |
| BoardRules.PlayerWonIffQueenSurrounded | src/GameEngine.h:91-99 | A player has won iff the opponent's visible Queen has all six neighbours occupied. |
| BoardRules.OutcomeCases | src/GameEngine.cpp:137-158 | A win is only looked for once the opposing Queen is placed. Both wins give a draw, one gives that player the win, and neither leaves the game normal. |
| BoardRules.GameEndsWhenAQueenIsCaged | src/GameEngine.cpp:137-158 | The position is decided iff some placed Queen is caged. |
| PlayerInventory.InitialInventory | src/Player.h:100-104 | The starting hand lists Queen 1, Spider 2, Beetle 2, Grasshopper 3, Soldier Ant 3, at indices 0 to 4. |
| PlayerInventory.HandOrderCoversEveryBugOnce | src/Player.h:100-104 | The hand order has five entries and lists every bug type exactly once, with the Queen first. So the hand has one entry per bug type, and there are exactly five bug types. |
| PlayerInventory.InitialHandSize | src/Player.h:100-104 | The starting hand holds eleven pieces in total: all of a player's pieces. |
| PlayerInventory.ChangeCountChangesTotal | src/Player.h:70 | Changing one entry's count by an amount changes the number of pieces in the hand by exactly that amount. |
| PlayerInventory.HandTotalNonNegative | src/Player.h:100-104 | A hand with no negative count has a non-negative total. The total is zero iff every entry is used up. |
| PlayerInventory.InitialInventoryWithinStartingCounts | src/Player.h:100-104 | The starting hand is within the starting counts, and its Queen is not yet placed. |
| PlayerInventory.TakeOneKeepsCountsInRange | src/GameEngine.cpp:44-45 | Taking one piece from an entry with a positive count keeps every count between 0 and its starting value. The Queen becomes placed exactly when its last piece is taken. |
| PlayerInventory.Player.constructor | src/Player.h:41 | A new player holds the starting hand under its own id. |
| PlayerInventory.Player.ModifieAvaiblePiecesCount | src/Player.h:70 | Only entry i's count changes, by the amount. Every other entry and every bug type is unchanged. |
| PlayerInventory.Player.GetTileDataAtIndex | src/Player.h:79 | The tile data for entry i has that entry's bug type and this player's id. |
| PlayerInventory.Player.QueenPlacedIffNoQueenInHand | src/Player.h:77 | The Queen is placed iff no Queen is left in the hand. |
| EngineRules.PiecesOwnedBy | src/GameEngine.cpp:94-97 | A player's pieces in the arena are among the arena's pieces. |
| EngineRules.PiecesOwnedByAppend | src/GameEngine.cpp:94-97 | A placed piece adds one to its owner's pieces on the board and none to the other player's. |
| EngineRules.ArenaHoldsAtMostThePlayersPieces | src/GameEngine.cpp:44-45 | When pieces are conserved, a player never has more than eleven pieces in the arena. They have all eleven there exactly when every entry of the hand is used up. |
| EngineRules.NextTurnKeepsQueensDown | src/GameEngine.cpp:116-123 | Suppose the mover's Queen is down whenever the move was made on turn 4. Then passing the turn keeps every Queen the deadline has forced down. |
| EngineRules.PlacementKeepsBoard | src/GameEngine.cpp:94-97 | A placement on a border cell keeps the board shape and the arena. It leaves the board non-empty and the incremental border equal to the frontier. |
| EngineRules.PlacementKeepsEngine | src/GameEngine.cpp:94-97 | A placement allowed by the hand and the deadline keeps the engine's invariant. In particular, the placed piece moves from the player's hand to the arena, so each player's pieces are conserved. On turn 4 it leaves the mover's Queen on the board. |
| EngineRules.MoveKeepsBoard | src/GameEngine.cpp:98-111 | A move to a destination its rule offers never stays put. It keeps the board shape and the arena, and the incremental border update equals the frontier. |
| EngineRules.MoveKeepsEngine | src/GameEngine.cpp:98-111 | Such a move keeps the engine's invariant and leaves the border as the frontier. |
| Engine.GameEngine.constructor | src/GameEngine.cpp:16-23 | A new game has: an empty board of the generated shape; both hands full; the seed as the only border cell; turn 0 with player 0 on turn and starting; nothing selected; and the game running. |
| Engine.GameEngine.CheckInputs | src/GameEngine.cpp:24-35 | Input is ignored once the game is stopped, or when nothing is pressed. Otherwise a press on a listed destination of the selection places or moves the piece there and passes the turn. The invariant is kept, and the destinations match the selection afterwards. |
| Engine.GameEngine.PressOnHexMap | src/GameEngine.cpp:29-32 | A press over the board, followed by the refresh of the destinations, keeps the invariant and leaves destinations that match the selection. A press on a listed destination places or moves the piece there and passes the turn. |
| Engine.GameEngine.CheckInputInPlayerField | src/GameEngine.cpp:37-74 | A press on hand entry i selects that piece iff: i is not -1; pieces of that entry are left; and the Queen deadline allows it (not turn 4, the Queen itself, or the Queen already placed). Otherwise the selection is cleared. The board and turn do not change. |
| Engine.GameEngine.CheckInputInHexMap | src/GameEngine.cpp:76-91 | A press off the board clears the selection. A press on a listed destination makes the move and passes the turn. A press on an own visible piece selects it, or clears the selection on turn 4 with the Queen in hand. Any other press changes nothing. |
| Engine.GameEngine.SelectPieceOnBoard | src/GameEngine.cpp:82-88 | The pressed own piece becomes the board selection with its cell recorded, unless the Queen deadline forbids it. In that case the selection is cleared. |
| Engine.GameEngine.MoveHex | src/GameEngine.cpp:93-114 | A selected hand piece becomes a new arena piece on the cell, and its hand entry loses one. A selected board piece moves as BoardAfterMove describes. Either way the border equals the frontier, the selection is cleared and the turn passes. |
| Engine.GameEngine.PlaceSelectedTile | src/GameEngine.cpp:94-97 | After a placement: the cell holds the new piece; the player's entry count drops by one and the other hand is unchanged; the border is updated to the frontier. |
| Engine.GameEngine.MoveSelectedTile | src/GameEngine.cpp:98-111 | After a move, the board and the carry slots are as BoardAfterMove describes. The border is updated to the frontier. |
| Engine.GameEngine.ChangeTurn | src/GameEngine.cpp:116-135 | The game stops iff the position is decided. While it goes on, the other player is on turn, and the turn counter grows iff the player who just acted is not the starting player. |
| Engine.GameEngine.CheckGameStatus | src/GameEngine.cpp:137-158 | The status is the outcome of the position given which Queens are placed. |
| Engine.GameEngine.CheckIfPlayerWon | src/GameEngine.cpp:160-171 | The scan finds a win iff the opponent's visible Queen has six occupied neighbours. |
| Engine.GameEngine.ModifyBorderOfHiveFrom | src/GameEngine.cpp:173-182 | The border is updated for the cell entered. Then, if the origin is now empty, it is added back and its stranded neighbours are dropped. |
| Engine.GameEngine.ModifyBorderOfHive | src/GameEngine.cpp:184-188 | The cell entered leaves the border, and its empty neighbours join it. |
| Engine.GameEngine.EraseUnnecessarydHexesFromBorder | src/GameEngine.cpp:190-198 | Exactly the empty neighbours of the vacated cell that touch no piece leave the border. |
| Engine.GameEngine.HasSomeBugHexNeighbor | src/GameEngine.cpp:200-202 | True iff some neighbour of the cell holds a piece. |
| Engine.GameEngine.InvalidateSelectedTileVariables | src/GameEngine.cpp:204-209 | Resets exactly the four selection fields to "nothing selected". The board, turn and destinations are unchanged. |
| Engine.GameEngine.UpdatePossibleMovesOnSelectedTile | src/GameEngine.cpp:211-223 | Refreshes the destinations: placement cells for a hand piece; the bug's rule for a board piece once the player's Queen is placed, and nothing before. With no selection the old set stays. |

## Left out

- Rendering, mouse hit-testing and the main loop are not part of this model: the window, the drawing, the float screen geometry and the frame loop. A frame's input is the `MouseInput` parameter of `CheckInputs`, which stands for what the renderer resolves. `FindIteratorOfHexUnderCursor` becomes the pressed coordinate.
- `Cube_round`, `AxialToCube`, `CubeToAxial` and `RoundAxial` (src/hexUtilities.cpp:56-87) are floating-point cursor rounding and are not modelled.
- `hexagonHorizontalCount` comes from the renderer. It is a constructor parameter here.
- Colours in `TileData` play no part in the rules, and `GetBugColor` is not modelled.
- Player names, `PlayerNameConfiguration`, the formatted win and draw messages and `messageToDisplay` are display only.
- `shared_ptr` ownership and `dynamic_pointer_cast` are replaced by arena piece ids and the bug-type tag. Aliasing between the selection pointer and the board cell is therefore not modelled.
- Both overloads of `RemovePossibleMovesAroundTile` erase from a set while iterating it without taking the iterator `erase` returns (src/bugTiles.cpp:38, src/bugTiles.cpp:56). This is undefined behaviour in C++. The model states the evidently intended filter: the input minus the tile's empty neighbours that have at most one occupied neighbour.
- The value computed at src/bugTiles.cpp:136 is never used, and the model leaves it out.
- The set iteration order of `std::set` (the flood fill's pick, the Spider's neighbour order, the win scan) is replaced by an arbitrary choice. Every modelled result is independent of the order.
- 32-bit `int` overflow of coordinates, counts and the turn counter is not modelled, since integers are unbounded. The one place the width shows is the "no selection" coordinate `(INT_MAX, INT_MAX)`, which is kept as a constant.
- Engine.GameEngine.CheckInputInPlayerField: requires the pressed index to be in -1..4. The renderer's hit test rejects only indices above 5. It can therefore report 5 (one past the last entry), and it does not rule out an index below -1 either. The C++ code would use either to index outside the hand.
- Engine.GameEngine.CheckInputs: states the result of a press on a listed destination in full. For the other presses it states only the invariant and that the destinations match the new selection. `CheckInputInHexMap` and `CheckInputInPlayerField` state those cases.
- Engine.GameEngine.MoveHex: requires the selection to be consistent with the destinations on record. This is what the engine's own input path guarantees: `CheckInputInHexMap` calls it only for a listed destination, and the destinations are refreshed after every input.
- The Spider's search starts from the origin cell, which the Spider still occupies. So the first step goes to empty frontier cells around the origin, exactly as the C++ code does. The model follows the code, not the usual rule that the Spider crawls around the hive without its own body.
- The Grasshopper's landing cell may lie off the board: the jump loop stops at the first cell without a piece, and a cell missing from the map has none. The model keeps this. The engine then ignores such a destination because only board cells can be pressed.
