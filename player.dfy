/**
 * A player's hand: five (bug type, count) entries in a fixed order, updated
 * in place as pieces are placed, and the tile data of each entry.
 */
module PlayerInventory {
  import opened Common
  import opened BugTiles

  /** One entry of the hand: a bug type and how many of it are left. */
  datatype PlayerPiece = PlayerPiece(bug: BugType, count: int)

  /** Bug type of each hand index: Queen, Spider, Beetle, Grasshopper, Soldier Ant. */
  const HandOrder: seq<BugType> := [QueenBee, Spider, Beetle, Grasshopper, SoldierAnt]

  /** How many of each entry a player starts with. */
  const InitialCounts: seq<int> := [1, 2, 2, 3, 3]

  /** The hand a player starts with. */
  function InitialInventory(): (r: seq<PlayerPiece>)
    ensures |r| == DifferentPiecesCount
    ensures forall i :: 0 <= i < |r| ==> r[i].bug == HandOrder[i] && r[i].count == InitialCounts[i]
  {
    [PlayerPiece(QueenBee, 1), PlayerPiece(Spider, 2), PlayerPiece(Beetle, 2),
     PlayerPiece(Grasshopper, 3), PlayerPiece(SoldierAnt, 3)]
  }

  /** Each bug type has exactly one hand entry; the Queen's is entry 0. */
  lemma HandOrderCoversEveryBugOnce(b: BugType)
    ensures |HandOrder| == DifferentPiecesCount
    ensures b in HandOrder
    ensures forall i, j :: 0 <= i < j < |HandOrder| ==> HandOrder[i] != HandOrder[j]
    ensures HandOrder[0] == QueenBee
  {
  }

  /** How many pieces the hand still holds, over all its entries. */
  function HandTotal(hand: seq<PlayerPiece>): int {
    if hand == [] then 0 else hand[0].count + HandTotal(hand[1..])
  }

  /** How many pieces a player has in all. */
  const PiecesPerPlayer: int := 11

  /** The full starting hand holds all eleven of the player's pieces. */
  lemma InitialHandSize()
    ensures HandTotal(InitialInventory()) == PiecesPerPlayer
  {
  }

  /** Changing one entry's count by `amount` changes the hand's total by exactly `amount`. */
  lemma {:induction false} ChangeCountChangesTotal(hand: seq<PlayerPiece>, index: int, amount: int)
    requires 0 <= index < |hand|
    ensures HandTotal(hand[index := PlayerPiece(hand[index].bug, hand[index].count + amount)]) == HandTotal(hand) + amount
  {
    var after := hand[index := PlayerPiece(hand[index].bug, hand[index].count + amount)];
    if index == 0 {
      assert after[1..] == hand[1..];
    } else {
      ChangeCountChangesTotal(hand[1..], index - 1, amount);
      assert after[1..] == hand[1..][index - 1 := PlayerPiece(hand[index].bug, hand[index].count + amount)];
    }
  }

  /** A hand with no negative count holds no negative total, and holds nothing iff every count is zero. */
  lemma {:induction false} HandTotalNonNegative(hand: seq<PlayerPiece>)
    requires forall i :: 0 <= i < |hand| ==> hand[i].count >= 0
    ensures HandTotal(hand) >= 0
    ensures HandTotal(hand) == 0 <==> forall i :: 0 <= i < |hand| ==> hand[i].count == 0
  {
    if hand != [] {
      HandTotalNonNegative(hand[1..]);
      assert forall i :: 1 <= i < |hand| ==> hand[i] == hand[1..][i - 1];
    }
  }

  /** The Queen has left the hand: the count of entry 0, the Queen's, is zero. */
  predicate QueenPlacedIn(hand: seq<PlayerPiece>) {
    |hand| > 0 && hand[0].count == 0
  }

  /** A hand in the fixed bug order whose counts lie between none and the starting count. */
  predicate WithinStartingCounts(hand: seq<PlayerPiece>) {
    && |hand| == DifferentPiecesCount
    && forall i :: 0 <= i < |hand| ==> hand[i].bug == HandOrder[i] && 0 <= hand[i].count <= InitialCounts[i]
  }

  /** The starting hand is within the starting counts and holds the Queen. */
  lemma InitialInventoryWithinStartingCounts()
    ensures WithinStartingCounts(InitialInventory()) && !QueenPlacedIn(InitialInventory())
  {
  }

  /**
   * Taking one piece from an entry that still has some keeps every count in
   * range; the Queen is placed afterwards iff it was placed before or the
   * Queen was the piece taken.
   */
  lemma TakeOneKeepsCountsInRange(hand: seq<PlayerPiece>, index: int)
    requires WithinStartingCounts(hand) && 0 <= index < |hand| && hand[index].count > 0
    ensures var after := hand[index := PlayerPiece(hand[index].bug, hand[index].count - 1)];
      && WithinStartingCounts(after)
      && (QueenPlacedIn(after) <==> QueenPlacedIn(hand) || (index == 0 && hand[0].count == 1))
  {
  }

  class Player {
    const playerId: int
    const pieces: array<PlayerPiece>

    /** The hand has five entries in the fixed bug order. */
    ghost predicate Valid()
      reads pieces
    {
      pieces.Length == DifferentPiecesCount && forall i :: 0 <= i < pieces.Length ==> pieces[i].bug == HandOrder[i]
    }

    constructor (id: int)
      ensures playerId == id && fresh(pieces)
      ensures Valid() && pieces[..] == InitialInventory()
    {
      playerId := id;
      pieces := new PlayerPiece[DifferentPiecesCount] [PlayerPiece(QueenBee, 1), PlayerPiece(Spider, 2),
        PlayerPiece(Beetle, 2), PlayerPiece(Grasshopper, 3), PlayerPiece(SoldierAnt, 3)];
    }

    /** Adds `amount` to the count of entry `index` and touches nothing else. */
    method ModifieAvaiblePiecesCount(index: int, amount: int)
      requires Valid() && 0 <= index < pieces.Length
      modifies pieces
      ensures Valid()
      ensures pieces[..] == old(pieces[..])[index := PlayerPiece(old(pieces[index].bug), old(pieces[index].count) + amount)]
    {
      pieces[index] := pieces[index].(count := pieces[index].count + amount);
    }

    /** The Queen is on the board once no Queen is left in the hand. */
    predicate HasPlacedQueen()
      reads pieces
      requires Valid()
    {
      QueenPlacedIn(pieces[..])
    }

    /** The tile data of hand entry `index`: that entry's bug type, owned by this player. */
    function GetTileDataAtIndex(index: int): (t: TileData)
      reads pieces
      requires Valid() && 0 <= index < pieces.Length
      ensures t.bug == pieces[index].bug && t.playerId == playerId
    {
      TileData(HandOrder[index], playerId)
    }

    /** HasPlacedQueen reads the Queen's entry, whatever its index. */
    lemma QueenPlacedIffNoQueenInHand()
      requires Valid()
      ensures HasPlacedQueen() <==> forall i :: 0 <= i < pieces.Length && pieces[i].bug == QueenBee ==> pieces[i].count == 0
    {
      HandOrderCoversEveryBugOnce(QueenBee);
    }
  }
}
