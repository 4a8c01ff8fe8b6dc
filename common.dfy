/** The integer constants of the game that the rule engine depends on. */
module Common {

  /** Number of entries in the axial direction table. */
  const SizeOfAxialVectors: nat := 6

  /** Number of hexagons in one column of the generated board. */
  const HexagonVerticalCount: nat := 12

  /** Number of different bug kinds in a player's inventory. */
  const DifferentPiecesCount: nat := 5
}
