/**
 * The one-hive rule: connectivity of the occupied cells under hex
 * adjacency, and the flood fill that tests it on a scratch copy of the board.
 */
module HiveIntegrity {
  import opened Wrappers
  import opened HexUtilities
  import opened BugTiles

  /** `p` is a non-empty walk through cells of `s`, each step to a neighbour. */
  ghost predicate IsPathIn(p: seq<HexCords>, s: set<HexCords>) {
    && |p| > 0
    && (forall i :: 0 <= i < |p| ==> p[i] in s)
    && (forall i :: 0 <= i < |p| - 1 ==> p[i + 1] in Neighbors(p[i]))
  }

  ghost predicate Reaches(s: set<HexCords>, a: HexCords, b: HexCords) {
    exists p :: IsPathIn(p, s) && p[0] == a && p[|p| - 1] == b
  }

  /** Every two cells of `s` are joined by a walk inside `s`. */
  ghost predicate IsConnected(s: set<HexCords>) {
    forall a, b :: a in s && b in s ==> Reaches(s, a, b)
  }

  /**
   * Lifting the piece on `c` keeps the hive in one piece: `c` is a board
   * cell and the other pieces are either none at all, or connected and
   * touching `c`.
   */
  ghost predicate HiveStaysConnected(m: HexTileMap, c: HexCords) {
    c in m &&
    var rest := OccupiedCells(m) - {c};
    rest == {} || (OccupiedNeighbors(m, c) != {} && IsConnected(rest))
  }

  lemma ReachesItself(s: set<HexCords>, a: HexCords)
    requires a in s
    ensures Reaches(s, a, a)
  {
    assert IsPathIn([a], s);
  }

  lemma ReachesStep(s: set<HexCords>, a: HexCords, b: HexCords, c: HexCords)
    requires Reaches(s, a, b) && c in s && c in Neighbors(b)
    ensures Reaches(s, a, c)
  {
    var p :| IsPathIn(p, s) && p[0] == a && p[|p| - 1] == b;
    var q := p + [c];
    assert IsPathIn(q, s);
    assert q[0] == a && q[|q| - 1] == c;
  }

  lemma {:induction false} ReachesSymmetric(s: set<HexCords>, a: HexCords, b: HexCords)
    requires Reaches(s, a, b)
    ensures Reaches(s, b, a)
  {
    var p :| IsPathIn(p, s) && p[0] == a && p[|p| - 1] == b;
    var q := seq(|p|, i requires 0 <= i < |p| => p[|p| - 1 - i]);
    forall i | 0 <= i < |q| - 1 ensures q[i + 1] in Neighbors(q[i]) {
      var j := |p| - 2 - i;
      assert p[j + 1] in Neighbors(p[j]);
      AdjacencyIsSymmetric(p[j], p[j + 1]);
      assert q[i] == p[j + 1] && q[i + 1] == p[j];
    }
    forall i | 0 <= i < |q| ensures q[i] in s {
      assert q[i] == p[|p| - 1 - i];
    }
    assert IsPathIn(q, s);
    assert q[0] == b && q[|q| - 1] == a;
  }

  lemma {:induction false} ReachesTransitive(s: set<HexCords>, a: HexCords, b: HexCords, c: HexCords)
    requires Reaches(s, a, b) && Reaches(s, b, c)
    ensures Reaches(s, a, c)
  {
    var p :| IsPathIn(p, s) && p[0] == a && p[|p| - 1] == b;
    var q :| IsPathIn(q, s) && q[0] == b && q[|q| - 1] == c;
    var r := p + q[1..];
    forall i | 0 <= i < |r| - 1 ensures r[i + 1] in Neighbors(r[i]) {
      if i < |p| - 1 {
        assert r[i] == p[i] && r[i + 1] == p[i + 1];
      } else {
        assert r[i] == q[i - |p| + 1] && r[i + 1] == q[i - |p| + 2];
      }
    }
    assert IsPathIn(r, s);
    assert r[0] == a && r[|r| - 1] == c;
  }

  /** A part of `s` closed under adjacency inside `s` holds everything a member reaches. */
  lemma {:induction false} ClosedPartHoldsReachable(s: set<HexCords>, part: set<HexCords>, a: HexCords, b: HexCords)
    requires part <= s && a in part
    requires forall x, y :: x in part && y in s && y in Neighbors(x) ==> y in part
    requires Reaches(s, a, b)
    ensures b in part
  {
    var p :| IsPathIn(p, s) && p[0] == a && p[|p| - 1] == b;
    var i := 0;
    while i < |p| - 1
      invariant 0 <= i < |p|
      invariant p[i] in part
    {
      assert p[i + 1] in s && p[i + 1] in Neighbors(p[i]);
      i := i + 1;
    }
  }

  /** All of `s` reached from one member is the same as `s` being connected. */
  lemma ConnectedIffAllReachedFrom(s: set<HexCords>, start: HexCords)
    requires start in s
    ensures IsConnected(s) <==> forall x :: x in s ==> Reaches(s, start, x)
  {
    if forall x :: x in s ==> Reaches(s, start, x) {
      forall a, b | a in s && b in s ensures Reaches(s, a, b) {
        ReachesSymmetric(s, start, a);
        ReachesTransitive(s, a, start, b);
      }
    }
  }

  /**
   * The flood fill: clears `removed` in the copy, then clears cell after cell
   * starting from one occupied neighbour of it; the hive stays connected iff
   * nothing is left.
   */
  method CheckIntegrityOfHiveWithoutOneTile(gameMap: HexTileMap, removed: HexCords) returns (result: bool)
    ensures result == HiveStaysConnected(gameMap, removed)
  {
    result := false;
    if removed !in gameMap {
      return;
    }
    var m := gameMap[removed := None];
    ghost var s := OccupiedCells(m);
    assert s == OccupiedCells(gameMap) - {removed};
    var queue: set<HexCords> := {};
    var neighbors := OccupiedNeighbors(m, removed);
    assert neighbors == OccupiedNeighbors(gameMap, removed);
    var start := removed;
    if neighbors != {} {
      start :| start in neighbors;
      queue := {start};
      ReachesItself(s, start);
    }
    while queue != {}
      invariant m.Keys == gameMap.Keys
      invariant OccupiedCells(m) <= s
      invariant queue <= OccupiedCells(m)
      invariant neighbors != {} <==> start in s
      invariant start in s ==> start in queue || start !in OccupiedCells(m)
      invariant start in s ==> forall x :: x in s && (x in queue || x !in OccupiedCells(m)) ==> Reaches(s, start, x)
      invariant forall x, y :: x in s && x !in OccupiedCells(m) && y in s && y in Neighbors(x) ==>
        y in queue || y !in OccupiedCells(m)
      invariant neighbors == {} ==> queue == {} && OccupiedCells(m) == s
      decreases |OccupiedCells(m)|
    {
      var e :| e in queue;
      var cleared := m[e := None];
      assert OccupiedCells(cleared) == OccupiedCells(m) - {e};
      m := cleared;
      queue := queue - {e};
      var more := OccupiedNeighbors(m, e);
      forall y | y in more ensures Reaches(s, start, y) {
        ReachesStep(s, start, e, y);
      }
      queue := queue + more;
    }
    result := IsMapClear(m);
    MapClearIffNoOccupiedCell(m);
    if neighbors != {} {
      var part := s - OccupiedCells(m);
      if IsConnected(s) {
        forall x | x in s ensures x !in OccupiedCells(m) {
          ClosedPartHoldsReachable(s, part, start, x);
        }
        assert OccupiedCells(m) == {};
      }
      ConnectedIffAllReachedFrom(s, start);
    }
  }
}
