/**
 * The Spider's search: a breadth-first traversal from the origin through
 * empty frontier cells, layered by step count, whose third layer is the set
 * of Spider destinations.
 */
module SpiderSearch {
  import opened Wrappers
  import opened HexUtilities

  /** The cells one step from `x`: its empty neighbours that lie in the frontier. */
  function StepCells(m: HexTileMap, frontier: set<HexCords>, x: HexCords): (r: set<HexCords>)
    ensures r <= frontier && r <= Neighbors(x)
  {
    EmptyNeighbors(m, x) * frontier
  }

  /** The cells one step from some cell of `p`. */
  function Step(m: HexTileMap, frontier: set<HexCords>, p: set<HexCords>): (r: set<HexCords>)
    ensures r <= frontier
  {
    set y | y in frontier && exists x :: x in p && y in EmptyNeighbors(m, x)
  }

  /** Layer k holds the cells first reached after k steps; layer 0 is the origin. */
  function Layer(m: HexTileMap, frontier: set<HexCords>, origin: HexCords, k: nat): set<HexCords>
    decreases k, 0
  {
    if k == 0 then {origin}
    else Step(m, frontier, Layer(m, frontier, origin, k - 1)) - Visited(m, frontier, origin, k - 1)
  }

  /** The cells reached within k steps. */
  function Visited(m: HexTileMap, frontier: set<HexCords>, origin: HexCords, k: nat): set<HexCords>
    decreases k, 1
  {
    if k == 0 then {origin} else Visited(m, frontier, origin, k - 1) + Layer(m, frontier, origin, k)
  }

  /** The cells held by the pairs of a queue. */
  function Cells(queue: seq<(HexCords, nat)>): set<HexCords> {
    set i | 0 <= i < |queue| :: queue[i].0
  }

  predicate DistinctCells(queue: seq<(HexCords, nat)>) {
    forall i, j :: 0 <= i < j < |queue| ==> queue[i].0 != queue[j].0
  }

  lemma CellsOfTail(queue: seq<(HexCords, nat)>)
    requires queue != [] && DistinctCells(queue)
    ensures Cells(queue[1..]) == Cells(queue) - {queue[0].0}
    ensures DistinctCells(queue[1..])
  {
    var t := queue[1..];
    forall c ensures c in Cells(t) <==> c in Cells(queue) && c != queue[0].0 {
      if c in Cells(t) {
        var i :| 0 <= i < |t| && t[i].0 == c;
        assert queue[i + 1].0 == c;
      }
      if c in Cells(queue) && c != queue[0].0 {
        var i :| 0 <= i < |queue| && queue[i].0 == c;
        assert t[i - 1].0 == c;
      }
    }
  }

  lemma CellsOfAppend(queue: seq<(HexCords, nat)>, item: (HexCords, nat))
    ensures Cells(queue + [item]) == Cells(queue) + {item.0}
  {
    var q := queue + [item];
    forall c | c in Cells(q) ensures c in Cells(queue) + {item.0} {
      var i :| 0 <= i < |q| && q[i].0 == c;
      if i < |queue| {
        assert queue[i].0 == c;
      }
    }
    forall c | c in Cells(queue) ensures c in Cells(q) {
      var i :| 0 <= i < |queue| && queue[i].0 == c;
      assert q[i].0 == c;
    }
    assert q[|queue|].0 == item.0;
  }



  /** Stepping from one more cell adds exactly that cell's step cells. */
  lemma StepAddOne(m: HexTileMap, frontier: set<HexCords>, p: set<HexCords>, x: HexCords)
    ensures Step(m, frontier, p + {x}) == Step(m, frontier, p) + StepCells(m, frontier, x)
  {
  }

  lemma {:induction false} LayerWithinVisited(m: HexTileMap, frontier: set<HexCords>, origin: HexCords, k: nat)
    ensures Layer(m, frontier, origin, k) <= Visited(m, frontier, origin, k)
    ensures origin in Visited(m, frontier, origin, k)
  {
    if k > 0 {
      LayerWithinVisited(m, frontier, origin, k - 1);
    }
  }

  lemma {:induction false} EmptyLayerStaysEmpty(m: HexTileMap, frontier: set<HexCords>, origin: HexCords, k: nat, j: nat)
    requires k <= j && Layer(m, frontier, origin, k) == {}
    ensures Layer(m, frontier, origin, j) == {}
    decreases j - k
  {
    if k < j {
      assert Step(m, frontier, {}) == {};
      assert Layer(m, frontier, origin, k + 1) == {};
      EmptyLayerStaysEmpty(m, frontier, origin, k + 1, j);
    }
  }

  lemma CellsOfConcat(a: seq<(HexCords, nat)>, b: seq<(HexCords, nat)>)
    ensures Cells(a + b) == Cells(a) + Cells(b)
  {
    var q := a + b;
    forall c | c in Cells(q) ensures c in Cells(a) + Cells(b) {
      var i :| 0 <= i < |q| && q[i].0 == c;
      if i < |a| { assert a[i].0 == c; } else { assert b[i - |a|].0 == c; }
    }
    forall c | c in Cells(a) + Cells(b) ensures c in Cells(q) {
      if c in Cells(a) {
        var i :| 0 <= i < |a| && a[i].0 == c;
        assert q[i].0 == c;
      } else {
        var i :| 0 <= i < |b| && b[i].0 == c;
        assert q[i + |a|].0 == c;
      }
    }
  }

  lemma DistinctAppend(a: seq<(HexCords, nat)>, b: seq<(HexCords, nat)>)
    requires DistinctCells(a) && DistinctCells(b) && Cells(a) * Cells(b) == {}
    ensures DistinctCells(a + b)
    ensures Cells(a + b) == Cells(a) + Cells(b)
  {
    CellsOfConcat(a, b);
    var q := a + b;
    forall i, j | 0 <= i < j < |q| ensures q[i].0 != q[j].0 {
      if j < |a| {
        assert q[i] == a[i] && q[j] == a[j];
      } else if i >= |a| {
        assert q[i] == b[i - |a|] && q[j] == b[j - |a|];
      } else {
        var u, v := q[i].0, q[j].0;
        assert u in Cells(a) by { assert q[i] == a[i]; }
        assert v in Cells(b) by { assert q[j] == b[j - |a|]; }
        assert u !in Cells(a) * Cells(b);
      }
    }
  }

  /**
   * What expanding `x` at `depth` does: its step cells are marked visited,
   * and those not visited before are queued one level deeper, or at depth 2
   * added to the result instead.
   */
  ghost predicate Expanded(m: HexTileMap, frontier: set<HexCords>, x: HexCords, depth: nat,
                           visited: set<HexCords>, queue: seq<(HexCords, nat)>, result: set<HexCords>,
                           visited': set<HexCords>, queue': seq<(HexCords, nat)>, result': set<HexCords>,
                           added: seq<(HexCords, nat)>)
  {
    && visited' == visited + StepCells(m, frontier, x)
    && queue' == queue + added
    && (depth == 2 ==> added == [] && result' == result + (StepCells(m, frontier, x) - visited))
    && (depth != 2 ==> result' == result && Cells(added) == StepCells(m, frontier, x) - visited)
    && DistinctCells(added) && (forall i :: 0 <= i < |added| ==> added[i].1 == depth + 1)
  }

  /**
   * The inner loop of the search: every empty frontier neighbour of `x` not
   * yet visited is marked and, below depth 2, queued one level deeper; at
   * depth 2 it goes into the result.
   */
  method ExpandNeighbors(m: HexTileMap, frontier: set<HexCords>, x: HexCords, depth: nat,
                         visited: set<HexCords>, queue: seq<(HexCords, nat)>, result: set<HexCords>)
    returns (visited': set<HexCords>, queue': seq<(HexCords, nat)>, result': set<HexCords>,
             ghost added: seq<(HexCords, nat)>)
    ensures Expanded(m, frontier, x, depth, visited, queue, result, visited', queue', result', added)
  {
    visited', queue', result', added := visited, queue, result, [];
    var neighbors := EmptyNeighbors(m, x);
    while neighbors != {}
      invariant neighbors <= EmptyNeighbors(m, x)
      invariant visited' == visited + (EmptyNeighbors(m, x) - neighbors) * frontier
      invariant queue' == queue + added
      invariant depth == 2 ==> added == [] && result' == result + ((EmptyNeighbors(m, x) - neighbors) * frontier - visited)
      invariant depth != 2 ==> result' == result && Cells(added) == (EmptyNeighbors(m, x) - neighbors) * frontier - visited
      invariant DistinctCells(added) && forall i :: 0 <= i < |added| ==> added[i].1 == depth + 1
      invariant Cells(added) <= visited'
      decreases neighbors
    {
      var y :| y in neighbors;
      if y !in visited' && y in frontier {
        visited' := visited' + {y};
        if depth == 2 {
          result' := result' + {y};
        } else {
          CellsOfAppend(added, (y, depth + 1));
          queue' := queue' + [(y, depth + 1)];
          added := added + [(y, depth + 1)];
        }
      }
      neighbors := neighbors - {y};
    }
  }

  lemma LayerStep(m: HexTileMap, frontier: set<HexCords>, origin: HexCords, d: nat)
    ensures Layer(m, frontier, origin, d + 1) ==
      Step(m, frontier, Layer(m, frontier, origin, d)) - Visited(m, frontier, origin, d)
    ensures Visited(m, frontier, origin, d + 1) == Visited(m, frontier, origin, d) + Layer(m, frontier, origin, d + 1)
  {
  }



  lemma CellsEmpty(queue: seq<(HexCords, nat)>)
    ensures Cells(queue) == {} <==> queue == []
  {
    if queue != [] {
      assert queue[0].0 in Cells(queue);
    }
  }

  /** The set bookkeeping when a layer is used up and the next one begins. */
  lemma NextLayerBookkeeping<T>(visited: set<T>, origin: T, seen: set<T>, reached: set<T>,
                                nextLayer: set<T>, nextSeen: set<T>)
    requires visited + {origin} == seen + reached
    requires nextLayer == reached - seen && nextSeen == seen + nextLayer
    ensures visited + {origin} == nextSeen
  {
  }

  /**
   * The set bookkeeping of popping `x` from the current layer `layer` and
   * expanding it, on abstract sets: `seen` is everything within the current
   * depth, `reached` the step cells of the cells already popped and `next`
   * the step cells of `x`; `low` says the depth is below 2.
   */
  lemma PopBookkeeping<T>(origin: T, x: T, layer: set<T>, seen: set<T>, reached: set<T>, next: set<T>,
                          processed: set<T>, visited: set<T>, result: set<T>, result': set<T>,
                          cellsA: set<T>, cellsB: set<T>, cellsAdded: set<T>, low: bool)
    requires processed <= layer && cellsA == layer - processed && x in cellsA
    requires cellsB == (if low then reached - seen else {})
    requires visited + {origin} == seen + reached && origin in seen && layer <= seen
    requires origin !in visited ==> cellsA == {origin} && processed == {}
    requires result == (if low then {} else reached - seen)
    requires !low ==> cellsAdded == {} && result' == result + (next - (visited + {x}))
    requires low ==> result' == result && cellsAdded == next - (visited + {x})
    ensures cellsB * cellsAdded == {}
    ensures processed + {x} <= layer && cellsA - {x} == layer - (processed + {x})
    ensures cellsB + cellsAdded == (if low then (reached + next) - seen else {})
    ensures (visited + {x} + next) + {origin} == seen + (reached + next)
    ensures origin in visited + {x} + next
    ensures result' == (if low then {} else (reached + next) - seen)
  {
    assert visited + {x} == seen + reached;
  }

  /** The queue is the rest of layer `d` (A) followed by the part of layer d + 1 found so far (B). */
  predicate QueueShape(queue: seq<(HexCords, nat)>, d: nat, A: seq<(HexCords, nat)>, B: seq<(HexCords, nat)>) {
    && queue == A + B
    && (forall i :: 0 <= i < |A| ==> A[i].1 == d)
    && (forall i :: 0 <= i < |B| ==> B[i].1 == d + 1)
    && DistinctCells(A) && DistinctCells(B)
  }

  /**
   * What the sets of the search hold at depth `d`, where `cellsA` and
   * `cellsB` are the cells of the two parts of the queue and `processed`
   * the cells of layer d already popped.
   */
  ghost predicate LayerSets(m: HexTileMap, frontier: set<HexCords>, origin: HexCords,
                            visited: set<HexCords>, result: set<HexCords>, d: nat, processed: set<HexCords>,
                            cellsA: set<HexCords>, cellsB: set<HexCords>)
  {
    && processed <= Layer(m, frontier, origin, d)
    && cellsA == Layer(m, frontier, origin, d) - processed
    && cellsB == (if d < 2 then Step(m, frontier, processed) - Visited(m, frontier, origin, d) else {})
    && visited + {origin} == Visited(m, frontier, origin, d) + Step(m, frontier, processed)
    && (origin !in visited ==> cellsA == {origin} && processed == {})
    && result == (if d < 2 then {} else Step(m, frontier, processed) - Visited(m, frontier, origin, d))
  }

  /** The loop invariant of the search. */
  ghost predicate SearchState(m: HexTileMap, frontier: set<HexCords>, origin: HexCords,
                              queue: seq<(HexCords, nat)>, visited: set<HexCords>, result: set<HexCords>,
                              d: nat, processed: set<HexCords>, A: seq<(HexCords, nat)>, B: seq<(HexCords, nat)>)
  {
    && d <= 2
    && QueueShape(queue, d, A, B)
    && LayerSets(m, frontier, origin, visited, result, d, processed, Cells(A), Cells(B))
  }

  lemma SearchStarts(m: HexTileMap, frontier: set<HexCords>, origin: HexCords)
    ensures SearchState(m, frontier, origin, [(origin, 0)], {}, {}, 0, {}, [(origin, 0)], [])
  {
    var A := [(origin, 0)];
    assert Cells(A) == {origin} by { assert A[0].0 == origin; }
    CellsEmpty([]);
    assert Step(m, frontier, {}) == {};
  }

  /** When layer d is used up, the cells queued so far are exactly layer d + 1. */
  lemma StartNextLayer(m: HexTileMap, frontier: set<HexCords>, origin: HexCords,
                       queue: seq<(HexCords, nat)>, visited: set<HexCords>, result: set<HexCords>,
                       d: nat, processed: set<HexCords>, B: seq<(HexCords, nat)>)
    requires SearchState(m, frontier, origin, queue, visited, result, d, processed, [], B)
    requires queue != []
    ensures d < 2 && SearchState(m, frontier, origin, queue, visited, result, d + 1, {}, B, [])
  {
    CellsEmpty([]);
    CellsEmpty(B);
    assert queue == B;
    assert processed == Layer(m, frontier, origin, d);
    LayerStep(m, frontier, origin, d);
    NextLayerBookkeeping(visited, origin, Visited(m, frontier, origin, d), Step(m, frontier, processed),
                         Layer(m, frontier, origin, d + 1), Visited(m, frontier, origin, d + 1));
    assert Step(m, frontier, {}) == {};
  }

  /** Popping the head of A and queueing what its expansion added keeps the queue's shape. */
  lemma PopQueue(queue: seq<(HexCords, nat)>, d: nat, A: seq<(HexCords, nat)>, B: seq<(HexCords, nat)>,
                 added: seq<(HexCords, nat)>, queue': seq<(HexCords, nat)>)
    requires QueueShape(queue, d, A, B) && A != []
    requires queue' == queue + added && DistinctCells(added)
    requires forall i :: 0 <= i < |added| ==> added[i].1 == d + 1
    requires Cells(B) * Cells(added) == {}
    ensures queue' != [] && queue'[0] == A[0]
    ensures QueueShape(queue'[1..], d, A[1..], B + added)
    ensures Cells(A[1..]) == Cells(A) - {A[0].0}
  {
    DistinctAppend(B, added);
    assert (A + B) + added == A + (B + added);
    CellsOfTail(A);
    assert (A + (B + added))[1..] == A[1..] + (B + added);
  }

  /** Popping the head of layer d and expanding it keeps the invariant. */
  lemma PopKeepsSearchState(m: HexTileMap, frontier: set<HexCords>, origin: HexCords,
                            queue: seq<(HexCords, nat)>, visited: set<HexCords>, result: set<HexCords>,
                            d: nat, processed: set<HexCords>, A: seq<(HexCords, nat)>, B: seq<(HexCords, nat)>,
                            visited': set<HexCords>, queue': seq<(HexCords, nat)>, result': set<HexCords>,
                            added: seq<(HexCords, nat)>)
    requires SearchState(m, frontier, origin, queue, visited, result, d, processed, A, B)
    requires A != []
    requires Expanded(m, frontier, A[0].0, A[0].1, visited + {A[0].0}, queue, result, visited', queue', result', added)
    ensures queue' != [] && queue'[0] == A[0]
    ensures SearchState(m, frontier, origin, queue'[1..], visited', result', d, processed + {A[0].0},
                        A[1..], B + added)
  {
    var x := A[0].0;
    assert x in Cells(A) && A[0].1 == d;
    LayerWithinVisited(m, frontier, origin, d);
    StepAddOne(m, frontier, processed, x);
    CellsEmpty(added);
    PopBookkeeping(origin, x, Layer(m, frontier, origin, d), Visited(m, frontier, origin, d),
                   Step(m, frontier, processed), StepCells(m, frontier, x),
                   processed, visited, result, result', Cells(A), Cells(B), Cells(added), d < 2);
    PopQueue(queue, d, A, B, added, queue');
    CellsOfConcat(B, added);
  }

  /** With the queue empty, the result is layer 3. */
  lemma SearchEnds(m: HexTileMap, frontier: set<HexCords>, origin: HexCords,
                   visited: set<HexCords>, result: set<HexCords>,
                   d: nat, processed: set<HexCords>, A: seq<(HexCords, nat)>, B: seq<(HexCords, nat)>)
    requires SearchState(m, frontier, origin, [], visited, result, d, processed, A, B)
    ensures result == Layer(m, frontier, origin, 3)
  {
    assert A == [] && B == [];
    CellsEmpty([]);
    assert processed == Layer(m, frontier, origin, d);
    var next := Step(m, frontier, processed) - Visited(m, frontier, origin, d);
    LayerStep(m, frontier, origin, d);
    assert Layer(m, frontier, origin, d + 1) == next;
    if d < 2 {
      assert next == {};
      EmptyLayerStaysEmpty(m, frontier, origin, d + 1, 3);
    } else {
      assert result == next && d + 1 == 3;
    }
  }

  /**
   * The search of the source: a FIFO queue of (cell, depth) pairs and a
   * visited set; a cell first reached from a depth-2 cell goes into the
   * result instead of the queue.
   */
  method FindPositionThreeSpacesFromOrigin(m: HexTileMap, frontier: set<HexCords>, origin: HexCords)
    returns (result: set<HexCords>)
    ensures result == Layer(m, frontier, origin, 3)
  {
    var queue: seq<(HexCords, nat)> := [(origin, 0)];
    result := {};
    var visited: set<HexCords> := {};
    ghost var d: nat := 0;
    ghost var processed: set<HexCords> := {};
    ghost var A: seq<(HexCords, nat)> := queue;
    ghost var B: seq<(HexCords, nat)> := [];
    SearchStarts(m, frontier, origin);
    while queue != []
      invariant SearchState(m, frontier, origin, queue, visited, result, d, processed, A, B)
      decreases 3 - d, |A|
    {
      if A == [] {
        StartNextLayer(m, frontier, origin, queue, visited, result, d, processed, B);
        d, A, B, processed := d + 1, B, [], {};
      }
      assert queue[0] == A[0];
      var item := queue[0];
      var x := item.0;
      ghost var (visited0, queue0, result0) := (visited, queue, result);
      visited := visited + {x};
      ghost var added;
      visited, queue, result, added := ExpandNeighbors(m, frontier, x, item.1, visited, queue, result);
      PopKeepsSearchState(m, frontier, origin, queue0, visited0, result0, d, processed, A, B,
                          visited, queue, result, added);
      queue := queue[1..];
      A, B := A[1..], B + added;
      processed := processed + {x};
    }
    SearchEnds(m, frontier, origin, visited, result, d, processed, A, B);
  }

  /** A walk: each cell after the first is a step cell of the one before. */
  ghost predicate IsWalk(m: HexTileMap, frontier: set<HexCords>, w: seq<HexCords>) {
    |w| > 0 && forall i :: 0 <= i < |w| - 1 ==> w[i + 1] in StepCells(m, frontier, w[i])
  }

  /** `c` can be reached from `origin` by a walk of at most k steps. */
  ghost predicate WithinSteps(m: HexTileMap, frontier: set<HexCords>, origin: HexCords, c: HexCords, k: nat) {
    exists w :: IsWalk(m, frontier, w) && w[0] == origin && w[|w| - 1] == c && |w| <= k + 1
  }

  lemma StepMember(m: HexTileMap, frontier: set<HexCords>, p: set<HexCords>, x: HexCords, y: HexCords)
    requires x in p && y in StepCells(m, frontier, x)
    ensures y in Step(m, frontier, p)
  {
  }

  /** One step from a cell within j steps stays within j + 1 steps. */
  lemma {:induction false} StepStaysWithin(m: HexTileMap, frontier: set<HexCords>, origin: HexCords, j: nat, x: HexCords)
    requires x in Visited(m, frontier, origin, j)
    ensures StepCells(m, frontier, x) <= Visited(m, frontier, origin, j + 1)
  {
    LayerStep(m, frontier, origin, j);
    if j > 0 && x in Visited(m, frontier, origin, j - 1) {
      StepStaysWithin(m, frontier, origin, j - 1, x);
    } else {
      assert x in Layer(m, frontier, origin, j);
      forall y | y in StepCells(m, frontier, x)
        ensures y in Visited(m, frontier, origin, j + 1)
      {
        StepMember(m, frontier, Layer(m, frontier, origin, j), x, y);
      }
    }
  }

  lemma {:induction false} VisitedHasWalk(m: HexTileMap, frontier: set<HexCords>, origin: HexCords, k: nat, c: HexCords)
    requires c in Visited(m, frontier, origin, k)
    ensures WithinSteps(m, frontier, origin, c, k)
  {
    if k == 0 {
      assert IsWalk(m, frontier, [origin]);
      WalkWitness(m, frontier, origin, c, k, [origin]);
    } else if c in Visited(m, frontier, origin, k - 1) {
      VisitedHasWalk(m, frontier, origin, k - 1, c);
    } else {
      NewCellHasPredecessor(m, frontier, origin, k, c);
      var x :| x in Visited(m, frontier, origin, k - 1) && c in StepCells(m, frontier, x);
      VisitedHasWalk(m, frontier, origin, k - 1, x);
      var w :| IsWalk(m, frontier, w) && w[0] == origin && w[|w| - 1] == x && |w| <= k;
      WalkExtend(m, frontier, w, c);
      assert (w + [c])[0] == origin && (w + [c])[|w|] == c;
      WalkWitness(m, frontier, origin, c, k, w + [c]);
    }
  }

  lemma WalkWitness(m: HexTileMap, frontier: set<HexCords>, origin: HexCords, c: HexCords, k: nat, w: seq<HexCords>)
    requires IsWalk(m, frontier, w) && w[0] == origin && w[|w| - 1] == c && |w| <= k + 1
    ensures WithinSteps(m, frontier, origin, c, k)
  {
  }

  /** A cell first reached after k steps is a step cell of a cell within k - 1 steps. */
  lemma NewCellHasPredecessor(m: HexTileMap, frontier: set<HexCords>, origin: HexCords, k: nat, c: HexCords)
    requires k > 0 && c in Visited(m, frontier, origin, k) && c !in Visited(m, frontier, origin, k - 1)
    ensures exists x :: x in Visited(m, frontier, origin, k - 1) && c in StepCells(m, frontier, x)
  {
    LayerStep(m, frontier, origin, k - 1);
    ghost var prev := Layer(m, frontier, origin, k - 1);
    assert c in Step(m, frontier, prev);
    var x :| x in prev && c in EmptyNeighbors(m, x);
    LayerWithinVisited(m, frontier, origin, k - 1);
    assert x in Visited(m, frontier, origin, k - 1) && c in StepCells(m, frontier, x);
  }

  lemma WalkExtend(m: HexTileMap, frontier: set<HexCords>, w: seq<HexCords>, c: HexCords)
    requires IsWalk(m, frontier, w) && c in StepCells(m, frontier, w[|w| - 1])
    ensures IsWalk(m, frontier, w + [c])
  {
    var w' := w + [c];
    forall i | 0 <= i < |w'| - 1 ensures w'[i + 1] in StepCells(m, frontier, w'[i]) {
      if i < |w| - 1 {
        assert w'[i] == w[i] && w'[i + 1] == w[i + 1];
      }
    }
  }

  lemma {:induction false} WalkEndsVisited(m: HexTileMap, frontier: set<HexCords>, origin: HexCords, k: nat, w: seq<HexCords>)
    requires IsWalk(m, frontier, w) && w[0] == origin && |w| <= k + 1
    ensures w[|w| - 1] in Visited(m, frontier, origin, k)
  {
    LayerWithinVisited(m, frontier, origin, k);
    if |w| > 1 {
      var n := |w| - 1;
      var w' := w[..n];
      assert IsWalk(m, frontier, w') by {
        forall i | 0 <= i < |w'| - 1 ensures w'[i + 1] in StepCells(m, frontier, w'[i]) {
          assert w'[i] == w[i] && w'[i + 1] == w[i + 1];
        }
      }
      WalkEndsVisited(m, frontier, origin, n - 1, w');
      assert w'[|w'| - 1] == w[n - 1];
      StepStaysWithin(m, frontier, origin, n - 1, w[n - 1]);
      VisitedGrows(m, frontier, origin, n, k);
    }
  }

  lemma {:induction false} VisitedGrows(m: HexTileMap, frontier: set<HexCords>, origin: HexCords, j: nat, k: nat)
    requires j <= k
    ensures Visited(m, frontier, origin, j) <= Visited(m, frontier, origin, k)
    decreases k - j
  {
    if j < k {
      VisitedGrows(m, frontier, origin, j + 1, k);
    }
  }

  /** Visited(k) is exactly the set of cells within k steps of the origin. */
  lemma VisitedIsWithinSteps(m: HexTileMap, frontier: set<HexCords>, origin: HexCords, k: nat, c: HexCords)
    ensures c in Visited(m, frontier, origin, k) <==> WithinSteps(m, frontier, origin, c, k)
  {
    if c in Visited(m, frontier, origin, k) {
      VisitedHasWalk(m, frontier, origin, k, c);
    }
    if WithinSteps(m, frontier, origin, c, k) {
      var w :| IsWalk(m, frontier, w) && w[0] == origin && w[|w| - 1] == c && |w| <= k + 1;
      WalkEndsVisited(m, frontier, origin, k, w);
    }
  }

  /**
   * The Spider's destinations are exactly the cells whose shortest walk
   * from the origin through empty frontier cells takes three steps.
   */
  lemma SpiderDestinationsAtDistanceThree(m: HexTileMap, frontier: set<HexCords>, origin: HexCords, c: HexCords)
    ensures c in Layer(m, frontier, origin, 3) <==>
      WithinSteps(m, frontier, origin, c, 3) && !WithinSteps(m, frontier, origin, c, 2)
  {
    LayerStep(m, frontier, origin, 2);
    VisitedIsWithinSteps(m, frontier, origin, 3, c);
    VisitedIsWithinSteps(m, frontier, origin, 2, c);
  }

  /**
   * The destinations lie in the frontier, miss the origin and every cell
   * reached within one or two steps.
   */
  lemma SpiderDestinationsAreNew(m: HexTileMap, frontier: set<HexCords>, origin: HexCords)
    ensures Layer(m, frontier, origin, 3) <= frontier
    ensures origin !in Layer(m, frontier, origin, 3)
    ensures Layer(m, frontier, origin, 3) * Visited(m, frontier, origin, 2) == {}
    ensures Layer(m, frontier, origin, 3) * (Layer(m, frontier, origin, 1) + Layer(m, frontier, origin, 2)) == {}
  {
    LayerWithinVisited(m, frontier, origin, 2);
    LayerWithinVisited(m, frontier, origin, 1);
    VisitedGrows(m, frontier, origin, 1, 2);
  }
}
