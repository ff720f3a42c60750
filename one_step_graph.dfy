/**
 * The one-step graph (graph/graph.cpp:33, 124-181).
 *
 * oneStepGraph[start][meet] lists the cells that the reachable set of cell
 * `start` after one control period overlaps, index 0 when the deadline is
 * missed and index 1 when it is met. The list is filled only when the
 * reachable set stays inside the safety box; an empty list records "unsafe".
 * A list is also empty when the reachable set is inside the box but in some
 * dimension overlaps no block by at least eps (Slot is then Intersecting's
 * empty result); the DP treats such a cell and mode exactly like an unsafe one.
 *
 * The continuous reachability computation is an oracle here: inside(cell, meet)
 * is the result of the containment test of lines 165-172 and
 * overlapsOf(cell, meet) is the overlap test of line 117 for the reachable
 * region of that cell and mode.
 */
module OneStepGraph {
  import opened Lists
  import opened GridIndex

  /** oneStepGraph[id]: missed is entry 0 (deadline not met), met is entry 1. */
  datatype Successors = Successors(missed: seq<nat>, met: seq<nat>)

  /** A graph over n cells whose successor ids are all cell ids. */
  predicate WellFormed(g: seq<Successors>, n: nat)
  {
    |g| == n && forall id :: 0 <= id < n ==> AllBelow(g[id].missed, n) && AllBelow(g[id].met, n)
  }

  /** Number of edges of the first h rows, both modes. */
  function EdgeCount(g: seq<Successors>, h: nat): nat
    requires h <= |g|
  {
    if h == 0 then 0 else EdgeCount(g, h - 1) + |g[h - 1].missed| + |g[h - 1].met|
  }

  /** What one (cell, mode) slot receives: nothing when unsafe, else the overlapped ids. */
  function Slot(xcnt: nat, d: nat, inside: bool, ov: (nat, nat) -> bool): seq<nat>
  {
    if inside then Intersecting(d, ov, 0, 0, xcnt) else []
  }

  /**
   * buildOneStepGraph, with the reachability oracle as parameters: every slot
   * is the strictly ascending list of overlapped cell ids when the reachable
   * set is inside the box, and empty otherwise; edgeCnt counts all entries.
   */
  method BuildOneStepGraph(xcnt: nat, d: nat, grids: seq<seq<nat>>,
                           inside: (seq<nat>, nat) -> bool,
                           overlapsOf: (seq<nat>, nat) -> ((nat, nat) -> bool))
    returns (oneStepGraph: seq<Successors>, edgeCnt: nat)
    requires |grids| == Pow(d, xcnt)
    ensures WellFormed(oneStepGraph, |grids|)
    ensures forall start :: 0 <= start < |grids| ==>
              oneStepGraph[start].missed == Slot(xcnt, d, inside(grids[start], 0), overlapsOf(grids[start], 0))
              && oneStepGraph[start].met == Slot(xcnt, d, inside(grids[start], 1), overlapsOf(grids[start], 1))
    ensures forall start :: 0 <= start < |grids| ==>
              Increasing(oneStepGraph[start].missed) && Increasing(oneStepGraph[start].met)
    ensures edgeCnt == EdgeCount(oneStepGraph, |grids|)
  {
    var n := |grids|;
    oneStepGraph := seq(n, _ => Successors([], []));
    edgeCnt := 0;
    for start := 0 to n
      invariant |oneStepGraph| == n
      invariant forall s :: 0 <= s < start ==>
                  oneStepGraph[s].missed == Slot(xcnt, d, inside(grids[s], 0), overlapsOf(grids[s], 0))
                  && oneStepGraph[s].met == Slot(xcnt, d, inside(grids[s], 1), overlapsOf(grids[s], 1))
      invariant edgeCnt == EdgeCount(oneStepGraph, start)
    {
      var missed, met, cnt := BuildSlots(xcnt, d, grids[start], inside, overlapsOf);
      edgeCnt := edgeCnt + cnt;
      ghost var before := oneStepGraph;
      oneStepGraph := oneStepGraph[start := Successors(missed, met)];
      EdgeCountPrefix(before, oneStepGraph, start);
    }
    forall start | 0 <= start < n
      ensures AllBelow(oneStepGraph[start].missed, n) && AllBelow(oneStepGraph[start].met, n)
      ensures Increasing(oneStepGraph[start].missed) && Increasing(oneStepGraph[start].met)
    {
      IntersectingIds(d, overlapsOf(grids[start], 0), xcnt);
      IntersectingIds(d, overlapsOf(grids[start], 1), xcnt);
    }
  }

  /**
   * The meet loop of one cell (lines 132-177): the slot of each mode, and the
   * number of ids the two slots received.
   */
  method BuildSlots(xcnt: nat, d: nat, cell: seq<nat>,
                    inside: (seq<nat>, nat) -> bool,
                    overlapsOf: (seq<nat>, nat) -> ((nat, nat) -> bool))
    returns (missed: seq<nat>, met: seq<nat>, cnt: nat)
    ensures missed == Slot(xcnt, d, inside(cell, 0), overlapsOf(cell, 0))
    ensures met == Slot(xcnt, d, inside(cell, 1), overlapsOf(cell, 1))
    ensures cnt == |missed| + |met|
  {
    missed, met, cnt := [], [], 0;
    for meet := 0 to 2
      invariant meet >= 1 ==> missed == Slot(xcnt, d, inside(cell, 0), overlapsOf(cell, 0))
      invariant meet == 2 ==> met == Slot(xcnt, d, inside(cell, 1), overlapsOf(cell, 1))
      invariant meet == 0 ==> missed == []
      invariant meet <= 1 ==> met == []
      invariant cnt == |missed| + |met|
    {
      var ids: seq<nat> := [];
      if inside(cell, meet) {
        ids := GetIntersectGridsId(xcnt, d, 0, 0, overlapsOf(cell, meet), ids);
        cnt := cnt + |ids|;
      }
      if meet == 0 {
        missed := ids;
      } else {
        met := ids;
      }
    }
  }

  /** The edge count of the first h rows depends on those rows only. */
  lemma {:induction false} EdgeCountPrefix(g: seq<Successors>, g': seq<Successors>, h: nat)
    requires h <= |g| && h <= |g'|
    requires forall s :: 0 <= s < h ==> g[s] == g'[s]
    ensures EdgeCount(g, h) == EdgeCount(g', h)
  {
    if h > 0 {
      EdgeCountPrefix(g, g', h - 1);
    }
  }
}
