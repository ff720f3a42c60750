/**
 * The phase order of main (graph/graph.cpp:304-311) from buildGrids on, and
 * what the whole computation guarantees about the safe initial region.
 */
module Analysis {
  import opened Lists
  import opened GridIndex
  import opened OneStepGraph
  import opened KStepGraph
  import opened ClosedSubgraph

  /** S lies inside Xs of table T and every miss-0 edge of T from a cell of S ends in S. */
  ghost predicate ClosedUnder(S: set<nat>, T: Table, n: nat, m: nat)
    requires Shaped(T, n, m)
  {
    && (forall i :: i in S ==> i < n && T[i][0] != {})
    && (forall i, j :: i in S && j in T[i][0] ==> j in S)
  }

  /** Closure over the reverse lists and closure over the table are the same thing. */
  lemma ClosedIffClosedUnder(S: set<nat>, T: Table, n: nat, m: nat, xs: seq<bool>, rev: seq<seq<nat>>)
    requires Shaped(T, n, m) && Bounded(T, n)
    requires |xs| == n && forall id :: 0 <= id < n ==> (xs[id] <==> T[id][0] != {})
    requires |rev| == n && forall j, id :: 0 <= j < n && 0 <= id < n ==> (id in rev[j] <==> j in T[id][0])
    requires forall j :: 0 <= j < n ==> AllBelow(rev[j], n)
    ensures Closed(S, n, xs, rev) <==> ClosedUnder(S, T, n, m)
  {
    if Closed(S, n, xs, rev) {
      forall i, j | i in S && j in T[i][0]
        ensures j in S
      {
        assert i in rev[j];
        var t :| 0 <= t < |rev[j]| && rev[j][t] == i;
      }
    }
    if ClosedUnder(S, T, n, m) {
      forall j, t | 0 <= j < n && 0 <= t < |rev[j]| && rev[j][t] in S
        ensures j in S
      {
        assert rev[j][t] in rev[j];
      }
    }
  }

  /**
   * A set closed under the edges of the table as written is closed under the
   * edges of the clean recurrence: the uncleared entry at miss == m can only
   * shrink the region.
   */
  lemma ClosedUnderClean(S: set<nat>, g: seq<Successors>, n: nat, m: nat, r: nat)
    requires WellFormed(g, n)
    requires ClosedUnder(S, Rounds(g, n, m, r).0, n, m)
    ensures ClosedUnder(S, Clean(g, n, m, r), n, m)
  {
    RoundsAgreeWithClean(g, n, m, r);
  }

  /**
   * A closed set under what the bitsets are meant to hold is an invariant
   * region: every run of r periods with at most m misses from a cell of S is
   * safe and ends in S.
   */
  lemma ClosedIsInvariant(S: set<nat>, g: seq<Successors>, n: nat, m: nat, r: nat)
    requires WellFormed(g, n)
    requires ClosedUnder(S, Clean(g, n, m, r), n, m)
    ensures forall id :: id in S ==> id < n && SafeFor(g, n, m, id, 0, r)
    ensures forall id, x: nat :: id in S && Reaches(g, n, m, id, 0, r, x) ==> x in S
  {
    CleanMeaning(g, n, m, r);
  }

  /**
   * buildGrids, buildOneStepGraph, buildKStepGraph and
   * findLargestClosedSubgraph in sequence, with the reachability computation
   * as the oracle (inside, overlapsOf). From every cell of safeInitialGrids
   * every run of k periods with at most m misses is safe and ends again in
   * safeInitialGrids, and safeInitialGrids contains every set closed under the
   * k-step edges the program computes.
   */
  method Analyse(xcnt: nat, d: nat, m: nat, k: int,
                 inside: (seq<nat>, nat) -> bool,
                 overlapsOf: (seq<nat>, nat) -> ((nat, nat) -> bool))
    returns (grids: seq<seq<nat>>, oneStepGraph: seq<Successors>, safeInitialGrids: seq<nat>)
    ensures |grids| == Pow(d, xcnt) && WellFormed(oneStepGraph, |grids|)
    ensures forall start :: 0 <= start < |grids| ==>
              Encode(d, grids[start]) == start
              && oneStepGraph[start].missed == Slot(xcnt, d, inside(grids[start], 0), overlapsOf(grids[start], 0))
              && oneStepGraph[start].met == Slot(xcnt, d, inside(grids[start], 1), overlapsOf(grids[start], 1))
    ensures Increasing(safeInitialGrids) && AllBelow(safeInitialGrids, |grids|)
    ensures forall id :: id in safeInitialGrids ==>
              SafeFor(oneStepGraph, |grids|, m, id, 0, if k > 0 then k else 0)
    ensures forall id, x: nat :: id in safeInitialGrids && Reaches(oneStepGraph, |grids|, m, id, 0, if k > 0 then k else 0, x)
              ==> x in safeInitialGrids
    ensures forall S :: ClosedUnder(S, KStep(oneStepGraph, |grids|, m, k), |grids|, m) ==> S <= Elements(safeInitialGrids)
  {
    grids := BuildGrids(xcnt, d);
    var edgeCnt;
    oneStepGraph, edgeCnt := BuildOneStepGraph(xcnt, d, grids, inside, overlapsOf);
    var n := |grids|;
    var xs, rev, start, end, edge := BuildKStepGraph(oneStepGraph, n, m, k);
    ghost var enqueued;
    safeInitialGrids, enqueued := FindLargestClosedSubgraph(n, xs, rev);
    ghost var r := if k > 0 then k else 0;
    ghost var T := KStep(oneStepGraph, n, m, k);
    RoundsBounded(oneStepGraph, n, m, r);
    ghost var safe := Elements(safeInitialGrids);
    ClosedIffClosedUnder(safe, T, n, m, xs, rev);
    ClosedUnderClean(safe, oneStepGraph, n, m, r);
    ClosedIsInvariant(safe, oneStepGraph, n, m, r);
    forall S | ClosedUnder(S, T, n, m)
      ensures S <= safe
    {
      ClosedIffClosedUnder(S, T, n, m, xs, rev);
    }
  }
}
