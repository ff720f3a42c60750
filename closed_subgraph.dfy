/**
 * findLargestClosedSubgraph (graph/graph.cpp:273-302).
 *
 * The k-step graph is given by its reverse lists: revKStepGraph[j] holds every
 * cell with an edge to j. A set S of cells is closed when it lies inside Xs
 * and every edge leaving a cell of S ends in S. A breadth-first search over the
 * reverse edges, seeded with the cells outside Xs, marks every cell that can
 * be driven out of Xs; the cells it never marks form the largest closed set.
 */
module ClosedSubgraph {
  import opened Lists

  /** rev holds, for each of the n cells, a list of cell ids. */
  predicate RevWellFormed(rev: seq<seq<nat>>, n: nat)
  {
    |rev| == n && forall j :: 0 <= j < n ==> AllBelow(rev[j], n)
  }

  /** S lies inside Xs and no edge leaves it: if rev[j] lists a cell of S, j is in S. */
  ghost predicate Closed(S: set<nat>, n: nat, xs: seq<bool>, rev: seq<seq<nat>>)
    requires |xs| == n && |rev| == n
  {
    && (forall i :: i in S ==> i < n && xs[i])
    && (forall j, t :: 0 <= j < n && 0 <= t < |rev[j]| && rev[j][t] in S ==> j in S)
  }

  /** No cell of a closed set is ever marked visited. */
  ghost predicate Avoided(visit: seq<bool>, n: nat, xs: seq<bool>, rev: seq<seq<nat>>)
    requires |visit| == n && |xs| == n && |rev| == n
  {
    forall S :: Closed(S, n, xs, rev) ==> forall i :: i in S ==> !visit[i]
  }

  /**
   * The inner loop (lines 290-294): mark and enqueue every cell of succ not
   * yet visited. Returns the cells it enqueued.
   */
  method Expand(visit: array<bool>, que: seq<nat>, succ: seq<nat>, ghost n: nat)
    returns (que': seq<nat>, ghost added: seq<nat>)
    requires visit.Length == n && AllBelow(succ, n) && AllBelow(que, n)
    requires Distinct(que) && forall t :: 0 <= t < |que| ==> visit[que[t]]
    modifies visit
    ensures AllBelow(added, n) && que' == que + added && AllBelow(que', n) && Distinct(que')
    ensures forall t :: 0 <= t < |added| ==> !old(visit[added[t]])
    ensures forall i :: 0 <= i < n ==> (visit[i] <==> old(visit[i]) || i in succ)
    ensures forall i :: 0 <= i < n ==> (i in added <==> !old(visit[i]) && i in succ)
  {
    que' := que;
    added := [];
    for t := 0 to |succ|
      invariant AllBelow(added, n) && que' == que + added && AllBelow(que', n) && Distinct(que')
      invariant forall u :: 0 <= u < |que'| ==> visit[que'[u]]
      invariant forall u :: 0 <= u < |added| ==> !old(visit[added[u]])
      invariant forall i :: 0 <= i < n ==> (visit[i] <==> old(visit[i]) || i in succ[..t])
      invariant forall i :: 0 <= i < n ==> (i in added <==> !old(visit[i]) && i in succ[..t])
    {
      assert succ[..t + 1] == succ[..t] + [succ[t]];
      var nextId := succ[t];
      if visit[nextId] {
        continue;
      }
      visit[nextId] := true;
      que' := que' + [nextId];
      added := added + [nextId];
    }
    assert succ[..|succ|] == succ;
  }

  /** Lines 280-285: mark and enqueue, in ascending order, every cell outside Xs. */
  method Seed(visit: array<bool>, xs: seq<bool>, n: nat) returns (que: seq<nat>)
    requires visit.Length == n && |xs| == n
    requires forall i :: 0 <= i < n ==> !visit[i]
    modifies visit
    ensures Increasing(que) && AllBelow(que, n) && Distinct(que)
    ensures forall i :: 0 <= i < n ==> (visit[i] <==> !xs[i])
    ensures forall i :: 0 <= i < n ==> (i in que <==> !xs[i])
  {
    que := [];
    for id := 0 to n
      invariant forall i :: 0 <= i < n ==> (visit[i] <==> i < id && !xs[i])
      invariant Increasing(que) && AllBelow(que, id) && Distinct(que)
      invariant forall i :: 0 <= i < n ==> (i in que <==> i < id && !xs[i])
    {
      if !xs[id] {
        IncreasingSnoc(que, id);
        que := que + [id];
        visit[id] := true;
      }
    }
  }

  /** The cells not yet visited. */
  ghost function Unvisited(visit: seq<bool>): set<nat>
  {
    set i | 0 <= i < |visit| && !visit[i]
  }

  /**
   * What holds between two iterations of the search: queued cells are visited
   * and not yet popped; safe[i] is cleared exactly for the popped cells; every
   * popped cell has all its predecessors visited; no closed set has a visited
   * cell; the enqueued cells are the visited ones, each once.
   */
  ghost predicate Searching(visit: seq<bool>, safe: seq<bool>, que: seq<nat>, enqueued: seq<nat>,
                            rev: seq<seq<nat>>, xs: seq<bool>, n: nat)
    requires |visit| == n && |safe| == n && |xs| == n && RevWellFormed(rev, n)
  {
    && AllBelow(que, n) && Distinct(que)
    && (forall t :: 0 <= t < |que| ==> visit[que[t]])
    && (forall i :: 0 <= i < n ==> (safe[i] <==> !visit[i] || i in que))
    && (forall i :: 0 <= i < n && visit[i] && i !in que ==>
          forall t :: 0 <= t < |rev[i]| ==> visit[rev[i][t]])
    && Avoided(visit, n, xs, rev)
    && Distinct(enqueued) && AllBelow(enqueued, n)
    && (forall i :: 0 <= i < n ==> (i in enqueued <==> visit[i]))
  }

  /**
   * Marking the predecessors of a visited cell keeps every closed set unvisited:
   * a closed set holding a predecessor of id would hold id as well.
   */
  lemma AvoidedExpand(v: seq<bool>, v': seq<bool>, id: nat, n: nat, xs: seq<bool>, rev: seq<seq<nat>>)
    requires |v| == n && |v'| == n && |xs| == n && RevWellFormed(rev, n) && id < n
    requires v[id] && Avoided(v, n, xs, rev)
    requires forall i :: 0 <= i < n ==> (v'[i] <==> v[i] || i in rev[id])
    ensures Avoided(v', n, xs, rev)
  {
    forall S | Closed(S, n, xs, rev)
      ensures forall i :: i in S ==> !v'[i]
    {
      assert id !in S;
    }
  }

  /** One iteration of the search loop (lines 287-294). */
  method VisitHead(visit: array<bool>, safe: array<bool>, que: seq<nat>, rev: seq<seq<nat>>,
                   ghost enqueued: seq<nat>, ghost xs: seq<bool>, ghost n: nat)
    returns (que': seq<nat>, ghost enqueued': seq<nat>)
    requires visit.Length == n && safe.Length == n && visit != safe && |xs| == n && RevWellFormed(rev, n)
    requires que != [] && Searching(visit[..], safe[..], que, enqueued, rev, xs, n)
    modifies visit, safe
    ensures Searching(visit[..], safe[..], que', enqueued', rev, xs, n)
    ensures safe[..] == old(safe[..])[que[0] := false]
    ensures forall i :: 0 <= i < n ==> (visit[i] <==> old(visit[i]) || i in rev[que[0]])
    ensures exists added: seq<nat> ::
              && que' == que[1..] + added && enqueued' == enqueued + added
              && forall i :: 0 <= i < n ==> (i in added <==> !old(visit[i]) && i in rev[que[0]])
    ensures forall i :: 0 <= i < n ==> old(visit[i]) ==> visit[i]
    ensures Unvisited(visit[..]) < Unvisited(old(visit[..]))
            || (Unvisited(visit[..]) == Unvisited(old(visit[..])) && |que'| < |que|)
  {
    var id := que[0];
    que' := que[1..];
    safe[id] := false;
    ghost var added;
    que', added := Expand(visit, que', rev[id], n);
    enqueued' := enqueued + added;
    SearchStep(old(visit[..]), visit[..], old(safe[..]), safe[..], que, added, enqueued, rev, xs, n);
    assert Unvisited(visit[..]) <= Unvisited(old(visit[..]));
    if added != [] {
      var a := added[0];
      assert a in added;
      assert a in Unvisited(old(visit[..])) && a !in Unvisited(visit[..]);
    } else {
      assert Unvisited(visit[..]) == Unvisited(old(visit[..]));
    }
  }

  /** Popping the head id and enqueueing its unvisited predecessors keeps Searching. */
  lemma SearchStep(v: seq<bool>, v': seq<bool>, sf: seq<bool>, sf': seq<bool>, que: seq<nat>, added: seq<nat>,
                   enqueued: seq<nat>, rev: seq<seq<nat>>, xs: seq<bool>, n: nat)
    requires |v| == n && |v'| == n && |sf| == n && |xs| == n && RevWellFormed(rev, n)
    requires que != [] && Searching(v, sf, que, enqueued, rev, xs, n)
    requires sf' == sf[que[0] := false]
    requires forall i :: 0 <= i < n ==> (v'[i] <==> v[i] || i in rev[que[0]])
    requires forall i :: 0 <= i < n ==> (i in added <==> !v[i] && i in rev[que[0]])
    requires AllBelow(added, n) && Distinct(que[1..] + added)
    requires forall t :: 0 <= t < |added| ==> !v[added[t]]
    ensures Searching(v', sf', que[1..] + added, enqueued + added, rev, xs, n)
  {
    var id := que[0];
    DistinctConcat(que[1..], added);
    forall u, w | 0 <= u < |enqueued| && 0 <= w < |added|
      ensures enqueued[u] != added[w]
    {
      assert enqueued[u] in enqueued;
    }
    DistinctConcat(enqueued, added);
    AvoidedExpand(v, v', id, n, xs, rev);
  }

  /**
   * Lines 286-295: pop a cell, mark it unsafe, enqueue its unvisited
   * predecessors, until the queue is empty. At the end the unsafe cells are
   * the visited ones, the visited cells are closed under predecessors, and no
   * closed set has a visited cell. The enqueued cells, seeds included, never
   * repeat.
   */
  method Search(visit: array<bool>, safe: array<bool>, que: seq<nat>, rev: seq<seq<nat>>,
                ghost xs: seq<bool>, ghost n: nat)
    returns (ghost enqueued: seq<nat>)
    requires visit.Length == n && safe.Length == n && visit != safe && |xs| == n && RevWellFormed(rev, n)
    requires AllBelow(que, n) && Distinct(que)
    requires forall i :: 0 <= i < n ==> (i in que <==> visit[i])
    requires forall i :: 0 <= i < n ==> safe[i]
    requires Avoided(visit[..], n, xs, rev)
    modifies visit, safe
    ensures forall i :: 0 <= i < n ==> (safe[i] <==> !visit[i])
    ensures forall i :: 0 <= i < n ==> old(visit[i]) ==> visit[i]
    ensures forall i, t :: 0 <= i < n && visit[i] && 0 <= t < |rev[i]| ==> visit[rev[i][t]]
    ensures Avoided(visit[..], n, xs, rev)
    ensures Distinct(enqueued) && AllBelow(enqueued, n)
    ensures forall i :: 0 <= i < n ==> (i in enqueued <==> visit[i])
  {
    var que := que;
    enqueued := que;
    while que != []
      invariant Searching(visit[..], safe[..], que, enqueued, rev, xs, n)
      invariant forall i :: 0 <= i < n ==> old(visit[i]) ==> visit[i]
      decreases Unvisited(visit[..]), |que|
    {
      que, enqueued := VisitHead(visit, safe, que, rev, enqueued, xs, n);
    }
  }

  /** Lines 296-300: the safe cells in ascending order. */
  method Collect(safe: array<bool>) returns (ids: seq<nat>)
    ensures Increasing(ids) && AllBelow(ids, safe.Length)
    ensures forall i :: i in ids <==> 0 <= i < safe.Length && safe[i]
  {
    ids := [];
    for id := 0 to safe.Length
      invariant Increasing(ids) && AllBelow(ids, id)
      invariant forall i :: i in ids <==> 0 <= i < id && safe[i]
    {
      if safe[id] {
        IncreasingSnoc(ids, id);
        ids := ids + [id];
      }
    }
  }

  /**
   * findLargestClosedSubgraph: safeInitialGrids is, in ascending order, the
   * largest closed set: it is closed, and contains every closed set. Every
   * cell is enqueued at most once, and exactly the cells left out are.
   */
  method FindLargestClosedSubgraph(n: nat, xs: seq<bool>, revKStepGraph: seq<seq<nat>>)
    returns (safeInitialGrids: seq<nat>, ghost enqueued: seq<nat>)
    requires |xs| == n && RevWellFormed(revKStepGraph, n)
    ensures Increasing(safeInitialGrids) && AllBelow(safeInitialGrids, n)
    ensures Closed(Elements(safeInitialGrids), n, xs, revKStepGraph)
    ensures forall S :: Closed(S, n, xs, revKStepGraph) ==> S <= Elements(safeInitialGrids)
    ensures Distinct(enqueued) && AllBelow(enqueued, n)
    ensures forall i :: 0 <= i < n ==> (i in enqueued <==> i !in safeInitialGrids)
  {
    var safe := new bool[n](_ => true);
    var visit := new bool[n](_ => false);
    var que := Seed(visit, xs, n);
    assert Avoided(visit[..], n, xs, revKStepGraph);
    enqueued := Search(visit, safe, que, revKStepGraph, xs, n);
    safeInitialGrids := Collect(safe);
  }
}
