/**
 * The bounded-miss dynamic programme of buildKStepGraph (graph/graph.cpp:183-271).
 *
 * The DP keeps, per cell id and per number `miss` of deadline misses already
 * used (0 .. m), the bitset of cells reachable from id. Two full tables are
 * alive; each round swaps the pointers `now` and `prev` and recomputes `now`
 * from `prev`. A bitset is modelled as a set of cell ids.
 *
 * The clearing loop of line 212 resets only the entries with miss < m. The
 * entry miss == m keeps what the recycled buffer held (`stale` below): nothing
 * in the first round (that buffer is freshly allocated), then {id} from the
 * initialisation in the second, then results of older rounds. The model keeps that behaviour; RoundsAgreeWithClean shows it
 * never changes which entries are empty, only adds cells to them.
 */
module KStepGraph {
  import opened Lists
  import opened OneStepGraph

  /** A DP buffer as a value: T[id][miss]. */
  type Table = seq<seq<set<nat>>>

  predicate Shaped(T: Table, n: nat, m: nat)
  {
    |T| == n && forall id :: 0 <= id < n ==> |T[id]| == m + 1
  }

  /** Every bitset holds cell ids only (a dynamic_bitset of size n). */
  predicate Bounded(T: Table, n: nat)
  {
    forall id, miss, x :: 0 <= id < |T| && 0 <= miss < |T[id]| && x in T[id][miss] ==> x < n
  }

  // ---------------------------------------------------------------------------
  // One round, as values

  /** The union of P[r][j] over the successors r in s: what the |= loop accumulates. */
  function UnionAt(s: seq<nat>, n: nat, P: Table, m: nat, j: nat): set<nat>
    requires Shaped(P, n, m) && AllBelow(s, n) && j <= m
  {
    if s == [] then {} else UnionAt(s[..|s| - 1], n, P, m, j) + P[s[|s| - 1]][j]
  }

  /** Some successor r in s has an empty P[r][j]: the `!any()` test of the |= loop. */
  function SomeEmpty(s: seq<nat>, n: nat, P: Table, m: nat, j: nat): bool
    requires Shaped(P, n, m) && AllBelow(s, n) && j <= m
  {
    if s == [] then false else SomeEmpty(s[..|s| - 1], n, P, m, j) || P[s[|s| - 1]][j] == {}
  }

  /** With a miss still allowed, the missed mode poisons entry x. */
  predicate MissedUnsafe(e: Successors, n: nat, P: Table, m: nat, x: nat)
    requires Shaped(P, n, m) && AllBelow(e.missed, n)
  {
    x < m && (|e.missed| == 0 || SomeEmpty(e.missed, n, P, m, x + 1))
  }

  /** The met mode poisons entry x. */
  predicate MetUnsafe(e: Successors, n: nat, P: Table, m: nat, x: nat)
    requires Shaped(P, n, m) && AllBelow(e.met, n) && x <= m
  {
    |e.met| == 0 || SomeEmpty(e.met, n, P, m, x)
  }

  /** Does entry miss land in unsafeSet (lines 217-241)? */
  predicate Unsafe(e: Successors, n: nat, P: Table, m: nat, miss: nat)
    requires Shaped(P, n, m) && AllBelow(e.missed, n) && AllBelow(e.met, n) && miss <= m
  {
    MissedUnsafe(e, n, P, m, miss) || MetUnsafe(e, n, P, m, miss)
  }

  /** What entry miss holds before the final reset: the missed part (or the stale entry) and the met part. */
  function Accumulated(e: Successors, n: nat, P: Table, stale: set<nat>, m: nat, miss: nat): set<nat>
    requires Shaped(P, n, m) && AllBelow(e.missed, n) && AllBelow(e.met, n) && miss <= m
  {
    (if miss < m then UnionAt(e.missed, n, P, m, miss + 1) else stale) + UnionAt(e.met, n, P, m, miss)
  }

  /** The new entry (id, miss) of a round, given row e of the one-step graph. */
  function Entry(e: Successors, n: nat, P: Table, stale: set<nat>, m: nat, miss: nat): set<nat>
    requires Shaped(P, n, m) && AllBelow(e.missed, n) && AllBelow(e.met, n) && miss <= m
  {
    if Unsafe(e, n, P, m, miss) then {} else Accumulated(e, n, P, stale, m, miss)
  }

  /** One round: the recycled buffer S becomes the new `now`, computed from `prev` = P. */
  function Step(g: seq<Successors>, n: nat, m: nat, S: Table, P: Table): (T: Table)
    requires WellFormed(g, n) && Shaped(S, n, m) && Shaped(P, n, m)
    ensures Shaped(T, n, m)
  {
    seq(n, id requires 0 <= id < n =>
      seq(m + 1, miss requires 0 <= miss <= m => Entry(g[id], n, P, S[id][miss], m, miss)))
  }

  /** The initialised buffer: every cell reaches only itself in 0 steps (lines 200-205). */
  function Init(n: nat, m: nat): (T: Table)
    ensures Shaped(T, n, m)
  {
    seq(n, id => seq(m + 1, _ => {id}))
  }

  /** The freshly resized second buffer: every bitset empty (lines 191-199). */
  function Blank(n: nat, m: nat): (T: Table)
    ensures Shaped(T, n, m)
  {
    seq(n, _ => seq(m + 1, _ => {}))
  }

  /** The pair (now, prev) after r rounds of the transition loop. */
  function Rounds(g: seq<Successors>, n: nat, m: nat, r: nat): (buffers: (Table, Table))
    requires WellFormed(g, n)
    ensures Shaped(buffers.0, n, m) && Shaped(buffers.1, n, m)
  {
    if r == 0 then (Init(n, m), Blank(n, m))
    else
      var (now, prev) := Rounds(g, n, m, r - 1);
      (Step(g, n, m, prev, now), now)
  }

  /** The final `now` table: k rounds, none when k <= 0. */
  function KStep(g: seq<Successors>, n: nat, m: nat, k: int): (T: Table)
    requires WellFormed(g, n)
    ensures Shaped(T, n, m)
  {
    Rounds(g, n, m, if k > 0 then k else 0).0
  }

  /** The recurrence with every entry cleared before each round. */
  function Clean(g: seq<Successors>, n: nat, m: nat, r: nat): (T: Table)
    requires WellFormed(g, n)
    ensures Shaped(T, n, m)
  {
    if r == 0 then Init(n, m) else Step(g, n, m, Blank(n, m), Clean(g, n, m, r - 1))
  }

  // ---------------------------------------------------------------------------
  // What one round computes

  /** The |= loop computes exactly the union over the listed successors. */
  lemma {:induction false} UnionAtMembers(s: seq<nat>, n: nat, P: Table, m: nat, j: nat, x: nat)
    requires Shaped(P, n, m) && AllBelow(s, n) && j <= m
    ensures x in UnionAt(s, n, P, m, j) <==> exists i :: 0 <= i < |s| && x in P[s[i]][j]
  {
    if s != [] {
      var s' := s[..|s| - 1];
      UnionAtMembers(s', n, P, m, j, x);
      if x in UnionAt(s', n, P, m, j) {
        var i :| 0 <= i < |s'| && x in P[s'[i]][j];
        assert s[i] == s'[i];
      }
      if exists i :: 0 <= i < |s| && x in P[s[i]][j] {
        var i :| 0 <= i < |s| && x in P[s[i]][j];
        if i < |s| - 1 {
          assert s'[i] == s[i];
        }
      }
    }
  }

  /** The `!any()` test fires exactly when some listed successor has an empty entry. */
  lemma {:induction false} SomeEmptyIff(s: seq<nat>, n: nat, P: Table, m: nat, j: nat)
    requires Shaped(P, n, m) && AllBelow(s, n) && j <= m
    ensures SomeEmpty(s, n, P, m, j) <==> exists i :: 0 <= i < |s| && P[s[i]][j] == {}
  {
    if s != [] {
      var s' := s[..|s| - 1];
      SomeEmptyIff(s', n, P, m, j);
      if SomeEmpty(s', n, P, m, j) {
        var i :| 0 <= i < |s'| && P[s'[i]][j] == {};
        assert s[i] == s'[i];
      }
      if exists i :: 0 <= i < |s| && P[s[i]][j] == {} {
        var i :| 0 <= i < |s| && P[s[i]][j] == {};
        if i < |s| - 1 {
          assert s'[i] == s[i];
        }
      }
    }
  }

  /**
   * Entry miss is emptied: the met list is empty (the met mode was unsafe), or
   * some met successor's previous entry at miss is empty; or, when a miss is
   * still allowed (miss < m), the missed list is empty or some missed
   * successor's previous entry at miss + 1 is empty.
   */
  ghost predicate Poisoned(e: Successors, n: nat, P: Table, m: nat, miss: nat)
    requires Shaped(P, n, m) && AllBelow(e.missed, n) && AllBelow(e.met, n) && miss <= m
  {
    || e.met == []
    || (exists i :: 0 <= i < |e.met| && P[e.met[i]][miss] == {})
    || (miss < m && (e.missed == [] || exists i :: 0 <= i < |e.missed| && P[e.missed[i]][miss + 1] == {}))
  }

  /** The unsafe set of the source is exactly the set of poisoned entries. */
  lemma UnsafeIsPoisoned(e: Successors, n: nat, P: Table, m: nat, miss: nat)
    requires Shaped(P, n, m) && AllBelow(e.missed, n) && AllBelow(e.met, n) && miss <= m
    ensures Unsafe(e, n, P, m, miss) <==> Poisoned(e, n, P, m, miss)
  {
    SomeEmptyIff(e.met, n, P, m, miss);
    if miss < m {
      SomeEmptyIff(e.missed, n, P, m, miss + 1);
    }
  }

  /**
   * One round, entry by entry: a poisoned entry is empty; any other entry is
   * non-empty and holds exactly the cells in the previous entries of the
   * successors it uses (missed successors at miss + 1 while miss < m, met
   * successors at miss), plus, at miss == m, what the recycled buffer held.
   */
  lemma StepEntry(g: seq<Successors>, n: nat, m: nat, S: Table, P: Table, id: nat, miss: nat)
    requires WellFormed(g, n) && Shaped(S, n, m) && Shaped(P, n, m) && id < n && miss <= m
    ensures Poisoned(g[id], n, P, m, miss) ==> Step(g, n, m, S, P)[id][miss] == {}
    ensures !Poisoned(g[id], n, P, m, miss) ==> Step(g, n, m, S, P)[id][miss] != {}
    ensures !Poisoned(g[id], n, P, m, miss) ==>
              forall x: nat :: x in Step(g, n, m, S, P)[id][miss] <==>
                || (miss == m && x in S[id][m])
                || (miss < m && exists i :: 0 <= i < |g[id].missed| && x in P[g[id].missed[i]][miss + 1])
                || (exists i :: 0 <= i < |g[id].met| && x in P[g[id].met[i]][miss])
  {
    var e := g[id];
    UnsafeIsPoisoned(e, n, P, m, miss);
    if !Poisoned(e, n, P, m, miss) {
      forall x: nat
        ensures x in Step(g, n, m, S, P)[id][miss] <==>
                || (miss == m && x in S[id][m])
                || (miss < m && exists i :: 0 <= i < |e.missed| && x in P[e.missed[i]][miss + 1])
                || (exists i :: 0 <= i < |e.met| && x in P[e.met[i]][miss])
      {
        UnionAtMembers(e.met, n, P, m, miss, x);
        if miss < m {
          UnionAtMembers(e.missed, n, P, m, miss + 1, x);
        }
      }
      var r := e.met[0];
      assert P[r][miss] != {};
      var x :| x in P[r][miss];
      UnionAtMembers(e.met, n, P, m, miss, x);
    }
  }

  /**
   * An unsafe mode empties the row: with no met successors every entry of the
   * row is emptied, with no missed successors every entry with miss < m is.
   */
  lemma EmptyModeEmpties(g: seq<Successors>, n: nat, m: nat, S: Table, P: Table, id: nat)
    requires WellFormed(g, n) && Shaped(S, n, m) && Shaped(P, n, m) && id < n
    ensures g[id].met == [] ==> forall miss :: 0 <= miss <= m ==> Step(g, n, m, S, P)[id][miss] == {}
    ensures g[id].missed == [] ==> forall miss :: 0 <= miss < m ==> Step(g, n, m, S, P)[id][miss] == {}
  {
    forall miss | 0 <= miss <= m
      ensures Poisoned(g[id], n, P, m, miss) ==> Step(g, n, m, S, P)[id][miss] == {}
    {
      StepEntry(g, n, m, S, P, id, miss);
    }
  }

  // ---------------------------------------------------------------------------
  // Every bitset stays within the n cells

  lemma EntryBounded(e: Successors, n: nat, P: Table, stale: set<nat>, m: nat, miss: nat)
    requires Shaped(P, n, m) && AllBelow(e.missed, n) && AllBelow(e.met, n) && miss <= m
    requires Bounded(P, n) && forall x :: x in stale ==> x < n
    ensures forall x :: x in Entry(e, n, P, stale, m, miss) ==> x < n
  {
    forall x | x in Entry(e, n, P, stale, m, miss)
      ensures x < n
    {
      UnionAtMembers(e.met, n, P, m, miss, x);
      if miss < m {
        UnionAtMembers(e.missed, n, P, m, miss + 1, x);
      }
    }
  }

  lemma StepBounded(g: seq<Successors>, n: nat, m: nat, S: Table, P: Table)
    requires WellFormed(g, n) && Shaped(S, n, m) && Shaped(P, n, m)
    requires Bounded(S, n) && Bounded(P, n)
    ensures Bounded(Step(g, n, m, S, P), n)
  {
    forall id, miss | 0 <= id < n && 0 <= miss <= m
      ensures forall x :: x in Step(g, n, m, S, P)[id][miss] ==> x < n
    {
      EntryBounded(g[id], n, P, S[id][miss], m, miss);
    }
  }

  /** Both buffers only ever hold cell ids, whatever the number of rounds. */
  lemma {:induction false} RoundsBounded(g: seq<Successors>, n: nat, m: nat, r: nat)
    requires WellFormed(g, n)
    ensures Bounded(Rounds(g, n, m, r).0, n) && Bounded(Rounds(g, n, m, r).1, n)
  {
    if r > 0 {
      RoundsBounded(g, n, m, r - 1);
      var (now, prev) := Rounds(g, n, m, r - 1);
      StepBounded(g, n, m, prev, now);
    }
  }

  // ---------------------------------------------------------------------------
  // The entry left uncleared at miss == m

  /** A has the same empty entries as C and contains it entry by entry. */
  ghost predicate Covers(A: Table, C: Table, n: nat, m: nat)
    requires Shaped(A, n, m) && Shaped(C, n, m)
  {
    forall id, miss :: 0 <= id < n && 0 <= miss <= m ==>
      (A[id][miss] == {} <==> C[id][miss] == {}) && C[id][miss] <= A[id][miss]
  }

  lemma StepCovers(g: seq<Successors>, n: nat, m: nat, S: Table, A: Table, C: Table)
    requires WellFormed(g, n) && Shaped(S, n, m) && Shaped(A, n, m) && Shaped(C, n, m)
    requires Covers(A, C, n, m)
    ensures Covers(Step(g, n, m, S, A), Step(g, n, m, Blank(n, m), C), n, m)
  {
    forall id, miss | 0 <= id < n && 0 <= miss <= m
      ensures (Step(g, n, m, S, A)[id][miss] == {} <==> Step(g, n, m, Blank(n, m), C)[id][miss] == {})
      ensures Step(g, n, m, Blank(n, m), C)[id][miss] <= Step(g, n, m, S, A)[id][miss]
    {
      StepEntry(g, n, m, S, A, id, miss);
      StepEntry(g, n, m, Blank(n, m), C, id, miss);
      assert Poisoned(g[id], n, A, m, miss) <==> Poisoned(g[id], n, C, m, miss);
    }
  }

  /**
   * The buffer computed as written has exactly the empty entries of the clean
   * recurrence and contains it entry by entry: the uncleared entry at miss == m
   * only adds cells.
   */
  lemma {:induction false} RoundsAgreeWithClean(g: seq<Successors>, n: nat, m: nat, r: nat)
    requires WellFormed(g, n)
    ensures Covers(Rounds(g, n, m, r).0, Clean(g, n, m, r), n, m)
  {
    if r > 0 {
      RoundsAgreeWithClean(g, n, m, r - 1);
      var (now, prev) := Rounds(g, n, m, r - 1);
      StepCovers(g, n, m, prev, now, Clean(g, n, m, r - 1));
    }
  }

  /**
   * With two cells that both step to cell 1 when the deadline is met, no miss
   * allowed and k = 2, the table as written records cell 0 as a 2-step
   * successor of cell 0, which the clean recurrence does not.
   */
  lemma StaleEdge()
    ensures var g := [Successors([], [1]), Successors([], [1])];
            KStep(g, 2, 0, 2)[0][0] == {0, 1} && Clean(g, 2, 0, 2)[0][0] == {1}
  {
    var g := [Successors([], [1]), Successors([], [1])];
    var one := [1];
    assert one[..0] == [];
    var I, B := Init(2, 0), Blank(2, 0);
    assert UnionAt(one, 2, I, 0, 0) == {1};
    assert Entry(g[1], 2, I, B[1][0], 0, 0) == {1};
    var T1 := Step(g, 2, 0, B, I);
    assert Rounds(g, 2, 0, 1) == (T1, I);
    assert Clean(g, 2, 0, 1) == T1;
    assert T1[1][0] == {1};
    assert UnionAt(one, 2, T1, 0, 0) == {1};
    assert !SomeEmpty(one[..0], 2, T1, 0, 0);
    assert !SomeEmpty(one, 2, T1, 0, 0);
    assert !Unsafe(g[0], 2, T1, 0, 0);
    assert Entry(g[0], 2, T1, I[0][0], 0, 0) == {0, 1};
    assert Entry(g[0], 2, T1, B[0][0], 0, 0) == {1};
  }

  /** Cell 0 may miss into itself or meet into cell 1; cell 1 always goes to cell 1. */
  function MissLoop(): seq<Successors>
  {
    [Successors([0], [1]), Successors([1], [1])]
  }

  /** A single successor r: the union is its entry, and the test fires iff that entry is empty. */
  lemma SingleSuccessor(r: nat, n: nat, P: Table, m: nat, j: nat)
    requires Shaped(P, n, m) && r < n && j <= m
    ensures AllBelow([r], n)
    ensures UnionAt([r], n, P, m, j) == P[r][j]
    ensures SomeEmpty([r], n, P, m, j) == (P[r][j] == {})
  {
    var s := [r];
    assert s[..0] == [];
  }

  /** One round over MissLoop with m = 1, entry by entry. */
  lemma MissLoopStep(S: Table, P: Table)
    requires Shaped(S, 2, 1) && Shaped(P, 2, 1)
    ensures WellFormed(MissLoop(), 2)
    ensures var T := Step(MissLoop(), 2, 1, S, P);
            && T[0][0] == (if P[0][1] == {} || P[1][0] == {} then {} else P[0][1] + P[1][0])
            && T[0][1] == (if P[1][1] == {} then {} else S[0][1] + P[1][1])
            && T[1][0] == (if P[1][1] == {} || P[1][0] == {} then {} else P[1][1] + P[1][0])
            && T[1][1] == (if P[1][1] == {} then {} else S[1][1] + P[1][1])
  {
    var g := MissLoop();
    assert g[0].missed == [0] && g[0].met == [1] && g[1].missed == [1] && g[1].met == [1];
    SingleSuccessor(0, 2, P, 1, 1);
    SingleSuccessor(1, 2, P, 1, 0);
    SingleSuccessor(1, 2, P, 1, 1);
    var T := Step(g, 2, 1, S, P);
    assert T[0][0] == Entry(g[0], 2, P, S[0][0], 1, 0) && T[0][1] == Entry(g[0], 2, P, S[0][1], 1, 1);
    assert T[1][0] == Entry(g[1], 2, P, S[1][0], 1, 0) && T[1][1] == Entry(g[1], 2, P, S[1][1], 1, 1);
  }

  /**
   * The stale entry reaches miss 0 for m > 0 as well: with m = 1 and k = 3 the
   * {0} that the initialisation left at miss == 1 of the recycled buffer
   * surfaces at miss 0 of cell 0, although no run of three periods from cell 0
   * ends in cell 0.
   */
  lemma StaleEdgeWithMiss()
    ensures WellFormed(MissLoop(), 2)
    ensures KStep(MissLoop(), 2, 1, 3)[0][0] == {0, 1} && Clean(MissLoop(), 2, 1, 3)[0][0] == {1}
  {
    var g := MissLoop();
    var I, B := Init(2, 1), Blank(2, 1);
    MissLoopStep(B, I);
    var T1 := Step(g, 2, 1, B, I);
    assert T1[0][0] == {0, 1} && T1[0][1] == {1} && T1[1][0] == {1} && T1[1][1] == {1};
    MissLoopStep(I, T1);
    MissLoopStep(B, T1);
    var T2, C2 := Step(g, 2, 1, I, T1), Step(g, 2, 1, B, T1);
    assert T2[0][1] == {0, 1} && T2[1][0] == {1};
    assert C2[0][1] == {1} && C2[1][0] == {1};
    MissLoopStep(T1, T2);
    MissLoopStep(B, C2);
    assert Rounds(g, 2, 1, 2) == (T2, T1);
    assert Clean(g, 2, 1, 2) == C2;
  }

  // ---------------------------------------------------------------------------
  // What the table means, in terms of runs of the one-step graph

  /**
   * Every run of r control periods from cell id, with miss deadline misses
   * already spent, stays inside the safety box: the deadline may be met at any
   * period, and may be missed while fewer than m misses have been spent.
   */
  ghost predicate SafeFor(g: seq<Successors>, n: nat, m: nat, id: nat, miss: nat, r: nat)
    requires WellFormed(g, n) && id < n && miss <= m
    decreases r
  {
    r == 0 ||
    (&& g[id].met != []
     && (forall i :: 0 <= i < |g[id].met| ==> SafeFor(g, n, m, g[id].met[i], miss, r - 1))
     && (miss < m ==>
           && g[id].missed != []
           && forall i :: 0 <= i < |g[id].missed| ==> SafeFor(g, n, m, g[id].missed[i], miss + 1, r - 1)))
  }

  /** Some such run of exactly r periods ends in cell x. */
  ghost predicate Reaches(g: seq<Successors>, n: nat, m: nat, id: nat, miss: nat, r: nat, x: nat)
    requires WellFormed(g, n) && id < n && miss <= m
    decreases r
  {
    if r == 0 then x == id
    else
      || (exists i :: 0 <= i < |g[id].met| && Reaches(g, n, m, g[id].met[i], miss, r - 1, x))
      || (miss < m && exists i :: 0 <= i < |g[id].missed| && Reaches(g, n, m, g[id].missed[i], miss + 1, r - 1, x))
  }

  /** T is non-empty at (id, miss) exactly when id is safe for r periods. */
  ghost predicate IsSafety(g: seq<Successors>, n: nat, m: nat, r: nat, T: Table)
    requires WellFormed(g, n) && Shaped(T, n, m)
  {
    forall id, miss :: 0 <= id < n && 0 <= miss <= m ==>
      (T[id][miss] != {} <==> SafeFor(g, n, m, id, miss, r))
  }

  /** Where id is safe for r periods, T holds exactly the ends of the runs. */
  ghost predicate IsReach(g: seq<Successors>, n: nat, m: nat, r: nat, T: Table)
    requires WellFormed(g, n) && Shaped(T, n, m)
  {
    forall id, miss, x: nat :: 0 <= id < n && 0 <= miss <= m && SafeFor(g, n, m, id, miss, r) ==>
      (x in T[id][miss] <==> Reaches(g, n, m, id, miss, r, x))
  }

  /**
   * The clean recurrence computes what the bitsets are meant to hold: the
   * entry (id, miss) after r rounds is non-empty iff every bounded-miss run of
   * r periods from id is safe, and then it is the set of cells those runs end in.
   */
  lemma {:induction false} CleanMeaning(g: seq<Successors>, n: nat, m: nat, r: nat)
    requires WellFormed(g, n)
    ensures IsSafety(g, n, m, r, Clean(g, n, m, r)) && IsReach(g, n, m, r, Clean(g, n, m, r))
  {
    if r > 0 {
      CleanMeaning(g, n, m, r - 1);
      var P := Clean(g, n, m, r - 1);
      var T := Step(g, n, m, Blank(n, m), P);
      assert T == Clean(g, n, m, r);
      forall id, miss | 0 <= id < n && 0 <= miss <= m
        ensures T[id][miss] != {} <==> SafeFor(g, n, m, id, miss, r)
        ensures SafeFor(g, n, m, id, miss, r) ==>
                  forall x: nat :: x in T[id][miss] <==> Reaches(g, n, m, id, miss, r, x)
      {
        StepMeaning(g, n, m, r, P, id, miss);
      }
    }
  }

  /** The poisoning test of one round is the one-period unfolding of SafeFor. */
  lemma PoisonedIsUnsafe(g: seq<Successors>, n: nat, m: nat, r: nat, P: Table, id: nat, miss: nat)
    requires WellFormed(g, n) && Shaped(P, n, m) && r > 0 && id < n && miss <= m
    requires IsSafety(g, n, m, r - 1, P)
    ensures Poisoned(g[id], n, P, m, miss) <==> !SafeFor(g, n, m, id, miss, r)
  {
    var e := g[id];
    assert (forall i :: 0 <= i < |e.met| ==> SafeFor(g, n, m, e.met[i], miss, r - 1))
       <==> !(exists i :: 0 <= i < |e.met| && P[e.met[i]][miss] == {});
    if miss < m {
      assert (forall i :: 0 <= i < |e.missed| ==> SafeFor(g, n, m, e.missed[i], miss + 1, r - 1))
         <==> !(exists i :: 0 <= i < |e.missed| && P[e.missed[i]][miss + 1] == {});
    }
  }

  lemma StepMeaning(g: seq<Successors>, n: nat, m: nat, r: nat, P: Table, id: nat, miss: nat)
    requires WellFormed(g, n) && Shaped(P, n, m) && r > 0 && id < n && miss <= m
    requires IsSafety(g, n, m, r - 1, P) && IsReach(g, n, m, r - 1, P)
    ensures Step(g, n, m, Blank(n, m), P)[id][miss] != {} <==> SafeFor(g, n, m, id, miss, r)
    ensures SafeFor(g, n, m, id, miss, r) ==>
              forall x: nat :: x in Step(g, n, m, Blank(n, m), P)[id][miss] <==> Reaches(g, n, m, id, miss, r, x)
  {
    var e := g[id];
    StepEntry(g, n, m, Blank(n, m), P, id, miss);
    PoisonedIsUnsafe(g, n, m, r, P, id, miss);
  }

  /**
   * The table buildKStepGraph ends with, at miss 0: id starts a safe region
   * iff every run of k periods from id with at most m misses is safe, and its
   * entry holds at least every cell such a run can end in. It may hold more,
   * for m == 0 as for m > 0: the uncleared entry at miss == m feeds older
   * cells into the table (StaleEdge, StaleEdgeWithMiss); CleanMeaning states
   * equality for the intended recurrence.
   */
  lemma KStepMeaning(g: seq<Successors>, n: nat, m: nat, k: int, id: nat)
    requires WellFormed(g, n) && id < n
    ensures KStep(g, n, m, k)[id][0] != {} <==> SafeFor(g, n, m, id, 0, if k > 0 then k else 0)
    ensures forall x: nat :: Reaches(g, n, m, id, 0, if k > 0 then k else 0, x) && KStep(g, n, m, k)[id][0] != {}
              ==> x in KStep(g, n, m, k)[id][0]
  {
    var r := if k > 0 then k else 0;
    RoundsAgreeWithClean(g, n, m, r);
    CleanMeaning(g, n, m, r);
  }

  // ---------------------------------------------------------------------------
  // The two buffers as arrays

  /** Array a holds table T. */
  ghost predicate Holds(a: array2<set<nat>>, T: Table, n: nat, m: nat)
    reads a
  {
    a.Length0 == n && a.Length1 == m + 1 && Shaped(T, n, m)
    && forall id, miss :: 0 <= id < n && 0 <= miss <= m ==> a[id, miss] == T[id][miss]
  }

  /**
   * One of the |= loops for a fixed (id, miss): or-in prev[r][j] for every
   * successor r in succ, and record miss as unsafe when succ is empty or some
   * prev[r][j] is empty.
   */
  method OrInto(now: array2<set<nat>>, prev: array2<set<nat>>, id: nat, miss: nat,
                succ: seq<nat>, j: nat, unsafeSet: set<nat>, ghost n: nat, ghost m: nat, ghost P: Table)
    returns (unsafeSet': set<nat>)
    requires now != prev && Holds(prev, P, n, m)
    requires now.Length0 == n && now.Length1 == m + 1
    requires id < n && miss <= m && j <= m && AllBelow(succ, n)
    modifies now
    ensures now[id, miss] == old(now[id, miss]) + UnionAt(succ, n, P, m, j)
    ensures unsafeSet' == unsafeSet + (if |succ| == 0 || SomeEmpty(succ, n, P, m, j) then {miss} else {})
    ensures forall i, x :: 0 <= i < n && 0 <= x <= m && (i, x) != (id, miss) ==> now[i, x] == old(now[i, x])
  {
    unsafeSet' := unsafeSet;
    if |succ| == 0 {
      unsafeSet' := unsafeSet' + {miss};
    }
    for t := 0 to |succ|
      invariant now[id, miss] == old(now[id, miss]) + UnionAt(succ[..t], n, P, m, j)
      invariant unsafeSet' == unsafeSet + (if |succ| == 0 || SomeEmpty(succ[..t], n, P, m, j) then {miss} else {})
      invariant forall i, x :: 0 <= i < n && 0 <= x <= m && (i, x) != (id, miss) ==> now[i, x] == old(now[i, x])
    {
      assert succ[..t + 1][..t] == succ[..t];
      var reachId := succ[t];
      now[id, miss] := now[id, miss] + prev[reachId, j];
      if prev[reachId, j] == {} {
        unsafeSet' := unsafeSet' + {miss};
      }
    }
    assert succ[..|succ|] == succ;
  }

  /** Lines 212-214: clear the entries of row id with miss < m; the entry miss == m is kept. */
  method ClearRow(now: array2<set<nat>>, id: nat, ghost n: nat, m: nat)
    requires now.Length0 == n && now.Length1 == m + 1 && id < n
    modifies now
    ensures forall x :: 0 <= x < m ==> now[id, x] == {}
    ensures now[id, m] == old(now[id, m])
    ensures forall i, x :: 0 <= i < n && 0 <= x <= m && i != id ==> now[i, x] == old(now[i, x])
  {
    for miss := 0 to m
      invariant forall x :: 0 <= x < miss ==> now[id, x] == {}
      invariant forall x :: miss <= x <= m ==> now[id, x] == old(now[id, x])
      invariant forall i, x :: 0 <= i < n && 0 <= x <= m && i != id ==> now[i, x] == old(now[i, x])
    {
      now[id, miss] := {};
    }
  }

  /** Lines 218-228: with a miss still allowed, or-in the missed successors at miss + 1. */
  method OrMissed(now: array2<set<nat>>, prev: array2<set<nat>>, e: Successors,
                  id: nat, ghost n: nat, m: nat, ghost P: Table)
    returns (unsafeSet: set<nat>)
    requires now != prev && Holds(prev, P, n, m)
    requires now.Length0 == n && now.Length1 == m + 1 && id < n
    requires AllBelow(e.missed, n)
    requires forall x :: 0 <= x < m ==> now[id, x] == {}
    modifies now
    ensures forall x :: 0 <= x < m ==> now[id, x] == UnionAt(e.missed, n, P, m, x + 1)
    ensures now[id, m] == old(now[id, m])
    ensures forall x: nat :: x in unsafeSet <==> x < m && MissedUnsafe(e, n, P, m, x)
    ensures forall i, x :: 0 <= i < n && 0 <= x <= m && i != id ==> now[i, x] == old(now[i, x])
  {
    unsafeSet := {};
    for miss := 0 to m
      invariant forall x :: 0 <= x < miss ==> now[id, x] == UnionAt(e.missed, n, P, m, x + 1)
      invariant forall x :: miss <= x < m ==> now[id, x] == {}
      invariant now[id, m] == old(now[id, m])
      invariant forall x: nat :: x in unsafeSet <==> x < miss && MissedUnsafe(e, n, P, m, x)
      invariant forall i, x :: 0 <= i < n && 0 <= x <= m && i != id ==> now[i, x] == old(now[i, x])
    {
      ghost var before := unsafeSet;
      unsafeSet := OrInto(now, prev, id, miss, e.missed, miss + 1, unsafeSet, n, m, P);
      MissedStep(e, n, P, m, miss, before, unsafeSet);
    }
  }

  /** One iteration of OrMissed's loop extends the recorded unsafe counts by miss. */
  lemma MissedStep(e: Successors, n: nat, P: Table, m: nat, miss: nat, before: set<nat>, after: set<nat>)
    requires Shaped(P, n, m) && AllBelow(e.missed, n) && miss < m
    requires forall x: nat :: x in before <==> x < miss && MissedUnsafe(e, n, P, m, x)
    requires after == before + (if |e.missed| == 0 || SomeEmpty(e.missed, n, P, m, miss + 1) then {miss} else {})
    ensures forall x: nat :: x in after <==> x < miss + 1 && MissedUnsafe(e, n, P, m, x)
  {
  }

  /** Lines 231-241: or-in the met successors at the same miss count, for every miss <= m. */
  method OrMet(now: array2<set<nat>>, prev: array2<set<nat>>, e: Successors,
               id: nat, unsafeSet: set<nat>, ghost n: nat, m: nat, ghost P: Table)
    returns (unsafeSet': set<nat>)
    requires now != prev && Holds(prev, P, n, m)
    requires now.Length0 == n && now.Length1 == m + 1 && id < n
    requires AllBelow(e.met, n)
    modifies now
    ensures forall x :: 0 <= x <= m ==> now[id, x] == old(now[id, x]) + UnionAt(e.met, n, P, m, x)
    ensures forall x: nat :: x in unsafeSet' <==> x in unsafeSet || (x <= m && MetUnsafe(e, n, P, m, x))
    ensures forall i, x :: 0 <= i < n && 0 <= x <= m && i != id ==> now[i, x] == old(now[i, x])
  {
    unsafeSet' := unsafeSet;
    for miss := 0 to m + 1
      invariant forall x :: 0 <= x < miss ==> now[id, x] == old(now[id, x]) + UnionAt(e.met, n, P, m, x)
      invariant forall x :: miss <= x <= m ==> now[id, x] == old(now[id, x])
      invariant forall x: nat :: x in unsafeSet' <==> x in unsafeSet || (x < miss && MetUnsafe(e, n, P, m, x))
      invariant forall i, x :: 0 <= i < n && 0 <= x <= m && i != id ==> now[i, x] == old(now[i, x])
    {
      ghost var before := unsafeSet';
      unsafeSet' := OrInto(now, prev, id, miss, e.met, miss, unsafeSet', n, m, P);
      MetStep(e, n, P, m, miss, unsafeSet, before, unsafeSet');
    }
  }

  /** One iteration of OrMet's loop extends the recorded unsafe counts by miss. */
  lemma MetStep(e: Successors, n: nat, P: Table, m: nat, miss: nat, start: set<nat>, before: set<nat>, after: set<nat>)
    requires Shaped(P, n, m) && AllBelow(e.met, n) && miss <= m
    requires forall x: nat :: x in before <==> x in start || (x < miss && MetUnsafe(e, n, P, m, x))
    requires after == before + (if |e.met| == 0 || SomeEmpty(e.met, n, P, m, miss) then {miss} else {})
    ensures forall x: nat :: x in after <==> x in start || (x < miss + 1 && MetUnsafe(e, n, P, m, x))
  {
  }

  /** Lines 243-245: reset every entry of row id whose miss count is in unsafeSet. */
  method ResetUnsafe(now: array2<set<nat>>, id: nat, unsafeSet: set<nat>, ghost n: nat, ghost m: nat)
    requires now.Length0 == n && now.Length1 == m + 1 && id < n
    requires forall x :: x in unsafeSet ==> x <= m
    modifies now
    ensures forall x :: 0 <= x <= m ==> now[id, x] == if x in unsafeSet then {} else old(now[id, x])
    ensures forall i, x :: 0 <= i < n && 0 <= x <= m && i != id ==> now[i, x] == old(now[i, x])
  {
    var rest := unsafeSet;
    while rest != {}
      invariant rest <= unsafeSet
      invariant forall x :: 0 <= x <= m ==> now[id, x] == if x in unsafeSet - rest then {} else old(now[id, x])
      invariant forall i, x :: 0 <= i < n && 0 <= x <= m && i != id ==> now[i, x] == old(now[i, x])
      decreases rest
    {
      var miss :| miss in rest;
      now[id, miss] := {};
      rest := rest - {miss};
    }
  }

  /**
   * The body of the id loop (lines 211-245): row id becomes the round's new
   * row, computed from prev and from what row id held; no other entry changes.
   */
  method ProcessRow(now: array2<set<nat>>, prev: array2<set<nat>>, g: seq<Successors>,
                    id: nat, ghost n: nat, m: nat, ghost P: Table)
    requires WellFormed(g, n) && now != prev && Holds(prev, P, n, m)
    requires now.Length0 == n && now.Length1 == m + 1 && id < n
    modifies now
    ensures forall miss :: 0 <= miss <= m ==> now[id, miss] == Entry(g[id], n, P, old(now[id, miss]), m, miss)
    ensures forall i, x :: 0 <= i < n && 0 <= x <= m && i != id ==> now[i, x] == old(now[i, x])
  {
    var e := g[id];
    ClearRow(now, id, n, m);
    var unsafeSet := OrMissed(now, prev, e, id, n, m, P);
    unsafeSet := OrMet(now, prev, e, id, unsafeSet, n, m, P);
    ResetUnsafe(now, id, unsafeSet, n, m);
  }

  /** The id loop of one round (lines 210-246): the whole of now becomes Step(S, P). */
  method Transition(now: array2<set<nat>>, prev: array2<set<nat>>, g: seq<Successors>,
                    n: nat, m: nat, ghost S: Table, ghost P: Table)
    requires WellFormed(g, n) && now != prev && Holds(now, S, n, m) && Holds(prev, P, n, m)
    modifies now
    ensures Holds(now, Step(g, n, m, S, P), n, m)
  {
    ghost var T := Step(g, n, m, S, P);
    for id := 0 to n
      invariant forall i, x :: 0 <= i < id && 0 <= x <= m ==> now[i, x] == T[i][x]
      invariant forall i, x :: id <= i < n && 0 <= x <= m ==> now[i, x] == S[i][x]
    {
      ProcessRow(now, prev, g, id, n, m, P);
    }
  }

  // ---------------------------------------------------------------------------
  // Reading off the results (lines 250-270)

  /** The cells among the first h whose miss-0 entry is non-empty: Xs. */
  function Starts(T: Table, n: nat, m: nat, h: nat): set<nat>
    requires Shaped(T, n, m) && h <= n
  {
    if h == 0 then {} else Starts(T, n, m, h - 1) + (if T[h - 1][0] != {} then {h - 1} else {})
  }

  lemma {:induction false} StartsMembers(T: Table, n: nat, m: nat, h: nat)
    requires Shaped(T, n, m) && h <= n
    ensures forall id: nat :: id in Starts(T, n, m, h) <==> id < h && T[id][0] != {}
  {
    if h > 0 {
      StartsMembers(T, n, m, h - 1);
    }
  }

  lemma StartsNext(T: Table, n: nat, m: nat, h: nat)
    requires Shaped(T, n, m) && h < n
    ensures |Starts(T, n, m, h + 1)| == |Starts(T, n, m, h)| + (if T[h][0] != {} then 1 else 0)
  {
    if T[h][0] != {} {
      StartsMembers(T, n, m, h);
    }
  }

  /** Every cell some of the first h cells reaches: the bitset `reach`. */
  function Reached(T: Table, n: nat, m: nat, h: nat): set<nat>
    requires Shaped(T, n, m) && h <= n
  {
    if h == 0 then {} else Reached(T, n, m, h - 1) + T[h - 1][0]
  }

  lemma {:induction false} ReachedMembers(T: Table, n: nat, m: nat, h: nat)
    requires Shaped(T, n, m) && h <= n
    ensures forall x :: x in Reached(T, n, m, h) <==> exists id :: 0 <= id < h && x in T[id][0]
  {
    if h > 0 {
      ReachedMembers(T, n, m, h - 1);
    }
  }

  /** The number of (id, next) pairs with next in the miss-0 entry of id, over the first h cells. */
  function EdgeSum(T: Table, n: nat, m: nat, h: nat): nat
    requires Shaped(T, n, m) && h <= n
  {
    if h == 0 then 0 else EdgeSum(T, n, m, h - 1) + |T[h - 1][0]|
  }

  /** The total length of the first h lists. */
  function Total(rev: seq<seq<nat>>, h: nat): nat
    requires h <= |rev|
  {
    if h == 0 then 0 else Total(rev, h - 1) + |rev[h - 1]|
  }

  lemma {:induction false} TotalEmpty(rev: seq<seq<nat>>, h: nat)
    requires h <= |rev| && forall j :: 0 <= j < |rev| ==> rev[j] == []
    ensures Total(rev, h) == 0
  {
    if h > 0 {
      TotalEmpty(rev, h - 1);
    }
  }

  lemma {:induction false} TotalUpdate(rev: seq<seq<nat>>, h: nat, j: nat, v: seq<nat>)
    requires h <= |rev| && j < |rev|
    ensures Total(rev[j := v], h) == Total(rev, h) + (if j < h then |v| - |rev[j]| else 0)
  {
    if h > 0 {
      TotalUpdate(rev, h - 1, j, v);
    }
  }

  /** The elements of s below b. */
  function Below(s: set<nat>, b: nat): set<nat>
  {
    set x | x in s && x < b
  }

  lemma BelowNext(s: set<nat>, b: nat)
    ensures |Below(s, b + 1)| == |Below(s, b)| + (if b in s then 1 else 0)
  {
    if b in s {
      assert Below(s, b + 1) == Below(s, b) + {b};
    } else {
      assert Below(s, b + 1) == Below(s, b);
    }
  }

  lemma BelowAll(T: Table, n: nat, m: nat, id: nat)
    requires Shaped(T, n, m) && Bounded(T, n) && id < n
    ensures Below(T[id][0], n) == T[id][0]
  {
  }

  /**
   * Lines 260-264: append id to rev[next] for every next, in ascending order,
   * that the entry of id contains. The lists stay ascending and grow by one
   * element per cell of the entry below n.
   */
  method AddReverse(rev: seq<seq<nat>>, id: nat, entry: set<nat>, n: nat) returns (rev': seq<seq<nat>>)
    requires |rev| == n && id < n
    requires forall j :: 0 <= j < n ==> Increasing(rev[j]) && AllBelow(rev[j], id)
    ensures |rev'| == n
    ensures forall j :: 0 <= j < n ==> Increasing(rev'[j]) && AllBelow(rev'[j], id + 1)
    ensures forall j, i :: 0 <= j < n && 0 <= i < n ==> (i in rev'[j] <==> i in rev[j] || (i == id && j in entry))
    ensures Total(rev', n) == Total(rev, n) + |Below(entry, n)|
  {
    rev' := rev;
    for nextId := 0 to n
      invariant |rev'| == n
      invariant forall j :: 0 <= j < n ==> Increasing(rev'[j]) && AllBelow(rev'[j], id + 1)
      invariant forall j :: nextId <= j < n ==> rev'[j] == rev[j]
      invariant forall j, i :: 0 <= j < n && 0 <= i < n ==>
                  (i in rev'[j] <==> i in rev[j] || (i == id && j < nextId && j in entry))
      invariant Total(rev', n) == Total(rev, n) + |Below(entry, nextId)|
    {
      if nextId in entry {
        IncreasingSnoc(rev'[nextId], id);
        TotalUpdate(rev', n, nextId, rev'[nextId] + [id]);
        rev' := rev'[nextId := rev'[nextId] + [id]];
      }
      BelowNext(entry, nextId);
    }
  }

  /** The results of lines 250-267 once the cells below id have been read off T. */
  predicate ReadOff(T: Table, n: nat, m: nat, id: nat,
                    xs: seq<bool>, rev: seq<seq<nat>>, start: nat, reach: set<nat>, edge: nat)
    requires Shaped(T, n, m) && id <= n
  {
    && |xs| == n && (forall i :: 0 <= i < n ==> (xs[i] <==> i < id && T[i][0] != {}))
    && |rev| == n
    && (forall j :: 0 <= j < n ==> Increasing(rev[j]) && AllBelow(rev[j], id))
    && (forall j, i :: 0 <= j < n && 0 <= i < n ==> (i in rev[j] <==> i < id && j in T[i][0]))
    && start == |Starts(T, n, m, id)|
    && reach == Reached(T, n, m, id)
    && edge == EdgeSum(T, n, m, id) == Total(rev, n)
  }

  /** One iteration of the loop of lines 250-267: cell id is read off. */
  method ReadRow(row: set<nat>, id: nat, n: nat, m: nat, ghost T: Table,
                 xs: seq<bool>, rev: seq<seq<nat>>, start: nat, reach: set<nat>, edge: nat)
    returns (xs': seq<bool>, rev': seq<seq<nat>>, start': nat, reach': set<nat>, edge': nat)
    requires Shaped(T, n, m) && Bounded(T, n) && id < n && row == T[id][0]
    requires ReadOff(T, n, m, id, xs, rev, start, reach, edge)
    ensures ReadOff(T, n, m, id + 1, xs', rev', start', reach', edge')
  {
    xs', rev', start', reach', edge' := xs, rev, start, reach, edge;
    assert Reached(T, n, m, id + 1) == Reached(T, n, m, id) + row;
    assert EdgeSum(T, n, m, id + 1) == EdgeSum(T, n, m, id) + |row|;
    StartsNext(T, n, m, id);
    if row != {} {
      xs' := xs[id := true];
      start' := start + 1;
      edge' := edge + |row|;
      reach' := reach + row;
      rev' := AddReverse(rev, id, row, n);
      BelowAll(T, n, m, id);
    }
  }

  /**
   * Lines 250-267 on the final table T: xs is Xs, rev[j] lists in ascending
   * order every cell whose entry contains j, and start, end and edge are the
   * sizes printed (Xs, the reached cells, the edges); edge is also the total
   * length of the reverse lists.
   */
  method Finalise(now: array2<set<nat>>, n: nat, m: nat, ghost T: Table)
    returns (xs: seq<bool>, rev: seq<seq<nat>>, start: nat, end: nat, edge: nat)
    requires Holds(now, T, n, m) && Bounded(T, n)
    ensures |xs| == n && forall id :: 0 <= id < n ==> (xs[id] <==> T[id][0] != {})
    ensures |rev| == n
    ensures forall j :: 0 <= j < n ==> Increasing(rev[j]) && AllBelow(rev[j], n)
    ensures forall j, id :: 0 <= j < n && 0 <= id < n ==> (id in rev[j] <==> j in T[id][0])
    ensures start == |Starts(T, n, m, n)|
    ensures end == |Reached(T, n, m, n)|
    ensures edge == EdgeSum(T, n, m, n) == Total(rev, n)
  {
    start, end, edge := 0, 0, 0;
    var reach: set<nat> := {};
    rev := seq(n, _ => []);
    xs := seq(n, _ => false);
    TotalEmpty(rev, n);
    for id := 0 to n
      invariant ReadOff(T, n, m, id, xs, rev, start, reach, edge)
    {
      xs, rev, start, reach, edge := ReadRow(now[id, 0], id, n, m, T, xs, rev, start, reach, edge);
    }
    end := |reach|;
  }

  // ---------------------------------------------------------------------------
  // buildKStepGraph

  /** Lines 200-205: every entry of buffer now becomes {id}. */
  method Initialise(now: array2<set<nat>>, n: nat, m: nat)
    requires now.Length0 == n && now.Length1 == m + 1
    modifies now
    ensures Holds(now, Init(n, m), n, m)
  {
    for id := 0 to n
      invariant forall i, x :: 0 <= i < id && 0 <= x <= m ==> now[i, x] == {i}
    {
      for miss := 0 to m + 1
        invariant forall i, x :: 0 <= i < id && 0 <= x <= m ==> now[i, x] == {i}
        invariant forall x :: 0 <= x < miss ==> now[id, x] == {id}
      {
        now[id, miss] := {};
        now[id, miss] := now[id, miss] + {id};
      }
    }
  }

  /**
   * Lines 208-247: k rounds, each swapping the two buffers and recomputing
   * `now` from `prev`; returns the buffer `now` points to at the end.
   */
  method Transitions(dp0: array2<set<nat>>, dp1: array2<set<nat>>, g: seq<Successors>, n: nat, m: nat, k: int)
    returns (now: array2<set<nat>>)
    requires WellFormed(g, n) && dp0 != dp1
    requires Holds(dp0, Init(n, m), n, m) && Holds(dp1, Blank(n, m), n, m)
    modifies dp0, dp1
    ensures Holds(now, KStep(g, n, m, k), n, m)
  {
    now := dp0;
    var prev := dp1;
    ghost var r: nat := 0;
    ghost var A, B := Init(n, m), Blank(n, m);
    var step := k - 1;
    while step >= 0
      invariant (now == dp0 && prev == dp1) || (now == dp1 && prev == dp0)
      invariant k > 0 ==> -1 <= step && r == k - 1 - step
      invariant k <= 0 ==> r == 0 && step == k - 1
      invariant (A, B) == Rounds(g, n, m, r)
      invariant Holds(now, A, n, m) && Holds(prev, B, n, m)
      decreases step
    {
      now, prev := prev, now;
      Transition(now, prev, g, n, m, B, A);
      A, B := Step(g, n, m, B, A), A;
      step := step - 1;
      r := r + 1;
    }
    assert r == if k > 0 then k else 0;
  }

  /**
   * buildKStepGraph (lines 183-271): two n x (m + 1) buffers, the first set to
   * {id}, then k rounds swapping the buffers, then the results read off the
   * final table. Xs holds exactly the cells from which every run of k periods
   * with at most m misses is safe.
   */
  method BuildKStepGraph(oneStepGraph: seq<Successors>, n: nat, m: nat, k: int)
    returns (xs: seq<bool>, revKStepGraph: seq<seq<nat>>, start: nat, end: nat, edge: nat)
    requires WellFormed(oneStepGraph, n)
    ensures |xs| == n && forall id :: 0 <= id < n ==> (xs[id] <==> KStep(oneStepGraph, n, m, k)[id][0] != {})
    ensures forall id :: 0 <= id < n ==> (xs[id] <==> SafeFor(oneStepGraph, n, m, id, 0, if k > 0 then k else 0))
    ensures |revKStepGraph| == n
    ensures forall j :: 0 <= j < n ==> Increasing(revKStepGraph[j]) && AllBelow(revKStepGraph[j], n)
    ensures forall j, id :: 0 <= j < n && 0 <= id < n ==>
              (id in revKStepGraph[j] <==> j in KStep(oneStepGraph, n, m, k)[id][0])
    ensures start == |Starts(KStep(oneStepGraph, n, m, k), n, m, n)|
    ensures end == |Reached(KStep(oneStepGraph, n, m, k), n, m, n)|
    ensures edge == EdgeSum(KStep(oneStepGraph, n, m, k), n, m, n) == Total(revKStepGraph, n)
  {
    var g := oneStepGraph;
    var dp0 := new set<nat>[n, m + 1]((_, _) => {});
    var dp1 := new set<nat>[n, m + 1]((_, _) => {});
    var now, prev := dp0, dp1;
    Initialise(now, n, m);
    assert Holds(prev, Blank(n, m), n, m);
    now := Transitions(now, prev, g, n, m, k);
    // final
    ghost var T := KStep(g, n, m, k);
    RoundsBounded(g, n, m, if k > 0 then k else 0);
    xs, revKStepGraph, start, end, edge := Finalise(now, n, m, T);
    forall id | 0 <= id < n
      ensures xs[id] <==> SafeFor(g, n, m, id, 0, if k > 0 then k else 0)
    {
      KStepMeaning(g, n, m, k, id);
    }
  }
}
