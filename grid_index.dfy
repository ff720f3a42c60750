/**
 * Grid layout and flat cell ids (graph/graph.cpp:89-122).
 *
 * A cell of the uniform grid is given by its digit sequence: digit j is the
 * number of the block that the cell occupies in dimension j, a value below d.
 * The interval of block i is [-safeDist + i * blockSize, -safeDist + (i + 1) * blockSize];
 * the model keeps the block number and leaves the floating-point bounds out.
 * The flat id of a cell is its digit sequence read in base d, most significant
 * digit first, composed as curId * d + i.
 */
module GridIndex {
  import opened Lists

  function Pow(d: nat, n: nat): nat
  {
    if n == 0 then 1 else d * Pow(d, n - 1)
  }

  /** c has one digit per dimension and every digit is a block number below d. */
  predicate IsCell(d: nat, n: nat, c: seq<nat>)
  {
    |c| == n && forall j :: 0 <= j < |c| ==> c[j] < d
  }

  /** The flat id of a digit sequence, built left to right as id * d + digit. */
  function Encode(d: nat, c: seq<nat>): nat
  {
    if c == [] then 0 else Encode(d, c[..|c| - 1]) * d + c[|c| - 1]
  }

  /** The n base-d digits of id, most significant first. */
  function Decode(d: nat, n: nat, id: nat): (c: seq<nat>)
    requires d > 0
    ensures IsCell(d, n, c)
  {
    if n == 0 then [] else Decode(d, n - 1, id / d) + [id % d]
  }

  // ---------------------------------------------------------------------------
  // Arithmetic helpers

  lemma MulLe(a: nat, b: nat, c: nat)
    requires a <= b
    ensures a * c <= b * c
  {
  }

  lemma Distrib(x: nat, y: nat, c: nat)
    ensures (x + y) * c == x * c + y * c
  {
  }

  lemma Assoc(a: nat, p: nat, c: nat)
    ensures (a * p) * c == a * (c * p)
  {
  }

  lemma DivMod(q: nat, r: nat, d: nat)
    requires r < d
    ensures (q * d + r) / d == q && (q * d + r) % d == r
  {
    var x := q * d + r;
    var q2, r2 := x / d, x % d;
    assert x == q2 * d + r2;
    if q2 > q {
      MulLe(q + 1, q2, d);
      Distrib(q, 1, d);
    } else if q2 < q {
      MulLe(q2 + 1, q, d);
      Distrib(q2, 1, d);
    }
  }

  lemma DivBelow(x: nat, d: nat, p: nat)
    requires d > 0 && x < d * p
    ensures x / d < p
  {
    assert x == (x / d) * d + x % d;
    if x / d >= p {
      MulLe(p, x / d, d);
    }
  }

  // ---------------------------------------------------------------------------
  // Encoding and decoding

  /** The id of a cell lies in [0, d^n). */
  lemma {:induction false} EncodeBelow(d: nat, n: nat, c: seq<nat>)
    requires IsCell(d, n, c)
    ensures Encode(d, c) < Pow(d, n)
  {
    if n > 0 {
      var c' := c[..n - 1];
      assert IsCell(d, n - 1, c');
      EncodeBelow(d, n - 1, c');
      var e, p := Encode(d, c'), Pow(d, n - 1);
      MulLe(e + 1, p, d);
      Distrib(e, 1, d);
      assert Encode(d, c) == e * d + c[n - 1];
      assert Encode(d, c) < (e + 1) * d;
      assert Pow(d, n) == p * d;
    }
  }

  /** Decoding the id of a cell gives back the cell. */
  lemma {:induction false} DecodeEncode(d: nat, n: nat, c: seq<nat>)
    requires d > 0 && IsCell(d, n, c)
    ensures Decode(d, n, Encode(d, c)) == c
  {
    if n > 0 {
      var c' := c[..n - 1];
      assert IsCell(d, n - 1, c');
      DivMod(Encode(d, c'), c[n - 1], d);
      DecodeEncode(d, n - 1, c');
      assert c == c' + [c[n - 1]];
    }
  }

  /** Encoding the digits of an id below d^n gives back the id. */
  lemma {:induction false} EncodeDecode(d: nat, n: nat, id: nat)
    requires d > 0 && id < Pow(d, n)
    ensures Encode(d, Decode(d, n, id)) == id
  {
    if n > 0 {
      var q, r := id / d, id % d;
      DivBelow(id, d, Pow(d, n - 1));
      EncodeDecode(d, n - 1, q);
      DecodeSnoc(d, n, id);
      EncodeSnocOf(d, Decode(d, n - 1, q), q, r);
      DivModId(id, d);
    }
  }

  lemma DecodeSnoc(d: nat, n: nat, id: nat)
    requires d > 0 && n > 0
    ensures Decode(d, n, id) == Decode(d, n - 1, id / d) + [id % d]
  {
  }

  lemma EncodeSnocOf(d: nat, c: seq<nat>, q: nat, r: nat)
    requires Encode(d, c) == q
    ensures Encode(d, c + [r]) == q * d + r
  {
    EncodeSnoc(d, c, r);
  }

  lemma DivModId(x: nat, d: nat)
    requires d > 0
    ensures x == (x / d) * d + x % d
  {
  }

  /** Putting a digit in front adds it with weight d^|t|. */
  lemma {:induction false} EncodeCons(d: nat, a: nat, t: seq<nat>)
    ensures Encode(d, [a] + t) == a * Pow(d, |t|) + Encode(d, t)
  {
    if t != [] {
      var t' := t[..|t| - 1];
      assert ([a] + t)[..|t|] == [a] + t';
      EncodeCons(d, a, t');
      Distrib(a * Pow(d, |t'|), Encode(d, t'), d);
      Assoc(a, Pow(d, |t'|), d);
      assert Encode(d, [a] + t) == Encode(d, [a] + t') * d + t[|t| - 1];
      assert Encode(d, t) == Encode(d, t') * d + t[|t| - 1];
    }
  }

  // ---------------------------------------------------------------------------
  // buildGrids (graph/graph.cpp:89-106)

  /**
   * The cells that the recursion appends once `prefix` holds the blocks of the
   * first dimensions and `rest` dimensions remain: block 0 first, depth first.
   */
  function Subtree(d: nat, prefix: seq<nat>, rest: nat): seq<seq<nat>>
    decreases rest, 1, 0
  {
    if rest == 0 then [prefix] else Fan(d, prefix, rest, d)
  }

  /** The cells appended by the first i iterations of the block loop. */
  function Fan(d: nat, prefix: seq<nat>, rest: nat, i: nat): seq<seq<nat>>
    requires rest > 0
    decreases rest, 0, i
  {
    if i == 0 then [] else Fan(d, prefix, rest, i - 1) + Subtree(d, prefix + [i - 1], rest - 1)
  }

  /** c is prefix followed by the rest digits of a cell whose own id is j. */
  predicate Extends(d: nat, prefix: seq<nat>, rest: nat, c: seq<nat>, j: nat)
  {
    |c| == |prefix| + rest && c[..|prefix|] == prefix
    && IsCell(d, rest, c[|prefix|..]) && Encode(d, c[|prefix|..]) == j
  }

  /** Below a prefix there are d^rest cells and the one at position j has suffix id j. */
  lemma {:induction false} SubtreeShape(d: nat, prefix: seq<nat>, rest: nat)
    ensures |Subtree(d, prefix, rest)| == Pow(d, rest)
    ensures forall j :: 0 <= j < Pow(d, rest) ==> Extends(d, prefix, rest, Subtree(d, prefix, rest)[j], j)
    decreases rest, 1, 0
  {
    if rest == 0 {
      assert Subtree(d, prefix, rest)[0][|prefix|..] == [];
    } else {
      FanShape(d, prefix, rest, d);
    }
  }

  lemma {:induction false} FanShape(d: nat, prefix: seq<nat>, rest: nat, i: nat)
    requires 0 < rest && i <= d
    ensures |Fan(d, prefix, rest, i)| == i * Pow(d, rest - 1)
    ensures forall j :: 0 <= j < i * Pow(d, rest - 1) ==> Extends(d, prefix, rest, Fan(d, prefix, rest, i)[j], j)
    decreases rest, 0, i
  {
    if i > 0 {
      var p := Pow(d, rest - 1);
      var q := i - 1;
      FanShape(d, prefix, rest, q);
      SubtreeShape(d, prefix + [q], rest - 1);
      var left := Fan(d, prefix, rest, q);
      var right := Subtree(d, prefix + [q], rest - 1);
      assert Fan(d, prefix, rest, i) == left + right;
      assert i * p == q * p + p;
      forall j | 0 <= j < i * p
        ensures Extends(d, prefix, rest, Fan(d, prefix, rest, i)[j], j)
      {
        if j >= q * p {
          var s := j - q * p;
          var c := right[s];
          assert Fan(d, prefix, rest, i)[j] == c;
          assert Extends(d, prefix + [q], rest - 1, c, s);
          var t := c[|prefix| + 1..];
          assert c[..|prefix| + 1] == prefix + [q];
          assert c[..|prefix|] == prefix;
          assert c[|prefix|..] == [q] + t;
          EncodeCons(d, q, t);
        }
      }
    }
  }

  /**
   * buildGrids, with the shared accumulator curInt and the output grids passed
   * in and returned: appends every cell below curInt and restores curInt.
   */
  method BuildGridsFrom(xcnt: nat, d: nat, curDim: nat, curInt: seq<nat>, grids: seq<seq<nat>>)
    returns (curInt': seq<nat>, grids': seq<seq<nat>>)
    requires curDim <= xcnt && |curInt| == curDim
    ensures curInt' == curInt
    ensures grids' == grids + Subtree(d, curInt, xcnt - curDim)
    decreases xcnt - curDim
  {
    if curDim == xcnt {
      return curInt, grids + [curInt];
    }
    curInt', grids' := curInt, grids;
    for i: nat := 0 to d
      invariant curInt' == curInt
      invariant grids' == grids + Fan(d, curInt, xcnt - curDim, i)
    {
      curInt' := curInt' + [i];
      curInt', grids' := BuildGridsFrom(xcnt, d, curDim + 1, curInt', grids');
      curInt' := curInt'[..|curInt'| - 1];
    }
  }

  /**
   * buildGrids(): d^xcnt cells, the cell at position id being the digits of id
   * in base d, most significant first.
   */
  method BuildGrids(xcnt: nat, d: nat) returns (grids: seq<seq<nat>>)
    ensures |grids| == Pow(d, xcnt)
    ensures forall id :: 0 <= id < |grids| ==> IsCell(d, xcnt, grids[id]) && Encode(d, grids[id]) == id
    ensures d > 0 ==> forall id :: 0 <= id < |grids| ==> grids[id] == Decode(d, xcnt, id)
  {
    var curInt: seq<nat> := [];
    grids := [];
    curInt, grids := BuildGridsFrom(xcnt, d, 0, curInt, grids);
    SubtreeShape(d, [], xcnt);
    forall id | 0 <= id < |grids|
      ensures IsCell(d, xcnt, grids[id]) && Encode(d, grids[id]) == id
      ensures d > 0 ==> grids[id] == Decode(d, xcnt, id)
    {
      assert Extends(d, [], xcnt, grids[id], id);
      assert grids[id][0..] == grids[id];
      if d > 0 {
        DecodeEncode(d, xcnt, grids[id]);
      }
    }
  }

  // ---------------------------------------------------------------------------
  // getIntersectGridsId (graph/graph.cpp:108-122)
  //
  // ov(dim, i) stands for the floating-point test of line 117 read positively:
  // block i of dimension dim meets the region in an interval of width at least eps.

  /** The ids that getIntersectGridsId(curDim, curId, ...) appends, in order. */
  function Intersecting(d: nat, ov: (nat, nat) -> bool, curDim: nat, curId: nat, rest: nat): seq<nat>
    decreases rest, 1, 0
  {
    if rest == 0 then [curId] else IntersectingFan(d, ov, curDim, curId, rest, d)
  }

  /** The ids appended by the first i iterations of the block loop. */
  function IntersectingFan(d: nat, ov: (nat, nat) -> bool, curDim: nat, curId: nat, rest: nat, i: nat): seq<nat>
    requires rest > 0
    decreases rest, 0, i
  {
    if i == 0 then []
    else
      IntersectingFan(d, ov, curDim, curId, rest, i - 1)
      + (if ov(curDim, i - 1) then Intersecting(d, ov, curDim + 1, curId * d + (i - 1), rest - 1) else [])
  }

  /**
   * getIntersectGridsId: the recursion threads curId = curId * d + i and
   * appends the ids of the cells whose blocks all overlap the region.
   */
  method GetIntersectGridsId(xcnt: nat, d: nat, curDim: nat, curId: nat, ov: (nat, nat) -> bool, gridsId: seq<nat>)
    returns (gridsId': seq<nat>)
    requires curDim <= xcnt
    ensures gridsId' == gridsId + Intersecting(d, ov, curDim, curId, xcnt - curDim)
    decreases xcnt - curDim
  {
    if curDim == xcnt {
      return gridsId + [curId];
    }
    gridsId' := gridsId;
    for i: nat := 0 to d
      invariant gridsId' == gridsId + IntersectingFan(d, ov, curDim, curId, xcnt - curDim, i)
    {
      if !ov(curDim, i) {
        continue;
      }
      gridsId' := GetIntersectGridsId(xcnt, d, curDim + 1, curId * d + i, ov, gridsId');
    }
  }

  /** Every block of c from dimension `from` on overlaps the region. */
  predicate OverlapsFrom(ov: (nat, nat) -> bool, c: seq<nat>, from: nat)
  {
    forall j :: from <= j < |c| ==> ov(j, c[j])
  }

  /** The cells of a list that overlap from dimension `from` on, in order. */
  function Keep(ov: (nat, nat) -> bool, cells: seq<seq<nat>>, from: nat): seq<seq<nat>>
  {
    if cells == [] then []
    else Keep(ov, cells[..|cells| - 1], from)
         + (if OverlapsFrom(ov, cells[|cells| - 1], from) then [cells[|cells| - 1]] else [])
  }

  /** The ids of a list of cells. */
  function Ids(d: nat, cells: seq<seq<nat>>): seq<nat>
  {
    if cells == [] then [] else Ids(d, cells[..|cells| - 1]) + [Encode(d, cells[|cells| - 1])]
  }

  lemma {:induction false} KeepAppend(ov: (nat, nat) -> bool, a: seq<seq<nat>>, b: seq<seq<nat>>, from: nat)
    ensures Keep(ov, a + b, from) == Keep(ov, a, from) + Keep(ov, b, from)
    decreases |b|
  {
    if b != [] {
      var b' := b[..|b| - 1];
      assert (a + b)[..|a + b| - 1] == a + b';
      KeepAppend(ov, a, b', from);
    } else {
      assert a + b == a;
    }
  }

  lemma {:induction false} IdsAppend(d: nat, a: seq<seq<nat>>, b: seq<seq<nat>>)
    ensures Ids(d, a + b) == Ids(d, a) + Ids(d, b)
    decreases |b|
  {
    if b != [] {
      var b' := b[..|b| - 1];
      assert (a + b)[..|a + b| - 1] == a + b';
      IdsAppend(d, a, b');
    } else {
      assert a + b == a;
    }
  }

  /** Keep gives the same list for two start dimensions on which the lists' cells agree. */
  lemma {:induction false} KeepCongruent(ov: (nat, nat) -> bool, cells: seq<seq<nat>>, f: nat, g: nat)
    requires forall i :: 0 <= i < |cells| ==> (OverlapsFrom(ov, cells[i], f) <==> OverlapsFrom(ov, cells[i], g))
    ensures Keep(ov, cells, f) == Keep(ov, cells, g)
  {
    if cells != [] {
      KeepCongruent(ov, cells[..|cells| - 1], f, g);
    }
  }

  /** Keep drops every cell when none of them overlaps. */
  lemma {:induction false} KeepNone(ov: (nat, nat) -> bool, cells: seq<seq<nat>>, f: nat)
    requires forall i :: 0 <= i < |cells| ==> !OverlapsFrom(ov, cells[i], f)
    ensures Keep(ov, cells, f) == []
  {
    if cells != [] {
      KeepNone(ov, cells[..|cells| - 1], f);
    }
  }

  /**
   * The pruned recursion of getIntersectGridsId yields exactly the ids of the
   * cells of the full enumeration (the one buildGrids performs) that overlap
   * in every remaining dimension.
   */
  lemma {:induction false} IntersectingIsKept(d: nat, ov: (nat, nat) -> bool, prefix: seq<nat>, rest: nat)
    ensures Intersecting(d, ov, |prefix|, Encode(d, prefix), rest) == Ids(d, Keep(ov, Subtree(d, prefix, rest), |prefix|))
    decreases rest, 1, 0
  {
    if rest == 0 {
      assert OverlapsFrom(ov, prefix, |prefix|);
    } else {
      IntersectingFanIsKept(d, ov, prefix, rest, d);
    }
  }

  lemma {:induction false} IntersectingFanIsKept(d: nat, ov: (nat, nat) -> bool, prefix: seq<nat>, rest: nat, i: nat)
    requires 0 < rest && i <= d
    ensures IntersectingFan(d, ov, |prefix|, Encode(d, prefix), rest, i) == Ids(d, Keep(ov, Fan(d, prefix, rest, i), |prefix|))
    decreases rest, 0, i
  {
    if i > 0 {
      var q := i - 1;
      var dim := |prefix|;
      var sub := Subtree(d, prefix + [q], rest - 1);
      var id := Encode(d, prefix);
      var branch := if ov(dim, q) then Intersecting(d, ov, dim + 1, id * d + q, rest - 1) else [];
      assert IntersectingFan(d, ov, dim, id, rest, i) == IntersectingFan(d, ov, dim, id, rest, q) + branch;
      assert Fan(d, prefix, rest, i) == Fan(d, prefix, rest, q) + sub;
      IntersectingFanIsKept(d, ov, prefix, rest, q);
      BranchIsKept(d, ov, prefix, rest, q);
      KeepAppend(ov, Fan(d, prefix, rest, q), sub, dim);
      IdsAppend(d, Keep(ov, Fan(d, prefix, rest, q), dim), Keep(ov, sub, dim));
    }
  }

  /** One iteration of the block loop: block q is either pruned or fully explored. */
  lemma {:induction false} BranchIsKept(d: nat, ov: (nat, nat) -> bool, prefix: seq<nat>, rest: nat, q: nat)
    requires 0 < rest
    ensures (if ov(|prefix|, q) then Intersecting(d, ov, |prefix| + 1, Encode(d, prefix) * d + q, rest - 1) else [])
            == Ids(d, Keep(ov, Subtree(d, prefix + [q], rest - 1), |prefix|))
    decreases rest, 0, 0
  {
    var dim := |prefix|;
    if ov(dim, q) {
      var p' := prefix + [q];
      var sub := Subtree(d, p', rest - 1);
      EncodeSnoc(d, prefix, q);
      IntersectingIsKept(d, ov, p', rest - 1);
      OverlapCongruent(d, ov, prefix, q, rest - 1);
      KeepCongruent(ov, sub, dim, dim + 1);
    } else {
      BranchPruned(d, ov, prefix, rest - 1, q);
    }
  }

  /** Appending a digit: id * d + digit, the step of getIntersectGridsId's recursion. */
  lemma EncodeSnoc(d: nat, prefix: seq<nat>, q: nat)
    ensures Encode(d, prefix + [q]) == Encode(d, prefix) * d + q
  {
    var p' := prefix + [q];
    assert p'[..|p'| - 1] == prefix;
  }

  /** Below prefix + [q] with block q overlapping, overlap from |prefix| and from |prefix| + 1 agree. */
  lemma OverlapCongruent(d: nat, ov: (nat, nat) -> bool, prefix: seq<nat>, q: nat, rest: nat)
    requires ov(|prefix|, q)
    ensures forall i :: 0 <= i < |Subtree(d, prefix + [q], rest)| ==>
              (OverlapsFrom(ov, Subtree(d, prefix + [q], rest)[i], |prefix|)
               <==> OverlapsFrom(ov, Subtree(d, prefix + [q], rest)[i], |prefix| + 1))
  {
    SubtreeDigit(d, prefix, q, rest);
  }

  /** A block that does not overlap contributes nothing: nothing below it is kept. */
  lemma BranchPruned(d: nat, ov: (nat, nat) -> bool, prefix: seq<nat>, rest: nat, q: nat)
    requires !ov(|prefix|, q)
    ensures Keep(ov, Subtree(d, prefix + [q], rest), |prefix|) == []
  {
    SubtreeDigit(d, prefix, q, rest);
    KeepNone(ov, Subtree(d, prefix + [q], rest), |prefix|);
  }

  /** Every cell below prefix + [q] has block q in dimension |prefix|. */
  lemma SubtreeDigit(d: nat, prefix: seq<nat>, q: nat, rest: nat)
    ensures forall t :: 0 <= t < |Subtree(d, prefix + [q], rest)| ==>
              |Subtree(d, prefix + [q], rest)[t]| == |prefix| + 1 + rest && Subtree(d, prefix + [q], rest)[t][|prefix|] == q
  {
    var p' := prefix + [q];
    var sub := Subtree(d, p', rest);
    SubtreeShape(d, p', rest);
    forall t | 0 <= t < |sub|
      ensures |sub[t]| == |prefix| + 1 + rest && sub[t][|prefix|] == q
    {
      assert Extends(d, p', rest, sub[t], t);
      assert sub[t][..|p'|] == p';
      assert sub[t][|prefix|] == sub[t][..|p'|][|prefix|];
    }
  }

  /** The ids below h that satisfy keep, in ascending order. */
  function Hits(keep: nat -> bool, h: nat): seq<nat>
  {
    if h == 0 then [] else Hits(keep, h - 1) + Hit(keep, h - 1)
  }

  /** What id contributes to Hits: itself when it satisfies keep, else nothing. */
  function Hit(keep: nat -> bool, id: nat): seq<nat>
  {
    if keep(id) then [id] else []
  }

  lemma {:induction false} HitsSpec(keep: nat -> bool, h: nat)
    ensures Increasing(Hits(keep, h)) && AllBelow(Hits(keep, h), h)
    ensures forall id: nat :: id in Hits(keep, h) <==> id < h && keep(id)
  {
    if h > 0 {
      HitsSpec(keep, h - 1);
      var r := Hits(keep, h - 1);
      assert AllBelow(r, h);
      if keep(h - 1) {
        IncreasingSnoc(r, h - 1);
      }
    }
  }

  /**
   * Filtering a list of cells whose j-th cell contributes exactly Hit(j)
   * gives Hits over the list's length.
   */
  lemma {:induction false} KeptIsHits(d: nat, ov: (nat, nat) -> bool, keep: nat -> bool, cells: seq<seq<nat>>)
    requires forall j {:trigger Hit(keep, j)} :: 0 <= j < |cells| ==> Ids(d, Keep(ov, [cells[j]], 0)) == Hit(keep, j)
    ensures Ids(d, Keep(ov, cells, 0)) == Hits(keep, |cells|)
  {
    if cells != [] {
      var h := |cells|;
      KeptFront(d, ov, keep, cells);
      KeptIsHits(d, ov, keep, cells[..h - 1]);
      KeptStep(d, ov, keep, cells);
    }
  }

  /** What KeptIsHits demands of a list holds of the list without its last cell. */
  lemma KeptFront(d: nat, ov: (nat, nat) -> bool, keep: nat -> bool, cells: seq<seq<nat>>)
    requires cells != []
    requires forall j {:trigger Hit(keep, j)} :: 0 <= j < |cells| ==> Ids(d, Keep(ov, [cells[j]], 0)) == Hit(keep, j)
    ensures forall j {:trigger Hit(keep, j)} :: 0 <= j < |cells| - 1 ==> Ids(d, Keep(ov, [cells[..|cells| - 1][j]], 0)) == Hit(keep, j)
  {
    forall j | 0 <= j < |cells| - 1
      ensures Ids(d, Keep(ov, [cells[..|cells| - 1][j]], 0)) == Hit(keep, j)
    {
      assert cells[..|cells| - 1][j] == cells[j];
    }
  }

  /** The inductive step of KeptIsHits: the last cell adds Hit of its position. */
  lemma KeptStep(d: nat, ov: (nat, nat) -> bool, keep: nat -> bool, cells: seq<seq<nat>>)
    requires cells != []
    requires Ids(d, Keep(ov, cells[..|cells| - 1], 0)) == Hits(keep, |cells| - 1)
    requires Ids(d, Keep(ov, [cells[|cells| - 1]], 0)) == Hit(keep, |cells| - 1)
    ensures Ids(d, Keep(ov, cells, 0)) == Hits(keep, |cells|)
  {
    KeepSnoc(ov, cells);
    IdsAppend(d, Keep(ov, cells[..|cells| - 1], 0), Keep(ov, [cells[|cells| - 1]], 0));
  }

  /** Filtering a non-empty list: the filtered front, then the last cell filtered on its own. */
  lemma KeepSnoc(ov: (nat, nat) -> bool, cells: seq<seq<nat>>)
    requires cells != []
    ensures Keep(ov, cells, 0) == Keep(ov, cells[..|cells| - 1], 0) + Keep(ov, [cells[|cells| - 1]], 0)
  {
    var c := cells[|cells| - 1];
    assert [c][..0] == cells[..0];
  }

  /** Filtering the whole enumeration of buildGrids keeps the ids whose digits all overlap. */
  lemma EnumerationHits(d: nat, ov: (nat, nat) -> bool, n: nat, keep: nat -> bool)
    requires d > 0
    requires forall id: nat :: keep(id) <==> OverlapsFrom(ov, Decode(d, n, id), 0)
    ensures Ids(d, Keep(ov, Subtree(d, [], n), 0)) == Hits(keep, Pow(d, n))
  {
    var all := Subtree(d, [], n);
    SubtreeShape(d, [], n);
    forall j | 0 <= j < |all|
      ensures Ids(d, Keep(ov, [all[j]], 0)) == Hit(keep, j)
    {
      KeptCell(d, n, ov, j);
    }
    KeptIsHits(d, ov, keep, all);
  }

  /** Cell number id of the enumeration is kept iff it overlaps, and then contributes id. */
  lemma KeptCell(d: nat, n: nat, ov: (nat, nat) -> bool, id: nat)
    requires d > 0 && id < Pow(d, n)
    ensures |Subtree(d, [], n)| == Pow(d, n)
    ensures Ids(d, Keep(ov, [Subtree(d, [], n)[id]], 0)) == if OverlapsFrom(ov, Decode(d, n, id), 0) then [id] else []
  {
    SubtreeShape(d, [], n);
    var c := Subtree(d, [], n)[id];
    assert Extends(d, [], n, c, id);
    assert c[0..] == c;
    DecodeEncode(d, n, c);
    assert [c][..0] == [];
  }

  /**
   * getIntersectGridsId(0, 0, region, gridsId) appends exactly the ids in
   * [0, d^xcnt) all of whose base-d digits overlap the region, strictly ascending.
   */
  lemma IntersectingIds(d: nat, ov: (nat, nat) -> bool, xcnt: nat)
    ensures Increasing(Intersecting(d, ov, 0, 0, xcnt))
    ensures AllBelow(Intersecting(d, ov, 0, 0, xcnt), Pow(d, xcnt))
    ensures d > 0 ==> forall id: nat :: id in Intersecting(d, ov, 0, 0, xcnt)
                        <==> id < Pow(d, xcnt) && OverlapsFrom(ov, Decode(d, xcnt, id), 0)
  {
    var r := Intersecting(d, ov, 0, 0, xcnt);
    if d == 0 {
      if xcnt > 0 {
        assert r == IntersectingFan(d, ov, 0, 0, xcnt, 0) == [];
      } else {
        assert r == [0];
      }
    } else {
      IntersectingIsKept(d, ov, [], xcnt);
      var keep := (id: nat) => OverlapsFrom(ov, Decode(d, xcnt, id), 0);
      EnumerationHits(d, ov, xcnt, keep);
      HitsSpec(keep, Pow(d, xcnt));
    }
  }
}
