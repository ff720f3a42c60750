/** Small facts about the id lists the engine builds (vectors of ints in the source). */
module Lists {

  /** Strictly ascending, hence also free of duplicates. */
  predicate Increasing(s: seq<nat>)
  {
    forall i, j :: 0 <= i < j < |s| ==> s[i] < s[j]
  }

  /** Every element is a valid index into something of size n. */
  predicate AllBelow(s: seq<nat>, n: nat)
  {
    forall i :: 0 <= i < |s| ==> s[i] < n
  }

  /** Appending a value larger than everything keeps a list ascending. */
  lemma IncreasingSnoc(s: seq<nat>, x: nat)
    requires Increasing(s)
    requires forall i :: 0 <= i < |s| ==> s[i] < x
    ensures Increasing(s + [x])
  {
  }

  /** No value occurs twice. */
  predicate Distinct(s: seq<nat>)
  {
    forall i, j :: 0 <= i < j < |s| ==> s[i] != s[j]
  }

  lemma DistinctConcat(a: seq<nat>, b: seq<nat>)
    ensures Distinct(a + b) <==>
              Distinct(a) && Distinct(b) && forall i, j :: 0 <= i < |a| && 0 <= j < |b| ==> a[i] != b[j]
  {
    var c := a + b;
    assert forall i :: 0 <= i < |a| ==> c[i] == a[i];
    assert forall j :: 0 <= j < |b| ==> c[|a| + j] == b[j];
    if Distinct(a) && Distinct(b) && forall i, j :: 0 <= i < |a| && 0 <= j < |b| ==> a[i] != b[j] {
      forall i, j | 0 <= i < j < |c|
        ensures c[i] != c[j]
      {
        if j < |a| {
        } else if i < |a| {
          assert c[j] == b[j - |a|];
        } else {
          assert c[i] == b[i - |a|] && c[j] == b[j - |a|];
        }
      }
    }
  }

  /** The values of a list, as a set. */
  function Elements(s: seq<nat>): set<nat>
  {
    set x | x in s
  }
}
