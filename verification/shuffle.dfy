/**
  * The Fisher-Yates shuffle of lib/game.ts:47-54. `Math.random` is replaced by
  * a roll table: entry `i` is the index `j` the source draws as
  * `Math.floor(Math.random() * (i + 1))` when it processes position `i`.
  */
module Shuffle {
  import opened Seqs

  /** Every entry is a legal draw for its position: 0 <= rolls[i] <= i. */
  predicate IsRollTable(rolls: seq<nat>) {
    forall i :: 0 <= i < |rolls| ==> rolls[i] <= i
  }

  /**
    * The sequence once positions `|s| - 1` down to `i + 1` have been
    * processed: each step swaps position `k` with the drawn `rolls[k]`.
    */
  function ShuffleDown<T>(s: seq<T>, rolls: seq<nat>, i: nat): (r: seq<T>)
    requires IsRollTable(rolls) && |rolls| >= |s|
    requires i < |s|
    ensures |r| == |s|
    ensures multiset(r) == multiset(s)
    decreases |s| - i
  {
    if i == |s| - 1 then s else Swap(ShuffleDown(s, rolls, i + 1), i + 1, rolls[i + 1])
  }

  /** `shuffleArray`: a rearrangement of a copy of `s`. */
  function ShuffleArray<T>(s: seq<T>, rolls: seq<nat>): (r: seq<T>)
    requires IsRollTable(rolls) && |rolls| >= |s|
    ensures |r| == |s|
    ensures multiset(r) == multiset(s)
  {
    if |s| <= 1 then s else ShuffleDown(s, rolls, 0)
  }

  /** A shuffle keeps the set of elements, and keeps a duplicate-free sequence duplicate-free. */
  lemma ShufflePreservesElements<T>(s: seq<T>, rolls: seq<nat>)
    requires IsRollTable(rolls) && |rolls| >= |s|
    ensures Elems(ShuffleArray(s, rolls)) == Elems(s)
    ensures NoDup(s) ==> NoDup(ShuffleArray(s, rolls))
  {
    var r := ShuffleArray(s, rolls);
    assert forall x :: x in r <==> x in multiset(r);
    assert forall x :: x in s <==> x in multiset(s);
    if NoDup(s) {
      PermutationNoDup(s, r);
    }
  }

  /**
    * The imperative shuffle, swapping in a loop from the last index down to 1;
    * it computes the same rearrangement as `ShuffleArray`. Its argument is a
    * value, so the caller's sequence cannot be changed.
    */
  method ShuffleInPlace<T>(s: seq<T>, rolls: seq<nat>) returns (r: seq<T>)
    requires IsRollTable(rolls) && |rolls| >= |s|
    ensures |r| == |s|
    ensures multiset(r) == multiset(s)
    ensures r == ShuffleArray(s, rolls)
  {
    r := s;
    if |s| <= 1 {
      return;
    }
    var i := |s| - 1;
    while i > 0
      invariant 0 <= i < |s|
      invariant |r| == |s|
      invariant multiset(r) == multiset(s)
      invariant r == ShuffleDown(s, rolls, i)
      decreases i
    {
      var j := rolls[i];
      r := Swap(r, i, j);
      i := i - 1;
    }
  }
}
