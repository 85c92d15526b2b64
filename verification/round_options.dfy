/**
  * `buildRoundOptions` (lib/game.ts:56-79): samples distinct correct and wrong
  * answers of a canonical question into the option layout a round is played on.
  */
module RoundOptions {
  import opened Wrappers
  import opened Seqs
  import opened Shuffle
  import opened Content

  /** The layout of one round: the options shown and the positions of the correct ones. */
  datatype RoundLayout = RoundLayout(options: seq<string>, correctIndices: seq<int>)

  /** The source's defaults for `minCorrect` and `minWrong`. */
  const DefaultMinCorrect: nat := 5
  const DefaultMinWrong: nat := 5

  /** The distinct correct answers, first occurrence first. */
  function UniqueCorrect(q: Question): seq<string> {
    Dedup(q.correctAnswers)
  }

  /** The distinct wrong answers that are not also correct answers. */
  function UniqueWrong(q: Question): seq<string> {
    var uc := UniqueCorrect(q);
    Dedup(Filter(q.wrongAnswers, a => a !in uc))
  }

  /** The positions of `s` holding a member of `marks`, increasing. */
  function IndicesIn(s: seq<string>, marks: set<string>): (r: seq<int>)
    ensures |r| <= |s|
    decreases |s|
  {
    if |s| == 0 then []
    else IndicesIn(s[..|s| - 1], marks) + (if s[|s| - 1] in marks then [|s| - 1] else [])
  }

  /** The marked positions are in range and increasing. */
  lemma {:induction false} IndicesInSorted(s: seq<string>, marks: set<string>)
    ensures forall k :: 0 <= k < |IndicesIn(s, marks)| ==> 0 <= IndicesIn(s, marks)[k] < |s|
    ensures forall k, l :: 0 <= k < l < |IndicesIn(s, marks)| ==> IndicesIn(s, marks)[k] < IndicesIn(s, marks)[l]
    decreases |s|
  {
    if |s| > 0 {
      var init := s[..|s| - 1];
      IndicesInSorted(init, marks);
      var p, r := IndicesIn(init, marks), IndicesIn(s, marks);
      assert forall k :: 0 <= k < |p| ==> r[k] == p[k] && p[k] < |s| - 1;
      assert |r| == |p| || (|r| == |p| + 1 && r[|p|] == |s| - 1);
    }
  }

  /** A position is marked exactly when it holds a member of `marks`. */
  lemma {:induction false} IndicesInMembers(s: seq<string>, marks: set<string>)
    ensures forall i :: 0 <= i < |s| ==> (i in IndicesIn(s, marks) <==> s[i] in marks)
    decreases |s|
  {
    if |s| > 0 {
      var init := s[..|s| - 1];
      IndicesInMembers(init, marks);
      IndicesInSorted(init, marks);
      var p := IndicesIn(init, marks);
      assert forall k :: 0 <= k < |p| ==> p[k] < |s| - 1;
      assert |s| - 1 !in p;
      assert forall i :: 0 <= i < |init| ==> init[i] == s[i];
    }
  }

  /** Appending an element not yet present adds one marked position exactly when it is marked. */
  lemma IndicesInSnoc(init: seq<string>, x: string, marks: set<string>)
    requires x !in init
    ensures |IndicesIn(init + [x], marks)| == |IndicesIn(init, marks)| + (if x in marks then 1 else 0)
    ensures Elems(init + [x]) * marks == (Elems(init) * marks) + (if x in marks then {x} else {})
    ensures x !in Elems(init) * marks
  {
    assert (init + [x])[..|init|] == init;
    assert Elems(init + [x]) == Elems(init) + {x};
  }

  /** In a duplicate-free sequence, the marked positions are as many as the marked elements. */
  lemma {:induction false} IndicesInCount(s: seq<string>, marks: set<string>)
    requires NoDup(s)
    ensures |IndicesIn(s, marks)| == |Elems(s) * marks|
    decreases |s|
  {
    if |s| == 0 {
      assert Elems(s) == {};
    } else {
      var init, x := s[..|s| - 1], s[|s| - 1];
      assert s == init + [x];
      IndicesInCount(init, marks);
      IndicesInSnoc(init, x, marks);
    }
  }

  /** What a layout built for `q` promises. */
  predicate ValidLayout(q: Question, minCorrect: nat, minWrong: nat, l: RoundLayout) {
    && |l.options| == minCorrect + minWrong
    && NoDup(l.options)
    && |l.correctIndices| == minCorrect
    && (forall k :: 0 <= k < |l.correctIndices| ==> 0 <= l.correctIndices[k] < |l.options|)
    && (forall k, m :: 0 <= k < m < |l.correctIndices| ==> l.correctIndices[k] < l.correctIndices[m])
    && (forall i :: 0 <= i < |l.options| ==> (i in l.correctIndices <==> l.options[i] in q.correctAnswers))
    && (forall i :: 0 <= i < |l.options| ==> l.options[i] in q.correctAnswers || l.options[i] in q.wrongAnswers)
  }

  /** Enough distinct correct answers, and enough distinct wrong answers that are not also correct. */
  predicate HasEnoughAnswers(q: Question, minCorrect: nat, minWrong: nat) {
    && |Elems(q.correctAnswers)| >= minCorrect
    && |Elems(q.wrongAnswers) - Elems(q.correctAnswers)| >= minWrong
  }

  lemma UniqueCounts(q: Question)
    ensures |UniqueCorrect(q)| == |Elems(q.correctAnswers)|
    ensures Elems(UniqueWrong(q)) == Elems(q.wrongAnswers) - Elems(q.correctAnswers)
    ensures |UniqueWrong(q)| == |Elems(q.wrongAnswers) - Elems(q.correctAnswers)|
  {
    var uc := UniqueCorrect(q);
    DedupLength(q.correctAnswers);
    var p := a => a !in uc;
    var wf := Filter(q.wrongAnswers, p);
    forall x
      ensures x in Elems(wf) <==> x in Elems(q.wrongAnswers) - Elems(q.correctAnswers)
    {
      FilterMembership(q.wrongAnswers, p, x);
      assert x in uc <==> x in Elems(uc);
    }
    assert Elems(wf) == Elems(q.wrongAnswers) - Elems(q.correctAnswers);
    DedupLength(wf);
  }

  /** Two samples fit for a layout: distinct, correct resp. wrong-only, of the requested sizes. */
  predicate SamplesFit(q: Question, minCorrect: nat, minWrong: nat, cs: seq<string>, ws: seq<string>) {
    && |cs| == minCorrect && |ws| == minWrong
    && NoDup(cs) && NoDup(ws)
    && Elems(cs) <= Elems(q.correctAnswers)
    && Elems(ws) <= Elems(q.wrongAnswers) - Elems(q.correctAnswers)
  }

  /** The deduplicated lists are no longer than the answer lists the roll tables are sized for. */
  lemma UniqueBounds(q: Question)
    ensures |UniqueCorrect(q)| <= |q.correctAnswers|
    ensures |UniqueWrong(q)| <= |q.wrongAnswers|
  {
    UniqueCounts(q);
    SeqElemsBound(q.correctAnswers);
    SeqElemsBound(q.wrongAnswers);
    SubsetCard(Elems(q.wrongAnswers) - Elems(q.correctAnswers), Elems(q.wrongAnswers));
  }

  /** Prefixes of the shuffled distinct lists are fit samples. */
  lemma SampleFacts(q: Question, minCorrect: nat, minWrong: nat, rollsC: seq<nat>, rollsW: seq<nat>)
    requires IsRollTable(rollsC) && IsRollTable(rollsW)
    requires |rollsC| >= |UniqueCorrect(q)| && |rollsW| >= |UniqueWrong(q)|
    requires |UniqueCorrect(q)| >= minCorrect && |UniqueWrong(q)| >= minWrong
    ensures SamplesFit(q, minCorrect, minWrong,
                       ShuffleArray(UniqueCorrect(q), rollsC)[..minCorrect],
                       ShuffleArray(UniqueWrong(q), rollsW)[..minWrong])
  {
    var uc, uw := UniqueCorrect(q), UniqueWrong(q);
    UniqueCounts(q);
    ShufflePreservesElements(uc, rollsC);
    ShufflePreservesElements(uw, rollsW);
    var su, sw := ShuffleArray(uc, rollsC), ShuffleArray(uw, rollsW);
    assert Elems(su[..minCorrect]) <= Elems(su);
    assert Elems(sw[..minWrong]) <= Elems(sw);
  }

  /** Shuffling fit samples together and marking the correct ones gives a valid layout. */
  lemma CombineFacts(q: Question, minCorrect: nat, minWrong: nat, cs: seq<string>, ws: seq<string>, rollsM: seq<nat>)
    requires SamplesFit(q, minCorrect, minWrong, cs, ws)
    requires IsRollTable(rollsM) && |rollsM| >= minCorrect + minWrong
    ensures var combined := ShuffleArray(cs + ws, rollsM);
      ValidLayout(q, minCorrect, minWrong, RoundLayout(combined, IndicesIn(combined, Elems(cs))))
  {
    NoDupAppend(cs, ws);
    var combined := ShuffleArray(cs + ws, rollsM);
    ShufflePreservesElements(cs + ws, rollsM);
    assert Elems(cs + ws) == Elems(cs) + Elems(ws);
    var idx := IndicesIn(combined, Elems(cs));
    IndicesInCount(combined, Elems(cs));
    IndicesInSorted(combined, Elems(cs));
    IndicesInMembers(combined, Elems(cs));
    assert Elems(combined) * Elems(cs) == Elems(cs);
    NoDupCard(cs);
    forall i | 0 <= i < |combined|
      ensures (i in idx <==> combined[i] in q.correctAnswers)
      ensures combined[i] in q.correctAnswers || combined[i] in q.wrongAnswers
    {
      assert combined[i] in Elems(combined);
    }
  }

  /** A sequence has at least as many positions as distinct elements. */
  lemma {:induction false} SeqElemsBound<T>(s: seq<T>)
    ensures |Elems(s)| <= |s|
    decreases |s|
  {
    if |s| > 0 {
      var init := s[..|s| - 1];
      SeqElemsBound(init);
      assert s == init + [s[|s| - 1]];
      assert Elems(s) == Elems(init) + {s[|s| - 1]};
    }
  }

  lemma SubsetCard<T>(a: set<T>, b: set<T>)
    requires a <= b
    ensures |a| <= |b|
  {
    assert b == a + (b - a);
  }

  /**
    * `buildRoundOptions(question, minCorrect, minWrong)`: null when there are
    * too few distinct correct answers or too few distinct wrong answers that
    * are not also correct; otherwise `minCorrect` sampled correct and
    * `minWrong` sampled wrong answers, shuffled together, with the positions
    * of the correct ones. `rollsC`, `rollsW` and `rollsM` drive the three
    * shuffles.
    */
  function BuildRoundOptions(q: Question, minCorrect: nat, minWrong: nat,
                             rollsC: seq<nat>, rollsW: seq<nat>, rollsM: seq<nat>): (r: Option<RoundLayout>)
    requires IsRollTable(rollsC) && IsRollTable(rollsW) && IsRollTable(rollsM)
    requires |rollsC| >= |q.correctAnswers| && |rollsW| >= |q.wrongAnswers| && |rollsM| >= minCorrect + minWrong
    ensures r.None? <==> !HasEnoughAnswers(q, minCorrect, minWrong)
    ensures r.Some? ==> ValidLayout(q, minCorrect, minWrong, r.value)
  {
    var uc := UniqueCorrect(q);
    var uw := UniqueWrong(q);
    UniqueCounts(q);
    UniqueBounds(q);
    if |uc| < minCorrect || |uw| < minWrong then None
    else
      SampleFacts(q, minCorrect, minWrong, rollsC, rollsW);
      var cs := ShuffleArray(uc, rollsC)[..minCorrect];
      var ws := ShuffleArray(uw, rollsW)[..minWrong];
      CombineFacts(q, minCorrect, minWrong, cs, ws, rollsM);
      var combined := ShuffleArray(cs + ws, rollsM);
      Some(RoundLayout(combined, IndicesIn(combined, Elems(cs))))
  }

  /** With the source's default arguments: ten options, five of them correct. */
  lemma DefaultRoundLayout(q: Question, rollsC: seq<nat>, rollsW: seq<nat>, rollsM: seq<nat>)
    requires IsRollTable(rollsC) && IsRollTable(rollsW) && IsRollTable(rollsM)
    requires |rollsC| >= |q.correctAnswers| && |rollsW| >= |q.wrongAnswers| && |rollsM| >= DefaultMinCorrect + DefaultMinWrong
    ensures BuildRoundOptions(q, DefaultMinCorrect, DefaultMinWrong, rollsC, rollsW, rollsM).Some? <==>
      |Elems(q.correctAnswers)| >= 5 && |Elems(q.wrongAnswers) - Elems(q.correctAnswers)| >= 5
    ensures BuildRoundOptions(q, DefaultMinCorrect, DefaultMinWrong, rollsC, rollsW, rollsM).Some? ==>
      && |BuildRoundOptions(q, DefaultMinCorrect, DefaultMinWrong, rollsC, rollsW, rollsM).value.options| == 10
      && |BuildRoundOptions(q, DefaultMinCorrect, DefaultMinWrong, rollsC, rollsW, rollsM).value.correctIndices| == 5
  {
  }
}
