/**
  * Content normalisation and question-pool derivation (lib/game.ts, types/index.ts).
  *
  * Bundled packs may carry questions in the legacy shape (an option list plus
  * the indices of the correct options) or in the canonical shape (separate
  * lists of correct and wrong answers). The source tells them apart by the
  * presence of fields; here the two shapes are the two variants of
  * `QuestionData`.
  */
module Content {
  import opened Wrappers
  import opened Seqs

  /** A question in canonical form. */
  datatype Question = Question(id: string, text: string, correctAnswers: seq<string>, wrongAnswers: seq<string>)

  /** A question in legacy form: options, and the indices of the correct ones. */
  datatype LegacyQuestion = LegacyQuestion(id: string, text: string, options: seq<string>, correctIndices: seq<int>)

  /** A question as it appears in a bundled pack: either shape. */
  datatype QuestionData = Canonical(question: Question) | Legacy(legacy: LegacyQuestion)

  /** A catalog pack whose questions are all canonical. */
  datatype Pack = Pack(id: string, name: string, description: string, priceDisplay: string, questions: seq<Question>)

  /** A pack as bundled, before normalisation. */
  datatype PackData = PackData(id: string, name: string, description: string, priceDisplay: string, questions: seq<QuestionData>)

  /** `isLegacyQuestion`: the question carries an option list and correct indices. */
  predicate IsLegacyQuestion(q: QuestionData) {
    q.Legacy?
  }

  /**
    * The positions below `n` whose membership in `marks` equals `keep`,
    * in increasing order.
    */
  function MarkedIndices(n: nat, marks: set<int>, keep: bool): (r: seq<nat>)
    ensures |r| <= n
    decreases n
  {
    if n == 0 then []
    else MarkedIndices(n - 1, marks, keep) + (if ((n - 1) in marks) == keep then [n - 1] else [])
  }

  /** The marked positions are in range and increasing. */
  lemma {:induction false} MarkedIndicesSorted(n: nat, marks: set<int>, keep: bool)
    ensures forall k :: 0 <= k < |MarkedIndices(n, marks, keep)| ==> MarkedIndices(n, marks, keep)[k] < n
    ensures forall k, l :: 0 <= k < l < |MarkedIndices(n, marks, keep)| ==>
      MarkedIndices(n, marks, keep)[k] < MarkedIndices(n, marks, keep)[l]
    decreases n
  {
    if n > 0 {
      MarkedIndicesSorted(n - 1, marks, keep);
      var p := MarkedIndices(n - 1, marks, keep);
      var r := MarkedIndices(n, marks, keep);
      assert forall k :: 0 <= k < |p| ==> r[k] == p[k] && p[k] < n - 1;
      assert |r| == |p| || (|r| == |p| + 1 && r[|p|] == n - 1);
    }
  }

  /** The marked positions are exactly the positions below `n` whose mark is `keep`. */
  lemma {:induction false} MarkedIndicesMembers(n: nat, marks: set<int>, keep: bool)
    ensures forall i :: 0 <= i < n ==> (i in MarkedIndices(n, marks, keep) <==> (i in marks) == keep)
    decreases n
  {
    if n > 0 {
      MarkedIndicesMembers(n - 1, marks, keep);
      MarkedIndicesSorted(n - 1, marks, keep);
      var p := MarkedIndices(n - 1, marks, keep);
      assert forall k :: 0 <= k < |p| ==> p[k] < n - 1;
      assert n - 1 !in p;
    }
  }

  /** The marked positions are in range, increasing, and exactly the positions whose mark is `keep`. */
  lemma MarkedIndicesSpec(n: nat, marks: set<int>, keep: bool)
    ensures var r := MarkedIndices(n, marks, keep);
      && (forall k :: 0 <= k < |r| ==> r[k] < n)
      && (forall k, l :: 0 <= k < l < |r| ==> r[k] < r[l])
      && (forall i :: 0 <= i < n ==> (i in r <==> (i in marks) == keep))
  {
    MarkedIndicesSorted(n, marks, keep);
    MarkedIndicesMembers(n, marks, keep);
  }

  /**
    * The options whose index is (keep) or is not (!keep) in `marks`, in their
    * original order: one of the two `filter` calls at lib/game.ts:14-15.
    */
  function SelectOptions<T>(opts: seq<T>, marks: set<int>, keep: bool): (r: seq<T>)
    decreases |opts|
  {
    if |opts| == 0 then []
    else
      var n := |opts| - 1;
      SelectOptions(opts[..n], marks, keep) + (if (n in marks) == keep then [opts[n]] else [])
  }

  /** One step of `SelectOptions`: the option appended last is kept when its position's mark is `keep`. */
  lemma SelectSnoc<T>(init: seq<T>, x: T, marks: set<int>, keep: bool)
    ensures SelectOptions(init + [x], marks, keep)
         == SelectOptions(init, marks, keep) + (if (|init| in marks) == keep then [x] else [])
  {
    assert (init + [x])[..|init|] == init;
  }

  /** `normalizeQuestion`: canonical questions pass through, legacy ones are split by correctness. */
  function NormalizeQuestion(q: QuestionData): (r: Question)
    ensures q.Canonical? ==> r == q.question
    ensures q.Legacy? ==>
      && r.id == q.legacy.id
      && r.text == q.legacy.text
      && |r.correctAnswers| + |r.wrongAnswers| == |q.legacy.options|
      && multiset(r.correctAnswers) + multiset(r.wrongAnswers) == multiset(q.legacy.options)
  {
    match q
    case Canonical(c) => c
    case Legacy(l) =>
      var marks := Elems(l.correctIndices);
      var correct := SelectOptions(l.options, marks, true);
      var wrong := SelectOptions(l.options, marks, false);
      SelectPartition(l.options, marks);
      Question(l.id, l.text, correct, wrong)
  }

  /** As many options are selected as there are marked positions. */
  lemma {:induction false} SelectLength<T>(opts: seq<T>, marks: set<int>, keep: bool)
    ensures |SelectOptions(opts, marks, keep)| == |MarkedIndices(|opts|, marks, keep)|
    decreases |opts|
  {
    if |opts| > 0 {
      SelectLength(opts[..|opts| - 1], marks, keep);
    }
  }

  /** The two selections split the options between them. */
  ghost predicate Splits<T>(opts: seq<T>, marks: set<int>) {
    && multiset(SelectOptions(opts, marks, true)) + multiset(SelectOptions(opts, marks, false)) == multiset(opts)
    && |SelectOptions(opts, marks, true)| + |SelectOptions(opts, marks, false)| == |opts|
  }

  lemma SplitsSnoc<T>(init: seq<T>, x: T, marks: set<int>)
    requires Splits(init, marks)
    ensures Splits(init + [x], marks)
  {
    SelectSnoc(init, x, marks, true);
    SelectSnoc(init, x, marks, false);
    var a, b := SelectOptions(init, marks, true), SelectOptions(init, marks, false);
    assert multiset(init + [x]) == multiset(init) + multiset{x};
    if |init| in marks {
      assert multiset(a + [x]) == multiset(a) + multiset{x};
    } else {
      assert multiset(b + [x]) == multiset(b) + multiset{x};
    }
  }

  lemma {:induction false} SelectPartition<T>(opts: seq<T>, marks: set<int>)
    ensures multiset(SelectOptions(opts, marks, true)) + multiset(SelectOptions(opts, marks, false)) == multiset(opts)
    ensures |SelectOptions(opts, marks, true)| + |SelectOptions(opts, marks, false)| == |opts|
    decreases |opts|
  {
    if |opts| > 0 {
      var init, x := opts[..|opts| - 1], opts[|opts| - 1];
      assert opts == init + [x];
      SelectPartition(init, marks);
      SplitsSnoc(init, x, marks);
    }
  }

  /**
    * The selected options are exactly the options at the marked positions,
    * taken in increasing position order.
    */
  lemma {:induction false} SelectAtMarkedIndices<T>(opts: seq<T>, marks: set<int>, keep: bool)
    ensures var idx := MarkedIndices(|opts|, marks, keep);
      && |SelectOptions(opts, marks, keep)| == |idx|
      && (forall k :: 0 <= k < |idx| ==> idx[k] < |opts|)
      && forall k :: 0 <= k < |idx| ==> SelectOptions(opts, marks, keep)[k] == opts[idx[k]]
    decreases |opts|
  {
    SelectLength(opts, marks, keep);
    if |opts| > 0 {
      var n := |opts| - 1;
      SelectAtMarkedIndices(opts[..n], marks, keep);
      MarkedIndicesSpec(n, marks, keep);
    }
  }

  /** Legacy normalisation keeps the options at `correctIndices` as correct, the rest as wrong, each in option order. */
  lemma NormalizeLegacyAnswers(l: LegacyQuestion)
    ensures var r := NormalizeQuestion(Legacy(l));
      var ci := MarkedIndices(|l.options|, Elems(l.correctIndices), true);
      var wi := MarkedIndices(|l.options|, Elems(l.correctIndices), false);
      && |r.correctAnswers| == |ci|
      && (forall k :: 0 <= k < |ci| ==> ci[k] < |l.options|)
      && (forall k :: 0 <= k < |ci| ==> r.correctAnswers[k] == l.options[ci[k]])
      && |r.wrongAnswers| == |wi|
      && (forall k :: 0 <= k < |wi| ==> wi[k] < |l.options|)
      && (forall k :: 0 <= k < |wi| ==> r.wrongAnswers[k] == l.options[wi[k]])
  {
    SelectAtMarkedIndices(l.options, Elems(l.correctIndices), true);
    SelectAtMarkedIndices(l.options, Elems(l.correctIndices), false);
  }

  /**
    * Rebuilds an option list of length `n` from the correct and wrong lists,
    * taking the next correct answer at marked positions and the next wrong
    * answer elsewhere.
    */
  function Interleave<T>(correct: seq<T>, wrong: seq<T>, marks: set<int>, n: nat): (r: seq<T>)
    requires |correct| == |MarkedIndices(n, marks, true)|
    requires |wrong| == |MarkedIndices(n, marks, false)|
    ensures |r| == n
    decreases n
  {
    if n == 0 then []
    else if (n - 1) in marks then Interleave(correct[..|correct| - 1], wrong, marks, n - 1) + [correct[|correct| - 1]]
    else Interleave(correct, wrong[..|wrong| - 1], marks, n - 1) + [wrong[|wrong| - 1]]
  }

  /** Both selections have the lengths `Interleave` expects. */
  predicate SelectLengths<T>(opts: seq<T>, marks: set<int>) {
    && |SelectOptions(opts, marks, true)| == |MarkedIndices(|opts|, marks, true)|
    && |SelectOptions(opts, marks, false)| == |MarkedIndices(|opts|, marks, false)|
  }

  /** Interleaving the two selections by the marks restores the options. */
  ghost predicate RoundTrips<T>(opts: seq<T>, marks: set<int>) {
    && SelectLengths(opts, marks)
    && Interleave(SelectOptions(opts, marks, true), SelectOptions(opts, marks, false), marks, |opts|) == opts
  }

  lemma RoundTripsSnoc<T>(init: seq<T>, x: T, marks: set<int>)
    requires RoundTrips(init, marks)
    ensures RoundTrips(init + [x], marks)
  {
    var opts := init + [x];
    SelectSnoc(init, x, marks, true);
    SelectSnoc(init, x, marks, false);
    SelectLength(opts, marks, true);
    SelectLength(opts, marks, false);
    var a, b := SelectOptions(init, marks, true), SelectOptions(init, marks, false);
    var c, w := SelectOptions(opts, marks, true), SelectOptions(opts, marks, false);
    if |init| in marks {
      assert c == a + [x] && c[..|c| - 1] == a && w == b;
    } else {
      assert w == b + [x] && w[..|w| - 1] == b && c == a;
    }
  }

  /** Legacy normalisation is lossless: interleaving its two lists by the marks restores the option list. */
  lemma {:induction false} LegacyRoundTrip<T>(opts: seq<T>, marks: set<int>)
    ensures SelectLengths(opts, marks)
    ensures Interleave(SelectOptions(opts, marks, true), SelectOptions(opts, marks, false), marks, |opts|) == opts
    decreases |opts|
  {
    if |opts| > 0 {
      var init, x := opts[..|opts| - 1], opts[|opts| - 1];
      assert opts == init + [x];
      LegacyRoundTrip(init, marks);
      RoundTripsSnoc(init, x, marks);
    }
  }

  /** Normalising an already-normalised question changes nothing. */
  lemma NormalizeIdempotent(q: QuestionData)
    ensures NormalizeQuestion(Canonical(NormalizeQuestion(q))) == NormalizeQuestion(q)
  {
  }

  /** `normalizePack`: pack fields are kept, and every question is normalised in place. */
  function NormalizePack(p: PackData): (r: Pack)
    ensures r.id == p.id && r.name == p.name && r.description == p.description
    ensures r.priceDisplay == p.priceDisplay
    ensures |r.questions| == |p.questions|
    ensures forall i :: 0 <= i < |p.questions| ==> r.questions[i] == NormalizeQuestion(p.questions[i])
  {
    Pack(p.id, p.name, p.description, p.priceDisplay,
         seq(|p.questions|, i requires 0 <= i < |p.questions| => NormalizeQuestion(p.questions[i])))
  }

  /** `getAllPacks`, with the bundled catalog as a parameter. */
  function GetAllPacks(bundled: seq<PackData>): (r: seq<Pack>)
    ensures |r| == |bundled|
    ensures forall i :: 0 <= i < |bundled| ==> r[i] == NormalizePack(bundled[i])
  {
    seq(|bundled|, i requires 0 <= i < |bundled| => NormalizePack(bundled[i]))
  }

  /** The questions of one pack after the (identity) re-normalisation at lib/game.ts:44. */
  function RenormalizeAll(qs: seq<Question>): (r: seq<Question>)
    ensures r == qs
  {
    seq(|qs|, i requires 0 <= i < |qs| => NormalizeQuestion(Canonical(qs[i])))
  }

  /**
    * `getQuestionsForPacks`: the questions of the packs whose id is in
    * `packIds`, in catalog order, without deduplication.
    */
  function QuestionsForPacks(packIds: seq<string>, packs: seq<Pack>): (r: seq<Question>)
    decreases |packs|
  {
    if |packs| == 0 then []
    else (if packs[0].id in packIds then RenormalizeAll(packs[0].questions) else [])
         + QuestionsForPacks(packIds, packs[1..])
  }

  /** Selection distributes over catalog concatenation: catalog order is kept. */
  lemma {:induction false} QuestionsForPacksAppend(packIds: seq<string>, a: seq<Pack>, b: seq<Pack>)
    ensures QuestionsForPacks(packIds, a + b) == QuestionsForPacks(packIds, a) + QuestionsForPacks(packIds, b)
    decreases |a|
  {
    if |a| == 0 {
      assert a + b == b;
    } else {
      assert (a + b)[1..] == a[1..] + b;
      QuestionsForPacksAppend(packIds, a[1..], b);
    }
  }

  /** A question is in the pool iff some selected pack holds it. */
  lemma {:induction false} QuestionsForPacksMembership(packIds: seq<string>, packs: seq<Pack>, q: Question)
    ensures q in QuestionsForPacks(packIds, packs) <==>
      exists i :: 0 <= i < |packs| && packs[i].id in packIds && q in packs[i].questions
    decreases |packs|
  {
    if |packs| > 0 {
      QuestionsForPacksMembership(packIds, packs[1..], q);
      if exists i :: 1 <= i < |packs| && packs[i].id in packIds && q in packs[i].questions {
        var i :| 1 <= i < |packs| && packs[i].id in packIds && q in packs[i].questions;
        assert packs[1..][i - 1] == packs[i];
      }
    }
  }

  /** Only membership of `packIds` matters: order and repetition are irrelevant. */
  lemma {:induction false} QuestionsForPacksIdsAsSet(ids1: seq<string>, ids2: seq<string>, packs: seq<Pack>)
    requires Elems(ids1) == Elems(ids2)
    ensures QuestionsForPacks(ids1, packs) == QuestionsForPacks(ids2, packs)
    decreases |packs|
  {
    if |packs| > 0 {
      assert packs[0].id in ids1 <==> packs[0].id in Elems(ids1);
      assert packs[0].id in ids2 <==> packs[0].id in Elems(ids2);
      QuestionsForPacksIdsAsSet(ids1, ids2, packs[1..]);
    }
  }

  /** An empty selection yields an empty pool. */
  lemma {:induction false} QuestionsForNoPacks(packs: seq<Pack>)
    ensures QuestionsForPacks([], packs) == []
    decreases |packs|
  {
    if |packs| > 0 {
      QuestionsForNoPacks(packs[1..]);
    }
  }

  /** A selected pack that appears twice contributes its questions twice. */
  lemma QuestionsForPacksNoDedup(packIds: seq<string>, p: Pack)
    requires p.id in packIds
    ensures QuestionsForPacks(packIds, [p, p]) == p.questions + p.questions
  {
    assert [p, p][1..] == [p];
    assert [p][1..] == [];
    assert QuestionsForPacks(packIds, [p]) == RenormalizeAll(p.questions) + QuestionsForPacks(packIds, []);
  }

  /** The identifiers of a question list (`questions.map(q => q.id)`). */
  function QuestionIds(qs: seq<Question>): (r: seq<string>)
    ensures |r| == |qs|
    ensures forall i :: 0 <= i < |qs| ==> r[i] == qs[i].id
  {
    seq(|qs|, i requires 0 <= i < |qs| => qs[i].id)
  }

  /** The position of the first question with identifier `id`, if any. */
  function FindIndex(qs: seq<Question>, id: string): (r: Option<nat>)
    ensures r.None? <==> forall i :: 0 <= i < |qs| ==> qs[i].id != id
    ensures r.Some? ==> r.value < |qs| && qs[r.value].id == id
    ensures r.Some? ==> forall k :: 0 <= k < r.value ==> qs[k].id != id
    decreases |qs|
  {
    if |qs| == 0 then None
    else if qs[0].id == id then Some(0)
    else
      match FindIndex(qs[1..], id)
      case None => None
      case Some(i) => Some(i + 1)
  }

  /** `questions.find(q => q.id === id)`: the first question with that id, if any. */
  function FindQuestion(qs: seq<Question>, id: string): (r: Option<Question>)
    ensures r.None? <==> forall i :: 0 <= i < |qs| ==> qs[i].id != id
    ensures r.Some? ==> r.value in qs && r.value.id == id
    ensures r.Some? ==> exists i :: 0 <= i < |qs| && qs[i] == r.value && forall j :: 0 <= j < i ==> qs[j].id != id
  {
    match FindIndex(qs, id)
    case None => None
    case Some(i) => Some(qs[i])
  }
}
