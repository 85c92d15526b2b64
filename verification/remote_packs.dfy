/**
  * The remote catalog mapping of lib/remotePacks.ts: rows of the hosted
  * `packs` table, with their nested questions and answers, become catalog
  * packs. The query itself is an input: `response` is what it returned.
  */
module RemotePacks {
  import opened Wrappers
  import opened Seqs
  import opened Content

  datatype AnswerRow = AnswerRow(answerText: string, isCorrect: bool)
  datatype QuestionRow = QuestionRow(id: string, prompt: string, answers: seq<AnswerRow>)
  datatype PackRow = PackRow(id: string, name: string, description: string,
                             priceDisplay: Option<string>, questions: seq<QuestionRow>)

  /** The backend URL and anonymous key; an unset variable reads as the empty string. */
  datatype Config = Config(url: string, anonKey: string)

  /** A value thrown by the query; `isErrorInstance` says whether it is an `Error` object. */
  datatype QueryError = QueryError(isErrorInstance: bool, message: string)

  /** The price label shown when a pack row has none. */
  const FreeLabel: string := "Free"

  /** The texts of the answers whose correctness flag equals `correct`, in row order. */
  function AnswerTexts(answers: seq<AnswerRow>, correct: bool): (r: seq<string>)
    decreases |answers|
  {
    if |answers| == 0 then []
    else
      var last := answers[|answers| - 1];
      AnswerTexts(answers[..|answers| - 1], correct) + (if last.isCorrect == correct then [last.answerText] else [])
  }

  /** All answer texts, in row order. */
  function Texts(answers: seq<AnswerRow>): (r: seq<string>)
    ensures |r| == |answers|
    decreases |answers|
  {
    if |answers| == 0 then [] else Texts(answers[..|answers| - 1]) + [answers[|answers| - 1].answerText]
  }

  /** The filter test `answer => answer.is_correct` (or its negation). */
  function Flagged(correct: bool): AnswerRow -> bool {
    (a: AnswerRow) => a.isCorrect == correct
  }

  /** `AnswerTexts` is the texts of the answers `Filter` keeps: row order is preserved. */
  lemma {:induction false} AnswerTextsIsFilter(answers: seq<AnswerRow>, correct: bool)
    ensures AnswerTexts(answers, correct) == Texts(Filter(answers, Flagged(correct)))
    decreases |answers|
  {
    if |answers| > 0 {
      var p := Flagged(correct);
      var init := answers[..|answers| - 1];
      AnswerTextsIsFilter(init, correct);
      var f := Filter(init, p);
      var last := answers[|answers| - 1];
      if p(last) {
        assert (f + [last])[..|f|] == f;
      } else {
        assert Filter(answers, p) == f;
      }
    }
  }

  /** Every answer lands in exactly one of the two lists. */
  lemma {:induction false} AnswerTextsPartition(answers: seq<AnswerRow>)
    ensures multiset(AnswerTexts(answers, true)) + multiset(AnswerTexts(answers, false)) == multiset(Texts(answers))
    ensures |AnswerTexts(answers, true)| + |AnswerTexts(answers, false)| == |answers|
    decreases |answers|
  {
    if |answers| > 0 {
      var init := answers[..|answers| - 1];
      var last := answers[|answers| - 1];
      AnswerTextsPartition(init);
      var c, w := AnswerTexts(init, true), AnswerTexts(init, false);
      assert multiset(Texts(answers)) == multiset(Texts(init)) + multiset{last.answerText};
      if last.isCorrect {
        assert AnswerTexts(answers, true) == c + [last.answerText];
        assert multiset(c + [last.answerText]) == multiset(c) + multiset{last.answerText};
        assert AnswerTexts(answers, false) == w;
      } else {
        assert AnswerTexts(answers, true) == c;
        assert AnswerTexts(answers, false) == w + [last.answerText];
        assert multiset(w + [last.answerText]) == multiset(w) + multiset{last.answerText};
      }
    }
  }

  /** The question mapping of lib/remotePacks.ts:53-62. */
  function MapQuestionRow(row: QuestionRow): (r: Question)
    ensures r.id == row.id && r.text == row.prompt
    ensures |r.correctAnswers| + |r.wrongAnswers| == |row.answers|
    ensures multiset(r.correctAnswers) + multiset(r.wrongAnswers) == multiset(Texts(row.answers))
    ensures r.correctAnswers == Texts(Filter(row.answers, Flagged(true)))
    ensures r.wrongAnswers == Texts(Filter(row.answers, Flagged(false)))
  {
    AnswerTextsPartition(row.answers);
    AnswerTextsIsFilter(row.answers, true);
    AnswerTextsIsFilter(row.answers, false);
    Question(row.id, row.prompt, AnswerTexts(row.answers, true), AnswerTexts(row.answers, false))
  }

  /** The pack mapping of lib/remotePacks.ts:48-63. */
  function MapPackRow(row: PackRow): (r: Pack)
    ensures r.id == row.id && r.name == row.name && r.description == row.description
    ensures row.priceDisplay.Some? ==> r.priceDisplay == row.priceDisplay.value
    ensures row.priceDisplay.None? ==> r.priceDisplay == FreeLabel
    ensures |r.questions| == |row.questions|
    ensures forall i :: 0 <= i < |row.questions| ==>
      r.questions[i].id == row.questions[i].id && r.questions[i].text == row.questions[i].prompt
    ensures forall i :: 0 <= i < |row.questions| ==> r.questions[i] == MapQuestionRow(row.questions[i])
  {
    Pack(row.id, row.name, row.description, row.priceDisplay.GetOr(FreeLabel),
         seq(|row.questions|, i requires 0 <= i < |row.questions| => MapQuestionRow(row.questions[i])))
  }

  /** The source skips the query unless both the URL and the key are set. */
  predicate IsConfigured(c: Config) {
    c.url != "" && c.anonKey != ""
  }

  /**
    * `fetchRemotePacks`, with the query's outcome as `response`: an empty
    * list when unconfigured, the query's error when it failed, and otherwise
    * every row mapped, in row order.
    */
  function FetchRemotePacks(config: Config, response: Result<seq<PackRow>, QueryError>): (r: Result<seq<Pack>, QueryError>)
    ensures !IsConfigured(config) ==> r == Success([])
    ensures IsConfigured(config) && response.Failure? ==> r == Failure(response.error)
    ensures IsConfigured(config) && response.Success? ==>
      && r.Success?
      && |r.value| == |response.value|
      && forall i :: 0 <= i < |response.value| ==> r.value[i] == MapPackRow(response.value[i])
  {
    if !IsConfigured(config) then Success([])
    else
      match response
      case Failure(e) => Failure(e)
      case Success(rows) => Success(seq(|rows|, i requires 0 <= i < |rows| => MapPackRow(rows[i])))
  }

  /** The answer rows the seeding script writes for a legacy question: each option, flagged by index. */
  function LegacyAnswerRows(opts: seq<string>, marks: set<int>): (r: seq<AnswerRow>)
    ensures |r| == |opts|
    ensures forall i :: 0 <= i < |opts| ==> r[i] == AnswerRow(opts[i], i in marks)
  {
    seq(|opts|, i requires 0 <= i < |opts| => AnswerRow(opts[i], i in marks))
  }

  lemma {:induction false} AnswerTextsOfLegacyRows(opts: seq<string>, marks: set<int>, correct: bool)
    ensures AnswerTexts(LegacyAnswerRows(opts, marks), correct) == SelectOptions(opts, marks, correct)
    decreases |opts|
  {
    if |opts| > 0 {
      var n := |opts| - 1;
      AnswerTextsOfLegacyRows(opts[..n], marks, correct);
      assert LegacyAnswerRows(opts, marks)[..n] == LegacyAnswerRows(opts[..n], marks);
    }
  }

  /**
    * The two normalisers agree: a legacy question stored as answer rows in
    * option order, and mapped back, equals the legacy normalisation.
    */
  lemma RemoteAgreesWithLegacy(l: LegacyQuestion)
    ensures MapQuestionRow(QuestionRow(l.id, l.text, LegacyAnswerRows(l.options, Elems(l.correctIndices))))
         == NormalizeQuestion(Legacy(l))
  {
    AnswerTextsOfLegacyRows(l.options, Elems(l.correctIndices), true);
    AnswerTextsOfLegacyRows(l.options, Elems(l.correctIndices), false);
  }

  /** Mapped rows are already canonical: normalising them changes nothing. */
  lemma RemoteQuestionsAreCanonical(row: PackRow)
    ensures forall i :: 0 <= i < |MapPackRow(row).questions| ==>
      NormalizeQuestion(Canonical(MapPackRow(row).questions[i])) == MapPackRow(row).questions[i]
  {
  }
}
