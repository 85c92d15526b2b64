/**
  * The pure rules of the content editor (apps/admin/app/page.tsx): who may
  * edit, how a question's answers are edited locally, which answers may be
  * deleted, and what a save writes. The database calls themselves are not
  * modelled; where their outcome steers the editor it is a parameter.
  */
module Admin {
  import opened Wrappers
  import opened Seqs
  import opened Text

  /* ---------- Access ---------- */

  /** One allowlist entry: `email.trim().toLowerCase()`. */
  function NormalizeEmail(piece: string): (r: string)
    ensures |r| > 0 ==> !IsSpace(r[0]) && !IsSpace(r[|r| - 1])
    ensures IsLower(r)
    ensures LeadingSpaces(piece) + |r| <= |piece|
    ensures r == ToLower(piece[LeadingSpaces(piece)..LeadingSpaces(piece) + |r|])
    ensures forall i :: LeadingSpaces(piece) + |r| <= i < |piece| ==> IsSpace(piece[i])
  {
    LowerKeepsEnds(Trim(piece));
    ToLower(Trim(piece))
  }

  /** Lower-casing neither creates nor removes white space. */
  lemma LowerKeepsSpace(c: char)
    ensures IsSpace(LowerChar(c)) <==> IsSpace(c)
  {
  }

  /** Lower-casing keeps the length and keeps non-space ends non-space. */
  lemma LowerKeepsEnds(t: string)
    requires |t| > 0 ==> !IsSpace(t[0]) && !IsSpace(t[|t| - 1])
    ensures |ToLower(t)| == |t|
    ensures |t| > 0 ==> !IsSpace(ToLower(t)[0]) && !IsSpace(ToLower(t)[|t| - 1])
  {
    if |t| > 0 {
      LowerKeepsSpace(t[0]);
      LowerKeepsSpace(t[|t| - 1]);
    }
  }

  function NormalizeAll(pieces: seq<string>): (r: seq<string>)
    ensures |r| == |pieces|
    ensures forall i :: 0 <= i < |pieces| ==> r[i] == NormalizeEmail(pieces[i])
  {
    seq(|pieces|, i requires 0 <= i < |pieces| => NormalizeEmail(pieces[i]))
  }

  function NonEmpty(s: string): bool {
    |s| > 0
  }

  /** Lower-case, with no white space at either end. */
  function Clean(s: string): bool {
    IsLower(s) && (|s| > 0 ==> !IsSpace(s[0]) && !IsSpace(s[|s| - 1]))
  }

  /** The pieces of the allowlist variable; an unset variable reads as "". */
  function AllowlistPieces(env: Option<string>): seq<string> {
    Split(env.GetOr(""), ',')
  }

  /**
    * `adminAllowlist`: the comma-separated entries of the environment
    * variable, trimmed and lower-cased, with empty entries dropped.
    */
  function ParseAllowlist(env: Option<string>): (r: seq<string>)
    ensures forall k :: 0 <= k < |r| ==> |r[k]| > 0 && IsLower(r[k])
    ensures forall k :: 0 <= k < |r| ==> !IsSpace(r[k][0]) && !IsSpace(r[k][|r[k]| - 1])
  {
    var all := NormalizeAll(AllowlistPieces(env));
    FilterPreserves(all, NonEmpty, Clean);
    Filter(all, NonEmpty)
  }

  /** An address is on the allowlist exactly when some non-empty piece normalises to it. */
  lemma AllowlistMembership(env: Option<string>, e: string)
    ensures e in ParseAllowlist(env) <==>
      |e| > 0 && exists i :: 0 <= i < |AllowlistPieces(env)| && NormalizeEmail(AllowlistPieces(env)[i]) == e
  {
    var pieces := AllowlistPieces(env);
    var all := NormalizeAll(pieces);
    FilterMembership(all, NonEmpty, e);
    if e in all {
      var i :| 0 <= i < |all| && all[i] == e;
      assert NormalizeEmail(pieces[i]) == e;
    }
    if exists i :: 0 <= i < |pieces| && NormalizeEmail(pieces[i]) == e {
      var i :| 0 <= i < |pieces| && NormalizeEmail(pieces[i]) == e;
      assert all[i] == e;
    }
  }

  /** An unset variable gives the empty allowlist. */
  lemma UnsetAllowlistIsEmpty()
    ensures ParseAllowlist(None) == []
  {
    var pieces := AllowlistPieces(None);
    assert pieces == [[]];
    var all := NormalizeAll(pieces);
    assert all == [[]];
    assert all == [] + [all[0]];
    assert all[..0] == [];
  }

  /** `sessionEmail`: the signed-in address lower-cased, or "" without one. */
  function SessionEmail(email: Option<string>): (r: string)
    ensures email.None? ==> r == []
    ensures email.Some? ==> r == ToLower(email.value)
  {
    match email
    case None => []
    case Some(e) => ToLower(e)
  }

  /** `isAllowed`: an empty allowlist lets everybody in. */
  function IsAllowed(allowlist: seq<string>, email: Option<string>): (r: bool)
    ensures |allowlist| == 0 ==> r
    ensures |allowlist| > 0 ==> (r <==> SessionEmail(email) in allowlist)
  {
    |allowlist| == 0 || SessionEmail(email) in allowlist
  }

  /** With a configured allowlist, nobody without a signed-in address gets in. */
  lemma AllowlistLocksOutAnonymous(env: Option<string>)
    requires |ParseAllowlist(env)| > 0
    ensures !IsAllowed(ParseAllowlist(env), None)
  {
  }

  /** Matching ignores the case of the signed-in address and the padding of the entries. */
  lemma AllowedIffSomePieceMatches(env: Option<string>, email: string)
    requires |ParseAllowlist(env)| > 0
    ensures IsAllowed(ParseAllowlist(env), Some(email)) <==>
      |email| > 0 && exists i :: 0 <= i < |AllowlistPieces(env)| && NormalizeEmail(AllowlistPieces(env)[i]) == ToLower(email)
  {
    AllowlistMembership(env, ToLower(email));
  }

  /* ---------- Answers ---------- */

  /** An answer as the editor holds it; `isNew` marks one not yet saved. */
  datatype Answer = Answer(id: string, text: string, isCorrect: bool, questionId: string, isNew: bool)

  datatype AdminQuestion = AdminQuestion(id: string, prompt: string, answers: seq<Answer>)

  /** The fewest correct, and the fewest wrong, answers a saved question keeps. */
  const MinPerKind := 5

  const KeepMinimumMessage := "Keep at least 5 correct and 5 wrong answers."
  const RemovedMessage := "Answer removed."

  function OfKind(correct: bool): Answer -> bool {
    (a: Answer) => a.isCorrect == correct
  }

  function CountKind(answers: seq<Answer>, correct: bool): nat {
    |Filter(answers, OfKind(correct))|
  }

  function NotId(id: string): Answer -> bool {
    (a: Answer) => a.id != id
  }

  /** `canRemoveAnswer`: the answer's own kind must have more than the minimum. */
  function CanRemoveAnswer(q: AdminQuestion, a: Answer): (r: bool)
    ensures r <==> CountKind(q.answers, a.isCorrect) > MinPerKind
  {
    if a.isCorrect then CountKind(q.answers, true) > MinPerKind
    else CountKind(q.answers, false) > MinPerKind
  }

  predicate DistinctIds(answers: seq<Answer>) {
    forall i, j :: 0 <= i < j < |answers| ==> answers[i].id != answers[j].id
  }

  /** Dropping by id an id no answer carries changes nothing. */
  lemma DropAbsentId(answers: seq<Answer>, id: string)
    requires forall i :: 0 <= i < |answers| ==> answers[i].id != id
    ensures Filter(answers, NotId(id)) == answers
  {
    FilterAll(answers, NotId(id));
  }

  /** Dropping one answer by id lowers the count of its own kind by one and leaves the other. */
  lemma {:induction false} RemoveByIdCount(answers: seq<Answer>, a: Answer, correct: bool)
    requires DistinctIds(answers)
    requires a in answers
    ensures CountKind(Filter(answers, NotId(a.id)), correct)
         == CountKind(answers, correct) - (if a.isCorrect == correct then 1 else 0)
    decreases |answers|
  {
    var n := |answers|;
    var init, last := answers[..n - 1], answers[n - 1];
    assert answers == init + [last];
    FilterSnoc(init, last, NotId(a.id));
    FilterSnoc(init, last, OfKind(correct));
    if last == a {
      assert forall i :: 0 <= i < |init| ==> init[i].id != a.id by {
        forall i | 0 <= i < |init| ensures init[i].id != a.id {
          assert init[i] == answers[i];
        }
      }
      DropAbsentId(init, a.id);
      assert !NotId(a.id)(last);
      assert Filter(answers, NotId(a.id)) == init;
      assert OfKind(correct)(last) <==> a.isCorrect == correct;
    } else {
      assert a in init;
      assert DistinctIds(init);
      RemoveByIdCount(init, a, correct);
      FilterSnoc(Filter(init, NotId(a.id)), last, OfKind(correct));
    }
  }

  /** Removing a permitted answer never takes a question below the minimum of either kind. */
  lemma RemovalKeepsMinimum(q: AdminQuestion, a: Answer)
    requires DistinctIds(q.answers) && a in q.answers
    requires CountKind(q.answers, true) >= MinPerKind && CountKind(q.answers, false) >= MinPerKind
    requires CanRemoveAnswer(q, a)
    ensures CountKind(Filter(q.answers, NotId(a.id)), true) >= MinPerKind
    ensures CountKind(Filter(q.answers, NotId(a.id)), false) >= MinPerKind
  {
    RemoveByIdCount(q.answers, a, true);
    RemoveByIdCount(q.answers, a, false);
  }

  /** Applies `f` to the question with id `qid` and keeps every other question. */
  function EditQuestion(questions: seq<AdminQuestion>, qid: string, f: AdminQuestion -> AdminQuestion): (r: seq<AdminQuestion>)
    ensures |r| == |questions|
    ensures forall i :: 0 <= i < |questions| ==>
      r[i] == if questions[i].id == qid then f(questions[i]) else questions[i]
  {
    seq(|questions|, i requires 0 <= i < |questions| =>
      if questions[i].id == qid then f(questions[i]) else questions[i])
  }

  function DropAnswer(aid: string): AdminQuestion -> AdminQuestion {
    (q: AdminQuestion) => q.(answers := Filter(q.answers, NotId(aid)))
  }

  function SetPrompt(value: string): AdminQuestion -> AdminQuestion {
    (q: AdminQuestion) => q.(prompt := value)
  }

  function SetText(aid: string, value: string): Answer -> Answer {
    (a: Answer) => if a.id == aid then a.(text := value) else a
  }

  function MapAnswers(answers: seq<Answer>, f: Answer -> Answer): (r: seq<Answer>)
    ensures |r| == |answers|
    ensures forall i :: 0 <= i < |answers| ==> r[i] == f(answers[i])
  {
    seq(|answers|, i requires 0 <= i < |answers| => f(answers[i]))
  }

  function SetAnswerText(aid: string, value: string): AdminQuestion -> AdminQuestion {
    (q: AdminQuestion) => q.(answers := MapAnswers(q.answers, SetText(aid, value)))
  }

  /** `updateQuestionPrompt`: only the prompt of the question with that id changes. */
  function UpdateQuestionPrompt(questions: seq<AdminQuestion>, qid: string, value: string): (r: seq<AdminQuestion>)
    ensures |r| == |questions|
    ensures forall i :: 0 <= i < |questions| && questions[i].id == qid ==>
      r[i].prompt == value && r[i].id == qid && r[i].answers == questions[i].answers
    ensures forall i :: 0 <= i < |questions| && questions[i].id != qid ==> r[i] == questions[i]
  {
    EditQuestion(questions, qid, SetPrompt(value))
  }

  /** `updateAnswerText`: only the text of the answer with that id, in the question with that id, changes. */
  function UpdateAnswerText(questions: seq<AdminQuestion>, qid: string, aid: string, value: string): (r: seq<AdminQuestion>)
    ensures |r| == |questions|
    ensures forall i :: 0 <= i < |questions| && questions[i].id != qid ==> r[i] == questions[i]
    ensures forall i :: 0 <= i < |questions| && questions[i].id == qid ==>
      && r[i].id == qid && r[i].prompt == questions[i].prompt
      && |r[i].answers| == |questions[i].answers|
      && (forall j :: 0 <= j < |questions[i].answers| ==>
            var a := questions[i].answers[j];
            r[i].answers[j] == if a.id == aid then a.(text := value) else a)
  {
    EditQuestion(questions, qid, SetAnswerText(aid, value))
  }

  /** `addAnswer`, with the new temporary id supplied by the caller. */
  function AddAnswer(questions: seq<AdminQuestion>, qid: string, isCorrect: bool, freshId: string): (r: seq<AdminQuestion>)
    ensures |r| == |questions|
    ensures forall i :: 0 <= i < |questions| && questions[i].id != qid ==> r[i] == questions[i]
    ensures forall i :: 0 <= i < |questions| && questions[i].id == qid ==>
      r[i] == questions[i].(answers := questions[i].answers + [Answer(freshId, "", isCorrect, qid, true)])
  {
    EditQuestion(questions, qid, (q: AdminQuestion) => q.(answers := q.answers + [Answer(freshId, "", isCorrect, qid, true)]))
  }

  /** The local half of `removeAnswer`: the answer leaves the question with that id. */
  function RemoveLocally(questions: seq<AdminQuestion>, qid: string, aid: string): (r: seq<AdminQuestion>)
    ensures |r| == |questions|
    ensures forall i :: 0 <= i < |questions| && questions[i].id != qid ==> r[i] == questions[i]
    ensures forall i :: 0 <= i < |questions| && questions[i].id == qid ==>
      r[i].id == qid && r[i].prompt == questions[i].prompt
      && forall a :: a in r[i].answers <==> a in questions[i].answers && a.id != aid
  {
    var r := EditQuestion(questions, qid, DropAnswer(aid));
    assert forall i, a :: 0 <= i < |questions| && questions[i].id == qid ==>
      (a in r[i].answers <==> a in questions[i].answers && a.id != aid) by {
      forall i, a | 0 <= i < |questions| && questions[i].id == qid
        ensures a in r[i].answers <==> a in questions[i].answers && a.id != aid
      {
        FilterMembership(questions[i].answers, NotId(aid), a);
      }
    }
    r
  }

  /** Removing a freshly added answer before saving gives back the editor's questions. */
  lemma AddThenRemoveRestores(questions: seq<AdminQuestion>, qid: string, isCorrect: bool, freshId: string)
    requires forall i, a :: 0 <= i < |questions| && questions[i].id == qid && a in questions[i].answers ==> a.id != freshId
    ensures RemoveLocally(AddAnswer(questions, qid, isCorrect, freshId), qid, freshId) == questions
  {
    var added := AddAnswer(questions, qid, isCorrect, freshId);
    var r := RemoveLocally(added, qid, freshId);
    forall i | 0 <= i < |questions|
      ensures r[i] == questions[i]
    {
      if questions[i].id == qid {
        var before := questions[i].answers;
        var unsaved := Answer(freshId, "", isCorrect, qid, true);
        assert forall k :: 0 <= k < |before| ==> NotId(freshId)(before[k]) by {
          forall k | 0 <= k < |before| ensures NotId(freshId)(before[k]) {
            assert before[k] in questions[i].answers;
          }
        }
        FilterAppend(before, [unsaved], NotId(freshId));
        FilterAll(before, NotId(freshId));
        FilterSingle(unsaved, NotId(freshId));
        assert added[i].answers == before + [unsaved];
      }
    }
  }

  /** What the editor shows after an action: the questions, the error line and the status line. */
  datatype Outcome = Outcome(questions: seq<AdminQuestion>, error: string, status: string)

  /**
    * `removeAnswer`. An unsaved answer is dropped at once; a saved one is
    * checked against the minimum, then deleted on the server, whose error,
    * if any, is `deleteError`.
    */
  function RemoveAnswer(questions: seq<AdminQuestion>, q: AdminQuestion, a: Answer, deleteError: Option<string>): (r: Outcome)
    ensures a.isNew ==> r == Outcome(RemoveLocally(questions, q.id, a.id), "", "")
    ensures !a.isNew && !CanRemoveAnswer(q, a) ==> r == Outcome(questions, KeepMinimumMessage, "")
    ensures !a.isNew && CanRemoveAnswer(q, a) && deleteError.Some? ==> r == Outcome(questions, deleteError.value, "")
    ensures !a.isNew && CanRemoveAnswer(q, a) && deleteError.None? ==>
      r == Outcome(RemoveLocally(questions, q.id, a.id), "", RemovedMessage)
    ensures r.questions == questions || r.questions == RemoveLocally(questions, q.id, a.id)
  {
    if a.isNew then Outcome(RemoveLocally(questions, q.id, a.id), "", "")
    else if !CanRemoveAnswer(q, a) then Outcome(questions, KeepMinimumMessage, "")
    else match deleteError
      case Some(m) => Outcome(questions, m, "")
      case None => Outcome(RemoveLocally(questions, q.id, a.id), "", RemovedMessage)
  }

  /* ---------- Creating and saving questions ---------- */

  /** One starter answer row inserted with a new question. */
  datatype SeedRow = SeedRow(questionId: string, text: string, isCorrect: bool)

  function SeedKind(qid: string, prefix: string, correct: bool): (r: seq<SeedRow>)
    ensures |r| == MinPerKind
    ensures forall i :: 0 <= i < MinPerKind ==> r[i] == SeedRow(qid, prefix + NatToString(i + 1), correct)
  {
    seq(MinPerKind, i requires 0 <= i < MinPerKind => SeedRow(qid, prefix + NatToString(i + 1), correct))
  }

  /** The starter answers of a new question: "Correct 1".."Correct 5", then "Wrong 1".."Wrong 5". */
  function SeedAnswers(qid: string): (r: seq<SeedRow>)
    ensures |r| == 2 * MinPerKind
    ensures forall i :: 0 <= i < MinPerKind ==> r[i] == SeedRow(qid, "Correct " + NatToString(i + 1), true)
    ensures forall i :: MinPerKind <= i < 2 * MinPerKind ==> r[i] == SeedRow(qid, "Wrong " + NatToString(i - MinPerKind + 1), false)
  {
    SeedKind(qid, "Correct ", true) + SeedKind(qid, "Wrong ", false)
  }

  /** The seeded question as the editor reloads it, the server having given the rows `ids`. */
  function SeededQuestion(qid: string, prompt: string, ids: seq<string>): (r: AdminQuestion)
    requires |ids| == 2 * MinPerKind
    ensures |r.answers| == 2 * MinPerKind
    ensures forall i :: 0 <= i < |r.answers| ==> !r.answers[i].isNew && r.answers[i].id == ids[i]
  {
    var seeds := SeedAnswers(qid);
    AdminQuestion(qid, prompt, seq(|seeds|, i requires 0 <= i < |seeds| =>
      Answer(ids[i], seeds[i].text, seeds[i].isCorrect, qid, false)))
  }

  /** A freshly seeded question sits exactly at the minimum, so none of its answers can be removed. */
  lemma SeedAnswersNotRemovable(qid: string, prompt: string, ids: seq<string>)
    requires |ids| == 2 * MinPerKind
    ensures CountKind(SeededQuestion(qid, prompt, ids).answers, true) == MinPerKind
    ensures CountKind(SeededQuestion(qid, prompt, ids).answers, false) == MinPerKind
    ensures forall a :: a in SeededQuestion(qid, prompt, ids).answers ==> !CanRemoveAnswer(SeededQuestion(qid, prompt, ids), a)
  {
    var q := SeededQuestion(qid, prompt, ids);
    var s := q.answers;
    var front, back := s[..MinPerKind], s[MinPerKind..];
    assert s == front + back;
    assert forall i :: 0 <= i < |front| ==> front[i].isCorrect;
    assert forall i :: 0 <= i < |back| ==> !back[i].isCorrect;
    FilterAppend(front, back, OfKind(true));
    FilterAppend(front, back, OfKind(false));
    FilterAll(front, OfKind(true));
    FilterAll(back, OfKind(false));
    FilterNone(front, OfKind(false));
    FilterNone(back, OfKind(true));
  }

  datatype CreatePlan =
    | NoPack                                   // no pack selected: nothing happens
    | RejectPrompt(message: string)            // blank prompt
    | InsertQuestion(packId: string, prompt: string)

  const PromptRequiredMessage := "Question prompt is required."

  /** The checks of `handleCreateQuestion` ahead of its inserts. */
  function CreateQuestion(selectedPackId: Option<string>, prompt: string): (r: CreatePlan)
    ensures selectedPackId.None? || selectedPackId == Some("") <==> r.NoPack?
    ensures r.RejectPrompt? <==> !r.NoPack? && IsBlank(prompt)
    ensures r.RejectPrompt? ==> r.message == PromptRequiredMessage
    ensures r.InsertQuestion? ==> r.packId == selectedPackId.value && r.prompt == Trim(prompt) && |r.prompt| > 0
  {
    if selectedPackId.None? || selectedPackId.value == "" then NoPack
    else if IsBlank(prompt) then RejectPrompt(PromptRequiredMessage)
    else InsertQuestion(selectedPackId.value, Trim(prompt))
  }

  datatype UpsertRow = UpsertRow(id: string, text: string, isCorrect: bool)

  /** What a save writes: the trimmed prompt, updates of saved answers, inserts of new ones. */
  datatype SavePlan = SavePlan(prompt: string, upserts: seq<UpsertRow>, inserts: seq<SeedRow>)

  const PromptEmptyMessage := "Question prompt cannot be empty."
  const UntitledAnswer := "Untitled answer"

  function IsNewAnswer(a: Answer): bool {
    a.isNew
  }

  function IsSavedAnswer(a: Answer): bool {
    !a.isNew
  }

  function UpsertOf(a: Answer): (r: UpsertRow)
    ensures r.id == a.id && r.isCorrect == a.isCorrect
  {
    UpsertRow(a.id, Trim(a.text), a.isCorrect)
  }

  /** The text a new answer is inserted with: `text.trim() || "Untitled answer"`. */
  function InsertText(text: string): (r: string)
    ensures |r| > 0 && !IsSpace(r[0]) && !IsSpace(r[|r| - 1])
    ensures IsBlank(text) ==> r == UntitledAnswer
    ensures !IsBlank(text) ==> r == Trim(text)
  {
    if IsBlank(text) then UntitledAnswer else Trim(text)
  }

  /**
    * `saveQuestion`: a blank prompt is refused; otherwise saved answers are
    * upserted with trimmed text and new answers inserted, a blank one as
    * "Untitled answer". An empty list stands for a write that is skipped.
    */
  function SaveQuestion(q: AdminQuestion): (r: Result<SavePlan, string>)
    ensures IsBlank(q.prompt) <==> r.Failure?
    ensures r.Failure? ==> r.error == PromptEmptyMessage
    ensures r.Success? ==> r.value.prompt == Trim(q.prompt) && |r.value.prompt| > 0
    ensures r.Success? ==>
      var saved := Filter(q.answers, IsSavedAnswer);
      && |r.value.upserts| == |saved|
      && forall i :: 0 <= i < |saved| ==> r.value.upserts[i] == UpsertRow(saved[i].id, Trim(saved[i].text), saved[i].isCorrect)
    ensures r.Success? ==>
      var unsaved := Filter(q.answers, IsNewAnswer);
      && |r.value.inserts| == |unsaved|
      && forall i :: 0 <= i < |unsaved| ==>
           r.value.inserts[i] == SeedRow(q.id, InsertText(unsaved[i].text), unsaved[i].isCorrect)
  {
    if IsBlank(q.prompt) then Failure(PromptEmptyMessage)
    else
      var saved := Filter(q.answers, IsSavedAnswer);
      var unsaved := Filter(q.answers, IsNewAnswer);
      Success(SavePlan(
        Trim(q.prompt),
        seq(|saved|, i requires 0 <= i < |saved| => UpsertOf(saved[i])),
        seq(|unsaved|, i requires 0 <= i < |unsaved| => SeedRow(q.id, InsertText(unsaved[i].text), unsaved[i].isCorrect))))
  }

  /** A save writes every answer exactly once: saved and new answers split the list. */
  lemma SaveCoversEveryAnswer(q: AdminQuestion)
    requires !IsBlank(q.prompt)
    ensures |SaveQuestion(q).value.upserts| + |SaveQuestion(q).value.inserts| == |q.answers|
    ensures multiset(Filter(q.answers, IsSavedAnswer)) + multiset(Filter(q.answers, IsNewAnswer)) == multiset(q.answers)
    ensures forall a :: a in q.answers ==> (a in Filter(q.answers, IsSavedAnswer) <==> a !in Filter(q.answers, IsNewAnswer))
  {
    FilterPartition(q.answers, IsSavedAnswer, IsNewAnswer);
    forall a | a in q.answers
      ensures a in Filter(q.answers, IsSavedAnswer) <==> a !in Filter(q.answers, IsNewAnswer)
    {
      FilterMembership(q.answers, IsSavedAnswer, a);
      FilterMembership(q.answers, IsNewAnswer, a);
    }
  }
}
