/**
  * The per-question round of the game screen (app/game.tsx:17-192): picking
  * options, banking, the award and win-check effects, and the reset when the
  * active question changes. React effects are modelled as one synchronous
  * `Settle` step run after every action, in the order the screen declares
  * them: reset, award, win check.
  *
  * The screen reads `options` and `correctIndices` from its question, fields a
  * canonical `Question` does not have; rounds here are played on the
  * `RoundLayout` that `buildRoundOptions` produces, passed in as `layout`.
  */
module Round {
  import opened Wrappers
  import opened Seqs
  import opened Content
  import opened GameStore
  import opened RoundOptions

  datatype RoundState = RoundState(revealed: seq<int>, wrongIndex: Option<int>, isBanked: bool, scoreAwarded: bool)

  /** The round state of a question nobody has touched yet. */
  const FreshRound: RoundState := RoundState([], None, false, false)

  /** The number of correct options that completes a round. */
  const RevealTarget: nat := 5

  /** The points for a completed round. */
  const CompletionPoints: nat := 16

  function Pow2(n: nat): (r: nat)
    ensures r >= 1
  {
    if n == 0 then 1 else 2 * Pow2(n - 1)
  }

  predicate IsRoundLost(r: RoundState) {
    r.wrongIndex.Some?
  }

  /** A wrong pick has happened, or every correct option has been found. */
  predicate IsRoundOver(r: RoundState) {
    r.wrongIndex.Some? || |r.revealed| == RevealTarget
  }

  /** Over, or banked by the player. */
  predicate EffectiveRoundOver(r: RoundState) {
    IsRoundOver(r) || r.isBanked
  }

  /** `currentRoundScore`: nothing after a bust or before any reveal, otherwise doubling per reveal. */
  function CurrentRoundScore(r: RoundState): (points: nat)
    ensures IsRoundLost(r) ==> points == 0
    ensures |r.revealed| == 0 ==> points == 0
    ensures !IsRoundLost(r) && |r.revealed| > 0 ==> points == Pow2(|r.revealed| - 1)
    ensures points > 0 <==> !IsRoundLost(r) && |r.revealed| > 0
  {
    if IsRoundLost(r) then 0 else if |r.revealed| == 0 then 0 else Pow2(|r.revealed| - 1)
  }

  /** The score ladder 1, 2, 4, 8, 16 for one to five reveals. */
  lemma ScoreLadder(r: RoundState)
    requires !IsRoundLost(r)
    ensures |r.revealed| == 1 ==> CurrentRoundScore(r) == 1
    ensures |r.revealed| == 2 ==> CurrentRoundScore(r) == 2
    ensures |r.revealed| == 3 ==> CurrentRoundScore(r) == 4
    ensures |r.revealed| == 4 ==> CurrentRoundScore(r) == 8
    ensures |r.revealed| == 5 ==> CurrentRoundScore(r) == CompletionPoints
  {
    assert Pow2(4) == 16;
  }

  /** What every reachable round state satisfies for the question it is played on. */
  predicate RoundInvariant(r: RoundState, layout: RoundLayout) {
    && NoDup(r.revealed)
    && |r.revealed| <= RevealTarget
    && (forall k :: 0 <= k < |r.revealed| ==> r.revealed[k] in layout.correctIndices)
  }

  /** `handleOptionClick(idx)`. */
  function OptionClick(r: RoundState, layout: RoundLayout, idx: int): (r': RoundState)
    ensures r'.isBanked == r.isBanked && r'.scoreAwarded == r.scoreAwarded
  {
    if IsRoundOver(r) then r
    else if idx in r.revealed then r
    else if r.wrongIndex.Some? then r
    else if idx in layout.correctIndices then r.(revealed := r.revealed + [idx])
    else r.(wrongIndex := Some(idx))
  }

  /** An option button is disabled once the round is over or banked, or once it is revealed. */
  predicate OptionDisabled(r: RoundState, idx: int) {
    EffectiveRoundOver(r) || idx in r.revealed
  }

  /** A tap on option button `idx`: only rendered, enabled buttons react. */
  function PressOption(r: RoundState, layout: RoundLayout, idx: int): (r': RoundState)
    ensures idx in r.revealed ==> r' == r
    ensures EffectiveRoundOver(r) ==> r' == r
    ensures 0 <= idx < |layout.options| && !EffectiveRoundOver(r) && idx !in r.revealed ==>
      if idx in layout.correctIndices then r' == r.(revealed := r.revealed + [idx])
      else r' == r.(wrongIndex := Some(idx))
    ensures RoundInvariant(r, layout) ==> RoundInvariant(r', layout)
  {
    if !(0 <= idx < |layout.options|) || OptionDisabled(r, idx) then r
    else
      var r' := OptionClick(r, layout, idx);
      assert RoundInvariant(r, layout) ==> RoundInvariant(r', layout) by {
        if RoundInvariant(r, layout) && r' != r {
          NoDupAppend(r.revealed, [idx]);
        }
      }
      r'
  }

  /** `handleBankPoints`: banks only a live round with points to bank. */
  function BankPoints(r: RoundState): (r': RoundState)
    ensures r' != r <==> !IsRoundOver(r) && CurrentRoundScore(r) > 0 && !r.isBanked
    ensures r' == r || r' == r.(isBanked := true)
    ensures r'.scoreAwarded == r.scoreAwarded
  {
    if IsRoundOver(r) then r
    else if CurrentRoundScore(r) == 0 then r
    else r.(isBanked := true)
  }

  /** The points the award effect credits for a finished round. */
  function AwardedPoints(r: RoundState): nat {
    if |r.revealed| == RevealTarget then CompletionPoints
    else if r.isBanked then CurrentRoundScore(r)
    else 0
  }

  /** The completion bonus is exactly the round score at five reveals. */
  lemma CompletionAwardIsRoundScore(r: RoundState)
    requires |r.revealed| == RevealTarget && !IsRoundLost(r)
    ensures AwardedPoints(r) == CurrentRoundScore(r)
  {
    ScoreLadder(r);
  }

  /** A bust banks nothing, whatever was revealed before it. */
  lemma BustAwardsNothing(r: RoundState)
    requires IsRoundLost(r) && |r.revealed| < RevealTarget
    ensures AwardedPoints(r) == 0
  {
  }

  /** The award effect (app/game.tsx:123-153): credits a finished round once. */
  function Award(r: RoundState, st: GameState): (res: (RoundState, GameState))
    ensures r.scoreAwarded ==> res == (r, st)
    ensures !EffectiveRoundOver(r) ==> res == (r, st)
    ensures !r.scoreAwarded && EffectiveRoundOver(r) ==> res.0 == r.(scoreAwarded := true)
    ensures !r.scoreAwarded && EffectiveRoundOver(r) && (|r.revealed| == RevealTarget || r.isBanked) ==>
      res.1 == UpdateCurrentPlayerScore(st, AwardedPoints(r))
    ensures !r.scoreAwarded && IsRoundLost(r) && |r.revealed| != RevealTarget && !r.isBanked ==> res.1 == st
  {
    if r.scoreAwarded then (r, st)
    else if |r.revealed| == RevealTarget then (r.(scoreAwarded := true), UpdateCurrentPlayerScore(st, CompletionPoints))
    else if r.isBanked then (r.(scoreAwarded := true), UpdateCurrentPlayerScore(st, CurrentRoundScore(r)))
    else if r.wrongIndex.Some? then (r.(scoreAwarded := true), st)
    else (r, st)
  }

  /** The win-check effect: an active session whose current player reached the target ends. */
  function WinCheck(st: GameState): (r: GameState)
    ensures st.session.Some? && st.session.value.isActive && HasCurrentPlayer(st.session.value)
            && st.session.value.players[st.session.value.currentPlayerIndex].score >= st.session.value.targetScore
            ==> r == EndSession(st)
    ensures !(st.session.Some? && st.session.value.isActive && HasCurrentPlayer(st.session.value)
              && st.session.value.players[st.session.value.currentPlayerIndex].score >= st.session.value.targetScore)
            ==> r == st
  {
    match st.session
    case None => st
    case Some(s) =>
      if HasCurrentPlayer(s) && s.players[s.currentPlayerIndex].score >= s.targetScore && s.isActive then EndSession(st)
      else st
  }

  /** The active session's current player has reached the target. */
  predicate WinPending(st: GameState) {
    && st.session.Some?
    && st.session.value.isActive
    && HasCurrentPlayer(st.session.value)
    && st.session.value.players[st.session.value.currentPlayerIndex].score >= st.session.value.targetScore
  }

  /**
    * The question id the screen shows: `questionQueue[currentQuestionIndex % questionQueue.length]`,
    * absent when the queue is empty (the index is `NaN`) or the index negative.
    */
  function CurrentQuestionId(s: GameSession): (r: Option<string>)
    ensures |s.questionQueue| > 0 && s.currentQuestionIndex >= 0 ==>
      r == Some(s.questionQueue[s.currentQuestionIndex % |s.questionQueue|])
    ensures |s.questionQueue| == 0 ==> r.None?
  {
    if |s.questionQueue| == 0 then None
    else
      var i := JsRem(s.currentQuestionIndex, |s.questionQueue|);
      if i < 0 then None else Some(s.questionQueue[i])
  }

  /**
    * The question the screen looks up: the first question with the active id
    * among the selected packs' questions of `catalog`.
    */
  function ActiveQuestion(s: GameSession, catalog: seq<Pack>): (r: Option<Question>)
    ensures r.Some? ==> CurrentQuestionId(s).Some? && r.value.id == CurrentQuestionId(s).value
    ensures r.Some? ==> r.value in QuestionsForPacks(s.selectedPackIds, catalog)
    ensures CurrentQuestionId(s).Some? && r.None? ==>
      forall q :: q in QuestionsForPacks(s.selectedPackIds, catalog) ==> q.id != CurrentQuestionId(s).value
    ensures r.Some? ==>
      var pool := QuestionsForPacks(s.selectedPackIds, catalog);
      exists i :: 0 <= i < |pool| && pool[i] == r.value && forall j :: 0 <= j < i ==> pool[j].id != r.value.id
  {
    match CurrentQuestionId(s)
    case None => None
    case Some(id) => FindQuestion(QuestionsForPacks(s.selectedPackIds, catalog), id)
  }

  /** The game screen: the store, the round state, and the question id the round state belongs to. */
  datatype Screen = Screen(store: GameState, round: RoundState, roundFor: Option<string>)

  /** The screen is live: an active session exists (otherwise it only redirects). */
  predicate IsLive(sc: Screen) {
    sc.store.session.Some? && sc.store.session.value.isActive
  }

  /** The round state after the reset effect, for the question the session now shows. */
  function ResetIfMoved(sc: Screen): (r: RoundState)
    requires sc.store.session.Some?
    ensures CurrentQuestionId(sc.store.session.value) != sc.roundFor ==> r == FreshRound
    ensures CurrentQuestionId(sc.store.session.value) == sc.roundFor ==> r == sc.round
  {
    if CurrentQuestionId(sc.store.session.value) != sc.roundFor then FreshRound else sc.round
  }

  /** The effects run after an action: reset on a new question, award, win check. */
  function Settle(sc: Screen): (r: Screen)
    ensures !IsLive(sc) ==> r == sc
    ensures !WinPending(r.store)
    ensures IsLive(sc) ==> r.roundFor == CurrentQuestionId(sc.store.session.value)
  {
    if !IsLive(sc) then sc
    else
      var round := ResetIfMoved(sc);
      var (round', store') := Award(round, sc.store);
      var store'' := WinCheck(store');
      Screen(store'', round', CurrentQuestionId(sc.store.session.value))
  }

  /** `handleNext`: the next turn, only while the session is active. */
  function HandleNext(st: GameState): (r: GameState)
    ensures st.session.Some? && st.session.value.isActive && |st.session.value.players| > 0 ==> r == NextTurn(st)
    ensures !(st.session.Some? && st.session.value.isActive) ==> r == st
  {
    if st.session.Some? && st.session.value.isActive && |st.session.value.players| > 0 then NextTurn(st) else st
  }

  datatype Action = Pick(idx: int) | Bank | Next | Quit

  /**
    * One user action on the screen followed by the effects it triggers. The
    * Next button is shown only once the round is over or banked, so before
    * that `Next` passes nothing to the store.
    */
  function Step(sc: Screen, layout: RoundLayout, a: Action): (r: Screen)
    ensures !IsLive(sc) ==> r == sc
    ensures !WinPending(r.store)
    ensures IsLive(sc) && a.Next? && !EffectiveRoundOver(sc.round) ==> r == Settle(sc)
  {
    if !IsLive(sc) then sc
    else
      match a
      case Pick(idx) => Settle(sc.(round := PressOption(sc.round, layout, idx)))
      case Bank => Settle(sc.(round := BankPoints(sc.round)))
      case Next => if EffectiveRoundOver(sc.round) then Settle(sc.(store := HandleNext(sc.store))) else Settle(sc)
      case Quit => Settle(sc.(store := EndSession(sc.store)))
  }

  /**
    * `Next` before the round is over or banked skips no turn: the player and
    * question indices stay, and the store changes only by a pending win.
    */
  lemma NextIgnoredMidRound(sc: Screen, layout: RoundLayout)
    requires IsLive(sc) && !EffectiveRoundOver(sc.round)
    ensures Step(sc, layout, Next).store == WinCheck(sc.store)
    ensures Step(sc, layout, Next).store.session.value.currentPlayerIndex == sc.store.session.value.currentPlayerIndex
    ensures Step(sc, layout, Next).store.session.value.currentQuestionIndex == sc.store.session.value.currentQuestionIndex
  {
  }

  /** The fresh round satisfies the invariant for any question. */
  lemma FreshRoundInvariant(layout: RoundLayout)
    ensures RoundInvariant(FreshRound, layout)
  {
  }

  /** Every action keeps the revealed list duplicate-free, at most five long, and within the correct options. */
  lemma StepKeepsRoundInvariant(sc: Screen, layout: RoundLayout, a: Action)
    requires RoundInvariant(sc.round, layout)
    ensures RoundInvariant(Step(sc, layout, a).round, layout)
  {
  }

  /** Once a round's points are credited, picks and banks in that round leave every score unchanged. */
  lemma AwardedOnce(sc: Screen, layout: RoundLayout, a: Action)
    requires IsLive(sc) && sc.round.scoreAwarded
    requires sc.roundFor == CurrentQuestionId(sc.store.session.value)
    requires a.Pick? || a.Bank?
    ensures Step(sc, layout, a).store.session.Some?
    ensures Step(sc, layout, a).store.session.value.players == sc.store.session.value.players
    ensures Step(sc, layout, a).round.scoreAwarded
  {
  }

  /** Moving to another question resets every round field. */
  lemma NewQuestionResets(sc: Screen)
    requires IsLive(sc)
    requires CurrentQuestionId(sc.store.session.value) != sc.roundFor
    ensures Settle(sc).round == FreshRound
  {
  }

  /**
    * The reset follows the question id, not the queue position: with a
    * one-question queue the next player inherits the finished round, with
    * every option still disabled.
    */
  lemma SingleQuestionQueueKeepsRound(sc: Screen, layout: RoundLayout)
    requires IsLive(sc) && |sc.store.session.value.players| > 0
    requires |sc.store.session.value.questionQueue| == 1 && sc.store.session.value.currentQuestionIndex >= 0
    requires sc.roundFor == CurrentQuestionId(sc.store.session.value)
    requires sc.round.scoreAwarded && EffectiveRoundOver(sc.round)
    ensures Step(sc, layout, Next).round == sc.round
    ensures forall idx :: OptionDisabled(Step(sc, layout, Next).round, idx)
  {
    var s := sc.store.session.value;
    var s' := NextTurn(sc.store).session.value;
    assert s'.currentQuestionIndex % 1 == 0;
    assert s.currentQuestionIndex % 1 == 0;
  }
}
