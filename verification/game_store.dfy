/**
  * The persisted session store of store/useGameStore.ts over the records of
  * types/index.ts. Each store action is a total function from the store state
  * to the next one; the persistence middleware is not modelled.
  */
module GameStore {
  import opened Wrappers

  datatype Player = Player(id: int, name: string, score: int)

  datatype GameSession = GameSession(
    players: seq<Player>,
    targetScore: int,
    currentPlayerIndex: int,
    selectedPackIds: seq<string>,
    questionQueue: seq<string>,
    currentQuestionIndex: int,
    isActive: bool)

  /** The configuration kept for "play again". */
  datatype GameSetup = GameSetup(playerCount: int, targetScore: int, selectedPackIds: seq<string>)

  datatype GameState = GameState(session: Option<GameSession>, lastSetup: Option<GameSetup>)

  const DefaultSetup: GameSetup := GameSetup(2, 10, [])

  /** The store before any action: no session, and the default setup. */
  const InitialState: GameState := GameState(None, Some(DefaultSetup))

  /** JavaScript's `a % b` for a positive divisor: the remainder takes the sign of `a`. */
  function JsRem(a: int, b: int): (r: int)
    requires b > 0
    ensures a >= 0 ==> 0 <= r < b && r == a % b
    ensures a < 0 ==> -b < r <= 0
  {
    if a >= 0 then a % b else -((-a) % b)
  }

  /** Whether the current player index names a player. */
  predicate HasCurrentPlayer(s: GameSession) {
    0 <= s.currentPlayerIndex < |s.players|
  }

  /** `startSession`: the new session replaces the old one; the setup is kept. */
  function StartSession(st: GameState, s: GameSession): (r: GameState)
    ensures r.session == Some(s)
    ensures r.lastSetup == st.lastSetup
  {
    st.(session := Some(s))
  }

  /** The players with `points` added to the one at `index` only. */
  function AddToPlayer(players: seq<Player>, index: int, points: int): (r: seq<Player>)
    ensures |r| == |players|
    ensures forall i :: 0 <= i < |players| && i != index ==> r[i] == players[i]
    ensures 0 <= index < |players| ==> r[index] == players[index].(score := players[index].score + points)
  {
    seq(|players|, i requires 0 <= i < |players| =>
      if i == index then players[i].(score := players[i].score + points) else players[i])
  }

  /** `updateCurrentPlayerScore(points)`. */
  function UpdateCurrentPlayerScore(st: GameState, points: int): (r: GameState)
    ensures st.session.None? ==> r == st
    ensures r.lastSetup == st.lastSetup
    ensures st.session.Some? ==> r.session.Some?
    ensures st.session.Some? ==>
      var s, s' := st.session.value, r.session.value;
      && s'.players == AddToPlayer(s.players, s.currentPlayerIndex, points)
      && s' == s.(players := s'.players)
  {
    match st.session
    case None => st
    case Some(s) => st.(session := Some(s.(players := AddToPlayer(s.players, s.currentPlayerIndex, points))))
  }

  /**
    * `nextTurn`: the next player in cyclic order, and the next queue position.
    * With no players the source computes `NaN`; the model needs at least one.
    */
  function NextTurn(st: GameState): (r: GameState)
    requires st.session.Some? ==> |st.session.value.players| > 0
    ensures st.session.None? ==> r == st
    ensures r.lastSetup == st.lastSetup
    ensures st.session.Some? ==> r.session.Some?
    ensures st.session.Some? ==>
      var s, s' := st.session.value, r.session.value;
      && s'.currentPlayerIndex == JsRem(s.currentPlayerIndex + 1, |s.players|)
      && s'.currentQuestionIndex == s.currentQuestionIndex + 1
      && s'.players == s.players
      && s' == s.(currentPlayerIndex := s'.currentPlayerIndex, currentQuestionIndex := s'.currentQuestionIndex)
      && (HasCurrentPlayer(s) ==> HasCurrentPlayer(s'))
  {
    match st.session
    case None => st
    case Some(s) =>
      st.(session := Some(s.(currentPlayerIndex := JsRem(s.currentPlayerIndex + 1, |s.players|),
                             currentQuestionIndex := s.currentQuestionIndex + 1)))
  }

  /** `endSession`: only the active flag changes, and it becomes false. */
  function EndSession(st: GameState): (r: GameState)
    ensures st.session.None? ==> r == st
    ensures r.lastSetup == st.lastSetup
    ensures st.session.Some? ==> r.session == Some(st.session.value.(isActive := false))
  {
    match st.session
    case None => st
    case Some(s) => st.(session := Some(s.(isActive := false)))
  }

  /** `setLastSetup`: only the setup changes. */
  function SetLastSetup(st: GameState, setup: GameSetup): (r: GameState)
    ensures r.session == st.session
    ensures r.lastSetup == Some(setup)
  {
    st.(lastSetup := Some(setup))
  }

  /** `resetGameData`: no session, and the default setup. */
  function ResetGameData(st: GameState): (r: GameState)
    ensures r.session.None?
    ensures r.lastSetup == Some(GameSetup(2, 10, []))
  {
    InitialState
  }

  /** Resetting returns the store to its initial state. */
  lemma ResetIsInitial(st: GameState)
    ensures ResetGameData(st) == InitialState
  {
  }

  /** Ending is idempotent. */
  lemma EndSessionIdempotent(st: GameState)
    ensures EndSession(EndSession(st)) == EndSession(st)
  {
  }

  /** The number of players never changes under a score update, a turn or an end. */
  lemma PlayerCountStable(st: GameState, points: int)
    requires st.session.Some? && |st.session.value.players| > 0
    ensures |UpdateCurrentPlayerScore(st, points).session.value.players| == |st.session.value.players|
    ensures |NextTurn(st).session.value.players| == |st.session.value.players|
    ensures |EndSession(st).session.value.players| == |st.session.value.players|
  {
  }

  /** `k` consecutive calls of `nextTurn`. */
  function NextTurns(st: GameState, k: nat): (r: GameState)
    requires st.session.Some? ==> |st.session.value.players| > 0
    ensures r.session.Some? == st.session.Some?
    ensures r.session.Some? ==> |r.session.value.players| == |st.session.value.players|
    decreases k
  {
    if k == 0 then st else NextTurns(NextTurn(st), k - 1)
  }

  /** The player index after `k` cyclic steps from `c` among `n` players. */
  function Advance(c: nat, k: nat, n: nat): (r: nat)
    requires c < n
    ensures r < n
    decreases k
  {
    if k == 0 then c else Advance(if c + 1 < n then c + 1 else 0, k - 1, n)
  }

  /** The session `k` turns later: `k` cyclic player steps and `k` queue positions, nothing else. */
  function Rotated(s: GameSession, k: nat): (r: GameSession)
    requires HasCurrentPlayer(s)
    ensures HasCurrentPlayer(r) && r.players == s.players
  {
    s.(currentPlayerIndex := Advance(s.currentPlayerIndex, k, |s.players|),
       currentQuestionIndex := s.currentQuestionIndex + k)
  }

  /** One call of `nextTurn` is one rotation step. */
  lemma NextTurnRotates(st: GameState)
    requires st.session.Some? && HasCurrentPlayer(st.session.value)
    ensures NextTurn(st).session == Some(Rotated(st.session.value, 1))
  {
    var s := st.session.value;
    var n, c := |s.players|, s.currentPlayerIndex;
    assert JsRem(c + 1, n) == if c + 1 < n then c + 1 else 0;
  }

  /** A first step followed by `k` more is `k + 1` steps. */
  lemma RotatedStep(s: GameSession, k: nat)
    requires HasCurrentPlayer(s)
    ensures Rotated(Rotated(s, 1), k) == Rotated(s, k + 1)
  {
    var n, c := |s.players|, s.currentPlayerIndex;
    assert Advance(c, 1, n) == if c + 1 < n then c + 1 else 0;
  }

  /** From a valid player index, `k` calls of `nextTurn` rotate the session by `k`. */
  lemma {:induction false} NextTurnsEffect(st: GameState, k: nat)
    requires st.session.Some? && HasCurrentPlayer(st.session.value)
    ensures NextTurns(st, k).session == Some(Rotated(st.session.value, k))
    decreases k
  {
    if k > 0 {
      var st1 := NextTurn(st);
      NextTurnRotates(st);
      NextTurnsEffect(st1, k - 1);
      RotatedStep(st.session.value, k - 1);
    }
  }

  lemma {:induction false} AdvanceWithinRange(c: nat, k: nat, n: nat)
    requires c + k < n
    ensures Advance(c, k, n) == c + k
    decreases k
  {
    if k > 0 {
      AdvanceWithinRange(c + 1, k - 1, n);
    }
  }

  lemma {:induction false} AdvanceToWrap(c: nat, n: nat)
    requires c < n
    ensures Advance(c, n - c, n) == 0
    decreases n - c
  {
    if c + 1 < n {
      AdvanceToWrap(c + 1, n);
    }
  }

  lemma {:induction false} AdvanceCompose(c: nat, a: nat, b: nat, n: nat)
    requires c < n
    ensures Advance(c, a + b, n) == Advance(Advance(c, a, n), b, n)
    decreases a
  {
    if a > 0 {
      AdvanceCompose(if c + 1 < n then c + 1 else 0, a - 1, b, n);
    }
  }

  /** `n` cyclic steps among `n` players return to the start. */
  lemma AdvanceFullCycle(c: nat, n: nat)
    requires c < n
    ensures Advance(c, n, n) == c
  {
    AdvanceCompose(c, n - c, c, n);
    AdvanceToWrap(c, n);
    AdvanceWithinRange(0, c, n);
  }

  /** After one turn per player, the same player is up again and the queue has moved by that many. */
  lemma FullRotation(st: GameState)
    requires st.session.Some? && |st.session.value.players| > 0
    requires HasCurrentPlayer(st.session.value)
    ensures var s, s' := st.session.value, NextTurns(st, |st.session.value.players|).session.value;
      && s'.currentPlayerIndex == s.currentPlayerIndex
      && s'.currentQuestionIndex == s.currentQuestionIndex + |s.players|
      && s'.players == s.players
  {
    var s := st.session.value;
    NextTurnsEffect(st, |s.players|);
    AdvanceFullCycle(s.currentPlayerIndex, |s.players|);
    assert Rotated(s, |s.players|).currentPlayerIndex == s.currentPlayerIndex;
  }
}
