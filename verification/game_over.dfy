/**
  * The results screen (app/game-over.tsx): the ranking of a copy of the
  * players by score, the winner, and "play again" from the saved setup.
  */
module GameOver {
  import opened Wrappers
  import opened Seqs
  import opened Content
  import opened Shuffle
  import opened GameStore
  import opened GameSetup

  /** Scores never increase along the sequence. */
  predicate NonIncreasing(ps: seq<Player>) {
    forall i, j :: 0 <= i < j < |ps| ==> ps[i].score >= ps[j].score
  }

  /** The players with score `k`. */
  function HasScore(k: int): Player -> bool {
    (p: Player) => p.score == k
  }

  /** Places `p` after every player scoring at least as much: ties keep arrival order. */
  function InsertByScore(p: Player, sorted: seq<Player>): (r: seq<Player>)
    ensures multiset(r) == multiset(sorted) + multiset{p}
    ensures |r| == |sorted| + 1
    decreases |sorted|
  {
    if |sorted| == 0 then [p]
    else
      assert sorted == [sorted[0]] + sorted[1..];
      if sorted[0].score >= p.score then [sorted[0]] + InsertByScore(p, sorted[1..])
    else [p] + sorted
  }

  /**
    * `[...players].sort((a, b) => b.score - a.score)`: a stable sort by
    * descending score, computed on a copy.
    */
  function SortByScore(ps: seq<Player>): (r: seq<Player>)
    ensures multiset(r) == multiset(ps)
    ensures |r| == |ps|
    decreases |ps|
  {
    if |ps| == 0 then []
    else
      var init := ps[..|ps| - 1];
      assert ps == init + [ps[|ps| - 1]];
      InsertByScore(ps[|ps| - 1], SortByScore(init))
  }

  lemma TailNonIncreasing(ps: seq<Player>)
    requires NonIncreasing(ps) && |ps| > 0
    ensures NonIncreasing(ps[1..])
  {
    forall i, j | 0 <= i < j < |ps| - 1
      ensures ps[1..][i].score >= ps[1..][j].score
    {
      assert ps[1..][i] == ps[i + 1] && ps[1..][j] == ps[j + 1];
    }
  }

  /** Nobody scores more than `b`. */
  predicate AllAtMost(ps: seq<Player>, b: int) {
    forall i :: 0 <= i < |ps| ==> ps[i].score <= b
  }

  lemma {:induction false} InsertBounded(p: Player, sorted: seq<Player>, b: int)
    requires AllAtMost(sorted, b) && p.score <= b
    ensures AllAtMost(InsertByScore(p, sorted), b)
    decreases |sorted|
  {
    if |sorted| > 0 && sorted[0].score >= p.score {
      InsertBounded(p, sorted[1..], b);
    }
  }

  lemma {:induction false} InsertKeepsOrder(p: Player, sorted: seq<Player>)
    requires NonIncreasing(sorted)
    ensures NonIncreasing(InsertByScore(p, sorted))
    decreases |sorted|
  {
    if |sorted| > 0 {
      var head, tail := sorted[0], sorted[1..];
      if head.score >= p.score {
        TailNonIncreasing(sorted);
        InsertKeepsOrder(p, tail);
        InsertBounded(p, tail, head.score);
        var rest := InsertByScore(p, tail);
        assert InsertByScore(p, sorted) == [head] + rest;
      } else {
        assert AllAtMost(sorted, head.score);
      }
    }
  }

  /** The ranking is ordered by non-increasing score. */
  lemma {:induction false} SortedByScore(ps: seq<Player>)
    ensures NonIncreasing(SortByScore(ps))
    decreases |ps|
  {
    if |ps| > 0 {
      SortedByScore(ps[..|ps| - 1]);
      InsertKeepsOrder(ps[|ps| - 1], SortByScore(ps[..|ps| - 1]));
    }
  }

  /** Inserting ahead of a sorted run whose head scores less than `p`. */
  lemma InsertFrontStable(p: Player, sorted: seq<Player>, k: int)
    requires NonIncreasing(sorted)
    requires |sorted| > 0 && sorted[0].score < p.score
    ensures Filter([p] + sorted, HasScore(k))
         == Filter(sorted, HasScore(k)) + (if p.score == k then [p] else [])
  {
    FilterCons(p, sorted, HasScore(k));
    if p.score == k {
      assert AllAtMost(sorted, sorted[0].score);
      FilterNone(sorted, HasScore(k));
    }
  }

  /** Putting the same player in front of two sequences keeps a filtered suffix relation. */
  lemma ConsKeepsSuffix<T>(head: T, rest: seq<T>, tail: seq<T>, extra: seq<T>, f: T -> bool)
    requires Filter(rest, f) == Filter(tail, f) + extra
    ensures Filter([head] + rest, f) == Filter([head] + tail, f) + extra
  {
    var hk: seq<T> := if f(head) then [head] else [];
    calc {
      Filter([head] + rest, f);
      { FilterCons(head, rest, f); }
      hk + Filter(rest, f);
      hk + (Filter(tail, f) + extra);
      (hk + Filter(tail, f)) + extra;
      { FilterCons(head, tail, f); }
      Filter([head] + tail, f) + extra;
    }
  }

  lemma {:induction false} InsertStable(p: Player, sorted: seq<Player>, k: int)
    requires NonIncreasing(sorted)
    ensures Filter(InsertByScore(p, sorted), HasScore(k))
         == Filter(sorted, HasScore(k)) + (if p.score == k then [p] else [])
    decreases |sorted|
  {
    if |sorted| == 0 {
      FilterSingle(p, HasScore(k));
    } else if sorted[0].score >= p.score {
      var head, tail := sorted[0], sorted[1..];
      var rest := InsertByScore(p, tail);
      assert InsertByScore(p, sorted) == [head] + rest;
      assert sorted == [head] + tail;
      TailNonIncreasing(sorted);
      InsertStable(p, tail, k);
      ConsKeepsSuffix(head, rest, tail, if p.score == k then [p] else [], HasScore(k));
    } else {
      assert InsertByScore(p, sorted) == [p] + sorted;
      InsertFrontStable(p, sorted, k);
    }
  }

  /** The sort is stable: for every score, players with it appear in their original order. */
  lemma {:induction false} SortStable(ps: seq<Player>, k: int)
    ensures Filter(SortByScore(ps), HasScore(k)) == Filter(ps, HasScore(k))
    decreases |ps|
  {
    if |ps| > 0 {
      var init := ps[..|ps| - 1];
      SortStable(init, k);
      SortedByScore(init);
      InsertStable(ps[|ps| - 1], SortByScore(init), k);
    }
  }

  /** `sortedPlayers` of a session. */
  function Ranking(s: GameSession): (r: seq<Player>)
    ensures multiset(r) == multiset(s.players)
    ensures NonIncreasing(r)
  {
    SortedByScore(s.players);
    SortByScore(s.players)
  }

  /** `winner`: the head of the ranking; a session without players has none. */
  function Winner(s: GameSession): (r: Option<Player>)
    ensures r.None? <==> |s.players| == 0
    ensures r.Some? ==> r.value in s.players
    ensures r.Some? ==> AllAtMost(s.players, r.value.score)
  {
    var ranked := Ranking(s);
    if |ranked| == 0 then None
    else
      HeadIsTop(ranked, s.players);
      Some(ranked[0])
  }

  /** The head of an ordered rearrangement is a top scorer of the original. */
  lemma HeadIsTop(ranked: seq<Player>, ps: seq<Player>)
    requires multiset(ranked) == multiset(ps) && NonIncreasing(ranked) && |ranked| > 0
    ensures ranked[0] in ps
    ensures AllAtMost(ps, ranked[0].score)
  {
    assert ranked[0] in multiset(ps);
    forall i | 0 <= i < |ps|
      ensures ps[i].score <= ranked[0].score
    {
      assert ps[i] in multiset(ranked);
      var j :| 0 <= j < |ranked| && ranked[j] == ps[i];
    }
  }

  /** Among players tied on the top score, the winner is the first in seat order. */
  lemma WinnerIsFirstAtTop(s: GameSession)
    requires |s.players| > 0
    ensures var w := Winner(s).value;
      |Filter(s.players, HasScore(w.score))| > 0 && w == Filter(s.players, HasScore(w.score))[0]
  {
    var ranked := SortByScore(s.players);
    var w := ranked[0];
    SortStable(s.players, w.score);
    var f := HasScore(w.score);
    assert ranked == [w] + ranked[1..];
    FilterAppend([w], ranked[1..], f);
    assert Filter([w], f) == Filter([], f) + [w];
  }

  /**
    * `handlePlayAgain`: without a saved setup nothing starts; otherwise a new
    * session from the saved setup, with no check that the pool is non-empty.
    */
  function PlayAgain(st: GameState, remote: Option<seq<Pack>>, local: seq<Pack>, rolls: seq<nat>): (r: GameState)
    requires st.lastSetup.Some? ==>
      IsRollTable(rolls) && |rolls| >= |QuestionsForPacks(st.lastSetup.value.selectedPackIds, Catalog(remote, local))|
    ensures st.lastSetup.None? ==> r == st
    ensures r.lastSetup == st.lastSetup
    ensures st.lastSetup.Some? ==>
      var setup := st.lastSetup.value;
      && r.session.Some?
      && r.session.value.players == BuildPlayers(setup.playerCount)
      && r.session.value.targetScore == setup.targetScore
      && r.session.value.selectedPackIds == setup.selectedPackIds
      && r.session.value.currentPlayerIndex == 0 && r.session.value.currentQuestionIndex == 0
      && r.session.value.isActive
      && multiset(r.session.value.questionQueue)
         == multiset(QuestionIds(QuestionsForPacks(setup.selectedPackIds, Catalog(remote, local))))
  {
    match st.lastSetup
    case None => st
    case Some(setup) =>
      var questions := QuestionsForPacks(setup.selectedPackIds, Catalog(remote, local));
      var queue := ShuffleArray(QuestionIds(questions), rolls);
      StartSession(st, NewSession(setup.playerCount, setup.targetScore, setup.selectedPackIds, queue))
  }

  /** Unlike the setup screen, play-again starts even when the saved packs yield no question. */
  lemma PlayAgainWithEmptyPool(st: GameState, remote: Option<seq<Pack>>, local: seq<Pack>)
    requires st.lastSetup.Some?
    requires QuestionsForPacks(st.lastSetup.value.selectedPackIds, Catalog(remote, local)) == []
    ensures PlayAgain(st, remote, local, []).session.Some?
    ensures PlayAgain(st, remote, local, []).session.value.questionQueue == []
  {
  }

  /**
    * The saved setup keeps its default of no packs unless `setLastSetup` is
    * called, so play-again from that default starts two players on an empty queue.
    */
  lemma {:induction false} PlayAgainFromDefaultSetup(st: GameState, remote: Option<seq<Pack>>, local: seq<Pack>)
    requires st.lastSetup == InitialState.lastSetup
    ensures QuestionsForPacks(st.lastSetup.value.selectedPackIds, Catalog(remote, local)) == []
    ensures PlayAgain(st, remote, local, []).session.Some?
    ensures PlayAgain(st, remote, local, []).session.value.players == BuildPlayers(2)
    ensures PlayAgain(st, remote, local, []).session.value.questionQueue == []
  {
    QuestionsForNoPacks(Catalog(remote, local));
    PlayAgainWithEmptyPool(st, remote, local);
  }
}
