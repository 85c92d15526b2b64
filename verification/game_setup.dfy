/**
  * The setup screen (app/game-setup.tsx): which packs can be chosen, the
  * restore from the last setup, pack toggling, the steppers, and session
  * construction on start.
  */
module GameSetup {
  import opened Wrappers
  import opened Seqs
  import opened Text
  import opened Content
  import opened Shuffle
  import opened GameStore

  /** The form's local state: player count, target score and selected pack ids. */
  datatype SetupForm = SetupForm(playerCount: int, targetScore: int, selected: seq<string>)

  const InitialForm: SetupForm := SetupForm(2, 10, [])

  const MinPlayers: int := 1
  const MaxPlayers: int := 5

  /** The target scores the screen offers. */
  const TargetChoices: seq<int> := [10, 15, 20]

  const NoPackSelected: string := "Please select at least one pack."
  const NoQuestions: string := "Selected packs have no questions."

  /** The catalog in use: the remote one when loaded, otherwise the bundled one. */
  function Catalog(remote: Option<seq<Pack>>, local: seq<Pack>): (r: seq<Pack>)
    ensures remote.Some? ==> r == remote.value
    ensures remote.None? ==> r == local
  {
    remote.GetOr(local)
  }

  /** The pack filter of app/game-setup.tsx:20. */
  function Selectable(owned: seq<string>, unlockedAll: bool): Pack -> bool {
    (p: Pack) => unlockedAll || p.id in owned
  }

  /** `availablePacks`: the catalog's packs the player owns, or all when everything is unlocked, in catalog order. */
  function AvailablePacks(remote: Option<seq<Pack>>, local: seq<Pack>, owned: seq<string>, unlockedAll: bool): (r: seq<Pack>)
    ensures forall p :: p in r <==> p in Catalog(remote, local) && (unlockedAll || p.id in owned)
    ensures unlockedAll ==> r == Catalog(remote, local)
  {
    var catalog := Catalog(remote, local);
    var keep := Selectable(owned, unlockedAll);
    assert forall p :: p in Filter(catalog, keep) <==> p in catalog && keep(p) by {
      forall p ensures p in Filter(catalog, keep) <==> p in catalog && keep(p) {
        FilterMembership(catalog, keep, p);
      }
    }
    assert unlockedAll ==> Filter(catalog, keep) == catalog by {
      if unlockedAll {
        FilterAll(catalog, keep);
      }
    }
    Filter(catalog, keep)
  }

  /** The id filter of app/game-setup.tsx:30-32. */
  function Restorable(owned: seq<string>, unlockedAll: bool): string -> bool {
    (id: string) => unlockedAll || id in owned
  }

  /**
    * The restore effect: count and target come from the last setup; its packs
    * that are still available replace the selection, unless none is.
    */
  function RestoreFromLastSetup(form: SetupForm, lastSetup: Option<GameSetup>, owned: seq<string>, unlockedAll: bool): (r: SetupForm)
    ensures lastSetup.None? ==> r == form
    ensures lastSetup.Some? ==> r.playerCount == lastSetup.value.playerCount && r.targetScore == lastSetup.value.targetScore
    ensures lastSetup.Some? ==> forall id :: id in r.selected && r.selected != form.selected ==>
      id in lastSetup.value.selectedPackIds && (unlockedAll || id in owned)
    ensures lastSetup.Some? && (exists id :: id in lastSetup.value.selectedPackIds && (unlockedAll || id in owned)) ==>
      r.selected == Filter(lastSetup.value.selectedPackIds, Restorable(owned, unlockedAll))
    ensures lastSetup.Some? && (forall id :: id in lastSetup.value.selectedPackIds ==> !(unlockedAll || id in owned)) ==>
      r.selected == form.selected
  {
    match lastSetup
    case None => form
    case Some(setup) =>
      var keep := Restorable(owned, unlockedAll);
      var valid := Filter(setup.selectedPackIds, keep);
      assert forall id :: id in valid <==> id in setup.selectedPackIds && keep(id) by {
        forall id ensures id in valid <==> id in setup.selectedPackIds && keep(id) {
          FilterMembership(setup.selectedPackIds, keep, id);
        }
      }
      assert |valid| > 0 ==> valid[0] in valid;
      SetupForm(setup.playerCount, setup.targetScore, if |valid| > 0 then valid else form.selected)
  }

  /** The test `p !== id`. */
  function Other(id: string): string -> bool {
    (p: string) => p != id
  }

  /** `togglePack(id)`: removes every occurrence of a selected id, or appends an unselected one. */
  function TogglePack(selected: seq<string>, id: string): (r: seq<string>)
    ensures id in r <==> id !in selected
    ensures forall x :: x != id ==> (x in r <==> x in selected)
    ensures id !in selected ==> r == selected + [id]
  {
    if id in selected then
      var r := Filter(selected, Other(id));
      assert forall x :: x in r <==> x in selected && x != id by {
        forall x ensures x in r <==> x in selected && x != id {
          FilterMembership(selected, Other(id), x);
        }
      }
      r
    else selected + [id]
  }

  /** Ids other than the toggled one keep their relative order. */
  lemma TogglePackKeepsOthersInOrder(selected: seq<string>, id: string)
    ensures Filter(TogglePack(selected, id), Other(id)) == Filter(selected, Other(id))
  {
    if id in selected {
      var f := Filter(selected, Other(id));
      FilterAll(f, Other(id)) by {
        forall i | 0 <= i < |f| ensures Other(id)(f[i]) {
          FilterMembership(selected, Other(id), f[i]);
        }
      }
    } else {
      FilterAppend(selected, [id], Other(id));
      assert Filter([id], Other(id)) == Filter([], Other(id)) + [];
    }
  }

  /** Toggling twice restores membership; from an unselected id it restores the exact list. */
  lemma ToggleTwice(selected: seq<string>, id: string)
    ensures Elems(TogglePack(TogglePack(selected, id), id)) == Elems(selected)
    ensures id !in selected ==> TogglePack(TogglePack(selected, id), id) == selected
  {
    var once := TogglePack(selected, id);
    var twice := TogglePack(once, id);
    if id !in selected {
      FilterAppend(selected, [id], Other(id));
      assert Filter([id], Other(id)) == Filter([], Other(id)) + [];
      FilterAll(selected, Other(id));
    }
  }

  /** The minus button: disabled at one player. */
  function DecrementPlayers(form: SetupForm): (r: SetupForm)
    ensures form.playerCount > MinPlayers ==> r == form.(playerCount := form.playerCount - 1)
    ensures form.playerCount <= MinPlayers ==> r == form
  {
    if form.playerCount <= MinPlayers then form else form.(playerCount := form.playerCount - 1)
  }

  /** The plus button: disabled at five players. */
  function IncrementPlayers(form: SetupForm): (r: SetupForm)
    ensures form.playerCount < MaxPlayers ==> r == form.(playerCount := form.playerCount + 1)
    ensures form.playerCount >= MaxPlayers ==> r == form
  {
    if form.playerCount >= MaxPlayers then form else form.(playerCount := form.playerCount + 1)
  }

  /** The steppers keep a count in 1..5 within 1..5. */
  lemma SteppersStayInRange(form: SetupForm)
    requires MinPlayers <= form.playerCount <= MaxPlayers
    ensures MinPlayers <= DecrementPlayers(form).playerCount <= MaxPlayers
    ensures MinPlayers <= IncrementPlayers(form).playerCount <= MaxPlayers
  {
  }

  /** Tapping one of the target buttons. */
  function ChooseTarget(form: SetupForm, choice: nat): (r: SetupForm)
    requires choice < |TargetChoices|
    ensures r.targetScore in {10, 15, 20}
    ensures r == form.(targetScore := r.targetScore)
  {
    form.(targetScore := TargetChoices[choice])
  }

  /** `Player ${n}`. */
  function PlayerName(n: nat): string {
    "Player " + NatToString(n)
  }

  /** `Array.from({ length: count }, (_, i) => ({ id: i, name: \`Player ${i + 1}\`, score: 0 }))`. */
  function BuildPlayers(count: int): (r: seq<Player>)
    ensures count <= 0 ==> r == []
    ensures count > 0 ==> |r| == count
    ensures forall i :: 0 <= i < |r| ==> r[i].id == i && r[i].score == 0 && r[i].name == PlayerName(i + 1)
  {
    if count <= 0 then [] else seq(count, i requires 0 <= i < count => Player(i, PlayerName(i + 1), 0))
  }

  /** Players built together have distinct names. */
  lemma PlayerNamesDistinct(count: int, i: nat, j: nat)
    requires i < j < |BuildPlayers(count)|
    ensures BuildPlayers(count)[i].name != BuildPlayers(count)[j].name
  {
    var a, b := NatToString(i + 1), NatToString(j + 1);
    NatToStringInjective(i + 1, j + 1);
    assert PlayerName(i + 1)[7..] == a;
    assert PlayerName(j + 1)[7..] == b;
  }

  /** A fresh, active session at its first turn and first question. */
  function NewSession(count: int, target: int, packIds: seq<string>, queue: seq<string>): (s: GameSession)
    ensures s.players == BuildPlayers(count)
    ensures s.targetScore == target && s.selectedPackIds == packIds && s.questionQueue == queue
    ensures s.currentPlayerIndex == 0 && s.currentQuestionIndex == 0 && s.isActive
  {
    GameSession(BuildPlayers(count), target, 0, packIds, queue, 0, true)
  }

  /**
    * `handleStart`: fails without a selection or without questions; otherwise
    * a new session over a shuffled queue of the selected packs' question ids.
    */
  function HandleStart(form: SetupForm, catalog: seq<Pack>, rolls: seq<nat>): (r: Result<GameSession, string>)
    requires IsRollTable(rolls) && |rolls| >= |QuestionsForPacks(form.selected, catalog)|
    ensures |form.selected| == 0 ==> r == Failure(NoPackSelected)
    ensures |form.selected| > 0 && |QuestionsForPacks(form.selected, catalog)| == 0 ==> r == Failure(NoQuestions)
    ensures r.Success? <==> |form.selected| > 0 && |QuestionsForPacks(form.selected, catalog)| > 0
    ensures r.Success? ==>
      && |form.selected| > 0
      && r.value.players == BuildPlayers(form.playerCount)
      && r.value.targetScore == form.targetScore
      && r.value.selectedPackIds == form.selected
      && r.value.currentPlayerIndex == 0 && r.value.currentQuestionIndex == 0 && r.value.isActive
      && multiset(r.value.questionQueue) == multiset(QuestionIds(QuestionsForPacks(form.selected, catalog)))
      && |r.value.questionQueue| > 0
  {
    if |form.selected| == 0 then Failure(NoPackSelected)
    else
      var questions := QuestionsForPacks(form.selected, catalog);
      if |questions| == 0 then Failure(NoQuestions)
      else Success(NewSession(form.playerCount, form.targetScore, form.selected, ShuffleArray(QuestionIds(questions), rolls)))
  }

  /** The store after pressing Start: the session is replaced on success; the saved setup is never touched. */
  function StartGame(st: GameState, form: SetupForm, catalog: seq<Pack>, rolls: seq<nat>): (r: GameState)
    requires IsRollTable(rolls) && |rolls| >= |QuestionsForPacks(form.selected, catalog)|
    ensures r.lastSetup == st.lastSetup
    ensures HandleStart(form, catalog, rolls).Failure? ==> r == st
    ensures HandleStart(form, catalog, rolls).Success? ==> r.session == Some(HandleStart(form, catalog, rolls).value)
  {
    match HandleStart(form, catalog, rolls)
    case Failure(_) => st
    case Success(s) => StartSession(st, s)
  }

  /** Every queued id is the id of a question in a selected pack. */
  lemma StartQueueFromSelectedPacks(form: SetupForm, catalog: seq<Pack>, rolls: seq<nat>, id: string)
    requires IsRollTable(rolls) && |rolls| >= |QuestionsForPacks(form.selected, catalog)|
    requires HandleStart(form, catalog, rolls).Success?
    requires id in HandleStart(form, catalog, rolls).value.questionQueue
    ensures exists q :: q in QuestionsForPacks(form.selected, catalog) && q.id == id
  {
    var qs := QuestionsForPacks(form.selected, catalog);
    var ids := QuestionIds(qs);
    assert id in multiset(HandleStart(form, catalog, rolls).value.questionQueue);
    assert id in ids;
    var i :| 0 <= i < |ids| && ids[i] == id;
    assert qs[i] in qs;
  }
}
