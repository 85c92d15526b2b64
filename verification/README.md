# na-tahu trivia core in Dafny

na-tahu is a push-your-luck trivia game. Players take turns on a question. Each
correct option a player reveals doubles the round's score (1, 2, 4, 8, then 16
for all five). A wrong pick busts the round. A player may also bank the points
and stop. The first player whose score reaches the target ends the game. Packs of
questions come from a bundled catalog or from a remote database. Players own some
packs. An admin page edits the remote questions and their answers.

This project models the logic under the screens as pure functions over immutable
datatypes:

- `Content` covers content normalisation and the question pool. It turns a legacy
  question (`options` plus `correctIndices`) into a canonical one (`correctAnswers` /
  `wrongAnswers`), normalises packs, and flattens the selected packs into a
  question list.
- `Shuffle` is the Fisher–Yates shuffle. Its random draws are a "roll table"
  parameter with `rolls[i] <= i`.
- `RoundOptions` builds a round layout: 5 distinct correct and 5 distinct wrong
  answers plus the indices of the correct ones.
- `RemotePacks` maps remote database rows to packs.
- `GameStore` holds the session store: start, score update, turn rotation, end,
  the saved setup and reset.
- `Round` is the per-question round on the game screen: picks, banking, the award,
  the reset when the question changes, and the win check. React effects run as one
  synchronous `Settle` step after every action, in the order the screen declares
  them (reset, award, win check).
- `GameSetup` and `GameOver` are the setup screen (pack toggling, restore, start
  validation, session construction) and the game-over screen (ranking, winner,
  play again).
- `PackStore` and `AppStore` are the remote-catalog load status and pack ownership.
- `Admin` holds the admin page's pure rules: allowlist parsing and access, the
  "keep at least 5 correct and 5 wrong answers" rule, seeded answers for a new
  question, local edits, and the save partitioning.
- `Seqs`, `Text` and `Wrappers` hold the sequence, string and option/result helpers
  the modules above share. Examples are filter with order preserved, first-occurrence
  dedup, ASCII trim/lower-case, split/join, and number printing.

Randomness, the clock and every database or network call are parameters:

- roll tables for `Math.random`;
- a fresh id for the admin's temporary answer ids;
- a `Result` for the outcome of a query.

## Model

| member | source | states |
|---|---|---|
| Content.NormalizeQuestion | lib/game.ts:4-23 | a canonical question is returned unchanged; a legacy question keeps its id and text, and its correct and wrong lists together hold every option exactly once (which options go where is stated by `Content.NormalizeLegacyAnswers`) |
| Content.NormalizeLegacyAnswers | lib/game.ts:13-15 | the correct answers of a legacy question are the options at the marked indices, in increasing index order, and the wrong answers are the options at the unmarked indices, likewise |
| Content.SelectPartition | lib/game.ts:13-15 | the correct and wrong lists together hold every option exactly once (multisets add up to the options) and their lengths sum to the option count |
| Content.LegacyRoundTrip | lib/game.ts:13-15 | interleaving the correct and wrong lists back by the marked indices gives the original options, so the split loses nothing and invents nothing |
| Content.MarkedIndicesSpec | lib/game.ts:13-15 | the indices the split keeps are strictly increasing, below the option count, and are exactly the marked (or unmarked) ones |
| Content.NormalizeIdempotent | lib/game.ts:4-23 | normalising the result of a normalisation changes nothing |
| Content.NormalizePack | lib/game.ts:25-35 | id, name, description and price label are kept; question count and order are kept and each question is normalised |
| Content.GetAllPacks | lib/game.ts:37-39 | the catalog is the bundled packs, each normalised, in the same order |
| Content.RenormalizeAll | lib/game.ts:44 | normalising questions that are already canonical changes none of them |
| Content.QuestionsForPacksMembership | lib/game.ts:41-45 | a question is in the pool iff it belongs to some catalog pack whose id is selected |
| Content.QuestionsForPacksAppend | lib/game.ts:41-45 | the pool of a concatenated catalog is the concatenation of the pools, so packs contribute in catalog order |
| Content.QuestionsForPacksIdsAsSet | lib/game.ts:41-45 | two selections with the same set of ids give the same pool: the order and repetition of selected ids are irrelevant |
| Content.QuestionsForNoPacks | lib/game.ts:41-45 | an empty selection gives an empty pool |
| Content.QuestionsForPacksNoDedup | lib/game.ts:41-45 | a pack listed twice in the catalog contributes its questions twice: nothing is deduplicated |
| Content.FindQuestion | app/game.tsx:72-73 | the lookup finds nothing exactly when no question has the id; otherwise it returns the first question of the list with that id |
| Shuffle.ShuffleArray | lib/game.ts:47-54 | the result has the input's length and the input's multiset of elements |
| Shuffle.ShufflePreservesElements | lib/game.ts:47-54 | the shuffle keeps the set of elements and keeps a duplicate-free input duplicate-free |
| Shuffle.ShuffleInPlace | lib/game.ts:47-54 | the loop that swaps downwards from the last index computes the same permutation as the functional definition |
| RoundOptions.UniqueCounts | lib/game.ts:61-64 | the distinct correct answers number as many as the set of correct answers; the distinct wrong answers are exactly the wrong answers that are not also correct |
| RoundOptions.IndicesInCount | lib/game.ts:73-76 | in a duplicate-free list, the number of positions holding a marked value equals the number of marked values in the list |
| RoundOptions.CombineFacts | lib/game.ts:70-78 | the combined shuffled sample has 10 distinct options, its correct indices are increasing and in range, there are as many as correct samples, and an index is listed iff its option is a correct answer |
| RoundOptions.DefaultRoundLayout | lib/game.ts:56-60 | with the default arguments 5 and 5, a layout exists iff there are 5 distinct correct answers and 5 distinct wrong ones that are not also correct, and it has 10 options of which 5 are correct |
| RoundOptions.BuildRoundOptions | lib/game.ts:56-79 | null exactly when there are too few distinct correct answers or too few distinct wrong answers that are not also correct; otherwise a layout with `minCorrect + minWrong` distinct options, `minCorrect` increasing in-range correct indices, and an index listed iff its option is correct |
| RemotePacks.MapQuestionRow | lib/remotePacks.ts:53-62 | id is kept, text is the prompt; the correct answers are the texts of the answers flagged correct and the wrong answers those of the others, each in row order, and together they are every answer text exactly once |
| RemotePacks.AnswerTextsIsFilter | lib/remotePacks.ts:56-61 | the correct (wrong) texts are the texts of the answers flagged correct (not correct), in row order |
| RemotePacks.AnswerTextsPartition | lib/remotePacks.ts:56-61 | the correct and wrong texts add up to all the answer texts, as multisets and in count |
| RemotePacks.MapPackRow | lib/remotePacks.ts:48-63 | id, name and description are kept; a missing price becomes "Free"; question count and order are kept and each question row is mapped by the question mapping |
| RemotePacks.FetchRemotePacks | lib/remotePacks.ts:19-64 | without a URL or key the result is an empty list; a query error is propagated as a failure; otherwise every row is mapped, in order |
| RemotePacks.RemoteAgreesWithLegacy | lib/remotePacks.ts:53-62 | a legacy question stored as answer rows flagged by its correct indices maps to the same canonical question as the bundled normaliser gives |
| RemotePacks.RemoteQuestionsAreCanonical | lib/remotePacks.ts:53-62 | every mapped remote question is left unchanged by normalisation |
| GameStore.JsRem | store/useGameStore.ts:43-44 | the truncating remainder agrees with the mathematical one on non-negative operands and is non-positive and above `-b` on negative ones |
| GameStore.StartSession | store/useGameStore.ts:28 | the session is replaced and the saved setup is kept |
| GameStore.AddToPlayer | store/useGameStore.ts:33-37 | only the player at the index gains the points; every other player is unchanged and the count is kept |
| GameStore.UpdateCurrentPlayerScore | store/useGameStore.ts:29-39 | without a session nothing changes; otherwise only the current player's score changes, by the points given |
| GameStore.NextTurn | store/useGameStore.ts:40-53 | without a session nothing changes; otherwise the player index becomes its successor modulo the player count, the question index grows by one, and nothing else changes |
| GameStore.EndSession | store/useGameStore.ts:54-58 | without a session nothing changes; otherwise only `isActive` becomes false |
| GameStore.EndSessionIdempotent | store/useGameStore.ts:54-58 | ending twice is ending once |
| GameStore.SetLastSetup | store/useGameStore.ts:59 | only the saved setup changes |
| GameStore.ResetGameData | store/useGameStore.ts:60-64 | no session and the default setup of 2 players, target 10, no packs |
| GameStore.ResetIsInitial | store/useGameStore.ts:26-27 | resetting gives exactly the store's initial state |
| GameStore.PlayerCountStable | store/useGameStore.ts:33-57 | score update, turn and end never change the number of players |
| GameStore.NextTurnRotates | store/useGameStore.ts:40-53 | with the current player in range, a turn moves to the next player cyclically and to the next question |
| GameStore.NextTurnsEffect | store/useGameStore.ts:40-53 | k turns advance the player index by k cyclically and the question index by k, with players and all other fields unchanged |
| GameStore.AdvanceCompose | store/useGameStore.ts:43-44 | advancing by a and then by b is advancing by a + b |
| GameStore.FullRotation | store/useGameStore.ts:40-53 | after as many turns as there are players, the player index is back where it started and the question index has grown by the player count |
| Round.CurrentRoundScore | app/game.tsx:25-29 | a busted or empty round scores 0; otherwise the score is 2 to the power of one less than the revealed count; it is positive iff the round is not busted and something is revealed |
| Round.ScoreLadder | app/game.tsx:25-29 | one to five revealed options score 1, 2, 4, 8 and 16 |
| Round.PressOption | app/game.tsx:79-102 | a revealed index or a finished or banked round changes nothing; a correct unrevealed index is appended; any other index records the wrong pick and reveals nothing; the round invariant is preserved |
| Round.BankPoints | app/game.tsx:175-180 | banking changes the round iff the round is not over, scores above 0 and is not yet banked, and then only sets the banked flag |
| Round.CompletionAwardIsRoundScore | app/game.tsx:123-153 | the 16 points awarded for five reveals are the round score of five reveals |
| Round.BustAwardsNothing | app/game.tsx:123-153 | a busted round awards 0 |
| Round.Award | app/game.tsx:123-153 | an awarded or unfinished round changes nothing; a completed or banked round credits its points to the current player and sets the awarded flag; a bust sets the flag and credits nothing |
| Round.WinCheck | app/game.tsx:156-170 | the session ends exactly when it is active and its current player's score has reached the target; otherwise nothing changes |
| Round.CurrentQuestionId | app/game.tsx:69 | the shown question id is the queue entry at the question index modulo the queue length; an empty queue shows none |
| Round.ActiveQuestion | app/game.tsx:69-73 | a found question is the first question of the selected packs' pool with the shown id; none is found only when no pool question has that id |
| Round.ResetIfMoved | app/game.tsx:114-119 | a question change gives a fresh round; otherwise the round is kept |
| Round.Settle | app/game.tsx:114-170 | an inactive screen is left alone; after the effects no win is pending and the round belongs to the shown question |
| Round.HandleNext | app/game.tsx:182-192 | the turn advances only while the session is active; otherwise nothing changes |
| Round.Step | app/game.tsx:32-192 | on an inactive screen an action changes nothing; before the round is over or banked `Next` only re-runs the effects on the unchanged screen; after any action and its effects no win is pending |
| Round.NextIgnoredMidRound | app/game.tsx:306-339 | while the round is neither over nor banked, `Next` keeps the player and question indices: no question is skipped; the store changes only by a pending win |
| Round.FreshRoundInvariant | app/game.tsx:114-119 | a fresh round reveals nothing and has no wrong pick |
| Round.StepKeepsRoundInvariant | app/game.tsx:79-192 | every action keeps the revealed list duplicate-free, at most 5 long and within the correct indices |
| Round.AwardedOnce | app/game.tsx:123-153 | once a round's points are awarded, further picks and banks change no score and the flag stays set |
| Round.NewQuestionResets | app/game.tsx:114-119 | when the shown question changes, the round after the effects is fresh |
| Round.SingleQuestionQueueKeepsRound | app/game.tsx:114-119 | with a one-question queue the next turn shows the same id, so the finished round is kept and every option stays disabled |
| GameSetup.Catalog | app/game-setup.tsx:18-19 | the remote catalog when loaded, otherwise the bundled one |
| GameSetup.AvailablePacks | app/game-setup.tsx:18-20 | a pack is available iff it is in the catalog and owned or everything is unlocked; with everything unlocked it is the whole catalog |
| GameSetup.RestoreFromLastSetup | app/game-setup.tsx:26-40 | count and target come from the saved setup; the selection becomes the saved packs still owned (or all of them, when everything is unlocked), in saved order, unless none is, in which case the selection is kept |
| GameSetup.TogglePack | app/game-setup.tsx:42-48 | the toggled id's membership flips, an added id goes last, and other ids keep their membership |
| GameSetup.TogglePackKeepsOthersInOrder | app/game-setup.tsx:42-48 | the other ids keep their relative order |
| GameSetup.ToggleTwice | app/game-setup.tsx:42-48 | toggling twice restores the selected set, and the exact list when the id was not selected |
| GameSetup.SteppersStayInRange | app/game-setup.tsx:91-105 | the player-count buttons keep a count in 1..5 within 1..5 |
| GameSetup.ChooseTarget | app/game-setup.tsx:112-115 | the target becomes one of 10, 15, 20 and nothing else changes |
| GameSetup.BuildPlayers | app/game-setup.tsx:65-69 | n players with ids 0..n-1, names "Player i+1" and score 0 |
| GameSetup.PlayerNamesDistinct | app/game-setup.tsx:65-69 | the built players have pairwise distinct names |
| GameSetup.HandleStart | app/game-setup.tsx:50-82 | a start succeeds iff some pack is selected and the selection has questions, so a selection with questions always starts; no selection and an empty pool are rejected with their messages; a started session has the built players, the target, the selection, indices 0, is active, and its queue is a permutation of the pool's question ids |
| GameSetup.StartGame | app/game-setup.tsx:50-82 | a rejected start leaves the store alone; an accepted one replaces the session; the saved setup is never changed |
| GameSetup.StartQueueFromSelectedPacks | app/game-setup.tsx:56-63 | every queued id is the id of a question in a selected pack |
| GameOver.InsertByScore | app/game-over.tsx:26 | inserting a player adds exactly that player to the multiset |
| GameOver.SortedByScore | app/game-over.tsx:26 | the ranking has non-increasing scores |
| GameOver.SortStable | app/game-over.tsx:26 | players with equal scores keep their original relative order |
| GameOver.Ranking | app/game-over.tsx:26 | the ranking is a permutation of the players with non-increasing scores |
| GameOver.Winner | app/game-over.tsx:27 | there is a winner iff there are players; the winner is one of them and no player scores more |
| GameOver.WinnerIsFirstAtTop | app/game-over.tsx:26-27 | the winner is the first player in the original order among those with the top score |
| GameOver.PlayAgain | app/game-over.tsx:29-53 | without a saved setup nothing starts; otherwise a session with the saved count, target and packs, indices 0, active, and a queue that is a permutation of the pool's question ids |
| GameOver.PlayAgainWithEmptyPool | app/game-over.tsx:32-50 | an empty pool still starts a session, with an empty queue |
| GameOver.PlayAgainFromDefaultSetup | app/game-over.tsx:29-50 | from the default saved setup, play-again starts two players on an empty queue |
| PackStore.BeginLoad | store/usePackStore.ts:17 | loading starts with the error cleared and the packs kept |
| PackStore.ErrorMessage | store/usePackStore.ts:27 | an Error's own message, otherwise "Failed to load packs" |
| PackStore.FinishLoad | store/usePackStore.ts:18-28 | a non-empty result is stored and ready; an empty result stores none and is ready; a failure records the message, keeps the packs and sets the error status |
| PackStore.LoadRemotePacks | store/usePackStore.ts:16-29 | a load ends ready iff the remote is unconfigured or the query succeeded; a failed load keeps the packs |
| PackStore.LoadKeepsConsistent | store/usePackStore.ts:13-29 | a stored pack list is never empty, and the error is set only in the error status |
| PackStore.UnconfiguredFallsBackToLocal | store/usePackStore.ts:19-23 | with no remote configured the screens use the bundled catalog |
| PackStore.FailedReloadKeepsCatalog | store/usePackStore.ts:24-28 | a failed reload leaves the catalog the screens use unchanged |
| AppStore.AddPack | store/useAppStore.ts:17 | the id is owned afterwards, the list is duplicate-free, the owned set grows by exactly the id, existing ids keep first-occurrence order, and a new id goes last |
| AppStore.AddPackIdempotent | store/useAppStore.ts:17 | adding the same id twice is adding it once |
| AppStore.AddPackAppendsNew | store/useAppStore.ts:17 | on a duplicate-free list, an owned id changes nothing and a new id is appended |
| AppStore.ResetPacks | store/useAppStore.ts:18 | the owned list is the two starter packs and the flag is kept |
| AppStore.SetUnlockedAll | store/useAppStore.ts:20 | only the flag changes |
| AppStore.OperationsKeepOwnedDistinct | store/useAppStore.ts:16-20 | the initial state and every operation keep the owned list duplicate-free |
| Admin.NormalizeEmail | apps/admin/app/page.tsx:33 | an entry is trimmed and lower-cased: it is the lower-cased infix of the piece that follows its leading white space and is followed only by white space, it starts and ends with a non-space, and it has no upper-case letter |
| Admin.ParseAllowlist | apps/admin/app/page.tsx:31-34 | every entry is non-empty, lower-case and trimmed |
| Admin.AllowlistMembership | apps/admin/app/page.tsx:31-34 | an email is listed iff it is non-empty and is the normalised form of some comma-separated piece of the setting |
| Admin.UnsetAllowlistIsEmpty | apps/admin/app/page.tsx:31 | an unset setting gives an empty allowlist |
| Admin.SessionEmail | apps/admin/app/page.tsx:84 | the lower-cased email, or the empty string without one |
| Admin.IsAllowed | apps/admin/app/page.tsx:85-88 | everyone is allowed under an empty allowlist; otherwise exactly the listed lower-cased emails |
| Admin.AllowlistLocksOutAnonymous | apps/admin/app/page.tsx:84-88 | with a non-empty allowlist, a session without an email is refused |
| Admin.AllowedIffSomePieceMatches | apps/admin/app/page.tsx:31-34 | with a non-empty allowlist, an email is allowed iff its lower-cased form is the normalised form of some piece of the setting |
| Admin.CanRemoveAnswer | apps/admin/app/page.tsx:352-359 | an answer may go iff its kind (correct or wrong) has more than 5 answers |
| Admin.RemoveByIdCount | apps/admin/app/page.tsx:396-407 | removing one answer by id lowers the count of its own kind by one and leaves the other kind's count alone |
| Admin.RemovalKeepsMinimum | apps/admin/app/page.tsx:352-407 | an allowed removal keeps at least 5 correct and 5 wrong answers in the editor's list, unsaved answers included |
| Admin.UpdateQuestionPrompt | apps/admin/app/page.tsx:309-315 | only the targeted question's prompt changes |
| Admin.UpdateAnswerText | apps/admin/app/page.tsx:317-333 | only the targeted answer's text in the targeted question changes |
| Admin.AddAnswer | apps/admin/app/page.tsx:335-350 | the targeted question gains one answer at the end, with empty text, the unsaved flag and the requested kind; other questions are unchanged |
| Admin.RemoveLocally | apps/admin/app/page.tsx:365-377 | the targeted question loses exactly the answers with the id; other questions are unchanged |
| Admin.AddThenRemoveRestores | apps/admin/app/page.tsx:335-377 | adding an answer with an unused id and removing it restores the questions |
| Admin.RemoveAnswer | apps/admin/app/page.tsx:361-409 | an unsaved answer is removed locally; a saved one below the minimum is refused with "Keep at least 5 correct and 5 wrong answers."; a failed delete keeps everything and reports the error; a successful delete removes it and reports "Answer removed." |
| Admin.SeedAnswers | apps/admin/app/page.tsx:283-294 | ten rows: "Correct 1".."Correct 5" marked correct, then "Wrong 1".."Wrong 5" |
| Admin.SeededQuestion | apps/admin/app/page.tsx:283-298 | a seeded question has ten saved answers with the ids the database assigned |
| Admin.SeedAnswersNotRemovable | apps/admin/app/page.tsx:283-294 | a seeded question has exactly 5 of each kind, so none of its answers may be removed |
| Admin.CreateQuestion | apps/admin/app/page.tsx:255-307 | without a selected pack nothing happens; a blank prompt is refused with "Question prompt is required."; otherwise the trimmed non-empty prompt is inserted into the selected pack |
| Admin.InsertText | apps/admin/app/page.tsx:453 | a new answer's saved text is never blank: its trimmed text, or "Untitled answer" when blank |
| Admin.SaveQuestion | apps/admin/app/page.tsx:411-468 | a blank prompt is refused with "Question prompt cannot be empty."; otherwise the trimmed prompt is saved, saved answers are upserted with trimmed text, and new answers are inserted with their default text |
| Admin.SaveCoversEveryAnswer | apps/admin/app/page.tsx:430-431 | the saved and new answers are complementary: together they are every answer exactly once |
| Text.ParseNatToString | apps/admin/app/page.tsx:286 | printed numbers parse back to themselves |
| Text.Trim | apps/admin/app/page.tsx:33 | the trimmed text is the infix of the input after its leading white space, only white space follows it, and it neither starts nor ends with white space |
| Text.BlankIffAllSpace | apps/admin/app/page.tsx:263 | a string trims to nothing iff every character is white space |
| Text.JoinSplit | apps/admin/app/page.tsx:32 | joining the comma-split pieces with commas gives the original string back |

## Left out

- Network and database I/O is not modelled. This covers the Supabase auth, select, insert, upsert and delete calls, the pack fetch, and the client setup. Each query outcome is a parameter (a `Result`) or the call is absent.
- The admin page's database sequencing is not modelled: `loadPacks`, `loadQuestions`, `createPack`, `deleteQuestion`, the update and upsert failures inside `saveQuestion`, and the insert failures of `handleCreateQuestion`. These are only network calls and status messages. `Admin.SaveQuestion` and `Admin.CreateQuestion` model only the plan the page sends.
- Persistence (zustand `persist`, storage bindings) is not modelled. Stored state is treated as the in-memory value.
- Rendering, navigation, alerts, the back button and fonts are UI.
- The bundled pack JSON is the `bundled` parameter of `Content.GetAllPacks`.
- The uniformity of `Math.random` is not modelled. The shuffle is proved a permutation for every roll table; how likely each permutation is lies outside it.
- `Math.random`/`Date.now` temporary answer ids are not generated. The fresh id is a parameter of `Admin.AddAnswer`.
- React effect scheduling is not modelled. Effects run as one synchronous `Round.Settle` after each action; re-renders between effects are not modelled.
- Text.Trim: only ASCII white space plus no-break space and the byte-order mark count as space, so the other Unicode spaces JavaScript's `trim` removes are not.
- Text.ToLower: only ASCII letters are lower-cased, not the full Unicode case mapping of `toLowerCase`.
- GameStore.NextTurn: requires at least one player. With none, the JavaScript remainder by zero gives `NaN`, which has no counterpart here.
- Round.HandleNext: with an active session and no players the model leaves the store unchanged, where the source would produce a `NaN` player index.
- Round.PressOption: rounds are played on a `RoundLayout` (options plus correct indices). The game screen reads `options` and `correctIndices` from the canonical `Question` found by id, but that type has only `correctAnswers` and `wrongAnswers`. Only `buildRoundOptions` produces the layout shape, and no screen calls it. This mismatch in the source stays open.
- Round.ActiveQuestion: takes the catalog as a parameter. The game screen always looks questions up in the bundled catalog, even when the session was built from the remote one, so remote-only questions are not found there.
- Round.ResetIfMoved: the reset effect is keyed on the shown question id, not on the question index. A one-question queue therefore keeps the finished round after "Next" (`Round.SingleQuestionQueueKeepsRound`).
- GameSetup.StartGame: `setLastSetup` has no caller among the screens, so starting a game keeps the saved setup at its default of 2 players, target 10 and no packs. Play-again from that default therefore starts on an empty queue (`GameOver.PlayAgainFromDefaultSetup`).
- Content: a question object carrying only one of `options` and `correctIndices` counts as canonical in the source; the tagged union `QuestionData` cannot express that shape.
- GameOver.Winner: with no players the source reads the name of an undefined winner and throws; the model returns no winner instead. Setup never builds an empty player list.
- Round.WinCheck: with the player index out of range the screen's current player is undefined and reading its score throws; the model leaves the store unchanged. Turns never move the index out of range.
- Admin.RemovalKeepsMinimum: the minimum is counted on the editor's list, which includes unsaved answers. Five saved and one unsaved correct answer allow deleting a saved one, leaving four stored rows; the model states the rule as the page applies it.
- The seeding script duplicates the legacy split and is not modelled separately.
