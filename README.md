# Bridge and torch: a verified model of the game's logic

The game is the bridge-and-torch puzzle. Between two and ten players, each with a crossing time, must get across a bridge at night. At most two cross at a time. The pair carries the one torch and walks at the slower player's pace. Someone has to bring the torch back after each crossing. The player wins by matching the optimal total time.

The model covers the three pieces of logic in the repository:

- **`GameLogic`** (src/gameLogic.js) is the optimal-time calculator, the player-id counter and the colour table.
  - `ComputeOptimalTime` is the calculator's loop, written as a method. It is proved equal to a recursive specification, `OptimalTime` (sort the times, then `Greedy` over the sorted times).
  - The calculator's promises are proved about that specification as lemmas: the base cases, independence from player order, the lower bound, monotonicity, and the worked examples.
  - The sort is an insertion sort in its own module, **`Sorting`**. It is proved sorted, a permutation, and the only sorted permutation.
  - `IdSource` is the `uid` counter.
- **`GameScreen`** (src/components/GameScreen.jsx) is the turn state machine, the class `Game`.
  - Its fields are the banks, the torch, the elapsed time, the phase, the selection, the people on the bridge and the move log.
  - Its methods are the click handlers (`ToggleSelect`, `ConfirmCross`, `ConfirmReturn`) and the steps that end an animation (`FinishCross`, `FinishReturn`).
  - Each method is tied to a pure step on a value view of the state (`View`). One lemma per step proves that the step keeps the invariant `Inv`. That invariant says:
    - every player is counted exactly once across the two banks and the bridge;
    - `elapsed` is the sum of the logged costs;
    - the selection is duplicate-free, holds at most two, and is drawn from the selectable bank;
    - each phase fixes where the torch is and who is on the bridge.
- **`SetupScreen`** (src/components/SetupScreen.jsx) is the roster form, the class `Roster`.
  - The form can add, remove and edit rows. `Valid` keeps it between two and ten rows with distinct, issued ids.
  - `CanStart` is the start check and `HandleStart` is the normalisation into the players the game receives. They rest on a model of the string trim of JavaScript.
  - `ClampTime` is the time input's clamp.

The calculator gives 11 for the times 1, 2, 3, 4: one round of min(9, 9), then 2 for the last pair (`GameLogic.OneToFourGives11`).

## Model

| member | source | states |
|---|---|---|
| Sorting.Insert | src/gameLogic.js:9 | inserting into a sorted sequence gives a sorted sequence with exactly one more occurrence of the value |
| Sorting.SortAscending | src/gameLogic.js:9 | the ascending sort is sorted and a permutation of its input |
| Sorting.SortedUnique | src/gameLogic.js:9 | two sorted sequences with the same multiset of values are equal |
| Sorting.SortOfSorted | src/gameLogic.js:9 | sorting an already ascending sequence changes nothing |
| Sorting.SortDependsOnMultisetOnly | src/gameLogic.js:9 | two inputs sort to the same result exactly when one is a permutation of the other |
| Sorting.SortAppendLargest | src/gameLogic.js:9 | appending a value no smaller than every element appends it to the sorted result |
| GameLogic.RoundCost | src/gameLogic.js:20-22 | one round costs the cheaper of the two strategies: the two fastest ferry the torch, or the fastest escorts each of the two slowest |
| GameLogic.Greedy | src/gameLogic.js:19-30 | rounds on the two slowest while more than 3 remain, then the 3- or 2-person tail; with sorted positive times the total is at least the slowest time in play |
| GameLogic.OptimalSorted | src/gameLogic.js:12-30 | the answer for ascending times: the one time alone, or the rounds and tail; with positive times it is at least the slowest time |
| GameLogic.OptimalTime | src/gameLogic.js:9-32 | the answer for times in any order is the answer for their ascending sort; with positive times it is positive |
| GameLogic.ComputeOptimalTime | src/gameLogic.js:8-33 | the loop's total equals `OptimalTime` of the players' times: the base cases, then rounds of the cheaper strategy on the two slowest while more than 3 remain, then the 2- or 3-person tail; the loop leaves exactly 2 (even count) or 3 (odd count); the caller's array is not modified |
| GameLogic.SinglePlayer | src/gameLogic.js:12 | one player takes their own time |
| GameLogic.TwoPlayers | src/gameLogic.js:13 | two players take the larger of the two times |
| GameLogic.ThreePlayers | src/gameLogic.js:14 | three players take the sum of their times, in any order |
| GameLogic.ThreeTimes | src/gameLogic.js:14 | for any three times the answer is their sum |
| GameLogic.OrderIrrelevant | src/gameLogic.js:9 | the answer depends only on the multiset of times |
| GameLogic.TimesOfPermutation | src/gameLogic.js:9 | reordering the players reorders their times and nothing more |
| GameLogic.PlayerOrderIrrelevant | src/gameLogic.js:9 | any reordering of the players gives the same optimal time |
| GameLogic.AtLeastEveryTime | src/gameLogic.js:12-30 | with positive times the answer is at least every player's time |
| GameLogic.SlowestBoundsOptimum | src/components/GameScreen.jsx:25 | players with positive times give an optimum at least each player's own time |
| GameLogic.GreedyAppend | src/gameLogic.js:19-30 | the recursion over the first r times ignores anything after them |
| GameLogic.GreedyGrows | src/gameLogic.js:19-30 | with sorted positive times, one more person in play never lowers the total |
| GameLogic.SortKeepsPositive | src/gameLogic.js:9 | sorting keeps all times positive |
| GameLogic.AddSlowestNeverFaster | src/gameLogic.js:8-33 | adding a player at least as slow as everyone never lowers the optimal time |
| GameLogic.AddSlowestToGroup | src/gameLogic.js:16-30 | the same for groups of two or more |
| GameLogic.GreedyOfSorted | src/gameLogic.js:9-24 | from two players on, the answer is the recursion over the sorted times |
| GameLogic.SortedAddSlowest | src/gameLogic.js:19-30 | on sorted positive times, a slowest extra person never lowers the total |
| GameLogic.DefaultTimesGive17 | src/gameLogic.js:19-30 | times 1, 2, 5, 10 give 17: one round of min(15, 17), then 2 |
| GameLogic.OneToFourGives11 | src/gameLogic.js:19-30 | times 1, 2, 3, 4 give 11: one round of min(9, 9), then 2 |
| GameLogic.IdSource.constructor | src/gameLogic.js:36 | the counter starts at 0 with no id issued |
| GameLogic.IdSource.Next | src/gameLogic.js:37-39 | each call raises the counter by exactly 1 and returns its new value, which was never issued before |
| GameLogic.ColorFor | src/gameLogic.js:42-46 | every roster position gets an entry of the 10-colour table, the i-th entry for the first ten |
| GameScreen.WithoutCount | src/components/GameScreen.jsx:56 | filtering drops every occurrence of the removed ids and keeps the count of every other id |
| GameScreen.DistinctCount | src/components/GameScreen.jsx:16 | in a duplicate-free sequence every id occurs once or not at all |
| GameScreen.WithoutKeeps | src/components/GameScreen.jsx:56 | the filter keeps exactly the ids not removed, never lengthens, and keeps ids distinct |
| GameScreen.StepOntoBridge | src/components/GameScreen.jsx:51-56 | moving the selected pair from the left bank onto the bridge keeps everyone counted once |
| GameScreen.StepBackOntoBridge | src/components/GameScreen.jsx:88-92 | moving the returner from the right bank onto the bridge keeps everyone counted once |
| GameScreen.StepOffRight | src/components/GameScreen.jsx:58-62 | those on the bridge joining the right bank keeps everyone counted once |
| GameScreen.StepOffLeft | src/components/GameScreen.jsx:95-98 | those on the bridge joining the left bank keeps everyone counted once |
| GameScreen.TogglePair | src/components/GameScreen.jsx:32-39 | a selected id is removed and the rest kept; an unselected id is appended while fewer than two are selected, otherwise nothing changes; the selection stays duplicate-free with at most two |
| GameScreen.ResultRating | src/components/GameScreen.jsx:134-141 | "Perfect" exactly when elapsed equals the optimum; "very close" exactly when it is not perfect and within 20%; never a tip below the optimum |
| GameScreen.PeopleOf | src/components/GameScreen.jsx:26 | the id table maps each player's id to that player, and every entry sits under its own id |
| GameScreen.RosterOfPlayers | src/components/GameScreen.jsx:26 | a roster of two or more with distinct ids gives an id table whose keys are exactly the roster's ids |
| GameScreen.Start | src/components/GameScreen.jsx:16-24 | the start has every player on the left bank with the torch, nobody on the right or the bridge, nothing selected or logged, and no time elapsed |
| GameScreen.Toggled | src/components/GameScreen.jsx:31-43 | only the selection changes: in select-pair the id ends up selected exactly when it was not and fewer than two were; in select-return the selection becomes that id; in any other phase nothing changes |
| GameScreen.CrossConfirmed | src/components/GameScreen.jsx:46-57 | with exactly two selected, they become those on the bridge, the left bank keeps exactly its other players, the phase becomes crossing and nothing else changes; otherwise nothing changes |
| GameScreen.CrossFinished | src/components/GameScreen.jsx:58-79 | the pair joins the right bank, the slower of their two times is added to elapsed and logged as a crossing, bridge and selection empty, the torch goes right, and the phase is done exactly when the left bank is empty |
| GameScreen.ReturnConfirmed | src/components/GameScreen.jsx:83-93 | with exactly one selected, that player goes onto the bridge, the right bank keeps exactly its other players, the phase becomes returning and nothing else changes; otherwise nothing changes |
| GameScreen.ReturnFinished | src/components/GameScreen.jsx:94-106 | the returner joins the left bank, their time is added to elapsed and logged as a return, bridge and selection empty, the torch goes left, and the phase is select-pair |
| GameScreen.StartInv | src/components/GameScreen.jsx:16-24 | the starting state (everyone left with the torch, nothing selected or logged) satisfies the invariant |
| GameScreen.ToggleKeepsInv | src/components/GameScreen.jsx:31-43 | selecting a player on the selectable bank keeps the invariant |
| GameScreen.CrossConfirmedKeepsInv | src/components/GameScreen.jsx:46-57 | starting a crossing keeps the invariant |
| GameScreen.BridgeInRoster | src/components/GameScreen.jsx:28 | everyone on the bridge is in the id table, so their time and name can be looked up |
| GameScreen.CrossFinishedKeepsInv | src/components/GameScreen.jsx:58-79 | ending a crossing keeps the invariant; the phase becomes done exactly when the left bank is empty, and then everyone is on the right bank |
| GameScreen.ReturnConfirmedKeepsInv | src/components/GameScreen.jsx:83-93 | starting a return keeps the invariant |
| GameScreen.ReturnFinishedKeepsInv | src/components/GameScreen.jsx:94-106 | ending a return keeps the invariant |
| GameScreen.Game.constructor | src/components/GameScreen.jsx:16-26 | the game starts with everyone on the left bank and the torch there; the id table maps each id to its player; the optimum is the calculator's answer |
| GameScreen.Game.ToggleSelect | src/components/GameScreen.jsx:31-43 | in select-pair the selection is toggled, in select-return it becomes exactly that id, otherwise nothing changes; the invariant is kept |
| GameScreen.Game.ConfirmCross | src/components/GameScreen.jsx:46-57 | with exactly two selected, they go onto the bridge, leave the left bank, and the phase becomes crossing; otherwise nothing changes; the invariant is kept |
| GameScreen.Game.FinishCross | src/components/GameScreen.jsx:58-79 | the pair joins the right bank, the larger time is added to elapsed and logged, the torch is right, bridge and selection are empty, and the phase is done exactly when the left bank is empty, when everyone is across; the invariant is kept |
| GameScreen.Game.ConfirmReturn | src/components/GameScreen.jsx:83-93 | with exactly one selected, that player goes onto the bridge and leaves the right bank, and the phase becomes returning; otherwise nothing changes; the invariant is kept |
| GameScreen.Game.FinishReturn | src/components/GameScreen.jsx:94-106 | the returner joins the left bank, their time is added to elapsed and logged, the torch is left, bridge and selection are empty, and the phase is select-pair; the invariant is kept |
| GameScreen.Game.Rating | src/components/GameScreen.jsx:134-137 | once done, the rating is "Perfect" exactly when the elapsed time equals the optimum |
| SetupScreen.LoadDefaults | src/components/SetupScreen.jsx:4-9 | the default roster is Alice 1, Bob 2, Charlie 5 and Dave 10, with four fresh consecutive ids from the counter |
| SetupScreen.Defaults | src/components/SetupScreen.jsx:4-9 | four rows with distinct ids, well formed once the counter has issued them |
| SetupScreen.WithoutId | src/components/SetupScreen.jsx:21 | the filter never lengthens the roster |
| SetupScreen.WithoutIdMembers | src/components/SetupScreen.jsx:21 | the filter keeps exactly the rows whose id differs |
| SetupScreen.WithoutAbsentId | src/components/SetupScreen.jsx:21 | removing an id that no row has changes nothing |
| SetupScreen.WithoutPresentId | src/components/SetupScreen.jsx:21 | with distinct ids, removing the id of row k deletes exactly that row and keeps the order of the others |
| SetupScreen.DeleteKeepsIds | src/components/SetupScreen.jsx:21 | deleting one row keeps the ids distinct and issued |
| SetupScreen.RemoveFromRoster | src/components/SetupScreen.jsx:19-22 | on a roster with distinct ids, removal deletes one row exactly when the id is present, and keeps the ids distinct and issued |
| SetupScreen.Apply | src/components/SetupScreen.jsx:26 | an edit never changes a row's id |
| SetupScreen.Updated | src/components/SetupScreen.jsx:24-28 | an edit keeps the length and every row's id in place |
| SetupScreen.UpdateTouchesOneRow | src/components/SetupScreen.jsx:24-28 | with distinct ids, an edit changes only the named field of the one row with that id; an unknown id changes nothing |
| SetupScreen.UpdateKeepsIds | src/components/SetupScreen.jsx:24-28 | an edit keeps the roster between two and ten rows with distinct, issued ids |
| SetupScreen.ClampTime | src/components/SetupScreen.jsx:92-94 | the entered time is at least 1: a parsed value of 1 or more is kept, and anything else (unparseable, zero, negative) becomes 1 |
| SetupScreen.FormEditsKeepTimesPositive | src/components/SetupScreen.jsx:92-94 | edits made through the form keep every time at least 1 |
| SetupScreen.Roster.constructor | src/components/SetupScreen.jsx:12 | the form starts out holding the given (default) roster |
| SetupScreen.Roster.AddPlayer | src/components/SetupScreen.jsx:14-17 | at ten rows nothing changes; otherwise exactly one row with an empty name, time 1 and a fresh id is appended; two to ten rows with distinct ids are kept |
| SetupScreen.Roster.RemovePlayer | src/components/SetupScreen.jsx:19-22 | at two rows or fewer nothing changes; otherwise the row with that id goes; two to ten rows with distinct ids are kept |
| SetupScreen.Roster.Update | src/components/SetupScreen.jsx:24-28 | the edit is applied to the row with that id; the roster stays well formed |
| SetupScreen.TrimStart | src/components/SetupScreen.jsx:30 | drops exactly the leading white space: the result is a suffix that is empty or starts with a visible character, and everything dropped is white space |
| SetupScreen.TrimEnd | src/components/SetupScreen.jsx:30 | drops exactly the trailing white space |
| SetupScreen.IsSpace | src/components/SetupScreen.jsx:30 | the white space and line terminators that string trim removes; letters and digits are never among them |
| SetupScreen.Trim | src/components/SetupScreen.jsx:30 | the trimmed name is a contiguous slice of the name with only white space before and after it; it is empty exactly when the name is all white space, and otherwise starts and ends with a visible character |
| SetupScreen.TrimsAreSlices | src/components/SetupScreen.jsx:30 | cutting the leading and then the trailing white space leaves such a slice, empty exactly when the name is all white space |
| SetupScreen.CanStart | src/components/SetupScreen.jsx:30 | the game can start exactly when every name has a visible character and every time is positive |
| SetupScreen.Normalised | src/components/SetupScreen.jsx:35-41 | normalising keeps one player per row |
| SetupScreen.HandleStart | src/components/SetupScreen.jsx:32-42 | players are handed over exactly when the roster can start; they keep the length, order, ids and times, with trimmed non-empty names and colour i mod 10 of the table |
| SetupScreen.StartedRosterFitsGame | src/components/SetupScreen.jsx:32-42 | a well-formed roster that can start gives the game two or more players with distinct ids and positive times, whose optimum is at least every player's time |
| SetupScreen.NormalisedFitsGame | src/components/SetupScreen.jsx:35-40 | normalising a well-formed roster with positive times gives such players |
| SetupScreen.VisibleInitialsCanStart | src/components/SetupScreen.jsx:30 | names that begin with a visible character and positive times pass the start check |
| SetupScreen.DefaultsCanStart | src/components/SetupScreen.jsx:4-9 | the default roster passes the start check |
| SetupScreen.NormalisedKeepsTimes | src/components/SetupScreen.jsx:38 | normalising gives one time per row, each row's time in its place |
| SetupScreen.StartWithClassicTimes | src/components/SetupScreen.jsx:32-42 | a startable roster of four with times 1, 2, 5, 10 in that order has optimum 17 |
| SetupScreen.DefaultsStartAt17 | src/components/SetupScreen.jsx:4-9 | the default roster can start and its optimal time is 17 |

## Left out

- Rendering is not modelled: the JSX, CSS classes, player tokens, the random star positions and everything `App.jsx` does to switch screens. None of it changes the game's state.
- Timers and animation are not modelled. `ANIM_DURATION`, `setTimeout` and the 50 ms phase delays are gone. Each timeout body is its own step (`FinishCross`, `FinishReturn`), and that step also sets the phase that the 50 ms delay would have set.
- GameScreen.Game.FinishCross: the short window where the bridge is already empty but the phase still reads "crossing" is not modelled, because of that collapsed delay.
- GameScreen.Game.ConfirmCross requires the select-pair phase. The confirm button is only shown in that phase, so the handler never runs in another.
- GameScreen.Game.ConfirmReturn requires the select-return phase, for the same reason.
- GameScreen.Game.ToggleSelect requires the id to be on the selectable bank. Clicks are only wired to the tokens there (`leftSelectable`/`rightSelectable`).
- The `animDir` field is kept and set, but it only steers the animation, so it is not part of the invariant.
- GameScreen.ResultRating: the threshold `elapsed <= opt * 1.2` is a floating-point comparison. It is written over integers as `5 * elapsed <= 6 * optimal`, which is not bit-exact to JavaScript. The emoji and message texts are not modelled.
- GameLogic.ComputeOptimalTime requires at least one player. With none, the JavaScript adds `undefined` and returns `NaN`. Every caller passes two to ten players.
- Global optimality of the calculator's answer against every legal sequence of moves is not proved. The source only claims it in a comment. The loop is proved equal to its recursive definition, and properties of that definition are proved.
- GameLogic.IdSource: ids are modelled as the counter's integer, not as the `player-n` strings.
- JavaScript numeric coercion is not modelled. This covers `Number(p.time)` in `handleStart` (`p.time` is already a number) and `+e.target.value || 1`. The latter is modelled by `ClampTime` on a parsed value, where `None` stands for input that does not parse. Fractional input is not modelled.
- The `min="1"`/`max="99"` attributes of the time input are browser hints. The handler does not cap at 99, so neither does the model.
- The numeric sort, done in place on a fresh copy, is modelled as a function on sequences (`Sorting.SortAscending`). This is enough because the copy is never shared.
- `DEFAULT_PLAYERS` is a module-level constant that draws four ids when the module loads. It is modelled as `LoadDefaults` drawing them from the counter once, and the form is constructed from its result.
- `onStart` hands the players to the app, which builds the game screen. The model gives the players as `HandleStart`'s result, and `StartedRosterFitsGame` proves that they meet the `Game` constructor's requirements.
