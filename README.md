# Quiz round engine — a Dafny model

This project models the round engine of the quiz-voroodi server (`server.js`). The server runs a single-process elimination quiz. Players register with a student id and answer timed four-option questions. Every wrong or missing answer eliminates the player. An administrator drives the rounds and can kick or revive players. A presenter screen and reconnecting players can ask for the current state.

The server's whole state is two mutable globals:
- `gameState`: phase, current question index, time left, alive count, presenter mode and per-question option counts;
- `players`: a dictionary of player records keyed by student id.

In the model, `Engine.Game` is a class holding these two fields, plus `order`, the sequence in which `Object.values(players)` visits the records. Every state-changing handler and admin command is a method on that class. Its postcondition states the new state exactly in terms of the old one. The two read-only handlers, `reconnect_attempt_user` and `presenter_join`, are the functions `Recovery.Reconnect` and `Recovery.PresenterJoin`.

The loops over the roster live in module `Passes`. Each one runs over `order` on a local map. Each is proved to compute a whole-roster function of module `Roster`, and the lemmas of `Roster` state what those functions promise: counts, survival, revival. `Clock` models the timer. `Recovery` models the two read-only payloads, for a reconnecting player and for the presenter.

Modelling choices:
- **Time** is counted in whole tenths of a second. One tick of the loop removes one tenth, floored at zero.
- **Order of the roster.** `order` follows JavaScript's own-property enumeration order: keys that are canonical array indices (up to 2^32 − 2) come first, in ascending numeric order; other keys follow in creation order. Student ids are numerals, so this order decides the order of `recentDeadNames` and of the ids a round revival returns. `Engine.Game.Valid` keeps this ordering as an invariant.
- **Question bank** is the read-only `questions` field.
- **Admin authorization** is a boolean `isAdmin` parameter.
- **Socket binding.** The student id bound to a socket is the `sender` parameter of `SubmitAnswer`.
- **Emits are dropped.** Payloads that are emitted are returned as values: `RevealPacket`, `Pulse`, `ReconnectResult`, `PresenterPacket`, and the revived ids of REVIVE_ROUND (returned by `ReviveLastRound` and by `AdminCommand`).

The model follows the code as written; in particular:
- **Timer.** The timer counts down by one tick per pass of the loop (server.js:53). It does not compare against an absolute deadline.
- **Restarted questions.** Restarting a question overwrites its option counts (server.js:102).
- **Question index.** The current question index is whatever index the admin picks. It is not monotone.
- **Duration.** The duration is `parseInt(d) || 30` seconds (server.js:78), so a negative duration is kept. A question started with one is revealed on the first tick (`Clock.StartingTime`, `Clock.RevealComesOnTime`).
- **Empty student id.** An empty student id can register, because `register` only tests for an existing record. Its answers are ignored, because `submit_answer` tests `!socket.studentId`.

## Model

| member | source | states |
|---|---|---|
| Engine.Game.constructor | server.js:19-28 | The server starts in REGISTRATION with question index -1, no time, alive count 0, presenter view "GAME", no option counts and an empty roster. |
| Engine.Game.GetAliveCount | server.js:71 | Filtering the roster for living records in enumeration order yields exactly the number of living players. |
| Engine.Game.Register | server.js:165-174 | Outside REGISTRATION, and for an id already registered, nothing changes. Otherwise exactly one record is added under that id: alive, no answer, death round -1. Its key lands where JavaScript puts a new key, and the enumeration-order invariant is kept. |
| Engine.Game.SubmitAnswer | server.js:176-182 | An answer is accepted exactly when the phase is QUESTION and the sender is a non-empty, known, living id. It then overwrites only that player's answer, so the latest answer wins. Otherwise nothing changes. |
| Engine.Game.StartQuestion | server.js:73-87 | An out-of-range index changes nothing. Otherwise the phase becomes QUESTION, with that index, the starting time and presenter view "GAME". Every living player's answer is cleared and dead players are untouched. |
| Engine.Game.EndQuestion | server.js:89-127 | The phase becomes REVIEW and this question's option counts are recorded. A living player survives exactly when they answered correctly. Every other living player dies, stamped with this round. The alive count is refreshed, and the reveal packet reports all of this. |
| Engine.Game.ResetGame | server.js:129-141 | The round state is back to its initial value and the roster is empty, so the alive count and the total are both 0. |
| Engine.Game.GameLoopTick | server.js:51-68 | Outside QUESTION nothing changes and nothing is revealed. In QUESTION the time drops by one tenth, floored at 0, and the question is revealed exactly when the time reaches 0. The pulse carries the phase, time, alive count and presenter view after the tick. |
| Engine.Game.Kick | server.js:217-222 | A registered id is deleted from the roster and from the enumeration order. An unknown id changes nothing. The round state is untouched. |
| Engine.Game.RevivePlayerById | server.js:223-224 | Only that player's survival flag is set. Their death round and every other record are kept. |
| Engine.Game.ReviveEveryPlayer | server.js:225-226 | Every record becomes alive and nothing else changes. |
| Engine.Game.ReviveLastRound | server.js:227-230 | Exactly the dead players stamped with the current question index come back. The returned ids are exactly theirs, each once, in enumeration order. |
| Engine.Game.AdminCommand | server.js:210-233 | A non-admin or unknown command changes nothing. Each action has exactly the effect of the operation it calls. END_QUESTION_NOW changes nothing outside QUESTION. TOGGLE_PRESENTER_VIEW changes only the presenter view. No roster command changes the round state. REVIVE_ROUND returns the revived ids in enumeration order; every other command returns none. |
| Engine.RevealPacketFacts | server.js:89-124 | In a reveal, the eliminated count equals the number of names listed and the drop in the alive count. There are four option counts, and their sum is at most the number of living players. The survivors number exactly the count of the correct option. Every eliminated player's name is listed. |
| Engine.RevealKeepsOtherStats | server.js:102 | A reveal writes the counts of the question it closes and keeps every other question's counts. |
| Engine.LaterRoundScenario | server.js:89-124 | Take a round at question 2 with two correct answers, one silent living player and one player who died at question 1 holding that round's stale answer. The reveal eliminates only the silent player, stamping them with round 2, counts 2 for the correct option and leaves the dead record alone. |
| Recovery.Reconnect | server.js:144-163 | An id that is not a key of the roster fails. A key of the roster gets its own record view and the phase and index. The question is attached exactly when one has been started. The correct option is attached exactly when one has been started and the phase is REVIEW. |
| Recovery.PresenterJoin | server.js:184-200 | The packet carries the round state, the roster size, and one name per living player, with every living player's name listed. The question is attached exactly when one has been started. The correct option and the counts are attached only in REVIEW, with the counts `[]` when none were recorded. |
| Clock.StartingTime | server.js:73-78 | A missing or zero duration gives 30 seconds. Any other duration gives exactly that many seconds, in tenths. A negative one gives a negative time. The result is never 0. |
| Clock.TickTime | server.js:53 | A tick never leaves negative time, reaches 0 exactly when at most one tenth was left, and otherwise removes exactly one tenth. |
| Clock.RemainingAfterTicks | server.js:53 | After n ticks the time left is the starting time minus n, floored at 0. |
| Clock.RevealComesOnTime | server.js:51-54 | The auto-reveal fires on tick max(1, t) and on no earlier tick, so a 30-second question fires on its 300th tick. |
| Clock.ChosenDurationRevealsOnTime | server.js:73-78 | A question started with a positive duration of d seconds is revealed on tick 10·d and on no earlier tick. |
| Passes.ClearAnswersPass | server.js:81 | The loop over the roster clears the answers exactly as `Roster.ClearAnswers` does. |
| Passes.TallyPass | server.js:95-100 | The counting loop yields, for each option k in 0..3, the number of living players whose answer is k. Null and out-of-range answers are ignored. |
| Passes.EliminationPass | server.js:92-113 | The elimination loop rewrites the roster as `Roster.EliminateAll`. Its counter equals the number of living players without the correct answer. The names it collects are theirs, in enumeration order. |
| Passes.ReviveAllPass | server.js:226 | The loop sets every record alive, as `Roster.ReviveEveryone`. |
| Passes.ReviveRoundPass | server.js:228-229 | The loop revives as `Roster.ReviveRoundOf`. It collects the revived ids in enumeration order, as many as there are dead players stamped with that round. |
| Roster.InsertKey | server.js:168 | A new key joins the enumeration order and no key is lost. The keys already there keep their relative order, and a key that is not an array index goes last. Distinctness and the array-index-first ordering are kept. |
| Roster.Without | server.js:219 | Deleting a key removes exactly that key from the order, and the remaining keys keep their relative order. Distinctness and the array-index-first ordering are kept. |
| Roster.InsertThenDelete | server.js:219 | Deleting a key right after creating it restores the enumeration order, so creating a key never reorders the keys already there. |
| Roster.Gather | server.js:71 | Filtering in enumeration order returns only records that pass the filter, never more than there are keys. |
| Roster.GatherHasAll | server.js:71 | The filter misses no record: every key in the order whose record passes has that record returned. |
| Roster.GatheredIds | server.js:228-229 | Over the roster, whose records carry their own key as student id, the ids of the filtered records are exactly the matching ids, each once, in enumeration order. |
| Roster.GatheredRecords | server.js:104-113 | The filtered records are exactly the records of the matching ids: each matching record is returned, and each returned record is the one stored under its own id. |
| Roster.GatherCount | server.js:71 | Over a duplicate-free order, the filter returns exactly as many records as there are matching ids. |
| Roster.GatherSelect | server.js:71 | Filtering along the enumeration order counts exactly the matching records of the dictionary. |
| Roster.ClearAnswers | server.js:81 | Living players lose their answer. Dead players and every other field are untouched. |
| Roster.EliminateAll | server.js:104-113 | A record is alive afterwards exactly when it was alive with the correct answer. The newly dead are stamped with the round. Already-dead records and survivors are unchanged. |
| Roster.ReviveEveryone | server.js:226 | Every record is alive, with nothing else changed. |
| Roster.ReviveRoundOf | server.js:229 | A record is alive afterwards exactly when it was alive or died in that round. Only the survival flag changes. |
| Roster.TalliesWithinAlive | server.js:95-100 | The four option counts sum to at most the number of living players. |
| Roster.SurvivorsAnsweredCorrectly | server.js:104-115 | The survivors of a reveal are exactly the living players who chose the correct option. |
| Roster.AliveSplit | server.js:104-106 | The living split into those who chose option c and those who did not. |
| Roster.EliminatedIsAliveDrop | server.js:109-115 | The number eliminated is the drop in the alive count. |
| Roster.ClearedRosterHasNoAnswers | server.js:81 | Starting a question keeps survival as it was and leaves every option count at 0. |
| Roster.ReviveEveryoneCount | server.js:226 | After REVIVE_ALL the alive count is the roster size. |
| Roster.ReviveRoundCount | server.js:229 | REVIVE_ROUND adds exactly the players stamped with that round to the living. |
| Roster.ReviveRoundUndoesReveal | server.js:227-229 | If no dead player was stamped with the round before its reveal, REVIVE_ROUND right after it restores every survival flag. |
| Roster.RegisterAddsOneLiving | server.js:168 | Registering adds the new id to the living and raises the alive count by one. |
| Roster.KickRemovesOne | server.js:218-219 | Kicking removes the id from the living and lowers the alive count by one exactly when the player was alive. |
| Roster.AnswerRecounted | server.js:181 | An accepted answer puts its sender into the count of the chosen option and out of every other option's count. Survival is unchanged. |

## Left out

- Express routes, `server.listen` and the socket.io rooms are transport. Of the emitted payloads, only those listed at the top are returned. The two `error_msg` replies of `register` are the results `GameStarted` and `AlreadyRegistered`. These are not modelled:
  - `new_question` (server.js:86): index, text, options and total time, never the correct option;
  - `stats_update` (server.js:173);
  - `player_revived` for one player and for all (server.js:224, 226);
  - `admin_data` (server.js:206, 232, 237) and `presenter_data` (server.js:242);
  - the bare signals `system_reset` (server.js:140) and `force_disconnect` (server.js:221).
- `saveState` and the start-up load from `game-state.json` are file I/O and JSON parsing.
- `setTimeout` and the 100 ms / 500 ms cadence are scheduling. Only one pass of `gameLoop` is modelled.
- Floating-point time and `toFixed(1)` are not modelled. Time is a whole number of tenths, so the drift of repeated `- 0.1` is not captured.
- Clock.RevealComesOnTime and Clock.ChosenDurationRevealsOnTime: the tick they name is the tick of the exact countdown. With the server's binary floating-point arithmetic, repeated `- 0.1` leaves a small positive remainder for some durations, so 1, 5, 10 and 15-second questions are revealed one tick later (ticks 11, 51, 101 and 151), while a 30-second question is revealed on tick 300.
- `admin_auth`, `request_admin_data` and `request_presenter_data` authenticate or resend snapshots and change no state. Admin rights are the `isAdmin` flag.
- Binding `socket.studentId` in `register` and `reconnect_attempt_user`, and finding the kicked player's socket, are socket state. They are modelled only through `SubmitAnswer`'s `sender` parameter.
- Engine.Game.SubmitAnswer: answers are integers. The server stores whatever value arrives (a string, a fraction, `undefined`), and the tally and the elimination compare those with `<`, `>=` and `!==`. Those cases are not modelled.
- Engine.Game.StartQuestion: the index is assumed to be an integer. An admin index that is `undefined`, `NaN` or a non-numeric string passes both range tests of `startQuestion` (both comparisons are false), so the server enters QUESTION with that index, clears the answers and saves, and then throws when it reads `QUESTIONS[index].text`. That path, which leaves the server in a state outside `Engine.Game.Valid`, is not modelled.
- Clock.StartingTime: the argument is the value `parseInt` returns (`None` for NaN). The string parsing itself is not modelled.
- Engine.Game.Register: an id is registered exactly when it is a key of the roster map. A JavaScript object also answers truthily for inherited names such as `constructor`, and that case is not modelled.
- Recovery.Reconnect: the same `players[id]` test guards `reconnect_attempt_user` (server.js:145), `KICK_PLAYER` (server.js:218) and `REVIVE_PLAYER` (server.js:224), and the model reads each as "is a key of the roster". For an inherited name the server differs. Reconnecting as `constructor` succeeds with the `Object` function as the player record, where the model fails. `KICK_PLAYER "constructor"` disconnects a socket bound to that id. `REVIVE_PLAYER "__proto__"` sets `isAlive` on `Object.prototype`. Inherited names are not modelled (this also applies to `Engine.Game.Kick` and `Engine.Game.RevivePlayerById`).
- Recovery.PresenterJoin: `alivePlayers` is the names of the in-order filter for living records. Its contract states the count and that every living player's name is listed. Which record each name belongs to, and in what order, follows from `Roster.GatheredRecords` and `Roster.GatheredIds`; it is not restated in terms of names, because names need not be distinct.
- test-bots.js is a random load-testing client. tools/editor.js is a file editor for the question bank. Neither has round logic.
