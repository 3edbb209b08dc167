# Birthday quiz: the room and game engine in Dafny

This project models the room and game engine of the birthday quiz server
(`server/src/game.ts`), and proves properties of it. A host creates a room under
a six-digit code. Players join it under de-duplicated user names and answer a
fixed sequence of timed multiple-choice questions. The engine scores each
answer with a linear time decay, advances the question index, and derives the
current question view, the per-question results and the leaderboard.

Layout, one module per file:

- `types.dfy` (`Types`): the records of `server/src/types.ts`. These are
  `Question`, `Player`, `Answer`, the settings, `LeaderboardEntry` and
  `QuestionResults`. `Option` stands for `null`/`undefined`.
- `collections.dfy` (`Collections`): a JavaScript `Map` is modelled as a Dafny
  `map` together with its key iteration order, a `seq` without duplicates.
  `Without` is what `Map.delete` does to that order.
- `text.dfy` (`Text`): `trim`, `substring(0, n)`, ASCII `toLowerCase` and the
  decimal rendering of a non-negative integer, with its round trip.
- `scoring.dfy` (`Scoring`): `calculateScore` in linear mode, on exact reals.
  `Math.round(x)` is `floor(x + 0.5)`.
- `ranking.dfy` (`Ranking`): the stable descending sort behind `getLeaderboard`.
  Stability is characterised by the sub-list of each score being unchanged, and
  that characterisation is proved to determine the result uniquely.
- `game.dfy` (`Game`): the class `Room`, whose methods update its fields in
  place. It also holds the value-level invariant of a room's player table and
  the lemmas about it.
- `store.dfy` (`Store`): the class `RoomStore`, which holds the `rooms` map,
  `generateRoomCode`, `createRoom`, `getRoom` and `deleteRoom`.

`Room.Valid()` is the invariant every room operation keeps. The key order lists
every player exactly once, and every record is stored under its own id. The
question index is at least -1. The settings are the defaults. For every player:

- the score is the sum of the points of its answers;
- its answers are for questions 0 up to the current index, in strictly
  increasing order, so there is at most one answer per question;
- no answer has negative points;
- an answer to the current question implies `hasAnswered`.

`Date.now()` is the parameter `now` of the operations that read the clock. The
`Math.random()` values drawn by `generateRoomCode` are the parameter `draws`.

Behaviour of the code that the model keeps:

- A blank name falls back to `Oyuncu` without de-duplication, so user names are
  not always unique in a room (`Game.FallbackIsNotDeduplicated`).
- `questionStartTime` is never cleared after a question closes. It is also
  tested for truthiness, so a start time of 0 counts as missing.
- An empty question list is accepted by `createRoom`; the first `nextQuestion`
  then finishes the game.
- `host:start-game` (server/src/index.ts) does not check that the room is still
  in the lobby.

## Model

| member | source | states |
|---|---|---|
| Collections.Without | server/src/game.ts:117 | deleting a key removes exactly that key from the iteration order, keeps the order free of duplicates, and is a no-op when the key is absent |
| Collections.WithoutAppend | server/src/game.ts:117 | removing a key from two concatenated parts removes it from each and keeps the parts in order |
| Collections.WithoutSingleton | server/src/game.ts:117 | a single key is dropped exactly when it is the deleted one; with `WithoutAppend`, every other key stays, in its original order |
| Text.Trim | server/src/game.ts:64 | the trimmed name neither starts nor ends with white space, and is empty exactly when the name is all white space |
| Text.TrimIsSlice | server/src/game.ts:64 | the trimmed name is a contiguous part of the name with only white space before and after it, so with `Trim`'s contract it is the name minus the white space at both ends |
| Text.Take | server/src/game.ts:64 | `substring(0, n)` is the prefix of length min(length, n) |
| Text.Lower | server/src/game.ts:67-69 | lower-casing keeps the length and maps each character on its own, ASCII capitals to small letters |
| Text.DecimalString | server/src/game.ts:78-81 | the rendering of a number as text is a non-empty string of digits that starts with 0 only for the number 0 |
| Text.ParseDecimalString | server/src/game.ts:30 | reading back the decimal rendering of n gives n |
| Text.DecimalStringInjective | server/src/game.ts:78 | different suffix numbers render as different strings |
| Text.DecimalStringLength | server/src/game.ts:30 | a number with k digits renders as exactly k characters |
| Text.LowerAppendDigits | server/src/game.ts:78 | lower-casing the name with its suffix is the lower-cased name followed by the same digits |
| Scoring.Round | server/src/game.ts:148 | `Math.round` gives the integer r with r ≤ x + 0.5 < r + 1 |
| Scoring.Clamp | server/src/game.ts:135 | the elapsed time is clamped into [0, timeLimit]: kept when inside, 0 when at or below 0, the limit when at or above it |
| Scoring.LinearMultiplier | server/src/game.ts:136-142 | the multiplier lies in [0.5, 1], is 1 at or before time 0 and 0.5 at or after the limit |
| Scoring.LinearScore | server/src/game.ts:126-149 | 0 for a wrong answer; maxPoints for elapsed ≤ 0; round(maxPoints·0.5) for elapsed ≥ limit; otherwise between round(maxPoints·0.5) and maxPoints, and never negative for non-negative points |
| Scoring.LinearScoreExample | server/src/game.ts:126-149 | a correct answer after 4 of 20 seconds on a 1000-point question earns 900; a wrong one earns 0 |
| Scoring.LinearScoreMonotone | server/src/game.ts:133-148 | a later answer never earns more: the score is non-increasing in the elapsed time |
| Ranking.InsertSorted | server/src/game.ts:215 | inserting a player into a list sorted by descending score keeps it sorted |
| Ranking.InsertWithScore | server/src/game.ts:215 | inserting a player puts it in front of the players with its own score and changes no other score's sub-list |
| Ranking.SortByScore | server/src/game.ts:212-215 | the sorted copy is a permutation of the players, sorted by descending score, and keeps players of equal score in their original order |
| Ranking.Entries | server/src/game.ts:217-223 | the entry at position i carries the i-th ranked player's fields and rank i + 1 |
| Ranking.StableSortUnique | server/src/game.ts:215 | any two lists that are sorted by descending score and agree on every score's sub-list are equal, so the stable sort has exactly one result |
| Game.Normalize | server/src/game.ts:64-65 | the normalised name has at most 20 characters and is empty exactly when the input is all white space |
| Game.NormalizeIsTrimmedPrefix | server/src/game.ts:64 | the normalised name is the first min(20, length) characters of the trimmed name, which is the name minus the white space at both ends |
| Game.SuffixedStep | server/src/game.ts:77-80 | each suffix tried by the loop is a new name, different from all earlier candidates |
| Game.ValidatedNameIsUnique | server/src/game.ts:63-82 | the three outcomes (fallback, unchanged name, smallest free suffix) determine at most one name |
| Game.ValidatedNameIsFresh | server/src/game.ts:72-81 | outside the fallback the validated name does not clash case-insensitively with any existing name |
| Game.FallbackIsNotDeduplicated | server/src/game.ts:65 | a blank name joining a room that already has an `Oyuncu` is given `Oyuncu` again |
| Game.AnswersBelowOrdered | server/src/game.ts:180-186 | valid answers are for questions 0 to the bound, in strictly increasing order, with non-negative points |
| Game.TotalPointsNonNegative | server/src/game.ts:188 | the sum of the recorded points is never negative |
| Game.TableFacts | server/src/game.ts:180-190 | in a valid table, every score equals the sum of the player's recorded points and is non-negative, and no question is answered twice |
| Game.TableAdvance | server/src/game.ts:257 | incrementing the question index keeps every player record valid |
| Game.TableReset | server/src/game.ts:265-268 | resetting the per-question fields while opening the next index keeps every record valid |
| Game.FinishKeepsInvariant | server/src/game.ts:257-262 | finishing the game keeps the room invariant at the incremented index |
| Game.OpenKeepsInvariant | server/src/game.ts:264-271 | opening the next question keeps the room invariant, and afterwards nobody has answered, so all-answered holds exactly for an empty room |
| Game.ResetAll | server/src/game.ts:265-268 | the `forEach` loop resets `hasAnswered` and `lastQuestionScore` of every player, with the keys and all other fields unchanged |
| Game.NewPlayer | server/src/game.ts:100-109 | a new record carries the socket id and the name, is connected, has not answered, and is valid at every question index |
| Game.Answered | server/src/game.ts:180-190 | recording an answer appends exactly that answer, marks the player as answered with that question score, and keeps the score in step with the sum of the answers' points |
| Game.ResetForQuestion | server/src/game.ts:266-267 | opening a question clears `hasAnswered` and the question score, keeps answers and score, and turns a record valid at the previous index into one valid at the new index |
| Game.NotAnsweredIsUnanswered | server/src/game.ts:160-163 | a valid record not marked as answered holds answers only for earlier questions, so the `hasAnswered` check rules out a second answer |
| Game.AnsweredValid | server/src/game.ts:180-190 | recording one answer for the current question, which the player had not answered, keeps the record valid |
| Game.FindAnswer | server/src/game.ts:232-234 | `find` yields nothing exactly when no answer has the index, and otherwise an answer with that index |
| Game.FindFirst | server/src/game.ts:232-234 | `find` yields the first answer with the index |
| Game.ResultOf | server/src/game.ts:240-245 | a player without an answer to the question gets no selection, not correct and 0 points; otherwise the fields of its first answer for that index |
| Game.CountSelecting | server/src/game.ts:236-238 | a counter never exceeds the number of players |
| Game.CountSelectingStep | server/src/game.ts:236-238 | visiting one more player adds one to option k exactly when that player selected k |
| Game.TallyAnswers | server/src/game.ts:229-246 | one result line per player in iteration order, and for each option the number of players whose answer selected it |
| Game.ViewOf | server/src/game.ts:200-207 | the view copies the id, text, options, time limit, points and image of the question |
| Game.ElapsedSeconds | server/src/game.ts:170 | the elapsed time in seconds is the millisecond difference divided by 1000, and non-negative when the clock has not gone back |
| Game.ViewHidesCorrectIndex | server/src/game.ts:196-208 | the view determines every field of the question except the correct index, and reveals nothing about that one |
| Game.Room.constructor | server/src/game.ts:37-47 | a new room is in the lobby with index -1, no players, no start time and the default settings |
| Game.Room.PlayerList | server/src/game.ts:212 | the players in map iteration order |
| Game.Room.PlayerCount | server/src/game.ts:281-283 | the player count equals the number of keys in iteration order |
| Game.Room.GetPlayer | server/src/game.ts:121-123 | found exactly when the id is a key, and then the record stored under it, whose id is that key |
| Game.Room.ExistingNames | server/src/game.ts:68-70 | the taken names are exactly the lower-cased names of the room's players |
| Game.Room.ValidateUsername | server/src/game.ts:63-82 | the suffix loop returns the fallback, the unchanged name, or the name with the smallest free suffix from 2 upwards |
| Game.Room.AddPlayer | server/src/game.ts:85-113 | refuses, with no change, exactly when the room is full or has left the lobby without late joins; otherwise stores under the socket id a fresh record with the validated name, zero scores, no answers, connected and not answered |
| Game.Room.RemovePlayer | server/src/game.ts:116-118 | deletes only the given key, and is a no-op when it is absent |
| Game.Room.SetPlayerConnected | server/src/game.ts:286-295 | changes only the connectivity of the given player, and nothing when it is absent |
| Game.Room.ReconnectPlayer | server/src/game.ts:298-313 | null and no change for an absent id; otherwise the old key is gone and the new key, placed last when it is new, holds the same record with the new id, connected, and score and answers kept |
| Game.Room.CanAnswer | server/src/game.ts:157-168 | the guards of `submitAnswer`: an accepted answer names a stored player and a current question, and in a valid room that player has no answer to it yet |
| Game.Room.SubmitAnswer | server/src/game.ts:152-193 | fails with 0 points and no change exactly when the player is absent, has answered, there is no current question or no start time; otherwise appends one answer for the current index, adds its linear score, marks the player answered, and leaves other players untouched, so an immediate second call fails |
| Game.Room.AllPlayersAnswered | server/src/game.ts:276-278 | true exactly when every player in the room has answered |
| Game.Room.NextQuestion | server/src/game.ts:256-273 | the index grows by one; past the last question the room is finished with players and start time unchanged; otherwise every player is reset, the question opens at `now`, and nobody has answered |
| Game.Room.GetCurrentQuestionView | server/src/game.ts:196-208 | a view exists exactly when the index names a question, and it is that question without its correct index |
| Game.Room.GetLeaderboard | server/src/game.ts:211-224 | one entry per player, ranks 1, 2, ... in order, scores non-increasing, and the entries are those of a stable descending sort of the players in iteration order |
| Game.Room.GetQuestionResults | server/src/game.ts:227-253 | the current question's correct index, one line per player in iteration order, and one counter per option counting the players that selected it |
| Game.Room.StartGame | server/src/index.ts:170-180 | only the host starts, and only with a player present; the room then counts down |
| Game.Room.EndQuestion | server/src/index.ts:89-92 | the room shows results, and the results are those of the current question: its correct index, one line per player and the option counts |
| Game.Room.ShowLeaderboard | server/src/index.ts:95-98 | the room shows the leaderboard, computed from its players |
| Game.Room.EndGame | server/src/index.ts:233-239 | only the host ends the game, from any status, with the final leaderboard |
| Store.CodeNumber | server/src/game.ts:30 | a draw in [0, 1) gives a number in [100000, 999999] |
| Store.RoomCode | server/src/game.ts:30 | the code has six digits without a leading zero and reads back as the drawn number |
| Store.EveryCodeIsDrawable | server/src/game.ts:30 | every number from 100000 to 999999 is the code of some draw |
| Store.RoomStore.constructor | server/src/game.ts:24 | the store starts empty |
| Store.RoomStore.GenerateRoomCode | server/src/game.ts:27-33 | the retry loop returns the first drawn code that is not in use, a six-digit number from 100000 to 999999 |
| Store.RoomStore.CreateRoom | server/src/game.ts:36-50 | the new room is a fresh lobby with index -1, no players, no start time and default settings, under a code not used before, which is one of the drawn codes and a six-digit number from 100000 to 999999; the store maps that code to it and keeps every other entry |
| Store.RoomStore.GetRoom | server/src/game.ts:53-55 | found exactly when the code is a key, and then the room stored under it, whose id is that code |
| Store.RoomStore.DeleteRoom | server/src/game.ts:58-60 | removes only the given code, and is a no-op when it is absent |

## Left out

- The exponential branch of `calculateScore` (server/src/game.ts:145) uses `Math.exp` on floating point. Rooms are always created with linear decay and nothing changes the settings, so only the linear branch is modelled.
- IEEE doubles: scores and elapsed times are exact reals. Rounding differences of double arithmetic are not captured.
- `toLowerCase` is modelled for ASCII letters only. `trim` uses the ECMAScript white-space set on code points; UTF-16 surrogate pairs and `substring` counting code units are not modelled.
- Game.Room.SubmitAnswer: `Date.now()` is read twice in the source, for the elapsed time and for `submittedAt`; the model uses one `now` for both. `optionIndex` is an integer; a fractional or non-numeric index from the socket payload is not modelled.
- Game.Room.GetQuestionResults: the model requires that the current index names a question, where the source throws. `submitAnswer` never range-checks the selection. For a selection at or past the end of `optionCounts`, the source increments `undefined` and stores `NaN` at that index, which lengthens the array and leaves holes in between. A negative selection writes `NaN` to a property that is not an array index and leaves the length unchanged. The model skips both kinds of selection.
- Players are values in a map. The source returns and keeps the same `Player` object, so later mutations are visible through earlier references; that aliasing is not modelled.
- Store.RoomStore.GenerateRoomCode: `Math.random()` is the sequence `draws`. The caller must supply a draw that yields a free code. The source's loop terminates only with probability 1.
- `getPlayer` and `getPlayerCount` are the functions `Room.GetPlayer` and `Room.PlayerCount`. The map of rooms is not iterated anywhere in the engine, so its order is not modelled.
- server/src/index.ts: the socket.io transport, the countdown and question timers, broadcasts and logging are not modelled. Only its status writes are, as `StartGame`, `EndQuestion`, `ShowLeaderboard` and `EndGame`. Its other guards are not encoded: join only in the lobby, answer only during a question, next only from the leaderboard (server/src/index.ts:217), skip only during a question (server/src/index.ts:226), and the host checks on next and skip (server/src/index.ts:216, 225).
- A question's `timeLimit` is a positive integer and its `points` a non-negative integer. A zero limit makes the source divide by zero and award `NaN` points; such questions are not modelled.
- `LeaderboardEntry.previousRank` (server/src/types.ts:85) is never set by the engine and is left out of the record.
