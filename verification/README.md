# Riddle Me This — a Dafny model of the game core

`Riddle.java` is a console riddle game:

- It reads `answer:riddle` lines and `answer:hint1,hint2,...` lines into two hash maps.
- It shuffles the riddle texts and queues five of them.
- It lets the player guess each queued riddle in turn:
  - A correct guess matches the looked-up answer, ignoring case.
  - From the third wrong guess on, the player is offered a hint.
  - The tenth wrong guess loses the riddle, and with it the game.
- Solving all five riddles wins the game.

This project models that logic as pure Dafny functions over immutable data:

- The files are sequences of lines.
- The console input is the sequence of lines the player types.
- `Collections.shuffle` is a permutation of positions, passed in as a parameter.
- The iteration order of `HashMap` is a parameter too: a sequence that lists every key exactly once.

Modules, in dependency order:

| module | file | models |
|---|---|---|
| `Results` | results.dfy | `Option`, `Result` and the two exceptions that can escape (`NoSuchElementException` from `Scanner.nextLine`, `IndexOutOfBoundsException` from `ArrayList.get`) |
| `Split` | split.dfy | `String.split(String)` with one separator character: trailing empty fields are removed, and a string without the separator is one field |
| `JavaTrim` | trim.dfy | `String.trim`: strips characters up to `' '` at both ends |
| `CaseFold` | casefold.dfy | `String.equalsIgnoreCase`, character by character, as `regionMatches` compares them (upper case, then lower case), over ASCII letters |
| `Catalog` | catalog.dfy | the line parsing of `loadRiddles`/`loadHints` and the map each builds |
| `Answers` | answers.dfy | `getAnswerForRiddle` and `isCorrectAnswer` |
| `Selection` | selection.dfy | `selectRandomRiddles` |
| `RiddleSession` | session.dfy | `solveRiddle`, `offerHint`, `displayHint` |
| `Game` | game.dfy | `playGame` and `main` (load, load, play) |

The session is modelled twice:

- `RiddleSession.Step` is one pass of the loop, and `RiddleSession.Solve` iterates it.
- `RiddleSession.SolveRiddleLoop` is the `while (!solved)` loop with mutable locals. It is proved to compute the same result as the recursive model.

The game loop (`Game.PlayQueue`) is stated over any session function. Its facts about queue order, defeat and victory therefore hold whatever a session does. `Game.SessionOf` instantiates it with `solveRiddle`.

## Model

| member | source | states |
|---|---|---|
| `Split.JavaSplit` | src/Riddle.java:55 | no field contains the separator; a line without the separator is one field (so `""` is `[""]`); otherwise the last field kept is non-empty |
| `Split.JavaSplitRoundTrip` | src/Riddle.java:55 | the split loses nothing but trailing empty fields: joining the fields plus some number of empty fields gives back the line |
| `Split.JavaSplitOfJoin` | src/Riddle.java:82 | non-empty, separator-free fields joined with the separator split back into exactly those fields |
| `JavaTrim.TrimCharacterization` | src/Riddle.java:57 | `Trim` (the `trim` of both loaders): `Trim(s) == r` exactly when `r` has no blank at either end and `s` is `r` padded with blanks on both sides |
| `JavaTrim.TrimIdempotent` | src/Riddle.java:81 | trimming a trimmed key changes nothing |
| `CaseFold.EqualsIgnoreCaseIff` | src/Riddle.java:176 | `EqualsIgnoreCase`: two strings are equal ignoring case exactly when their lower-case forms are equal |
| `CaseFold.EqualsIgnoreCaseEquivalence` | src/Riddle.java:176 | ignoring case is reflexive, symmetric and transitive |
| `CaseFold.EqualsIgnoreCaseOfCaseChange` | src/Riddle.java:176 | upper- or lower-casing a string keeps it equal, ignoring case, to whatever it matched |
| `CaseFold.IgnoreCaseSingleLetter` | src/Riddle.java:204-208 | only `y` and `Y` match `"y"` ignoring case, and only `n` and `N` match `"n"` |
| `Catalog.SplitRecordIff` | src/Riddle.java:55-58 | `SplitRecord` (the split and the `parts.length == 2` test of both loaders): a line yields exactly two fields `raw`, `value` iff it is `raw:value` followed only by colons, with neither part containing a colon and `value` non-empty |
| `Catalog.LastDefinition` | src/Riddle.java:53-60 | the index found defines the key and no later line does; no index means that no line defines it |
| `Catalog.LoadContents` | src/Riddle.java:53-61 | the loaded map holds a key iff some line defines it or it was already there; the value is the one from the last defining line (later `put`s overwrite); keys no line defines keep their value |
| `Catalog.RiddleEntry` | src/Riddle.java:53-61 | `LoadRiddles` with its line parser `ParseRiddle`: a riddle key is present iff some line defines it; its last defining line is `raw:text` plus trailing colons, with `raw` trimming to the key and the stored text being the untrimmed part after the colon |
| `Catalog.HintEntry` | src/Riddle.java:77-85 | `LoadHints` with its line parser `ParseHint`: a hint key is present iff some line defines it; its list is the comma split of the last defining line's value, and no hint contains a comma or a colon |
| `Catalog.HintLineParses` | src/Riddle.java:79-82 | a line `raw:h1,...,hn` of non-empty hints without separators parses to key `trim(raw)` and the list `h1..hn` |
| `Catalog.HintLineRoundTrip` | src/Riddle.java:77-84 | loading such a line gives exactly that key mapped to that list, for any number of hints (there is no cap at three) |
| `Answers.FindFirst` | src/Riddle.java:185-188 | the position found is the first in iteration order whose key has the riddle text; none found means no key has it |
| `Answers.AnswerFor` | src/Riddle.java:184-190 | the answer is a key whose riddle text is the given one, if any key has it, and `""` otherwise |
| `Answers.AnswerForUnique` | src/Riddle.java:184-190 | with unique riddle texts, the lookup of a key's riddle gives back that key |
| `Answers.SharedTextPicksFirst` | src/Riddle.java:185-188 | when several keys share a text, the one earliest in iteration order is returned, and a later key sharing it (differing beyond case) is then rejected as a guess |
| `Answers.IsCorrectAnswerIff` | src/Riddle.java:174-177 | `IsCorrectAnswer`: a guess is correct iff its lower-case form equals that of the answer looked up for the riddle |
| `Answers.CorrectIgnoresCase` | src/Riddle.java:174-177 | whether a guess is correct does not change when the guess is upper- or lower-cased |
| `Answers.UnknownRiddleAcceptsOnlyEmpty` | src/Riddle.java:174-177 | for a riddle text no key has, the only correct guess is the empty line |
| `Answers.CorrectIffAnswer` | src/Riddle.java:174-177 | with unique riddle texts, a guess for a key's riddle is correct iff it equals the key up to case |
| `Selection.Shuffle` | src/Riddle.java:104 | the shuffled list is a permutation of the original (equal multisets), with position `i` holding the element at `perm[i]` |
| `Selection.PickPermutation` | src/Riddle.java:104 | picking a list's elements at the positions of any permutation of its indices reorders the list without losing or duplicating any element |
| `Selection.Values` | src/Riddle.java:101-103 | the copy of `values()` has one text per key of the iteration order, each the text stored under that key |
| `Selection.ValuesCover` | src/Riddle.java:101-103 | every stored riddle text occurs in the copy of `values()` |
| `Selection.Select` | src/Riddle.java:99-111 | fails with an index error exactly when fewer than five riddles are loaded; otherwise it returns five texts, each being the riddle at the permuted position `perm[i]`, all from five distinct answers |
| `Selection.SelectDistinct` | src/Riddle.java:99-111 | with unique riddle texts, the five queued riddles are pairwise different |
| `RiddleSession.DisplayHint` | src/Riddle.java:226-233 | with `HintsFor` the hint list of the looked-up answer (empty when absent): a hint is shown iff the looked-up answer has a hint list longer than the index, and it is the hint at that index |
| `RiddleSession.OfferHint` | src/Riddle.java:199-219 | with three hints used nothing is read and nothing changes; otherwise one reply is read (with no line left this fails); only `y`/`Y` changes the state, adding one to the count and revealing the hint at the old count if it exists; the count stays at most three and the revealed hints stay the list's first ones |
| `RiddleSession.OfferHintIgnoresAttempts` | src/Riddle.java:199 | the `attempts` argument has no influence on the offer |
| `RiddleSession.Step` | src/Riddle.java:144-163 | it fails, with `NoSuchElement`, exactly when the guess is missing or the hint reply it must read is missing; a correct guess finishes solved, having consumed one line and changed nothing else, and only a correct guess does; a finished step read exactly one line; the tenth wrong guess finishes lost, consuming one line and showing no prompt; a wrong guess otherwise never finishes: it continues with one more attempt, and it reads the guess plus one reply line if the attempt count is at least three and fewer than three hints were used, and only the guess otherwise; the hint count goes up by one iff that reply is `y` or `Y`, and stays the same otherwise |
| `RiddleSession.Solve` | src/Riddle.java:144-164 | the loop ends finished or fails with `NoSuchElement`; it reads at least one line; when it starts below ten attempts, it ends solved iff fewer than ten attempts are counted; it ends lost only at exactly ten; the counters never decrease and the hint invariant is kept |
| `RiddleSession.SolveRiddle` | src/Riddle.java:139-166 | from a fresh session: solved iff the last line read is a correct guess; solved iff fewer than ten attempts are counted, lost with exactly ten, at most three hints, and the hints shown are the first ones of the list, in order |
| `RiddleSession.SolveEndsOnLastGuess` | src/Riddle.java:144-165 | from any session, a finished loop is solved exactly when the last line it read is a correct guess |
| `RiddleSession.FirstGuessSolves` | src/Riddle.java:147-152 | a correct first guess solves the riddle, consuming only that line and counting no attempt |
| `RiddleSession.StepExtends` | src/Riddle.java:144-163 | a step that succeeds reads only its own lines: appending input leaves its outcome unchanged except for what is left unread |
| `RiddleSession.SolveExtends` | src/Riddle.java:144-165 | a finished loop reads only the lines it needs: appending input leaves the outcome unchanged except for what is left unread |
| `RiddleSession.SolveFailsOnlyForLackOfInput` | src/Riddle.java:144-165 | the loop fails only because the input ran out: after a failure, appending the answer twice (as guess, or as the pending hint reply and then as guess) makes it end solved |
| `RiddleSession.DeclinedRound` | src/Riddle.java:154-161 | from any session with two to eight attempts and a hint still available, a wrong guess followed by any reply other than `y`/`Y` consumes two lines and counts one attempt; the hints used and shown stay as they were |
| `RiddleSession.EarlyMiss` | src/Riddle.java:154-160 | a wrong guess with fewer than two attempts counted adds one attempt and reads no reply, since no hint is offered yet |
| `RiddleSession.DeclinedRoundIn` | src/Riddle.java:154-161 | in a script of wrong guesses and declined replies, each guess-reply pair counts one attempt and nothing else, for two to eight attempts |
| `RiddleSession.TenthWrongGuess` | src/Riddle.java:154-156 | after nine wrong guesses, a tenth one loses at once, reading no hint reply |
| `RiddleSession.LoseFrom` | src/Riddle.java:153-162 | from two to nine wrong guesses, with every hint declined, further wrong guesses lose at exactly the tenth |
| `RiddleSession.TenWrongGuessesLose` | src/Riddle.java:153-157 | ten wrong guesses with all hints declined lose the riddle with ten attempts, leaving what follows the tenth guess unread |
| `RiddleSession.FirstHintAccepted` | src/Riddle.java:158-161 | a third wrong guess followed by `y` counts the attempt, uses one hint and reveals the list's first hint |
| `RiddleSession.ThirdWrongGuessOffersFirstHint` | src/Riddle.java:158-161 | after three wrong guesses a `y` reply reveals the first hint and counts one hint used |
| `RiddleSession.SolveRiddleLoop` | src/Riddle.java:139-166 | the `while (!solved)` loop with mutable locals returns exactly the recursive model's outcome, keeping on every pass fewer than ten attempts and the hint invariant |
| `Game.SessionWellBehaved` | src/Riddle.java:122 | a `solveRiddle` session fails only with `NoSuchElement` and only when the input runs out (further lines let it finish), always ends finished, reads at least one line, and reads no line beyond those it needs |
| `Game.SessionReadsOnlyNeeded` | src/Riddle.java:122 | appending input to a finished `solveRiddle` session changes only what is left unread |
| `Game.SessionFailsOnlyAtEnd` | src/Riddle.java:122 | a failed `solveRiddle` session finishes once some further lines are supplied |
| `Game.PlayQueue` | src/Riddle.java:120-129 | a won game attempted every queued riddle; a lost one attempted between one and all of them; with a well-behaved session it fails only with `NoSuchElement`; the unread input is a suffix of the input, shorter by at least one line per attempted riddle |
| `Game.PlayQueueExtends` | src/Riddle.java:120-129 | with sessions that read only what they need, so does the game: appending input to a finished game changes only what is left unread |
| `Game.PlayQueueFailsOnlyForLackOfInput` | src/Riddle.java:120-129 | with sessions that fail only when the input runs out, a failed game finishes, won or lost, once some further lines are supplied |
| `Game.WonIffAllSolved` | src/Riddle.java:120-131 | the game is won iff every queued riddle is solved, in queue order, each session starting where the previous one stopped |
| `Game.PlayAppend` | src/Riddle.java:120-129 | playing `q1 + q2` plays `q1` first and goes on to `q2`, on the input left, only if all of `q1` was solved |
| `Game.DefeatIgnoresLaterRiddles` | src/Riddle.java:124-128 | after the first lost riddle the outcome does not depend on the riddles queued after it |
| `Game.PerfectRun` | src/Riddle.java:120-131 | typing each queued riddle's answer once wins, using one line per riddle |
| `Game.PlayGame` | src/Riddle.java:116-132 | fails with the index error iff fewer than five riddles are loaded; a win attempted all five, and a loss between one and five |
| `Game.WinningGame` | src/Riddle.java:116-132 | whatever five riddles the shuffle picks, answering each in turn wins the game |
| `Game.RunGame` | src/Riddle.java:39-44 | loading both files and playing fails with the index error iff the riddle file yields fewer than five riddles; a win attempted five riddles |

## Left out

- File access: opening `riddles.txt` and `hints.txt`, the `FileNotFoundException` handler and `System.exit(1)`. The loaders take the files' lines as input.
- Console output: the rules, win and loss texts, ANSI colours, the prompts and the trophy of `displayVictory`. Only the hints that `displayHint` shows are kept, as `Session.revealed`.
- `Collections.shuffle` is randomness. The shuffle is the parameter `perm`, any permutation of positions.
- `HashMap` iteration order is not specified by Java. It is the parameter `order`, which lists every riddle key once, and both `values()` and the lookup stream use it.
- Unicode: the model's `EqualsIgnoreCase` folds ASCII letters only, while Java also folds other letters (`É`/`é`, Greek, Cyrillic). A non-ASCII guess that differs from the answer only in case is therefore accepted by Java and rejected by the model. `trim` is exact, because it strips every character up to `' '`.
- `RiddleTests.java` is not part of this model. It calls a two-argument `solveRiddle` that `Riddle.java` does not have, and the model follows the one-argument method.
- Line acceptance follows `split`, which drops trailing empty fields. So `a:b:` and `a:b::` are accepted as key `a` with value `b`. A second colon rejects a line only when something non-empty follows it; `Catalog.SplitRecordIff` states exactly which lines pass.
- Integer width: `attempts` reaches at most ten and `hintsUsed` at most three, so the `int` counters of the source cannot wrap.
- Solve: its own contract names only the error, `NoSuchElement`; that a failure means the input ran out is the separate lemma `RiddleSession.SolveFailsOnlyForLackOfInput`, kept out of the contract because every session proof unfolds `Solve`.
- PlayQueue: its own contract names only the error, `NoSuchElement`; that a failure means the input ran out is the separate lemma `Game.PlayQueueFailsOnlyForLackOfInput`, which needs sessions that fail only at the end of the input (`Game.SessionFailsOnlyAtEnd` shows `solveRiddle` is one).
