# PHIRLDLE in Dafny

PHIRLDLE is a Wordle-style game. A session runs through a shuffled list of
ten words. Each round the player has six guesses at the current secret word.
Each guess is classified letter by letter as correct, present or absent. A
wrong guess turns one of twenty avatars into a ghost. The session is won when
every word is resolved and lost when every avatar is a ghost.

This project models the three places where that logic lives:

- `search.dfy`, module `Search`: the two JavaScript searches the game relies
  on. These are `indexOf`/`findIndex` on arrays (first position of an element)
  and `indexOf` on strings (first position of a substring).
- `evaluator.dfy`, module `Evaluator`: `checkGuess`, the two-pass
  classification.
  - `Evaluate` is its specification. A position is correct on an exact match.
    Otherwise it is present when its letter is still held in the pool of secret
    letters left by the exact matches and by the earlier positions.
  - `CheckGuess` is the array-based algorithm, with the `result` and
    `secretLetters` arrays updated in place. It is proved equal to `Evaluate`.
  - Lemmas prove what the classification promises: correct exactly at exact
    matches, and all-correct on a self-guess. For every letter, the correct
    plus present positions number min(count in guess, count in secret). A
    letter missing from the secret is absent. Present is handed out left to
    right.
- `keyboard.dfy`, module `Keyboard`: `getKeyStatus`, the colour of one key
  over the guess history.
  - `StatusOver` is its specification: the best first-occurrence
    classification, ranked correct > present > absent > unmarked.
  - `GetKeyStatus` is the loop with its early return, proved equal to
    `StatusOver`.
- `session.dfy`, module `Session`: the handlers of the `App` component as
  functions on a `State` value. The module also holds the session invariant
  `Inv` and the lemmas about each handler.
- `app.dfy`, module `App`: `shuffleArray`, and the class `Game`.
  - `Game`'s fields are the component's state hooks. Its methods are the
    handlers, updating the fields in the source's order.
  - Each method is proved to leave exactly the state that the matching
    `Session` function describes. The public handlers also keep the
    invariant.

A `setTimeout` continuation is a pending timer. It records the word list and
winning words its closure captured. The methods `AdvanceAfterWin` and
`AdvanceAfterRoundLoss` run it.

The source does not block input during a delay: the board and keyboard are
rendered whenever there is a secret word and the game is not over
(`src/App.tsx:149`), and `handleKeyPress` checks only those two conditions
(`src/App.tsx:62`).

- The model follows the code in `Session.KeyPressAsWritten`, and shows what
  goes wrong there (see Findings).
- The corrected `Session.KeyPress`, which ignores keys while a timer is
  pending, is what `App.Game.HandleKeyPress` implements.

The key handler only submits guesses of the secret's length
(`src/App.tsx:65`), but `checkGuess` handles any lengths: past the secret's
end it compares against `undefined`, which never matches. The model covers
guesses and secrets of any lengths.

## Model

| member | source | states |
|---|---|---|
| Search.IndexOf | src/utils/gameLogic.ts:17 | the result is -1 exactly when the element does not occur; otherwise the element is at the result and nowhere before it |
| Search.IndexOfSub | src/components/Keyboard.tsx:21 | `guess.indexOf(key)`: -1 exactly when the key occurs at no position; otherwise the key occurs at the result and at no earlier position |
| Search.IndexOfLetter | src/components/Keyboard.tsx:21 | for a one-letter key, the substring search finds the same position as the search for that letter |
| Evaluator.CheckGuess | src/utils/gameLogic.ts:1-27 | the two-pass algorithm returns one classification per guess position, and it equals the specification `Evaluate` |
| Evaluator.MarkExact | src/utils/gameLogic.ts:5-11 | after the first pass, exactly the exact-match positions are marked correct, and exactly those secret letters are blanked |
| Evaluator.MarkRest | src/utils/gameLogic.ts:13-24 | after the second pass, every position holds its specified classification, and the secret copy is the pool after all positions |
| Evaluator.ClassifyAt | src/utils/gameLogic.ts:15-23 | one iteration of the second pass: it sets position i to its classification, advances the pool by one position, and changes no other entry |
| Evaluator.SecondPassStep | src/utils/gameLogic.ts:14-24 | one step of the specification pool: an exact position leaves it alone; otherwise the first slot holding the letter is blanked (present) or there is none (absent) |
| Evaluator.CorrectIffExact | src/utils/gameLogic.ts:7-15 | a position is correct if and only if it matches the secret exactly; any other position is present or absent, so the second pass never says correct |
| Evaluator.SelfGuessAllCorrect | src/utils/gameLogic.ts:6-11 | a word checked against itself is correct at every position |
| Evaluator.PoolHoldsSecretLetters | src/utils/gameLogic.ts:3-20 | every slot of the secret copy is blank or still holds the secret's own letter at that position |
| Evaluator.AbsentWhenNotInSecret | src/utils/gameLogic.ts:17-22 | a guess letter that does not occur in the secret is classified absent |
| Evaluator.UnmatchedCount | src/utils/gameLogic.ts:6-11 | after the first pass the pool holds every copy of a letter in the secret except those consumed by exact matches |
| Evaluator.SecondPassInvariant | src/utils/gameLogic.ts:14-24 | after k positions, the present count of a letter is min(its loose occurrences so far, its unconsumed copies), and the pool has lost exactly one copy per present |
| Evaluator.PresentLeftToRight | src/utils/gameLogic.ts:14-20 | a non-exact position is present exactly when fewer earlier non-exact occurrences of its letter exist than unconsumed copies of it |
| Evaluator.PresentBeforeAbsent | src/utils/gameLogic.ts:14-22 | among the non-exact occurrences of a letter, if a later one is present then every earlier one is present |
| Evaluator.LetterCredits | src/utils/gameLogic.ts:9-20 | for every letter, the correct plus present positions holding it number exactly min(count in guess, count in secret), hence never more than its count in the secret |
| Evaluator.CorrectCountIsExactCount | src/utils/gameLogic.ts:6-11 | the number of correct positions equals the number of exact matches |
| Evaluator.ExampleApple | src/utils/gameLogic.ts:1-27 | APPLE against APPLY gives correct, correct, correct, correct, absent |
| Keyboard.GetKeyStatus | src/components/Keyboard.tsx:17-29 | the loop, with its early return on correct, returns the best first-occurrence status over all guesses (`StatusOver`) |
| Keyboard.StatusIsMaximum | src/components/Keyboard.tsx:19-27 | the status ranks at least as high as every guess's first-occurrence classification, and is one of them unless unmarked |
| Keyboard.StatusCorrectIff | src/components/Keyboard.tsx:21-23 | the status is correct if and only if some guess classifies the key's first occurrence as correct |
| Keyboard.StatusPresentIff | src/components/Keyboard.tsx:24 | the status is present if and only if no guess shows the key correct and some guess shows its first occurrence present |
| Keyboard.StatusAbsentIff | src/components/Keyboard.tsx:25 | the status is absent if and only if the key's first occurrence is absent in some guess and absent or missing in every guess |
| Keyboard.StatusUnmarkedIff | src/components/Keyboard.tsx:17-28 | for a non-empty key, the status is unmarked (`''`) if and only if the key occurs in none of the guesses |
| Keyboard.HitUnmarkedIff | src/components/Keyboard.tsx:21-22 | one guess says nothing about a non-empty key if and only if the key does not occur in it |
| Keyboard.StatusOrderIndependent | src/components/Keyboard.tsx:19-27 | two guess histories with the same multiset of guesses give the same status |
| Keyboard.LetterHitIsFirstOccurrence | src/components/Keyboard.tsx:21 | for a letter key, only the classification at the letter's first position in a guess is consulted |
| Keyboard.LaterCorrectOccurrenceIgnored | src/components/Keyboard.tsx:21-25 | with secret FEST, the guess SSST is correct at position 2, yet the S key is absent, because its first occurrence is absent |
| Session.WordCount | src/App.tsx:7 | the word list has ten words |
| Session.AliveCountBounds | src/App.tsx:112 | the alive count is at most the number of markers; it is zero exactly when every marker is a ghost, and equals the number of markers exactly when all are alive |
| Session.AliveCountGhosted | src/App.tsx:108 | ghosting one alive marker lowers the alive count by exactly one |
| Session.SpendLifeSpendsOne | src/App.tsx:103-110 | with a life left, exactly the first alive marker becomes a ghost, every other marker is unchanged, and the alive count drops by one |
| Session.AliveCountIsMultiplicity | src/App.tsx:31 | the alive count is the number of alive markers in the pool, and alive plus ghost markers make up the whole pool |
| Session.IsLowOnLives | src/App.tsx:31 | the pool is low on lives exactly when all but at most four of its markers are ghosts |
| Session.FreshPoolNotLow | src/App.tsx:9 | the twenty starting lives are not low on lives |
| Session.LowOnLivesAfterWrongGuess | src/App.tsx:31 | after a wrong guess the pool is low exactly when at most five were alive before |
| Session.NewGameStartsSession | src/App.tsx:37-44 | a new game restores all twenty lives, empties the winning words, clears game over, installs the shuffled list and starts its first word with an empty round |
| Session.NewRoundOutcome | src/App.tsx:46-59 | once every word is resolved the session ends with nothing else changed; otherwise the next word becomes the secret with empty guesses, input and message, and game over, lives, winning words, word list and pending timer are kept |
| Session.KeyPressAsWritten | src/App.tsx:61-75 | the handler as written: a finished game or a missing secret word leaves the state unchanged; otherwise the secret and the word list are kept, the winning words are kept or gain exactly the secret, and an input that fits the secret still fits it |
| Session.KeyPressIgnoredWhenInactive | src/App.tsx:61-62 | in a finished game, without a secret word, or while a timer is pending, a key press changes nothing |
| Session.WrongLengthOnlySetsMessage | src/App.tsx:64-68 | ENTER on an input of the wrong length sets the length message and changes nothing else |
| Session.EditingKeys | src/App.tsx:70-74 | a letter is appended exactly when the input is shorter than the secret, so the input never exceeds it, and a letter typed into a full input leaves the state unchanged; BACKSPACE drops exactly the last letter and leaves an empty input empty; neither changes anything but the input |
| Session.SubmitRecordsGuess | src/App.tsx:77-80 | a submission appends the input to the guesses and clears the input |
| Session.CorrectGuessResolvesOnce | src/App.tsx:82-93 | a correct guess appends the secret to the winning words exactly once, costs no life and schedules the win continuation |
| Session.IncorrectGuessSpendsOneLife | src/App.tsx:103-110 | a wrong guess with a life left ghosts exactly the first alive marker and lowers the alive count by one |
| Session.IncorrectGuessOutcome | src/App.tsx:112-119 | after a wrong guess the game is over exactly when the last life was spent; otherwise the sixth guess reveals the word, appends it to the winning words and schedules the next round; otherwise the round goes on |
| Session.KeyPressResolvesAtMostOnce | src/App.tsx:61-121 | a key press leaves the winning words alone or appends exactly the current secret, and only from an idle state into a pending one |
| Session.NewGameEstablishesInv | src/App.tsx:37-59 | a new game with a ten-word shuffled list establishes the session invariant |
| Session.CorrectSubmitKeepsInv | src/App.tsx:77-101 | submitting the correct word keeps the session invariant |
| Session.IncorrectSubmitKeepsInv | src/App.tsx:103-121 | submitting a wrong word of the right length keeps the session invariant |
| Session.KeyPressKeepsInv | src/App.tsx:61-75 | every key press keeps the session invariant |
| Session.AdvanceWinKeepsInv | src/App.tsx:93-100 | the win continuation keeps the session invariant |
| Session.AdvanceRoundLossKeepsInv | src/App.tsx:119 | the round-loss continuation keeps the session invariant |
| Session.WordListKept | src/App.tsx:39 | key presses and the continuations never replace the word list; only a new game does |
| Session.GuessHistoryBounded | src/App.tsx:115 | in a running round the guess history stays below six |
| Session.DoubleResolutionAsWritten | src/App.tsx:61-92 | as written, retyping the correct word during the delay resolves it a second time and breaks the invariant |
| Session.TypeLetterAsWritten | src/App.tsx:72-74 | as written, a letter typed into a short input in a running game is appended, even while a timer is pending |
| Session.RetypeSecretAsWritten | src/App.tsx:61-92 | as written, typing the secret FALL and ENTER in a running game records the guess and appends FALL to the winning words, even while a timer is pending |
| Session.SpentPool | src/App.tsx:104-110 | after k wrong guesses of a fresh game the pool still has twenty markers, exactly k of them spent |
| Session.SixthWrongGuessLosesRound | src/App.tsx:103-119 | over any pool with five lives spent (as `SpentPool(5)` is), the round at FALL with five wrong guesses satisfies the invariant, and a sixth wrong guess spends a sixth life, resolves FALL and schedules the round-loss continuation |
| Session.RetypeAfterRoundLossAsWritten | src/App.tsx:61-121 | as written, from that state with five lives spent, retyping FALL during the round-loss delay resolves it a second time on a seventh guess and breaks the invariant |
| App.ShuffleArray | src/App.tsx:12-19 | the result is a permutation of the input: same length and same multiset of elements |
| App.Game.constructor | src/App.tsx:22-29 | the hooks' initial values |
| App.Game.StartNewGame | src/App.tsx:37-44 | the word list becomes a shuffle of WORDS, the state is the new-game state over it, and the invariant holds |
| App.Game.BeginSession | src/App.tsx:39-43 | the part of `startNewGame` after the shuffle: installs the list, resets the session and starts the first round; the state is the new-game state and the invariant holds |
| App.Game.StartNewRound | src/App.tsx:46-59 | the fields become the `NewRound` state, and the word list is untouched |
| App.Game.HandleKeyPress | src/App.tsx:61-75 | the fields become the `KeyPress` state, and the invariant is kept |
| App.Game.SubmitGuess | src/App.tsx:77-87 | the fields become the `Submit` state |
| App.Game.HandleCorrectGuess | src/App.tsx:89-101 | the fields become the `CorrectGuess` state, with the win continuation pending |
| App.Game.HandleIncorrectGuess | src/App.tsx:103-121 | the copied lives array, written in place, becomes the spent pool, and the fields become the `IncorrectGuess` state |
| App.Game.AdvanceAfterWin | src/App.tsx:93-100 | the fields become the `AdvanceWin` state, and the invariant is kept |
| App.Game.AdvanceAfterRoundLoss | src/App.tsx:119 | the fields become the `AdvanceRoundLoss` state, and the invariant is kept |

## Left out

- Rendering is left out: the JSX in `src/App.tsx:123-164`, `src/components/GameBoard.tsx`, the keyboard layout and the styling.
- React's hooks are left out. The state is plain fields updated in sequence. setState batching and stale closures are not modelled, except for the values a timer closure captures.
- The start-up effect (`src/App.tsx:33-35`) is the constructor followed by `StartNewGame`. It has no member of its own.
- Delays are not modelled as time. At most one continuation is pending, and a new one replaces it.
- `Math.random` is the parameter `draw`. The swap index is `draw(i) % (i + 1)`, which is any index in 0..i.
- `console.log` is left out.
- The message wording is left out; messages are kept by kind.
- Lives are alive/ghost markers. The emoji identities are left out.
- A key is ENTER, BACKSPACE or one letter. The on-screen keyboard sends nothing else to `handleKeyPress`.
- `words[winning.length]` past the end of the list reads `undefined` in the source. The model uses the empty word there, which the key handler treats the same way. The invariant shows this never happens in a started session.
- That `checkGuess` leaves `secretWord` unmodified and `shuffleArray` leaves its argument unmodified holds by construction: strings and sequences are values here.
- Session.Inv: records only the length of the word list, not that it is a shuffle of WORDS. The shuffle is an ensures of `App.Game.StartNewGame`. `Session.WordListKept` shows that nothing else replaces the list.
- App.Game.HandleKeyPress: ignores key presses while a continuation is pending, which the source does not do. The as-written handler is `Session.KeyPressAsWritten`; see Findings.

## Findings

| source | as written | input that shows it | evidently intended | confidence | as-written member | corrected member |
|---|---|---|---|---|---|---|
| src/App.tsx:61-101 | keys are accepted during the two-second delay after a correct guess, so the same round can be resolved again | secret FALL: type FALL and ENTER, then during the delay type FALL and ENTER again; the winning words become [FALL, FALL] and stop being a prefix of the word list | each round resolves one word: the progress counter shows `winningWords.length`/10 (src/App.tsx:132) and round k plays word k of the list (src/App.tsx:53), so a second resolution of the same round is unintended; input should be ignored until the next round starts | medium, not executed | Session.DoubleResolutionAsWritten | Session.KeyPressKeepsInv |
| src/App.tsx:103-121 | keys are also accepted during the three-second delay after a lost round (src/App.tsx:119), so the revealed word can be typed again and resolved a second time on a seventh guess | secret FALL: after five wrong guesses type FELL and ENTER, then during the delay type FALL and ENTER; the winning words become [FALL, FALL] and the round has seven guesses | as above: a round ends after six guesses (src/App.tsx:115) and resolves one word, so input should be ignored until the next round starts | medium, not executed | Session.RetypeAfterRoundLossAsWritten | Session.KeyPressKeepsInv |
