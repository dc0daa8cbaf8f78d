# Assembly: Endgame — a Dafny model of the game's logic

The game is a hangman variant themed on programming languages. The player guesses the letters of a hidden word. Each wrong guess crosses out one language of a roster. The player wins when every letter of the word is guessed. The player loses when the wrong-guess counter reaches the roster length minus one. Once per round, the player may take a clue: it reveals one hidden letter and costs one life.

All of this lives in one React component, `src/App.jsx`. The model drops the rendering and keeps what is left:

- the four pieces of state (`Hangman.State`);
- the values derived from them on every render (`IsWon`, `IsLost`, `IsOver`, `LastGuessIncorrect`);
- the three handlers, each as one atomic state-to-state function (`Guess`, `UseClue`, `NewGame`);
- the user's actions, each dispatched through the control that produces it (`Session.Step`, `Session.Run`);
- the display rules, reduced to the values the markup is built from (`Display`).

Modules:

| file | module | contents |
|---|---|---|
| letters.dfy | `Letters` | the keyboard alphabet, duplicate-freedom, counting guesses that miss the word, the clue's candidate filter |
| hangman.dfy | `Hangman` | state, derived predicates, the accounting invariant `Consistent`, the three handlers |
| session.dfy | `Session` | user actions gated by their controls, runs of actions, what every reachable state satisfies |
| display.dfy | `Display` | status message, language chips, word cells, screen-reader reading, keyboard marks |
| scenarios.dfy | `Scenarios` | concrete rounds with a roster of eight |

Outside inputs become parameters:

- The roster length `languages.length` is `n: nat`. The header text suggests eight, but nothing depends on that except `Scenarios`.
- `getRandomWord()` is the `word` argument of `NewGame` and of the `Restart` event.
- `Math.random()` is a `rnd: real` argument with `0.0 <= rnd < 1.0`. That is exactly what `Math.random` promises. The clue's index is `Floor(rnd * len)`, as on line 43.

Modelling choices:

- The click handler `handleLetterClick` does not check whether the game is over (lines 27-32). `Hangman.Guess` models it as written, without that check. The gate is the button's `disabled={isGameOver}` (line 89), and it is modelled in `Session.Step`. `Session.UngatedGuessPassesBound` shows that the handler alone lets the counter pass the roster length: the click handler itself does not refuse a guess after the game is over; only the disabled button does.
- The clue draws from the word's unguessed letters as a list, keeping repeats (lines 37-39), so a letter that occurs twice in the word is drawn more often (`Letters.Unguessed` states that each letter occurs in the pool as often as in the word, until it is guessed). The model makes no claim about the distribution itself. `Hangman.ClueCanRevealAny` shows that every hidden letter can be drawn.
- The empty-pool check on line 41 can never be taken. It runs only when the game is not over, and a game that is not won always has a hidden letter (`Hangman.WonIffNothingUnguessed`, `Hangman.NotOverHasHiddenLetter`). The model keeps the branch anyway.
- On the miss that reaches the loss threshold, the loss message shows, not the farewell: the farewell branch requires `!isGameOver` (`Display.LosingMissShowsLoss`). As a result, a farewell never names one of the last two roster entries (`Display.FarewellInRoster`).
- A clue taken with one life left can complete the word and reach the loss threshold at the same moment. The status then shows the win, because the win branch is tried before the loss branch (`Scenarios.ClueWinsOnLastLife`).
- The New Game button is rendered only once the game is over (line 173), so `Session.Step` ignores `Restart` while the game is on. `Hangman.NewGame` itself, like `startNewGame`, takes no condition.
- Letters are single characters. So JavaScript's `includes` with a letter argument is sequence membership. `lastGuessedLetter && …` on line 22 is the test that the guess list is non-empty, because every one-character string is truthy.

## Model

| member | source | states |
|---|---|---|
| Letters.Unguessed | src/App.jsx:37-39 | the clue pool holds exactly the letters of the word that are not yet guessed, each as many times as it occurs in the word, and is no longer than the word |
| Hangman.State | src/App.jsx:9-12 | the four pieces of component state: word, guessed letters in order, wrong-guess counter, clue flag |
| Hangman.Consistent | src/App.jsx:9-12 | the bookkeeping every round keeps: no letter guessed twice, and the counter equals the misses plus the spent clue, so it never exceeds the guesses plus one |
| Hangman.ConsistentCountsDistinctMisses | src/App.jsx:28-30 | in a consistent state the counter equals the number of distinct missed letters plus the spent clue |
| Hangman.IsWon | src/App.jsx:15-17 | won exactly when every letter of the word is among the guesses; an empty word is won at once |
| Hangman.IsLost | src/App.jsx:18 | lost exactly when the counter plus one reaches the roster length, so a roster of fewer than two is lost from the start |
| Hangman.IsOver | src/App.jsx:19 | a round that is not over has a non-empty word and at least two lives left |
| Hangman.NotOverHasHiddenLetter | src/App.jsx:35-41 | a round that is not over has a letter for the clue to reveal, so the empty-pool return on line 41 is never taken |
| Hangman.LastGuessIncorrect | src/App.jsx:21-22 | the last guess is incorrect exactly when there is one and it added one to the count of misses |
| Letters.CountAbsentIsSetSize | src/App.jsx:28-30 | for duplicate-free guesses, the number of misses equals the number of distinct letters that miss the word |
| Hangman.WonIffNothingUnguessed | src/App.jsx:15-17 | the word is won exactly when the clue pool is empty |
| Hangman.Guess | src/App.jsx:27-32 | a letter already guessed leaves the whole state unchanged; a new letter is appended at the end, the counter rises by one exactly when the letter misses the word, and word and clue flag are untouched; the accounting invariant is preserved |
| Hangman.ClueIndex | src/App.jsx:43 | `Math.floor(Math.random() * len)` is a valid position of the pool |
| Hangman.ClueIndexReaches | src/App.jsx:43 | every position of the pool is chosen by some value of `Math.random()` |
| Hangman.UseClue | src/App.jsx:34-47 | the clue changes nothing exactly when the game is over or the clue is spent; otherwise it appends one letter that is in the word and was not guessed, adds one to the counter, and sets the clue flag; the word is unchanged and the accounting invariant is preserved |
| Hangman.NewGame | src/App.jsx:49-54 | a new round satisfies the accounting invariant and has no last guess |
| Hangman.NewGamePlaying | src/App.jsx:15-18 | a new round is won only if its word is empty and lost only if the roster has fewer than two languages |
| Hangman.ClueIsSingleUse | src/App.jsx:35-46 | a second clue in the same round changes nothing, whatever the first one did |
| Hangman.ClueCanRevealAny | src/App.jsx:37-44 | any hidden letter of the word can be the one the clue reveals |
| Session.ClueKeepsLetters | src/App.jsx:37-44 | the clue adds only a letter of the word, so guesses stay within any set of letters that holds the word and the guesses |
| Session.Step | src/App.jsx:164-177 | through the controls, a finished game ignores every action but New Game, and New Game does nothing while the game is on; a letter press while the game is on is exactly the click handler, and the hint button is exactly the clue handler; each action keeps the accounting invariant, keeps the counter below the roster length, and keeps guesses within the keyboard's alphabet |
| Session.Run | src/App.jsx:9-54 | a sequence of actions keeps the accounting invariant, the bound on the counter, and the alphabet of the guesses |
| Session.Reachable | src/App.jsx:9-12 | every state reachable from the first render is consistent and bounded, and holds only keyboard letters when the words do |
| Session.HitsOnly | src/App.jsx:27-31 | pressing only letters of the word never costs a life and, unless the game was already lost, leaves every pressed letter guessed |
| Session.PressingTheWordWins | src/App.jsx:15-17 | pressing each letter of the word in turn wins with no wrong guess |
| Session.MissStep | src/App.jsx:27-31 | one press of a new missing letter, short of the loss threshold, appends it, costs one life, and leaves the word unwon |
| Session.MissesOnly | src/App.jsx:27-31 | from any state that is not won, pressing distinct letters that miss the word, short of the loss threshold, appends each one and adds one to the counter per letter, changing nothing else |
| Session.OverIsTerminal | src/App.jsx:167-177 | once the game is over, any sequence of actions without New Game leaves the state unchanged |
| Session.UngatedGuessPassesBound | src/App.jsx:27-32 | the handler alone, without the disabled button, lets a lost game take a further miss past the roster length |
| Display.GameStatus | src/App.jsx:106-134 | the farewell shows exactly when the game is on and the last guess missed, and it names roster index `wrong - 1`; the win shows exactly when the word is won; the loss shows exactly when the game is lost but not won; otherwise nothing shows |
| Display.FarewellInRoster | src/App.jsx:108-114 | in a consistent state the farewell's roster index lies in `[0, n - 3]`, so it is valid and never fires on the losing miss |
| Display.LosingMissShowsLoss | src/App.jsx:106-132 | the miss that reaches the loss threshold shows the loss message, not a farewell |
| Display.Chips | src/App.jsx:57-58 | one chip per roster language, crossed out exactly when its index is below the counter |
| Display.ChipsCrossedOut | src/App.jsx:57-65 | the number of crossed-out chips equals the counter, capped at the roster length |
| Display.FarewellNamesLastChip | src/App.jsx:111 | the farewell names the chip crossed out most recently: that chip is crossed out and the next one is not |
| Display.LastChipSurvives | src/App.jsx:58 | while the counter is bounded, the last roster language is never crossed out |
| Display.Cells | src/App.jsx:68-76 | position by position, a letter is shown when the game is lost or the letter is guessed, and marked missed exactly when it is shown only because of the loss |
| Display.WordCells | src/App.jsx:69-70 | one cell per letter of the word; a cell shows its own letter exactly when the game is lost or the letter is guessed |
| Display.WonShowsWord | src/App.jsx:69-70 | a won word shows every letter, none marked missed |
| Display.LostShowsWord | src/App.jsx:69-70 | a lost word shows every letter, marked missed exactly where it was never guessed |
| Display.HiddenAreClueCandidates | src/App.jsx:69-70 | the number of positions the player has not uncovered equals the size of the clue pool |
| Display.SpokenWord | src/App.jsx:159 | one spoken word per position: the letter and a full stop when guessed, "blank" otherwise |
| Display.SpokenAgreesWithCells | src/App.jsx:157-160 | the reading says "blank" exactly where the display is blank or marked missed, so it never reveals a lost word |
| Display.ScreenReaderText | src/App.jsx:154-161 | the live region's text opens with the label "Current word: " |
| Display.SameUncoveredSameReading | src/App.jsx:157-160 | two states with the same word whose guesses uncover the same positions read the same, whatever their counters and clue flags, so a lost game reads like a live one |
| Display.MissLeavesReadingUnchanged | src/App.jsx:157-160 | a guess that misses the word, including the one that loses the game, leaves the live region's text unchanged |
| Display.SpokenBlanksCount | src/App.jsx:157-160 | the reading has one "blank" per clue candidate |
| Display.SpokenBlanks | src/App.jsx:157-160 | the reading has one "blank" per clue candidate, and none exactly when the word is won |
| Display.KeyFor | src/App.jsx:80-94 | a key carries its own letter, is disabled exactly when the game is over, and is pressed exactly when its letter is guessed; it is marked correct exactly when the letter is guessed and in the word, and wrong exactly when it is guessed and not in the word |
| Display.Keys | src/App.jsx:79-97 | one key per letter, in order, each built from its own letter |
| Display.Keyboard | src/App.jsx:79-97 | 26 buttons for the letters a to z in order, each pressed exactly when its letter is guessed and disabled exactly when the game is over |
| Display.WrongKeysAreMissedLetters | src/App.jsx:80-82 | the keys marked wrong are the letters of the keyboard that were guessed and miss the word |
| Display.KeyboardAccounting | src/App.jsx:80-82 | in a consistent state whose guesses are keyboard letters, the counter equals the number of keys marked wrong plus one for a spent clue |
| Scenarios.AllHitsWin | src/App.jsx:15-17 | guessing r, e, a, c, t on "react" wins with no wrong guess |
| Scenarios.FirstMissFarewell | src/App.jsx:108-114 | a first miss on "react" says farewell to roster entry 0 and crosses out only that chip |
| Scenarios.SevenMissesRecorded | src/App.jsx:27-31 | seven distinct misses on "react" are recorded in order and count seven |
| Scenarios.ReactLostAfterSevenMisses | src/App.jsx:18 | the state after those misses is lost, shows the loss message, and shows every letter marked missed |
| Scenarios.SevenMissesLose | src/App.jsx:18 | seven distinct misses on "react" with a roster of eight lose, and every letter then shows marked missed |
| Scenarios.ClueOnGo | src/App.jsx:37-46 | on "go" with "g" guessed, the clue reveals "o" and costs one life |
| Scenarios.ClueWinsOnLastLife | src/App.jsx:116-123 | a clue taken with one life left can win and lose at once, and the win message shows |

## Left out

- JSX rendering, `clsx` class names, inline styles, aria strings and the DOM structure. Only the values they are built from are modelled.
- The status area's class list (lines 99-103) is left out. It can carry `won` and `lost` together, in the state `Scenarios.ClueWinsOnLastLife` exhibits.
- The confetti effect (lines 5 and 139) is left out. It is a decorative effect with no feedback into the state.
- `./languages` is not part of this model. Only the roster's length `n` is used. Names and colours are not modelled.
- `./utils` is not part of this model. `getRandomWord` becomes a word argument. `getFarewellText` is left out, and the farewell carries only the roster index whose name it would receive.
- `Math.random` is left out as a source of numbers. Its value is a parameter in `[0, 1)`. The model makes no claim about its distribution, and it does not model floating-point rounding of `rnd * len`.
- React's `useState` updaters and batching are left out. Each handler is one atomic step. Two clicks handled before a re-render could see a stale `guessedLetters`, and that case is not modelled.
- Display.Cells: a shown letter is the stored letter, not `letter.toUpperCase()`, because case mapping is presentation only.
- Display.Join carries no contract of its own. The live region's properties are stated through `SpokenWord` and through lemmas comparing two readings.
- Display.ScreenReaderText: its own contract states only the label; what follows the label is stated through `SpokenWord`, `SameUncoveredSameReading` and `MissLeavesReadingUnchanged`.
- The header text (line 143) is left out. It is static.
