# Assembly Endgame: a verified model of the game engine

The App component of this browser game keeps two pieces of state:

- the secret word `unknownWord`;
- the ordered list `guessedLetters`.

The player clicks letters on an on-screen keyboard. Every guess that is not in the word crosses out one of the
language chips. With `languages.length` chips, `languages.length - 1` wrong guesses lose the game, and guessing
every letter of the word wins it. Everything the page shows is recomputed from the two state values on each
render.

The model has four modules:

- `GameState` (`game_state.dfy`): the derived values (wrong guesses and their count, attempts left, lost, won,
  over, last guess) and the list update done by `checkLetter`. Lemmas cover what one guess does to each value.
- `GamePlay` (`game_play.dfy`): sequences of guesses. `GuessAll` applies `checkLetter` to a sequence of letters.
  `PlayWhileOpen` does the same but ignores clicks once the game is over, as the disabled keyboard does. The
  lemmas cover play over many guesses, plus worked examples.
- `Display` (`display.dfy`): the flags the page renders. These are the crossed-out chips, the shown, missed and
  spoken letter slots, the keyboard keys, the status panel with its farewell index, and the live-region
  announcement.
- `App` (`app.dfy`): the `Game` class. Its fields `unknownWord` and `guessedLetters` are changed in place by
  `CheckLetter` and `RestartGame`.

Two inputs are parameters:

- `languages.length` is the parameter `languageCount`.
- The word returned by `chooseWord()` is passed to the constructor and to `RestartGame`.

In these edge cases the model follows the code:

- An empty word counts as won at once, because `every` over no letters is true. Nothing rejects an empty word.
- When a game is both lost and won, the status panel shows the loss, because loss is checked first. Such a state
  cannot be reached by play while the keyboard is enabled (`PlayKeepsSound`).
- The engine itself accepts guesses after the game is over. Only the keyboard's `disabled` flag stops them.
- Before the first guess, the live region searches the word for `lastGuessedLetter`, which is undefined. The
  string search reads that as the text "undefined". For any ordinary word the announcement therefore says that
  the letter "undefined" is not in the word (`FreshAnnouncement`).

## Model

| member | source | states |
|---|---|---|
| GameState.NumberOfErrors | src/App.jsx:18 | the tolerated wrong guesses are fewer than the chips, and not negative when there is a chip |
| GameState.WrongGuesses | src/App.jsx:19-21 | a letter is in the result exactly when it was guessed and is not in the word; the result is no longer than the list |
| GameState.WrongGuessesCounts | src/App.jsx:19-21 | each letter occurs in the result exactly as often as it was guessed when it is not in the word, and never when it is |
| GameState.WrongGuessCount | src/App.jsx:22 | the wrong count is at most the number of guesses, and is zero exactly when every guess is in the word |
| GameState.RemainingErrors | src/App.jsx:23 | no attempts left (zero or fewer) exactly when the game is lost; lies between `numberOfErrors` minus the number of guesses and `numberOfErrors` |
| GameState.IsGameLost | src/App.jsx:24 | lost when the wrong count reaches `numberOfErrors`; so a lost game has at least `numberOfErrors` guesses, and with at most one chip every game is lost (`RemainingErrors`, `LostStaysLost` and `FreshGame` carry the rest) |
| GameState.IsGameWon | src/App.jsx:25-27 | won when every letter of the word is guessed; the empty word is won, and a non-empty won word has its first letter among the guesses (`WonIffLettersCovered` states the set form) |
| GameState.IsGameOver | src/App.jsx:28 | a game that is not over has fewer wrong guesses than `numberOfErrors` and a letter of the word not yet guessed |
| GameState.LastGuessedLetter | src/App.jsx:29 | undefined exactly for an empty list; otherwise the letter appended last |
| GameState.IsLastGuessIncorrect | src/App.jsx:30-31 | an incorrect last guess implies a non-empty list and at least one wrong guess |
| GameState.AddGuess | src/App.jsx:36-40 | the update keeps the old list as its prefix, grows it by at most one, grows it exactly when the letter is new, and its letters are the old ones plus the guess |
| GameState.AddGuessIdempotent | src/App.jsx:35-41 | guessing the same letter twice gives the same list as guessing it once |
| GameState.AddGuessKeepsNoDuplicates | src/App.jsx:35-41 | a list without repeated letters stays so after a guess |
| GameState.NoDuplicatesLength | src/App.jsx:35-41 | a list without repeated letters is as long as its set of letters |
| GameState.WrongGuessesAppend | src/App.jsx:19-21 | the wrong guesses of a list with one more letter are the old ones, followed by that letter when it is not in the word |
| GameState.WrongCountAfterGuess | src/App.jsx:19-22 | a repeated or correct guess leaves the wrong count unchanged; a new wrong guess raises it by exactly one |
| GameState.LostStaysLost | src/App.jsx:24 | a lost game stays lost after any further guess |
| GameState.WonStaysWon | src/App.jsx:25-27 | a won game stays won after any further guess |
| GameState.WonIffLettersCovered | src/App.jsx:25-27 | won exactly when the set of the word's letters is contained in the set of guessed letters |
| GameState.WrongGuessKeepsWon | src/App.jsx:25-27 | a guess not in the word neither wins nor un-wins the game |
| GameState.FreshGame | src/App.jsx:15-31 | with no guesses: wrong count 0, last guess undefined and not incorrect, lost exactly when at most one chip exists, won exactly for the empty word |
| GamePlay.GuessAll | src/App.jsx:35-41 | successive guesses never remove or reorder earlier ones |
| GamePlay.PlayWhileOpen | src/App.jsx:91 | `checkLetter` (src/App.jsx:35-41) applied to clicks with the keyboard disabled once over never remove or reorder earlier guesses and add at most one letter per click (`OverIsFinal` and `PlayKeepsSound` carry the rest) |
| GamePlay.GuessAllKeepsNoDuplicates | src/App.jsx:35-41 | any sequence of guesses from a list without duplicates yields a list without duplicates |
| GamePlay.GuessAllElems | src/App.jsx:35-41 | the letters of the list after a sequence of guesses are the starting ones plus the guessed ones |
| GamePlay.DistinctGuessCount | src/App.jsx:35-41 | from a new or restarted game, the list has no duplicates and its length is the number of distinct letters guessed |
| GamePlay.GuessAllWins | src/App.jsx:25-27 | guessing all of the word's letters, in any order and among any others, wins the game |
| GamePlay.GuessAllDistinct | src/App.jsx:36-40 | guessing distinct new letters appends them in order |
| GamePlay.WrongGuessesAllWrong | src/App.jsx:19-21 | letters none of which is in the word are all wrong guesses, in order |
| GamePlay.LostExactlyAtBudget | src/App.jsx:18-24 | with distinct wrong letters, after k guesses the wrong count is k and the game is lost exactly when k reaches `numberOfErrors` |
| GamePlay.OpenGuessKeepsSound | src/App.jsx:88-94 | a click on an enabled keyboard keeps the list duplicate-free, the wrong count within `numberOfErrors`, and win and loss exclusive |
| GamePlay.PlayKeepsSound | src/App.jsx:18-31 | any sequence of clicks with the keyboard disabled once over keeps those three facts and leaves no negative attempts count |
| GamePlay.NewGameSound | src/App.jsx:14-24 | a new game with at least two chips satisfies those three facts |
| GamePlay.OverIsFinal | src/App.jsx:91 | once the game is over, clicks on the disabled keyboard change nothing |
| GamePlay.ReactClicks | src/App.jsx:35-41 | clicking r, e, a, c, t on a new game gives the list "react" |
| GamePlay.ReactExample | src/App.jsx:18-27 | "react" with nine chips and the guesses "react": won, no wrong guess, eight attempts left |
| GamePlay.GoExample | src/App.jsx:18-31 | "go" with three chips, guesses z and q: two wrong, lost, over, not won |
| GamePlay.TsExample | src/App.jsx:29-31 | "ts": after t the last guess is not incorrect; after t and z it is incorrect and the wrong count is one |
| Display.AlphabetLetters | src/App.jsx:11 | the keyboard's alphabet is the 26 letters a to z in order, with no letter twice |
| Display.ChipLost | src/App.jsx:50 | chip `index` is crossed out when its index is below the wrong count; so a crossed-out chip's index is below the number of guesses |
| Display.Chips | src/App.jsx:49-53 | one flag per chip; the crossed-out chips form a prefix; in a lost game all chips but the last are crossed out |
| Display.ChipsStayLost | src/App.jsx:50 | a crossed-out chip stays crossed out after any guess |
| Display.SlotView | src/App.jsx:64-75 | one slot keeps its letter; it is read out (src/App.jsx:160) exactly when the letter is guessed; a missed slot is shown but not read out; a slot read out is shown; while the game is open it is shown exactly when read out and never missed |
| Display.WordSlots | src/App.jsx:64-75 | one slot per letter of the word; a slot is read out (src/App.jsx:160) exactly when its letter is guessed, and marked missed exactly when the game is lost and its letter is not guessed; a missed letter is shown but not read out; a letter that is read out is shown |
| Display.SlotShownIff | src/App.jsx:70 | a slot is shown exactly when the game is over or its letter is guessed |
| Display.WonRevealsWord | src/App.jsx:64-75 | in a won game every slot is shown and read out, and none is marked missed |
| Display.LostMarksMissed | src/App.jsx:66 | in a lost game every slot is shown, and it is marked missed exactly when the screen reader calls it blank |
| Display.KeyView | src/App.jsx:78-92 | `correct` and `wrong` exclude each other, together cover exactly the guessed letters, `wrong` marks exactly the wrong guesses, `aria-disabled` marks guessed keys, `disabled` means game over |
| Display.Keyboard | src/App.jsx:77-99 | 26 keys in alphabet order, none both correct and wrong, marked exactly when their letter is guessed |
| Display.KeyboardMatchesGuesses | src/App.jsx:78-80 | every alphabet letter has a key, and that key is wrong exactly for a wrong guess and correct exactly for a guessed letter of the word |
| Display.GameStatus | src/App.jsx:107-138 | the panel is in play exactly when the game is not over and shows the loss exactly when lost; the farewell message appears exactly after an incorrect last guess, and its index into the languages is at least 0 and less than the chip count minus two; the attempts shown while playing are positive |
| Display.GameStatusClass | src/App.jsx:101-105 | the `farewell` class is set exactly when the panel shows the farewell message, and never together with `won` or `lost` |
| Display.Includes | src/App.jsx:151-153 | a found substring is no longer than the text searched, and the empty string is always found |
| Display.IncludesLetter | src/App.jsx:151 | searching for a one-letter string is the same as letter membership |
| Display.AnnouncesCorrect | src/App.jsx:151-153 | the word searched for the last guess; an announcement of "correct" needs a non-empty word, and before the first guess a word of at least nine letters |
| Display.AnnouncementMatchesLastGuess | src/App.jsx:151-153 | after a guess, the live region announces "correct" exactly when the last guess is not incorrect |
| Display.FreshAnnouncement | src/App.jsx:151-153 | before the first guess, a word shorter than nine letters (one sufficient case of not containing "undefined") is announced as not containing the guess |
| App.Game.constructor | src/App.jsx:14-15 | the game starts with the chosen word and no guesses |
| App.Game.CheckLetter | src/App.jsx:35-41 | a new letter is appended, a repeated one leaves the list unchanged, the word is untouched, and the list stays duplicate-free |
| App.Game.RestartGame | src/App.jsx:43-46 | the new word replaces the old one and the guesses are emptied |
| App.CheckLetterTwice | src/App.jsx:35-41 | two clicks on one key change the guesses as one click does, leave the word untouched and the list duplicate-free, and a lost or won game stays lost or won |

## Left out

- The JSX markup, `clsx` class strings, CSS, `ReactConfetti` and the `Header` component (src/App.jsx:1-7, 140-172) are not modelled. Only the flags that choose classes and messages are.
- `chooseWord`, `getFarewellText` and the `languages` data are not part of this model. The chosen word is an input, the chip count is `languageCount`, and the farewell message is reduced to its index into the languages.
- React's `useState`, its functional updater and closures are not modelled. Each handler is an assignment to a field of `Game`. Line 39 spreads the rendered `guessedLetters` rather than `prevLetters`. With one synchronous update per click the two are the same list, and the model uses the current state.
- The message texts, `aria-label`, and the upper-casing of shown and key letters (src/App.jsx:71, 96, 149-163) are not modelled. The model keeps the predicates that select them.
- Words are sequences of characters. `[...unknownWord]` splits a string into code points and `includes` searches for a substring. These agree with per-character membership for the single-letter guesses the keyboard produces. The one place where a longer text is searched for, the undefined last guess, is modelled with a substring search.
