# Wordle guess engine

This project models the game logic of a browser Wordle clone whose whole
engine lives in one closure in `script.js`. The player types up to five
letters into the current row and submits them. A word outside the dictionary
is refused. Otherwise each tile of the row is coloured Correct (green),
Present (yellow) or Absent (grey) against a hidden five-letter target word.
Repeated letters are handled by a pool of unmatched target letters, spent
from left to right. The on-screen keyboard then takes the strongest colour
each guessed letter has earned so far. The game is won when the guess is the
target and lost after six rows.

There are four modules:

- `Scoring` (`scoring.dfy`) covers the colouring of one row:
  - `CountLetters` builds `letterCounts`, proved against `TargetCounts` of a growing prefix of the target;
  - `MarkExactMatches` and `MarkMisplaced` are the two passes over an array of tiles;
  - `ScoreGuess` runs the three.
  Each pass's loop is proved against a step function (`ExactPass`, `MisplacedPass`). Lemmas tie those step functions to a closed-form reference colouring, `Feedback`, and a per-guess key summary, `GuessKeyStatus`. The lemmas about `Feedback` state what a colour means.
- `Keyboard` (`keyboard.dfy`) covers key colours:
  - the order Absent < Present < Correct that `updateKeyboardKey` enforces (`Raised`);
  - the fold of one guess's summary into the keyboard (`Folded`), and its properties.
- `Rules` (`rules.dfy`) holds the state of a round as a value (`Round`). It has the step functions `Press` (`handleKeyPress`), `Submit` (`submitGuess`) and `Run` (a sequence of key presses), and the invariants and bounds they keep.
- `Wordle` (`game.dfy`) holds `Game`, a class whose fields are the closure's variables. Its methods update those fields in place, as the functions of `script.js` do. `HandleKeyPress` and `SubmitGuess` are proved to yield the fields and reply that `Rules.Press` and `Rules.Submit` give. `UpdateKeyboardKey` and `ApplyKeyStatus` are proved to yield the keyboards that `Keyboard.Raised` and `Keyboard.Folded` give. `InitializeGame` and the constructor are proved to yield an explicit starting state.

`ScoreGuess`, `CountLetters`, `MarkExactMatches`, `MarkMisplaced` and `ApplyKeyStatus` are pieces of `submitGuess` (`script.js:112-208`), split out as methods of their own. Their code is the code at the lines cited below.

Entities and choices:

- **Words.** The word list is a sequence of strings. Only an entry's `word` field is kept. The constructor requires every entry to be five letters a-z. The list generator keeps five-letter words that pass `isalpha` (`generate_wordlist.py:88-91`), which also admits non-ASCII letters; "## Left out" records that gap.
- **Random target.** The random choice of the target becomes a parameter `pick`, an index into the list.
- **Messages.** Messages the page shows become `Reply` values: `TooShort`, `NotInWordList`, or `Scored(tiles, outcome)`.
- **Keyboard.** The keyboard is a map from letter to colour. A letter missing from the map is a key with no colour class. A key is disabled exactly when it is Absent, so the disabled flag is not kept separately.

## Model

| member | source | states |
|---|---|---|
| Scoring.CountLetters | script.js:125-128 | `letterCounts` maps exactly the letters of the target, each to its number of occurrences in the target |
| Scoring.MarkExactMatches | script.js:133-143 | after the first pass, the tiles, `letterCounts` and `tempKeyboardStatus` are the first-pass state over all five tiles |
| Scoring.MarkMisplaced | script.js:149-175 | after the second pass, the tiles, `letterCounts` and `tempKeyboardStatus` are the second-pass state over all five tiles |
| Scoring.TileAt | script.js:138-174 | reference colour of one tile: Correct at an exact match; otherwise Present while fewer earlier misplaced tiles of the letter than its pool, else Absent. Its meaning is stated in `TileMeaning`, `PoolAccounting` and `LeftToRight` |
| Scoring.Feedback | script.js:133-175 | reference row of tile colours, one `TileAt` per position; the passes are proved to compute it in `PassesComputeFeedback` |
| Scoring.ScoreGuess | script.js:124-175 | the row's tiles are the reference colouring `Feedback(guess, target)`, and `tempKeyboardStatus` is the summary of those tiles (`GuessKeyStatus`) |
| Scoring.GuessKeyStatus | script.js:130-169 | the per-guess key summary never holds Absent; the keyboard pass alone decides Absent |
| Scoring.ExactPassIs | script.js:133-143 | after the first i tiles, each target letter's count is its occurrences minus the exact matches so far, and exactly the letters matched so far are Correct in the summary |
| Scoring.MisplacedPassIs | script.js:149-175 | after the first i tiles, each tile is its reference colour. A letter's count is its pool less the copies handed out so far. The summary is Correct for exactly-matched letters and Present for letters that have drawn from the pool |
| Scoring.ExactPassCountsBounded | script.js:140 | the first pass's decrements never take `letterCounts` below zero: after any prefix every entry is a target letter with a count between zero and its copies in the target |
| Scoring.MisplacedPassCountsBounded | script.js:159-166 | the second pass's decrements never take `letterCounts` below zero: after any prefix every entry is a target letter with a count between zero and its pool |
| Scoring.PassesComputeFeedback | script.js:133-175 | the two passes, run over the whole row, yield exactly `Feedback` and `GuessKeyStatus(Feedback)` |
| Scoring.TileMeaning | script.js:138-174 | a tile is Correct exactly when its letter matches the target at that position; a Present tile's letter is in the target but not at that position |
| Scoring.AllCorrectIffMatch | script.js:133-143 | every tile is Correct exactly when the guess equals the target |
| Scoring.PoolAccounting | script.js:125-175 | for each letter, the tiles not Absent are exactly min(copies in the guess, copies in the target) |
| Scoring.LeftToRight | script.js:149-175 | of two tiles of the same letter that are not exact matches, the right one is Present only if the left one is |
| Scoring.GuessKeyStatusMeaning | script.js:130-169 | a guessed letter is in the summary exactly when it is in the target, and it is Correct there exactly when it matched its position somewhere |
| Scoring.PaperAgainstApple | script.js:133-175 | guess "paper" against target "apple" colours Present, Present, Correct, Present, Absent |
| Scoring.OzoneAgainstRobot | script.js:133-175 | guess "ozone" against target "robot" colours Present, Absent, Present, Absent, Absent |
| Keyboard.Raised | script.js:214-235 | a key update leaves key c with the stronger of its old colour and the new one, and no other key changes |
| Keyboard.Hint | script.js:180-189 | reference definition of the update the keyboard pass asks for one letter: Correct or Present from the summary, else Absent when the target lacks the letter, else none. Its properties are in `GuessedLettersHinted` |
| Keyboard.Folded | script.js:178-191 | reference definition of the keyboard after the pass: each hinted letter raised to its hint, every other key unchanged. Its properties are in `FoldStep`, `FoldNeverDowngrades`, `FoldRaises` and `FoldKeepsSound` |
| Keyboard.FoldStep | script.js:178-191 | folding one more letter in is one key update with that letter's hint, or none when it has none |
| Keyboard.FoldNeverDowngrades | script.js:178-191 | folding a guess into the keyboard lowers no key and leaves the keys of unguessed letters as they were |
| Keyboard.FoldRaises | script.js:178-191 | each hinted guessed letter's key ends with the stronger of its old colour and its hint |
| Keyboard.FoldKeepsSound | script.js:184-189 | if Absent marked exactly the non-target letters before, it still does after the fold |
| Keyboard.GuessedLettersHinted | script.js:184-189 | every guessed letter gets an update, and it is Absent exactly when the target lacks the letter; so the check at line 187 never fails when reached |
| Rules.LowerChar | script.js:74 | upper-case A-Z become a-z; every other character is unchanged |
| Rules.LowerWord | script.js:47 | lower-casing a dictionary word leaves it unchanged, so the target is the listed word |
| Rules.Submit | script.js:112-208 | reference definition of a submitted row: refusal outside the dictionary, else the coloured row, the folded keyboard and win, loss or the next row. Its properties are in `RejectedGuess`, `SubmitOutcome`, `SubmitKeys` and `SubmitKeepsInv` |
| Rules.Press | script.js:71-96 | a key press after the game is over does nothing. Typing never makes a row longer than five letters. Only a scoring press changes the row counter, the game-over flag or the keyboard, and it needs Enter on a full row of a dictionary word. The too-short reply comes exactly for Enter on a row that is not full |
| Rules.TypeThenErase | script.js:85-95 | a letter key, in either case, appends its lower-case letter to a row that is not full, and Backspace then gives back the round exactly |
| Rules.TypingAppends | script.js:90-95 | typing letters a-z into a row with room for them leaves the row with exactly those letters appended, and nothing else changed |
| Rules.TypeWordAndEnter | script.js:76-80 | typing a five-letter word into an empty row and pressing Enter submits exactly that word, scoring one guess when it is in the dictionary and none otherwise |
| Rules.RejectedGuess | script.js:119-122 | Enter on a full row that is not a dictionary word changes nothing and replies "not a valid word" |
| Rules.SubmitOutcome | script.js:193-207 | the tiles are `Feedback`. The game is won exactly when all tiles are Correct, and a win keeps the row and its letters. A miss on row six loses with the row counter at six. Any other miss moves to an empty next row |
| Rules.SubmitKeys | script.js:177-191 | a scored guess lowers no key. Every guessed letter's key is coloured, Absent exactly when the target lacks the letter, and at least as strong as the guess's summary. Keys of letters not guessed are untouched |
| Rules.SubmitKeepsInv | script.js:112-208 | submitting a full row keeps the round invariant (at most five letters a-z typed, at most six rows, a row left while the game runs, Absent keys exactly the non-target letters) |
| Rules.PressKeepsInv | script.js:71-96 | every key press keeps the round invariant |
| Rules.PressNeverDowngrades | script.js:71-96 | no key press lowers a keyboard colour |
| Rules.RunKeepsInv | script.js:259-261 | any sequence of key presses keeps the round invariant |
| Rules.RunAfterOver | script.js:72 | once the game is over, any sequence of key presses changes nothing and scores nothing |
| Rules.RunBudget | script.js:200-207 | any sequence of key presses scores at most as many guesses as there are rows left, six from a new game |
| Rules.RunNeverDowngrades | script.js:177-191 | over any sequence of key presses no key colour is lowered |
| Wordle.Vocabulary | script.js:31 | reference definition of the dictionary: the lower-cased words of the list. `Game.Dictionary` ties it to the loaded list |
| Wordle.Game.constructor | script.js:18-39 | loading a list of dictionary words sets up the dictionary as the lower-cased list. A non-empty list starts a game on the picked word with an empty row, row 0, no colours and the game running. An empty list starts nothing |
| Wordle.Game.InitializeGame | script.js:41-69 | with no words nothing changes. Otherwise the target is the picked word lower-cased, and the row, row counter, game-over flag and keyboard are reset |
| Wordle.Game.UpdateKeyboardAppearance | script.js:238-244 | every key loses its colour |
| Wordle.Game.UpdateKeyboardKey | script.js:210-236 | the keyboard becomes `Raised(old keyboard, letter, status)`: a Correct key stays, a Present key ignores Absent, and otherwise the key takes the new colour |
| Wordle.Game.HandleKeyPress | script.js:71-96 | the new fields and the reply are what `Rules.Press` gives for the old fields, and the game stays valid |
| Wordle.Game.ApplyKeyStatus | script.js:178-191 | the keyboard becomes the fold of the guess's letters with the summary, whatever order the letters are visited in |
| Wordle.Game.SubmitGuess | script.js:112-208 | the new fields and the reply are what `Rules.Submit` gives for the old fields, and the game stays valid |

## Left out

- Drawing is not modelled: the board's tiles, the flip and pop animations, `updateCurrentRowDisplay` (`script.js:98-110`) and the restart button's visibility. Colours are the model's state; the DOM adds nothing to the game's logic.
- Loading the list is not modelled: `fetch`, JSON parsing, the HTTP error path and its messages (`script.js:18-39`). The loaded list is the constructor's argument. A failed load leaves the list empty, which the constructor's empty-list case covers. Key presses that arrive before the asynchronous load completes are not modelled.
- Only the `word` field of an entry is kept. The `definition_zh` and `pos` fields, and `targetWordObject` (`script.js:7`, `script.js:46`), appear only in message text.
- `showMessage` and its timer (`script.js:247-256`) are not modelled. The message texts and the console logging become `Reply` values or are dropped.
- The event listeners (`script.js:258-279`) are not modelled. `HandleKeyPress` accepts any key string, so the listeners' filtering narrows the inputs and needs no model of its own. That filtering includes the on-screen Enter button being ignored in favour of the separate submit button. The restart button calls `InitializeGame`.
- `Math.random` (`script.js:46`) is replaced by the parameter `pick`.
- Rules.LowerChar: models `toLowerCase` on ASCII only. Unicode case mapping is out of scope. So is the handful of non-ASCII characters whose lower case is a letter a-z, such as U+212A KELVIN SIGN to `k`.
- Word-list entries outside a-z are excluded by the constructor's precondition. The generator's `isalpha` also admits non-ASCII letters; five-letter words with those are not covered.
- Wordle.Game.UpdateKeyboardKey: assumes every letter a-z has a key button. The early return for a missing button (`script.js:212`) is not modelled, because the page's HTML is not part of this model.
- A JavaScript `Set` iterates in insertion order. `ApplyKeyStatus` visits the letters in an arbitrary order instead, and its contract shows that the result does not depend on the order.
- The second pass checks a tile's `correct` class in the DOM (`script.js:154`). The model reads its own array of marks instead, in which a tile without a class reads as Absent before the second pass. The two agree on "is Correct".
