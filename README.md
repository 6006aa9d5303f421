# Wordle game core, modelled in Dafny

This project models the game logic of the `Home` component in `app/page.tsx`. That component is a Wordle-style game with a configurable word length (2 to 6 letters) and number of guesses (2 to 8 rows). The model has three modules:

- `Scorer` (`scorer.dfy`) models `checkWord`'s scorer.
  - Pass 1 colours exact matches green and blanks them in working copies of the guess and the secret.
  - Pass 2 colours a remaining letter orange when the secret copy still holds it, consuming the leftmost unused occurrence. Otherwise the letter is grey.
  - The keyboard-colour map is raised along the way, and a third loop gives every guessed key an entry.
  - The loops are an imperative method, `ScoreGuess`, proved equal to a declarative specification. That specification is `Verdicts` for the row colours, which counts the unconsumed copies of each letter, and `MergeKeys` for the keyboard.
  - The Wordle properties are lemmas about that specification: all green exactly on a match, letter consumption, orange going to the leftmost copies, and a keyboard colour that never moves down.
- `Words` (`words.dfy`) models the word lists.
  - The parse on line 59 of `fetchWords`: split on line feeds, `trim`, ASCII `toUpperCase`, keep words of the requested length.
  - Loading the lists for lengths 2 to 6.
  - `getNewRandomWord` and its fallback word per length.
- `Page` (`page.dfy`) models the component state as the class `Home`.
  - Its fields are `Letters`, `NumofRows`, `Word`, `currentRow`, `currentCol`, `gameWon`, `gameLost`, `inputValues`, `allLetterColors`, `keyboardKeyColors`, and the loaded lists.
  - Each handler is one atomic method that updates the fields. React applies a handler's state updates together, so the model does too.
  - Every handler keeps the invariant `Valid()`. It says the following:
    - the grid has `NumofRows` rows of `Letters` cells, each empty or one upper-case letter;
    - the cursor is on a cell;
    - the game is never both won and lost;
    - rows below the cursor are empty and transparent;
    - every scored row is full and coloured exactly as the scorer colours it against the secret;
    - no earlier row spells the secret;
    - the keyboard map is what scoring the scored rows in order leaves.
  - Each handler's postcondition states the new state: the fields changed and the outcome. The outcome is `Applied`, `Refused` for the red flash, or `Ignored`.

Colours are `None` ('transparent'), `Absent` ('grey'), `Present` ('orange') and `Correct` ('green').

Three behaviours of the code are modelled as written, because the code is what the game does:

- Backspace on an empty cell whose left neighbour is also empty clears the cell two to the left, and moves the cursor there, even when that cell is empty too. `Page.EraseTarget` picks the cell.
- Letters are typed at the focused column, `activeCol`, which may differ from `currentCol`.
- The four resize buttons do nothing once the game is won or lost. A fresh game with new dimensions starts only while a game is in progress. `Reset Game` always starts a fresh game.

## Model

| member | source | states |
|---|---|---|
| Scorer.IndexOf | app/page.tsx:201 | `indexOf` returns -1 exactly when the letter is absent, and otherwise the first position holding it |
| Scorer.OccPositive | app/page.tsx:201-202 | a letter is counted in the unused secret letters exactly when `indexOf` finds it |
| Scorer.OccClear | app/page.tsx:193-208 | marking a secret slot used removes one copy of its letter and no copy of any other letter |
| Scorer.GreenIffExact | app/page.tsx:189-196 | every scored position is coloured, and it is green exactly when the guess letter equals the secret letter there |
| Scorer.BestIsMax | app/page.tsx:192-213 | the best colour of a key is the highest colour any of its positions gets, and is the colour of one of them |
| Scorer.RaiseIsGuardedWrite | app/page.tsx:192-213 | the keyboard writes are: green unconditionally, orange only over a key that is not green, grey only over a key that is neither green nor orange |
| Scorer.DisplacedStep | app/page.tsx:199-216 | one step of pass 2 colours the letter orange and consumes a copy exactly when an unused copy remains; otherwise grey; green positions are skipped |
| Scorer.MergeStep | app/page.tsx:192-213 | merging one more position writes that position's key alone |
| Scorer.MergeLookup | app/page.tsx:192-213 | after the merge, each key holds the higher of its old colour and the best colour its positions received, and it has an entry exactly when it had one before or received a colour |
| Scorer.BestJoin | app/page.tsx:192-213 | the best colour under pointwise maxima is the maximum of the best colours |
| Scorer.MergeTwice | app/page.tsx:188-216 | merging pass 1's colours and then pass 2's equals merging their pointwise maximum once |
| Scorer.MergePasses | app/page.tsx:188-216 | the keyboard after pass 1 and then pass 2 equals merging the whole scored row |
| Scorer.ScoredKeysCover | app/page.tsx:218-224 | after scoring, every letter of the guess has a keyboard entry |
| Scorer.ExactStep | app/page.tsx:189-196 | one step of pass 1 blanks that position in both working copies and colours it green exactly on an exact match |
| Scorer.ConsumedOcc | app/page.tsx:189-196 | after pass 1 the secret copy holds exactly the copies of each letter that the guess did not match in place |
| Scorer.ScoreGuess | app/page.tsx:173-224 | the three loops of `checkWord` produce exactly the specified row colours (`Verdicts`) and the specified keyboard (`MergeKeys`) |
| Scorer.MarkExact | app/page.tsx:188-196 | pass 1 leaves both working copies with the exact matches blanked, greens exactly at the exact matches (grey elsewhere), and the keyboard raised to green for those letters |
| Scorer.MarkDisplaced | app/page.tsx:198-216 | pass 2 completes the row to the specified colours and the keyboard to the specified merge |
| Scorer.PlaceDisplaced | app/page.tsx:200-215 | one pass-2 position gets the specified colour, keeps the secret copy in step, and raises its key by that colour |
| Scorer.PaintKey | app/page.tsx:204-213 | the guarded orange and grey keyboard writes raise the key and never lower it |
| Scorer.GreyUnseen | app/page.tsx:218-224 | the third loop adds a grey entry for each guessed letter without one and changes no existing entry |
| Scorer.AllGreenIffEqual | app/page.tsx:189-196 | a scored row is all green exactly when the guess equals the secret |
| Scorer.LeftShrinks | app/page.tsx:200-208 | the unused copies of a letter only decrease as pass 2 moves right |
| Scorer.UnmatchedWithinSecret | app/page.tsx:193-208 | the copies that pass 1 leaves are copies in the secret |
| Scorer.PresentMeansElsewhere | app/page.tsx:199-214 | orange means the letter is in the secret but not at this position; a letter absent from the secret is always grey |
| Scorer.OrangeLeftmost | app/page.tsx:199-208 | when a copy of a letter is orange, every earlier non-green copy of that letter is orange too |
| Scorer.LeftCount | app/page.tsx:200-208 | the copies left at a position are those pass 1 left, less the copies the letters placed so far have taken |
| Scorer.HitsPrefix | app/page.tsx:189-216 | among the first i positions, the green and orange copies of a letter are its exact matches plus its placed copies, capped by what pass 1 left |
| Scorer.GuessSplit | app/page.tsx:189-196 | the copies of a letter split into exact matches and the rest, both in the guess and in the secret |
| Scorer.Consumption | app/page.tsx:193-208 | each letter is coloured green or orange exactly min(copies in guess, copies in secret) times, so excess duplicates stay grey |
| Scorer.KeyboardMonotone | app/page.tsx:192-224 | a key's colour never moves down (grey < orange < green); keys of letters not in the guess keep their colour and entry; every coloured guess letter has an entry |
| Words.TrimStart | app/page.tsx:59 | `trim`'s left cut: a suffix whose dropped prefix is all white space and which does not start with white space |
| Words.TrimEnd | app/page.tsx:59 | `trim`'s right cut: a prefix whose dropped suffix is all white space and which does not end with white space |
| Words.TrimEnds | app/page.tsx:59 | a trimmed line is empty or starts and ends with a non-space |
| Words.TrimCut | app/page.tsx:59 | trimming cuts the line at two points with only white space outside them |
| Words.TrimIdempotent | app/page.tsx:59 | trimming twice is trimming once |
| Words.ToUpper | app/page.tsx:59 | `toUpperCase` keeps the length, leaves no lower-case letter, changes nothing in text that has none, and turns each letter into its capital |
| Words.UpperKeepsSpace | app/page.tsx:59 | upper-casing neither creates nor removes white space |
| Words.SplitLines | app/page.tsx:59 | `split('\n')` gives at least one piece and no piece contains a line feed |
| Words.JoinSplit | app/page.tsx:59 | joining the pieces with line feeds gives the text back |
| Words.SplitJoin | app/page.tsx:59 | pieces without line feeds are exactly what splitting their join gives |
| Words.Normalise | app/page.tsx:59 | a trimmed, upper-cased line has no lower-case letter and neither starts nor ends with white space |
| Words.NormaliseAll | app/page.tsx:59 | after the `map` step every line is upper-case and free of white space at either end, and the number of lines is kept |
| Words.KeepOfLength | app/page.tsx:59 | the `filter` step keeps no more words than it is given, all of the requested length |
| Words.KeptFrom | app/page.tsx:59 | every kept word is one of the given words |
| Words.Kept | app/page.tsx:59 | every given word of the requested length is kept |
| Words.ParseWordList | app/page.tsx:52-64 | every accepted word has the requested length |
| Words.ParsedFromLine | app/page.tsx:59 | every accepted word is the normalised form of a line of the file |
| Words.ParsedWellFormed | app/page.tsx:59 | every accepted word has no lower-case letter and neither starts nor ends with white space |
| Words.LineParsed | app/page.tsx:59 | every line whose normalised form has the requested length is accepted |
| Words.NormaliseKeeps | app/page.tsx:59 | an upper-case word without white space is its own normal form |
| Words.KeepAll | app/page.tsx:59 | the `filter` step keeps a list whose words all have the length unchanged |
| Words.ParseJoined | app/page.tsx:59 | a file holding upper-case words of the length one per line yields exactly those words, in order and with their repetitions |
| Words.LoadAllWords | app/page.tsx:60-77 | the loaded map has exactly the keys 2 to 6; each holds the parsed file, or an empty list when the fetch failed; each list holds words of its own length |
| Words.FallbackLength | app/page.tsx:85-91 | the fallback secret for lengths 2 to 6 has exactly that length and is upper case |
| Words.PickIndex | app/page.tsx:83 | `Math.floor(Math.random() * n)` is an index into a list of n |
| Words.NewRandomWord | app/page.tsx:80-92 | the secret is a word of the list for the length when that list is non-empty, and the fallback otherwise |
| Words.NewRandomWordLength | app/page.tsx:80-92 | with well-formed lists, the secret for a length from 2 to 6 has that length |
| Words.EveryWordDrawable | app/page.tsx:83 | every word of a non-empty list is drawn for some value of `Math.random()` |
| Page.JoinCells | app/page.tsx:174-186 | the joined row is no longer than the row; it has `Letters` characters exactly when every cell is filled, and then `split('')` gives the row back |
| Page.FreshConsistent | app/page.tsx:95-108 | an empty, transparent grid with an empty keyboard and the cursor at (0,0) satisfies the game invariant |
| Page.EditKeeps | app/page.tsx:275-309 | writing a cell of the cursor row during play, and moving the cursor within the row, keeps the game invariant |
| Page.SubmitKeeps | app/page.tsx:226-247 | scoring the full cursor row, merging the keyboard, and then winning, advancing or losing keeps the game invariant |
| Page.EraseTargetSpec | app/page.tsx:287-309 | Backspace clears the nearest filled cell at most two to the left, with nothing filled between it and the cursor; it picks an empty cell only two to the left; it clears nothing only at the first two columns of an empty row start |
| Page.Home.constructor | app/page.tsx:15-30 | mounting with the lists loaded gives a 5 by 6 fresh game |
| Page.Home.NewGame | app/page.tsx:95-108 | the init effect gives an empty transparent grid, an empty keyboard, the cursor at (0,0), neither won nor lost, and the drawn secret |
| Page.Home.ResetGame | app/page.tsx:348-360 | Reset Game gives the same fresh state at any point of a game |
| Page.Home.DecreaseLetters | app/page.tsx:110-118 | ignored after the game ends; refused below 2 letters; otherwise one letter fewer and a fresh game |
| Page.Home.IncreaseLetters | app/page.tsx:120-128 | ignored after the game ends; refused above 6 letters; otherwise one letter more and a fresh game |
| Page.Home.DecreaseRows | app/page.tsx:130-138 | ignored after the game ends; refused below 2 rows; otherwise one row fewer and a fresh game |
| Page.Home.IncreaseRows | app/page.tsx:140-148 | ignored after the game ends; refused above 8 rows; otherwise one row more and a fresh game |
| Page.Home.UpdateInputValue | app/page.tsx:156-164 | exactly one cell of the grid takes the value, and a missing row leaves the grid as it was |
| Page.Home.HandleLetterClick | app/page.tsx:166-171 | a click moves the cursor column only on the cursor row of a game in progress |
| Page.Home.WriteCell | app/page.tsx:277-284 | a cell write on the cursor row followed by `setCurrentCol` changes that one cell and the cursor column and keeps the invariant |
| Page.Home.TypeLetter | app/page.tsx:275-286 | a letter key stores its upper-case form at the active cell of the cursor row and moves the cursor one right, staying on the last column |
| Page.Home.Backspace | app/page.tsx:287-309 | Backspace or Del clears the cell `EraseTarget` picks and moves the cursor there, or changes nothing when it picks none |
| Page.Home.CheckWord | app/page.tsx:173-249 | a row whose join is shorter than `Letters` is refused with nothing changed. Otherwise the row takes the scorer's colours and nothing else in the colour grid changes. The keyboard merges those colours. The game is won on a match with the cursor left in place, moves to the next row's first cell on a miss, or is lost on a miss in the last row. It is never both won and lost. |
| Page.Home.SetPlay | app/page.tsx:226-247 | the state setters at the end of `checkWord` take effect together and keep the invariant |
| Page.Home.Enter | app/page.tsx:311-321 | Enter is refused with nothing changed unless the joined row is in the list for `Letters`; a listed row is always applied by `checkWord` |
| Page.Home.HandleInput | app/page.tsx:252-323 | keys are ignored after the game ends or off the cursor row; otherwise a letter is typed, BACKSPACE or DEL erases, ENTER submits, and any other key is ignored |
| Page.Home.GreenRows | app/page.tsx:189-247 | a won game's last scored row is all green, and no other scored row is all green |

## Left out

- Fetching (`fetch`, `response.ok`, the async effect) is left out. `Words.LoadAllWords` takes the fetched texts as a map, and a length missing from the map stands for a failed fetch.
- `Math.random()` is the parameter `random`, a real in [0, 1). Floating-point rounding of `random * n` is not modelled.
- `toUpperCase` and `trim` are modelled for ASCII letters and the ECMAScript white-space set. Unicode case mapping outside ASCII is not modelled.
- The state before the lists load (`isWordsLoaded` false, an empty grid) is not modelled. The constructor is the mount plus the first run of the init effect.
- React's batching and re-render order are not modelled. Each handler is one atomic method.
- The `useEffect` dependency on `getNewRandomWord` is not modelled. A resize calls `NewGame` directly.
- Focus handling is not modelled: `focusInput`, `inputRefs`, `document.activeElement`, and the `r{row}c{col}` id parsing. `activeRow` and `activeCol` are parameters of `Page.Home.HandleInput`.
- `Page.Home.HandleInput`: requires `activeRow` and `activeCol` to name a grid cell, because the focused element's id only names cells. This makes the source's `activeCol < Letters` guard always true.
- The physical-keyboard adapter (app/page.tsx:326-335) is not modelled. It upper-cases a key and passes Backspace, Enter and letters to `handleInputLogic`. `Page.Home.HandleInput` takes the key as it arrives.
- Mobile detection, the `showWord` toggle, `screenColor` and its `setTimeout` flashes are not modelled. A red flash is the outcome `Refused`, and the green and red flashes on winning and losing are not modelled.
- Rendering (components, keyboard layout, theme) is not modelled.
- `Page.Home.UpdateInputValue`: requires the column to lie inside the row. JavaScript would grow the row array for a larger index, but no caller passes one.
- `Page.Home.CheckWord`: requires a game in progress. `checkWord` itself does not test this, but its only caller, `handleInputLogic`, returns early when the game is over.
- Every `Page.Home` handler requires `Valid()`, the invariant every handler keeps from mount on.
