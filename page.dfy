/** The game screen (`Home` in app/page.tsx): the grid of typed letters, the
    cell and keyboard colours, the cursor, the secret word and the won/lost
    flags, with the handlers that change them. Each handler is one atomic
    method; React's batching of state updates is not modelled. */
module Page {
  import opened Scorer
  import opened Words

  /** What a handler did: changed the state, flashed the screen red and
      changed nothing, or did nothing at all. */
  datatype Outcome = Applied | Refused | Ignored

  const MinRows := 2
  const MaxRows := 8

  /** A grid cell holds nothing or one upper-case letter. */
  predicate IsCell(s: string) {
    s == "" || (|s| == 1 && 'A' <= s[0] <= 'Z')
  }

  /** A key that types a letter: one character matching /[A-Za-z]/. */
  predicate IsLetterKey(key: string) {
    |key| == 1 && ('A' <= key[0] <= 'Z' || 'a' <= key[0] <= 'z')
  }

  /** Every cell of the row is filled. */
  predicate Full(cells: seq<string>) {
    forall i :: 0 <= i < |cells| ==> cells[i] != ""
  }

  /** Every cell of the row is green. */
  predicate AllGreen(colors: seq<Color>) {
    forall c :: 0 <= c < |colors| ==> colors[c] == Correct
  }

  /** A row of n empty cells. */
  function Blank(n: nat): (r: seq<string>)
    ensures |r| == n && forall i :: 0 <= i < n ==> r[i] == ""
  {
    seq(n, _ => "")
  }

  /** A row of n transparent cells. */
  function Unscored(n: nat): (r: seq<Color>)
    ensures |r| == n && forall i :: 0 <= i < n ==> r[i] == None
  {
    seq(n, _ => None)
  }

  /** rows rows of cols empty cells. */
  function BlankGrid(rows: nat, cols: nat): (r: seq<seq<string>>)
    ensures |r| == rows && forall i :: 0 <= i < rows ==> r[i] == Blank(cols)
  {
    seq(rows, _ => Blank(cols))
  }

  /** rows rows of cols transparent cells. */
  function UnscoredGrid(rows: nat, cols: nat): (r: seq<seq<Color>>)
    ensures |r| == rows && forall i :: 0 <= i < rows ==> r[i] == Unscored(cols)
  {
    seq(rows, _ => Unscored(cols))
  }

  /** `cells.join('')`. */
  function Join(cells: seq<string>): string {
    if |cells| == 0 then "" else Join(cells[..|cells| - 1]) + cells[|cells| - 1]
  }

  /** Joining a row of cells gives a word no longer than the row; it is as
      long as the row exactly when every cell is filled, and then splitting
      it gives the row back. */
  lemma {:induction false} JoinCells(cells: seq<string>)
    requires forall i :: 0 <= i < |cells| ==> IsCell(cells[i])
    ensures |Join(cells)| <= |cells|
    ensures |Join(cells)| == |cells| <==> Full(cells)
    ensures Full(cells) ==> Chars(Join(cells)) == cells
  {
    if |cells| > 0 {
      var n := |cells| - 1;
      var front := cells[..n];
      JoinCells(front);
      if Full(cells) {
        assert Full(front);
        var joined := Join(cells);
        assert joined == Join(front) + cells[n];
        forall i | 0 <= i < |cells|
          ensures Chars(joined)[i] == cells[i]
        {
          if i < n {
            assert joined[i] == Join(front)[i];
            assert Chars(Join(front))[i] == front[i];
          } else {
            assert joined[i] == cells[n][0];
          }
        }
      }
      if |Join(cells)| == |cells| {
        assert |Join(front)| == n && cells[n] != "";
        assert forall i :: 0 <= i < n ==> front[i] == cells[i];
      }
    }
  }

  /** The keyboard colours that a sequence of scored rows leaves, starting
      from an empty keyboard. */
  function KeysFrom(rows: seq<seq<string>>, target: string): map<string, Color>
    requires forall r :: 0 <= r < |rows| ==> |rows[r]| == |target|
  {
    if |rows| == 0 then map[]
    else
      var last := rows[|rows| - 1];
      MergeKeys(KeysFrom(rows[..|rows| - 1], target), last, Verdicts(last, Chars(target)))
  }

  /** rows rows of cols cells, each empty or one upper-case letter. */
  ghost predicate CellGrid(grid: seq<seq<string>>, rows: nat, cols: nat) {
    && |grid| == rows
    && (forall r :: 0 <= r < rows ==> |grid[r]| == cols)
    && (forall r, c :: 0 <= r < rows && 0 <= c < cols ==> IsCell(grid[r][c]))
  }

  /** rows rows of cols colours. */
  ghost predicate ColorGrid(colors: seq<seq<Color>>, rows: nat, cols: nat) {
    |colors| == rows && forall r :: 0 <= r < rows ==> |colors[r]| == cols
  }

  /** Every row below row is empty and transparent. */
  ghost predicate EmptyBelow(grid: seq<seq<string>>, colors: seq<seq<Color>>, row: int, cols: nat) {
    forall r :: 0 <= r < |grid| && row < r ==> grid[r] == Blank(cols) && r < |colors| && colors[r] == Unscored(cols)
  }

  /** The first n rows are full and coloured as the scorer colours them
      against target. */
  ghost predicate ScoredUpTo(grid: seq<seq<string>>, colors: seq<seq<Color>>, n: int, target: string) {
    && n <= |grid| && n <= |colors|
    && forall r :: 0 <= r < n ==>
         Full(grid[r]) && |grid[r]| == |target| && colors[r] == Verdicts(grid[r], Chars(target))
  }

  /** None of the first n rows spells target. */
  ghost predicate Misses(grid: seq<seq<string>>, n: int, target: string) {
    n <= |grid| && forall r :: 0 <= r < n ==> Join(grid[r]) != target
  }

  /** How many rows are scored when the cursor is on row: the rows above it,
      and the row itself once the game is over. */
  function Scored(row: int, over: bool): int {
    if over then row + 1 else row
  }

  /** The grid, its colours, the keyboard and the cursor row agree with the
      play so far: never both won and lost; rows below the cursor row are
      empty and transparent, and so is the cursor row's colouring while the
      game is on; the scored rows are full and coloured by the scorer against
      target; no row above the cursor row spells target, the cursor row does
      when the game is won, and the game is lost only on the last row; and
      the keyboard is what scoring the scored rows in order leaves. */
  ghost predicate Consistent(grid: seq<seq<string>>, colors: seq<seq<Color>>, keys: map<string, Color>,
                             cols: nat, row: int, won: bool, lost: bool, target: string)
  {
    var scored := Scored(row, won || lost);
    && 0 <= row < |grid| && |colors| == |grid|
    && !(won && lost)
    && EmptyBelow(grid, colors, row, cols)
    && (!won && !lost ==> colors[row] == Unscored(cols))
    && ScoredUpTo(grid, colors, scored, target)
    && Misses(grid, row, target)
    && (won ==> Join(grid[row]) == target)
    && (lost ==> row == |grid| - 1 && Join(grid[row]) != target)
    && keys == KeysFrom(grid[..scored], target)
  }

  /** The word length and the row count are in range, the secret has the
      word's length, every list holds words of its own length, the grids have
      rows rows of cols cells, each cell empty or one upper-case letter, and
      the cursor is on a cell. */
  ghost predicate Shaped(cols: nat, rows: nat, word: string, lists: map<int, seq<string>>,
                         grid: seq<seq<string>>, colors: seq<seq<Color>>, row: int, col: int)
  {
    && MinLength <= cols <= MaxLength
    && MinRows <= rows <= MaxRows
    && |word| == cols
    && WellFormedLists(lists)
    && CellGrid(grid, rows, cols)
    && ColorGrid(colors, rows, cols)
    && 0 <= row < rows && 0 <= col < cols
  }

  /** The state the game keeps: the shape above, and the grid, colours,
      keyboard and flags consistent with the play so far against the
      upper-cased secret. */
  ghost predicate GameState(cols: nat, rows: nat, word: string, lists: map<int, seq<string>>,
                            grid: seq<seq<string>>, colors: seq<seq<Color>>, keys: map<string, Color>,
                            row: int, col: int, won: bool, lost: bool)
  {
    && Shaped(cols, rows, word, lists, grid, colors, row, col)
    && Consistent(grid, colors, keys, cols, row, won, lost, ToUpper(word))
  }

  /** A fresh grid of empty, transparent cells with an empty keyboard and the
      cursor on the first cell is a game state with no play at all. */
  lemma FreshConsistent(cols: nat, rows: nat, word: string, lists: map<int, seq<string>>)
    requires MinLength <= cols <= MaxLength && MinRows <= rows <= MaxRows
    requires |word| == cols && WellFormedLists(lists)
    ensures GameState(cols, rows, word, lists, BlankGrid(rows, cols), UnscoredGrid(rows, cols), map[], 0, 0, false, false)
  {
  }

  /** Writing a cell value into the cursor row of a game in progress and
      moving the cursor to any cell of the row keeps the game state. */
  lemma EditKeeps(cols: nat, rows: nat, word: string, lists: map<int, seq<string>>,
                  grid: seq<seq<string>>, colors: seq<seq<Color>>, keys: map<string, Color>,
                  row: int, col: int, at: int, v: string, cursor: int)
    requires GameState(cols, rows, word, lists, grid, colors, keys, row, col, false, false)
    requires 0 <= at < cols && IsCell(v) && 0 <= cursor < cols
    ensures GameState(cols, rows, word, lists, grid[row := grid[row][at := v]], colors, keys, row, cursor, false, false)
  {
    var edited := grid[row := grid[row][at := v]];
    assert forall r :: 0 <= r < |grid| && r != row ==> edited[r] == grid[r];
    assert edited[..row] == grid[..row];
  }

  /** Scoring the full cursor row of a game in progress, merging its colours
      into the keyboard, and then winning on a match, moving to the next
      row's first cell on a miss, or losing on a miss in the last row, keeps
      the game state. */
  lemma SubmitKeeps(cols: nat, rows: nat, word: string, lists: map<int, seq<string>>,
                    grid: seq<seq<string>>, colors: seq<seq<Color>>, keys: map<string, Color>,
                    row: int, col: int, rowColors: seq<Color>, won: bool, lost: bool, next: int, nextCol: int)
    requires GameState(cols, rows, word, lists, grid, colors, keys, row, col, false, false)
    requires Full(grid[row])
    requires rowColors == Verdicts(grid[row], Chars(ToUpper(word)))
    requires won == (Join(grid[row]) == ToUpper(word)) && lost == (!won && row == rows - 1)
    requires next == (if won || lost then row else row + 1)
    requires nextCol == (if won || lost then col else 0)
    ensures GameState(cols, rows, word, lists, grid, colors[row := rowColors], MergeKeys(keys, grid[row], rowColors),
                      next, nextCol, won, lost)
  {
    assert grid[..row + 1][..row] == grid[..row];
  }

  /** The column that Backspace/Del at column col clears, or -1 when it
      clears nothing: the cell itself when it is filled, else the one to its
      left when that is filled, else the one two to the left, whether that
      one is filled or not. */
  function EraseTarget(cells: seq<string>, col: int): int
    requires 0 <= col < |cells|
  {
    if cells[col] != "" then col
    else if col >= 1 && cells[col - 1] != "" then col - 1
    else if col >= 2 then col - 2
    else -1
  }

  /** Backspace clears the nearest filled cell at most two to the left of the
      cursor and nothing between it and the cursor; when the cursor cell and
      the one to its left are both empty, it "clears" the cell two to the left
      even when that one is empty, and clears nothing only at the first two
      columns of an empty row start. */
  lemma EraseTargetSpec(cells: seq<string>, col: int)
    requires 0 <= col < |cells|
    ensures var k := EraseTarget(cells, col);
      && (k == -1 || col - 2 <= k <= col)
      && (k == col <==> cells[col] != "")
      && (k >= 0 ==> forall j :: k < j <= col ==> cells[j] == "")
      && (k >= 0 && cells[k] == "" ==> k == col - 2)
      && (k == -1 <==> col <= 1 && forall j :: 0 <= j <= col ==> cells[j] == "")
  {
  }

  class Home {
    /** `Letters`: the word length. */
    var letters: nat
    /** `NumofRows`: the number of guesses. */
    var numRows: nat
    /** `Word`: the secret. */
    var word: string
    var currentRow: int
    var currentCol: int
    var gameWon: bool
    var gameLost: bool
    var inputValues: seq<seq<string>>
    /** `allLetterColors`: one colour per cell. */
    var letterColors: seq<seq<Color>>
    /** `keyboardKeyColors`: a key without an entry is transparent. */
    var keyColors: map<string, Color>
    /** `loadedWordLists`, fixed once loaded. */
    const wordLists: map<int, seq<string>>

    /** `Word.toUpperCase()`, the word guesses are compared with. */
    function Target(): string
      reads this
    {
      ToUpper(word)
    }

    predicate Playing()
      reads this
    {
      !gameWon && !gameLost
    }

    /** The fields have the shape `Shaped` describes. */
    ghost predicate Shape()
      reads this
    {
      Shaped(letters, numRows, word, wordLists, inputValues, letterColors, currentRow, currentCol)
    }

    /** The fields form a `GameState`: the invariant every handler keeps. */
    ghost predicate Valid()
      reads this
    {
      GameState(letters, numRows, word, wordLists, inputValues, letterColors, keyColors,
                currentRow, currentCol, gameWon, gameLost)
    }

    /** A new game: empty transparent grid, empty keyboard, cursor at the
        first cell, neither won nor lost, and the secret drawn for the length. */
    ghost predicate Fresh(random: real)
      requires 0.0 <= random < 1.0
      reads this
    {
      && inputValues == BlankGrid(numRows, letters)
      && letterColors == UnscoredGrid(numRows, letters)
      && keyColors == map[]
      && currentRow == 0 && currentCol == 0
      && !gameWon && !gameLost
      && word == NewRandomWord(wordLists, letters, random)
    }

    /** Nothing changed. */
    twostate predicate Untouched()
      reads this
    {
      && letters == old(letters) && numRows == old(numRows) && word == old(word)
      && currentRow == old(currentRow) && currentCol == old(currentCol)
      && gameWon == old(gameWon) && gameLost == old(gameLost)
      && inputValues == old(inputValues) && letterColors == old(letterColors)
      && keyColors == old(keyColors)
    }

    /** Only the cursor row's cells and the cursor column may have changed. */
    twostate predicate OnlyRowEdited()
      reads this
    {
      && letters == old(letters) && numRows == old(numRows) && word == old(word)
      && currentRow == old(currentRow)
      && gameWon == old(gameWon) && gameLost == old(gameLost)
      && letterColors == old(letterColors) && keyColors == old(keyColors)
    }

    /** Typing key at column col stores its upper-case form in that cell of
        the cursor row and moves the cursor one right, staying on the last
        column. */
    twostate predicate Typed(key: string, col: int)
      requires old(Shape()) && 0 <= col < old(letters)
      reads this
    {
      var row := old(currentRow);
      && OnlyRowEdited()
      && inputValues == old(inputValues)[row := old(inputValues[row])[col := ToUpper(key)]]
      && currentCol == if col + 1 < letters then col + 1 else col
    }

    /** Backspace at column col clears the cell EraseTarget picks and moves
        the cursor there, or changes nothing when it picks none. */
    twostate predicate Erased(col: int, o: Outcome)
      requires old(Shape()) && 0 <= col < old(letters)
      reads this
    {
      var row := old(currentRow);
      var k := EraseTarget(old(inputValues[row]), col);
      && (k == -1 ==> o == Ignored && Untouched())
      && (k >= 0 ==>
            && o == Applied && OnlyRowEdited() && currentCol == k
            && inputValues == old(inputValues)[row := old(inputValues[row])[k := ""]])
    }

    /** Submitting the cursor row: a row whose joined letters are not the
        length of the word is refused and nothing changes; otherwise the row
        is coloured by the scorer, the keyboard merges those colours, and the
        game is won on a match, moves to the next row's first cell on a miss,
        or is lost on a miss in the last row. */
    twostate predicate Checked(o: Outcome)
      requires old(Shape())
      reads this
    {
      var row := old(inputValues[currentRow]);
      var guess := Join(row);
      if |guess| != old(letters) then o == Refused && Untouched()
      else
        var colors := Verdicts(row, Chars(old(Target())));
        && o == Applied
        && letters == old(letters) && numRows == old(numRows) && word == old(word)
        && inputValues == old(inputValues)
        && letterColors == old(letterColors)[old(currentRow) := colors]
        && keyColors == MergeKeys(old(keyColors), row, colors)
        && (gameWon <==> guess == old(Target()))
        && (gameLost <==> guess != old(Target()) && old(currentRow) == old(numRows) - 1)
        && (if guess != old(Target()) && old(currentRow) < old(numRows) - 1
            then currentRow == old(currentRow) + 1 && currentCol == 0
            else currentRow == old(currentRow) && currentCol == old(currentCol))
    }

    /** Enter: a row whose joined letters are in the list for the current
        length is checked, and is never refused by `checkWord`'s length
        test; any other row is refused with nothing changed. */
    twostate predicate Submitted(o: Outcome)
      requires old(Shape())
      reads this
    {
      var listed := old(letters in wordLists && Join(inputValues[currentRow]) in wordLists[letters]);
      && (!listed ==> o == Refused && Untouched())
      && (listed ==> o == Applied && Checked(o))
    }

    /** Mount with the word lists loaded: a 5 by 6 grid and the first game. */
    constructor (lists: map<int, seq<string>>, random: real)
      requires WellFormedLists(lists) && 0.0 <= random < 1.0
      ensures Valid() && Fresh(random)
      ensures wordLists == lists && letters == 5 && numRows == 6
    {
      letters, numRows := 5, 6;
      wordLists := lists;
      new;
      NewGame(random);
    }

    /** The effect that starts a game whenever the grid size changes: a fresh
        grid of the current size and a new secret. */
    method NewGame(random: real)
      requires MinLength <= letters <= MaxLength && MinRows <= numRows <= MaxRows
      requires WellFormedLists(wordLists) && 0.0 <= random < 1.0
      modifies this
      ensures Valid() && Fresh(random)
      ensures letters == old(letters) && numRows == old(numRows)
    {
      inputValues := BlankGrid(numRows, letters);
      letterColors := UnscoredGrid(numRows, letters);
      keyColors := map[];
      currentRow, currentCol := 0, 0;
      gameWon, gameLost := false, false;
      NewRandomWordLength(wordLists, letters, random);
      word := NewRandomWord(wordLists, letters, random);
      FreshConsistent(letters, numRows, word, wordLists);
    }

    /** Reset Game: the same fresh start, at any point of a game. */
    method ResetGame(random: real)
      requires Valid() && 0.0 <= random < 1.0
      modifies this
      ensures Valid() && Fresh(random)
      ensures letters == old(letters) && numRows == old(numRows)
    {
      NewGame(random);
    }

    /** A grid-size button: ignored once the game is over, a red flash when
        the new size would leave [lo, hi], else the size changes and a fresh
        game of the new size starts. */
    twostate predicate Resized(o: Outcome, oldSize: int, newSize: int, lo: int, hi: int, random: real)
      requires 0.0 <= random < 1.0
      reads this
    {
      && (!old(Playing()) ==> o == Ignored && Untouched())
      && (old(Playing()) && !(lo <= newSize <= hi) ==> o == Refused && Untouched())
      && (old(Playing()) && lo <= newSize <= hi ==> o == Applied && Fresh(random))
    }

    method DecreaseLetters(random: real) returns (o: Outcome)
      requires Valid() && 0.0 <= random < 1.0
      modifies this
      ensures Valid()
      ensures Resized(o, old(letters), old(letters) - 1, MinLength, MaxLength, random)
      ensures o == Applied ==> letters == old(letters) - 1 && numRows == old(numRows)
    {
      if !Playing() {
        return Ignored;
      }
      if letters - 1 < MinLength {
        return Refused;
      }
      letters := letters - 1;
      NewGame(random);
      o := Applied;
    }

    method IncreaseLetters(random: real) returns (o: Outcome)
      requires Valid() && 0.0 <= random < 1.0
      modifies this
      ensures Valid()
      ensures Resized(o, old(letters), old(letters) + 1, MinLength, MaxLength, random)
      ensures o == Applied ==> letters == old(letters) + 1 && numRows == old(numRows)
    {
      if !Playing() {
        return Ignored;
      }
      if letters + 1 > MaxLength {
        return Refused;
      }
      letters := letters + 1;
      NewGame(random);
      o := Applied;
    }

    method DecreaseRows(random: real) returns (o: Outcome)
      requires Valid() && 0.0 <= random < 1.0
      modifies this
      ensures Valid()
      ensures Resized(o, old(numRows), old(numRows) - 1, MinRows, MaxRows, random)
      ensures o == Applied ==> numRows == old(numRows) - 1 && letters == old(letters)
    {
      if !Playing() {
        return Ignored;
      }
      if numRows - 1 < MinRows {
        return Refused;
      }
      numRows := numRows - 1;
      NewGame(random);
      o := Applied;
    }

    method IncreaseRows(random: real) returns (o: Outcome)
      requires Valid() && 0.0 <= random < 1.0
      modifies this
      ensures Valid()
      ensures Resized(o, old(numRows), old(numRows) + 1, MinRows, MaxRows, random)
      ensures o == Applied ==> numRows == old(numRows) + 1 && letters == old(letters)
    {
      if !Playing() {
        return Ignored;
      }
      if numRows + 1 > MaxRows {
        return Refused;
      }
      numRows := numRows + 1;
      NewGame(random);
      o := Applied;
    }

    /** `updateInputValue`: writes value into one cell of a copy of the grid;
        a row index outside the grid leaves it as it was. */
    method UpdateInputValue(row: int, col: int, value: string)
      requires 0 <= col
      requires 0 <= row < |inputValues| ==> col < |inputValues[row]|
      modifies this`inputValues
      ensures inputValues ==
        if 0 <= row < |old(inputValues)| then old(inputValues)[row := old(inputValues)[row][col := value]]
        else old(inputValues)
    {
      if 0 <= row < |inputValues| {
        inputValues := inputValues[row := inputValues[row][col := value]];
      }
    }

    /** Clicking a cell moves the cursor to it when it is on the cursor row
        of a game in progress; any other click changes nothing. */
    method HandleLetterClick(row: int, col: int)
      requires Valid() && 0 <= row < numRows && 0 <= col < letters
      modifies this`currentCol
      ensures Valid()
      ensures currentCol == if row == currentRow && Playing() then col else old(currentCol)
    {
      if row == currentRow && Playing() {
        currentCol := col;
      }
    }

    /** `updateInputValue` on the cursor row of a game in progress followed
        by `setCurrentCol`. */
    method WriteCell(col: int, value: string, cursor: int)
      requires Valid() && Playing() && 0 <= col < letters && IsCell(value) && 0 <= cursor < letters
      modifies this`inputValues, this`currentCol
      ensures Valid()
      ensures inputValues == old(inputValues)[currentRow := old(inputValues[currentRow])[col := value]]
      ensures currentCol == cursor
    {
      EditKeeps(letters, numRows, word, wordLists, inputValues, letterColors, keyColors,
                currentRow, currentCol, col, value, cursor);
      UpdateInputValue(currentRow, col, value);
      currentCol := cursor;
    }

    /** A letter key on the cursor row. */
    method TypeLetter(key: string, col: int)
      requires Valid() && Playing() && IsLetterKey(key) && 0 <= col < letters
      modifies this`inputValues, this`currentCol
      ensures Valid() && Typed(key, col)
    {
      var value := ToUpper(key);
      assert value[0] == UpperChar(key[0]);
      WriteCell(col, value, if col + 1 < letters then col + 1 else col);
    }

    /** Backspace or Del on the cursor row. */
    method Backspace(col: int) returns (o: Outcome)
      requires Valid() && Playing() && 0 <= col < letters
      modifies this`inputValues, this`currentCol
      ensures Valid() && Erased(col, o)
    {
      var cells := inputValues[currentRow];
      var target := col;
      if cells[col] == "" && col > 0 {
        target := col - 1;
      } else if col == 0 && cells[col] == "" {
        return Ignored;
      }
      var k;
      if cells[target] != "" {
        k := target;
      } else if target > 0 {
        k := target - 1;
      } else {
        return Ignored;
      }
      assert k == EraseTarget(cells, col);
      WriteCell(k, "", k);
      o := Applied;
    }

    /** `checkWord`: scores the cursor row against the secret. */
    method CheckWord() returns (o: Outcome)
      requires Valid() && Playing()
      modifies this
      ensures Valid() && Checked(o)
    {
      var row := inputValues[currentRow];
      var guess := Join(row);
      var target := ToUpper(word);
      if |guess| != letters {
        return Refused;
      }
      JoinCells(row);
      var colors, newKeys := ScoreGuess(guess, target, keyColors);
      var won, lost, nextRow, nextCol := false, false, currentRow, currentCol;
      if guess == target {
        won := true;
      } else if currentRow < numRows - 1 {
        nextRow, nextCol := currentRow + 1, 0;
      } else {
        lost := true;
      }
      SubmitKeeps(letters, numRows, word, wordLists, inputValues, letterColors, keyColors,
                  currentRow, currentCol, colors, won, lost, nextRow, nextCol);
      SetPlay(letterColors[currentRow := colors], newKeys, won, lost, nextRow, nextCol);
      o := Applied;
    }

    /** The state setters at the end of `checkWord`, taking effect together. */
    method SetPlay(colors: seq<seq<Color>>, keys: map<string, Color>, won: bool, lost: bool, row: int, col: int)
      requires GameState(letters, numRows, word, wordLists, inputValues, colors, keys, row, col, won, lost)
      modifies this`letterColors, this`keyColors, this`gameWon, this`gameLost, this`currentRow, this`currentCol
      ensures Valid()
      ensures letterColors == colors && keyColors == keys && gameWon == won && gameLost == lost
      ensures currentRow == row && currentCol == col
    {
      letterColors, keyColors, gameWon, gameLost, currentRow, currentCol := colors, keys, won, lost, row, col;
    }

    /** Enter on the cursor row. */
    method Enter() returns (o: Outcome)
      requires Valid() && Playing()
      modifies this
      ensures Valid() && Submitted(o)
    {
      var entered := Join(inputValues[currentRow]);
      if letters in wordLists && entered in wordLists[letters] {
        JoinCells(inputValues[currentRow]);
        o := CheckWord();
      } else {
        o := Refused;
      }
    }

    /** `handleInputLogic`: one key from either keyboard, with the cell that
        has focus (or the cursor when no cell has focus) as activeRow and
        activeCol. Keys are ignored once the game is over or when the active
        cell is not on the cursor row; otherwise a letter is typed, BACKSPACE
        or DEL erases, ENTER submits, and any other key is ignored. */
    method HandleInput(key: string, activeRow: int, activeCol: int) returns (o: Outcome)
      requires Valid() && 0 <= activeRow < numRows && 0 <= activeCol < letters
      modifies this
      ensures Valid()
      ensures !old(Playing()) || activeRow != old(currentRow) ==> o == Ignored && Untouched()
      ensures old(Playing()) && activeRow == old(currentRow) ==>
        if IsLetterKey(key) then o == Applied && Typed(key, activeCol)
        else if key == "BACKSPACE" || key == "DEL" then Erased(activeCol, o)
        else if key == "ENTER" then Submitted(o)
        else o == Ignored && Untouched()
    {
      if !Playing() || activeRow != currentRow {
        return Ignored;
      }
      if IsLetterKey(key) {
        TypeLetter(key, activeCol);
        o := Applied;
      } else if key == "BACKSPACE" || key == "DEL" {
        o := Backspace(activeCol);
      } else if key == "ENTER" {
        o := Enter();
      } else {
        o := Ignored;
      }
    }

    /** The scored rows tell how the game stands: a won game's last row is all
        green, and no other scored row is. */
    lemma GreenRows()
      requires Valid()
      ensures gameWon ==> AllGreen(letterColors[currentRow])
      ensures gameLost ==> !AllGreen(letterColors[currentRow])
      ensures forall r :: 0 <= r < currentRow ==> !AllGreen(letterColors[r])
    {
      var t := Chars(Target());
      forall r | 0 <= r < Scored(currentRow, gameWon || gameLost)
        ensures AllGreen(letterColors[r]) <==> Join(inputValues[r]) == Target()
      {
        JoinCells(inputValues[r]);
        AllGreenIffEqual(inputValues[r], t);
      }
    }
  }
}
