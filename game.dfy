/** The board as a value: its rows of tiles, the cursor (rowIndex,
    columnIndex), the secret word and the `enabled` flag, with one function
    per thing the board does. The class in WordleBoard is proved to move
    from one such value to the next exactly as these functions say; the
    lemmas below state what the moves guarantee. */
module GameModel {
  import opened Tiles
  import Scoring
  import WordCatalog

  /** The key pressed in one frame: a letter key, Backspace or Return. */
  datatype Input = Letter(key: char) | Backspace | Return

  datatype Game = Game(rows: seq<seq<Tile>>, rowIndex: nat, columnIndex: nat,
                       word: string, enabled: bool)

  /** Row.word: the row's letters, in order. */
  function Letters(row: seq<Tile>): (w: string)
    ensures |w| == |row|
  {
    seq(|row|, c requires 0 <= c < |row| => row[c].letter)
  }

  /** The row's tile states, in order. */
  function States(row: seq<Tile>): (s: seq<State>)
    ensures |s| == |row|
  {
    seq(|row|, c requires 0 <= c < |row| => row[c].state)
  }

  /** The row with its letters kept and its states replaced. */
  function Scored(row: seq<Tile>, states: seq<State>): seq<Tile>
    requires |states| == |row|
  {
    seq(|row|, c requires 0 <= c < |row| => row[c].(state := states[c]))
  }

  /** Setting one state of a scored row is scoring with one state changed. */
  lemma ScoredUpdate(row: seq<Tile>, states: seq<State>, i: nat, x: State)
    requires |states| == |row| && i < |row|
    ensures Scored(row, states[i := x]) == Scored(row, states)[i := row[i].(state := x)]
  {
  }

  /** What HasWon checks: every tile of the row is Correct. */
  predicate Solved(row: seq<Tile>) {
    forall c :: 0 <= c < |row| ==> row[c].state == Correct
  }

  predicate AllEmpty(row: seq<Tile>) {
    forall c :: 0 <= c < |row| ==> row[c] == EmptyTile
  }

  /** A submitted row: letters typed on the keyboard and the states the
      evaluator gave them against the secret. */
  predicate Submitted(row: seq<Tile>, word: string) {
    |row| == |word|
    && (forall c :: 0 <= c < |row| ==> IsLetter(row[c].letter))
    && States(row) == Scoring.Evaluate(word, Letters(row))
  }

  /** The row being typed: Occupied letter tiles before the column cursor,
      empty tiles from it on. */
  predicate Typing(row: seq<Tile>, column: nat) {
    column <= |row|
    && (forall c :: 0 <= c < column ==> row[c].state == Occupied && IsLetter(row[c].letter))
    && (forall c :: column <= c < |row| ==> row[c] == EmptyTile)
  }

  /** The board invariant: rows of wordLength tiles; the rows above the
      cursor are submitted and scored, the cursor row is being typed, the
      rows below are empty; only the last submitted row can be solved; and
      the board is enabled exactly while rows remain and the last submitted
      row was not solved. */
  ghost predicate Inv(g: Game, wordLength: nat) {
    |g.rows| > 0
    && (forall r :: 0 <= r < |g.rows| ==> |g.rows[r]| == wordLength)
    && |g.word| == wordLength
    && g.rowIndex <= |g.rows| && g.columnIndex <= wordLength
    && (forall r :: 0 <= r < g.rowIndex ==> Submitted(g.rows[r], g.word))
    && (g.rowIndex < |g.rows| ==> Typing(g.rows[g.rowIndex], g.columnIndex))
    && (g.rowIndex == |g.rows| ==> g.columnIndex == 0)
    && (forall r :: g.rowIndex < r < |g.rows| ==> AllEmpty(g.rows[r]))
    && (forall r :: 0 <= r && r + 1 < g.rowIndex ==> !Solved(g.rows[r]))
    && (g.enabled <==> g.rowIndex < |g.rows| && (g.rowIndex == 0 || !Solved(g.rows[g.rowIndex - 1])))
  }

  // ---------------------------------------------------------------------
  // The moves

  /** A letter key: the tile at the column cursor gets the letter and the
      Occupied state, and the cursor moves right. */
  function AddLetter(g: Game, c: char): Game
    requires g.rowIndex < |g.rows| && g.columnIndex < |g.rows[g.rowIndex]|
  {
    var row := g.rows[g.rowIndex];
    g.(rows := g.rows[g.rowIndex := row[g.columnIndex := Tile(c, Occupied)]],
       columnIndex := g.columnIndex + 1)
  }

  /** Backspace: the cursor moves left and that tile is emptied. */
  function DeleteLetter(g: Game): Game
    requires g.rowIndex < |g.rows| && 0 < g.columnIndex <= |g.rows[g.rowIndex]|
  {
    var row := g.rows[g.rowIndex];
    var column := g.columnIndex - 1;
    g.(rows := g.rows[g.rowIndex := row[column := EmptyTile]], columnIndex := column)
  }

  /** SubmitRow: an unknown word changes nothing; an accepted one is scored
      against the secret, the cursor moves to the start of the next row,
      and the board is disabled by a solved row or when no row is left. */
  function SubmitRow(g: Game, validWords: seq<string>): Game
    requires g.rowIndex < |g.rows| && |g.rows[g.rowIndex]| == |g.word|
  {
    var row := g.rows[g.rowIndex];
    var guess := Letters(row);
    if !WordCatalog.Accepted(validWords, guess) then g
    else
      var scored := Scored(row, Scoring.Evaluate(g.word, guess));
      Game(g.rows[g.rowIndex := scored], g.rowIndex + 1, 0, g.word,
           g.enabled && !Solved(scored) && g.rowIndex + 1 < |g.rows|)
  }

  /** Update: one frame of an enabled board, with the key pressed in it. */
  ghost function Update(g: Game, input: Input, wordLength: nat, validWords: seq<string>): Game
    requires Inv(g, wordLength) && g.enabled
  {
    match input
    case Backspace => if g.columnIndex > 0 then DeleteLetter(g) else g
    case Letter(c) => if g.columnIndex < wordLength && IsLetter(c) then AddLetter(g, c) else g
    case Return => if g.columnIndex == wordLength then SubmitRow(g, validWords) else g
  }

  /** One frame: the engine calls Update only on an enabled board. */
  ghost function Frame(g: Game, input: Input, wordLength: nat, validWords: seq<string>): Game
    requires Inv(g, wordLength)
  {
    if g.enabled then Update(g, input, wordLength, validWords) else g
  }

  /** A run of frames, one key each. */
  ghost function Run(g: Game, inputs: seq<Input>, wordLength: nat, validWords: seq<string>): Game
    requires Inv(g, wordLength)
    decreases |inputs|
  {
    if inputs == [] then g
    else
      FramePreservesInv(g, inputs[0], wordLength, validWords);
      Run(Frame(g, inputs[0], wordLength, validWords), inputs[1..], wordLength, validWords)
  }

  /** ClearBoard: every tile emptied, both indices back to 0. */
  function Clear(g: Game): Game {
    g.(rows := seq(|g.rows|, r requires 0 <= r < |g.rows| => seq(|g.rows[r]|, c => EmptyTile)),
       rowIndex := 0, columnIndex := 0)
  }

  /** NewGame: clear the board, take the freshly picked secret, enable. */
  function NewGame(g: Game, word: string): Game {
    Clear(g).(word := word, enabled := true)
  }

  /** TryAgain: clear the board and enable it, keeping the same secret. */
  function TryAgain(g: Game): Game {
    Clear(g).(enabled := true)
  }

  // ---------------------------------------------------------------------
  // The invariant is kept

  lemma AddLetterPreservesInv(g: Game, c: char, wordLength: nat)
    requires Inv(g, wordLength) && g.enabled && g.columnIndex < wordLength && IsLetter(c)
    ensures Inv(AddLetter(g, c), wordLength)
  {
    var g' := AddLetter(g, c);
    assert forall r :: 0 <= r < |g.rows| && r != g.rowIndex ==> g'.rows[r] == g.rows[r];
  }

  lemma DeleteLetterPreservesInv(g: Game, wordLength: nat)
    requires Inv(g, wordLength) && g.enabled && 0 < g.columnIndex
    ensures Inv(DeleteLetter(g), wordLength)
  {
    var g' := DeleteLetter(g);
    assert forall r :: 0 <= r < |g.rows| && r != g.rowIndex ==> g'.rows[r] == g.rows[r];
  }

  /** The scored row keeps its letters and carries the evaluator's states. */
  lemma ScoredRow(row: seq<Tile>, word: string)
    requires |row| == |word|
    ensures var s := Scoring.Evaluate(word, Letters(row));
      |s| == |row| && Letters(Scored(row, s)) == Letters(row) && States(Scored(row, s)) == s
  {
    Scoring.EvaluateScoresEveryTile(word, Letters(row));
  }

  lemma SubmitRowPreservesInv(g: Game, wordLength: nat, validWords: seq<string>)
    requires Inv(g, wordLength) && g.enabled && g.columnIndex == wordLength
    ensures Inv(SubmitRow(g, validWords), wordLength)
  {
    var row := g.rows[g.rowIndex];
    if WordCatalog.Accepted(validWords, Letters(row)) {
      ScoredRow(row, g.word);
      var g' := SubmitRow(g, validWords);
      var scored := g'.rows[g.rowIndex];
      assert Submitted(scored, g.word);
      assert forall r :: 0 <= r < |g.rows| && r != g.rowIndex ==> g'.rows[r] == g.rows[r];
      if g'.rowIndex < |g.rows| {
        assert AllEmpty(g.rows[g'.rowIndex]);
      }
    }
  }

  /** Every frame keeps the board invariant. */
  lemma UpdatePreservesInv(g: Game, input: Input, wordLength: nat, validWords: seq<string>)
    requires Inv(g, wordLength) && g.enabled
    ensures Inv(Update(g, input, wordLength, validWords), wordLength)
  {
    match input
    case Backspace =>
      if g.columnIndex > 0 { DeleteLetterPreservesInv(g, wordLength); }
    case Letter(c) =>
      if g.columnIndex < wordLength && IsLetter(c) { AddLetterPreservesInv(g, c, wordLength); }
    case Return =>
      if g.columnIndex == wordLength { SubmitRowPreservesInv(g, wordLength, validWords); }
  }

  lemma FramePreservesInv(g: Game, input: Input, wordLength: nat, validWords: seq<string>)
    requires Inv(g, wordLength)
    ensures Inv(Frame(g, input, wordLength, validWords), wordLength)
  {
    if g.enabled {
      UpdatePreservesInv(g, input, wordLength, validWords);
    }
  }

  /** Any run of frames keeps the board invariant. */
  lemma {:induction false} RunPreservesInv(g: Game, inputs: seq<Input>, wordLength: nat, validWords: seq<string>)
    requires Inv(g, wordLength)
    ensures Inv(Run(g, inputs, wordLength, validWords), wordLength)
    decreases |inputs|
  {
    if inputs != [] {
      FramePreservesInv(g, inputs[0], wordLength, validWords);
      RunPreservesInv(Frame(g, inputs[0], wordLength, validWords), inputs[1..], wordLength, validWords);
    }
  }

  // ---------------------------------------------------------------------
  // Typing

  /** A letter key on a row with room puts the letter, Occupied, under the
      cursor and moves it right; the column cursor never passes wordLength. */
  lemma AddLetterEffect(g: Game, c: char, wordLength: nat, validWords: seq<string>)
    requires Inv(g, wordLength) && g.enabled && g.columnIndex < wordLength && IsLetter(c)
    ensures var g' := Update(g, Letter(c), wordLength, validWords);
      g'.rows[g.rowIndex][g.columnIndex] == Tile(c, Occupied)
      && g'.columnIndex == g.columnIndex + 1 <= wordLength
      && g'.rowIndex == g.rowIndex && g'.enabled
  {
  }

  /** Backspace right after a letter key restores the board exactly. */
  lemma AddThenDelete(g: Game, c: char, wordLength: nat, validWords: seq<string>)
    requires Inv(g, wordLength) && g.enabled && g.columnIndex < wordLength && IsLetter(c)
    ensures Inv(Update(g, Letter(c), wordLength, validWords), wordLength)
    ensures Update(g, Letter(c), wordLength, validWords).enabled
    ensures Update(Update(g, Letter(c), wordLength, validWords), Backspace, wordLength, validWords) == g
  {
    AddLetterPreservesInv(g, c, wordLength);
    var g' := AddLetter(g, c);
    var row := g.rows[g.rowIndex];
    assert row[g.columnIndex] == EmptyTile;
    assert row[g.columnIndex := Tile(c, Occupied)][g.columnIndex := EmptyTile] == row;
    assert DeleteLetter(g').rows == g.rows;
  }

  /** Backspace at the first column changes nothing. */
  lemma DeleteAtStart(g: Game, wordLength: nat, validWords: seq<string>)
    requires Inv(g, wordLength) && g.enabled && g.columnIndex == 0
    ensures Update(g, Backspace, wordLength, validWords) == g
  {
  }

  // ---------------------------------------------------------------------
  // Submitting

  /** Return before the row is full changes nothing. */
  lemma SubmitNeedsFullRow(g: Game, wordLength: nat, validWords: seq<string>)
    requires Inv(g, wordLength) && g.enabled && g.columnIndex < wordLength
    ensures Update(g, Return, wordLength, validWords) == g
  {
  }

  /** Return on a full row that spells no accepted word changes nothing:
      letters, states and both indices stay. */
  lemma SubmitRejectsUnknownWord(g: Game, wordLength: nat, validWords: seq<string>)
    requires Inv(g, wordLength) && g.enabled && g.columnIndex == wordLength
    requires !WordCatalog.Accepted(validWords, Letters(g.rows[g.rowIndex]))
    ensures Update(g, Return, wordLength, validWords) == g
  {
  }

  /** Return on a full row that spells an accepted word: the row keeps its
      letters and gets the evaluator's states, no other row changes, the
      cursor moves to column 0 of the next row, and the board stays enabled
      exactly when the row is not solved and another row is left. */
  lemma SubmitAccepted(g: Game, wordLength: nat, validWords: seq<string>)
    requires Inv(g, wordLength) && g.enabled && g.columnIndex == wordLength
    requires WordCatalog.Accepted(validWords, Letters(g.rows[g.rowIndex]))
    ensures var g', row := Update(g, Return, wordLength, validWords), g.rows[g.rowIndex];
      |g'.rows| == |g.rows|
      && Letters(g'.rows[g.rowIndex]) == Letters(row)
      && States(g'.rows[g.rowIndex]) == Scoring.Evaluate(g.word, Letters(row))
      && (forall r :: 0 <= r < |g.rows| && r != g.rowIndex ==> g'.rows[r] == g.rows[r])
      && g'.rowIndex == g.rowIndex + 1 && g'.columnIndex == 0 && g'.word == g.word
      && (g'.enabled <==> !Solved(g'.rows[g.rowIndex]) && g'.rowIndex < |g.rows|)
  {
    ScoredRow(g.rows[g.rowIndex], g.word);
  }

  /** Guessing the secret (when the secret is an accepted word) solves the
      row and disables the board; the row index still moves on. */
  lemma GuessingTheSecretWins(g: Game, wordLength: nat, validWords: seq<string>)
    requires Inv(g, wordLength) && g.enabled && g.columnIndex == wordLength
    requires Letters(g.rows[g.rowIndex]) == g.word
    requires WordCatalog.Accepted(validWords, g.word)
    ensures var g' := Update(g, Return, wordLength, validWords);
      Solved(g'.rows[g.rowIndex]) && !g'.enabled && g'.rowIndex == g.rowIndex + 1
  {
    var row := g.rows[g.rowIndex];
    ScoredRow(row, g.word);
    Scoring.EvaluateSecretAllCorrect(g.word);
  }

  /** An accepted word on the last row disables the board. */
  lemma LastRowEndsGame(g: Game, wordLength: nat, validWords: seq<string>)
    requires Inv(g, wordLength) && g.enabled && g.columnIndex == wordLength
    requires g.rowIndex + 1 == |g.rows|
    requires WordCatalog.Accepted(validWords, Letters(g.rows[g.rowIndex]))
    ensures !Update(g, Return, wordLength, validWords).enabled
  {
  }

  /** A frame never touches a submitted row and moves the row cursor by at
      most one, forward. */
  lemma FrameKeepsHistory(g: Game, input: Input, wordLength: nat, validWords: seq<string>)
    requires Inv(g, wordLength)
    ensures var g' := Frame(g, input, wordLength, validWords);
      |g'.rows| == |g.rows|
      && g.rowIndex <= g'.rowIndex <= g.rowIndex + 1
      && (forall r :: 0 <= r < g.rowIndex ==> g'.rows[r] == g.rows[r])
      && g'.word == g.word
  {
  }

  /** A disabled board (won or out of rows) ignores every key. */
  lemma {:induction false} DisabledIgnoresInput(g: Game, inputs: seq<Input>, wordLength: nat, validWords: seq<string>)
    requires Inv(g, wordLength) && !g.enabled
    ensures Run(g, inputs, wordLength, validWords) == g
    decreases |inputs|
  {
    if inputs != [] {
      DisabledIgnoresInput(g, inputs[1..], wordLength, validWords);
    }
  }

  // ---------------------------------------------------------------------
  // Resets

  /** NewGame with a picked word of the right length yields a fresh,
      enabled board of empty tiles with the cursor at the top left. */
  lemma NewGameStarts(g: Game, word: string, wordLength: nat)
    requires |g.rows| > 0 && (forall r :: 0 <= r < |g.rows| ==> |g.rows[r]| == wordLength)
    requires |word| == wordLength
    ensures var g' := NewGame(g, word);
      Inv(g', wordLength) && g'.enabled && g'.word == word
      && g'.rowIndex == 0 && g'.columnIndex == 0
      && |g'.rows| == |g.rows| && (forall r :: 0 <= r < |g.rows| ==> AllEmpty(g'.rows[r]))
  {
  }

  /** TryAgain yields the same fresh board but keeps the secret word. */
  lemma TryAgainRestarts(g: Game, wordLength: nat)
    requires Inv(g, wordLength)
    ensures var g' := TryAgain(g);
      Inv(g', wordLength) && g'.enabled && g'.word == g.word
      && g'.rowIndex == 0 && g'.columnIndex == 0
      && |g'.rows| == |g.rows| && (forall r :: 0 <= r < |g.rows| ==> AllEmpty(g'.rows[r]))
  {
  }
}
