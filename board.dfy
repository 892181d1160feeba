/** The Board behaviour: the rows of tiles, the cursor, the secret word and
    the `enabled` flag, changed in place by the per-frame Update, by
    SubmitRow's two scoring passes and by the resets. Update, SubmitRow,
    NewGame and TryAgain are proved to move the board from the value View()
    to the value the matching GameModel function gives and to keep
    GameModel.Inv; ClearBoard is proved against GameModel.Clear; the
    scoring passes and SetRandomWord are specified on the fields they
    change, and HasWon is a query. */
module WordleBoard {
  import opened Tiles
  import Strings
  import Scoring
  import WordCatalog
  import GameModel

  class Board {
    /** gameManager.wordLength, fixed for the session. */
    const wordLength: nat
    /** The candidate secrets and the accepted guesses, as loaded. */
    const solutions: seq<string>
    const validWords: seq<string>
    /** The board's rows; each row holds wordLength tiles. */
    const rows: array<seq<Tile>>

    var rowIndex: nat
    var columnIndex: nat
    var word: string
    var enabled: bool

    ghost function View(): GameModel.Game
      reads this, rows
    {
      GameModel.Game(rows[..], rowIndex, columnIndex, word, enabled)
    }

    /** Rows of the configured width. */
    ghost predicate Shaped()
      reads this, rows
    {
      rows.Length > 0 && forall r :: 0 <= r < rows.Length ==> |rows[r]| == wordLength
    }

    ghost predicate Valid()
      reads this, rows
    {
      GameModel.Inv(View(), wordLength)
    }

    /** Awake and Start: a board of rowCount empty rows, the word lists
        loaded, then NewGame. The random indices of SetRandomWord are the
        given samples; the run is one whose resampling loop ends. */
    constructor (rowCount: nat, wordLength: nat, solutions: seq<string>, validWords: seq<string>,
                 samples: seq<nat>)
      requires rowCount > 0
      requires WordCatalog.SamplesInRange(solutions, samples)
      requires wordLength > 0 ==> WordCatalog.FirstFit(solutions, wordLength, samples).Some?
      ensures Valid() && fresh(rows) && enabled
      ensures this.wordLength == wordLength && this.solutions == solutions
      ensures this.validWords == validWords && rows.Length == rowCount
      ensures rowIndex == 0 && columnIndex == 0
      ensures forall r :: 0 <= r < rowCount ==> GameModel.AllEmpty(rows[r])
      ensures word == if wordLength == 0 then "" else WordCatalog.FirstFit(solutions, wordLength, samples).value
    {
      this.wordLength := wordLength;
      this.solutions := solutions;
      this.validWords := validWords;
      rows := new seq<Tile>[rowCount](_ => seq(wordLength, _ => EmptyTile));
      rowIndex, columnIndex := 0, 0;
      word := "";
      enabled := true;
      new;
      NewGame(samples);
    }

    /** NewGame: ClearBoard, SetRandomWord, enable. */
    method NewGame(samples: seq<nat>)
      requires Shaped()
      requires WordCatalog.SamplesInRange(solutions, samples)
      requires if wordLength == 0 then word == "" else WordCatalog.FirstFit(solutions, wordLength, samples).Some?
      modifies this, rows
      ensures Valid()
      ensures View() == GameModel.NewGame(old(View()), word)
      ensures word == if wordLength == 0 then old(word) else WordCatalog.FirstFit(solutions, wordLength, samples).value
    {
      ClearBoard();
      SetRandomWord(samples);
      enabled := true;
      if wordLength > 0 {
        WordCatalog.FirstFitIsNormalizedSolution(solutions, wordLength, samples);
      }
      GameModel.NewGameStarts(old(View()), word, wordLength);
    }

    /** TryAgain: ClearBoard and enable, with the same secret word. */
    method TryAgain()
      requires Valid()
      modifies this, rows
      ensures Valid() && View() == GameModel.TryAgain(old(View()))
    {
      ClearBoard();
      enabled := true;
      GameModel.TryAgainRestarts(old(View()), wordLength);
    }

    /** SetRandomWord: draw solutions until one, lower-cased and trimmed,
        has wordLength characters, and make it the secret. The draws are the
        given samples: when they run out before a fit, the loop stops and
        the word is unchanged. */
    method SetRandomWord(samples: seq<nat>)
      requires WordCatalog.SamplesInRange(solutions, samples)
      modifies this`word
      ensures word == if wordLength > 0 && WordCatalog.FirstFit(solutions, wordLength, samples).Some?
                      then WordCatalog.FirstFit(solutions, wordLength, samples).value
                      else old(word)
    {
      var pickedWord := "";
      var k := 0;
      while |pickedWord| != wordLength && k < |samples|
        invariant k <= |samples|
        invariant wordLength == 0 ==> pickedWord == "" && k == 0 && word == old(word)
        invariant |pickedWord| != wordLength ==>
          word == old(word)
          && WordCatalog.FirstFit(solutions, wordLength, samples)
             == WordCatalog.FirstFit(solutions, wordLength, samples[k..])
        invariant |pickedWord| == wordLength && wordLength > 0 ==>
          word == pickedWord && WordCatalog.FirstFit(solutions, wordLength, samples) == WordCatalog.Some(word)
        decreases |samples| - k
      {
        assert samples[k..][1..] == samples[k + 1..];
        pickedWord := solutions[samples[k]];
        pickedWord := WordCatalog.Normalize(pickedWord);
        k := k + 1;
        if |pickedWord| == wordLength {
          word := pickedWord;
        }
      }
      if |pickedWord| != wordLength {
        assert samples[k..] == [];
      }
    }

    /** Update, one frame with one key: Backspace deletes the letter left of
        the cursor; otherwise a letter key fills the cursor tile if the row
        has room; Return on a full row submits it. The engine calls Update
        only while the board is enabled. */
    method Update(input: GameModel.Input)
      requires Valid() && enabled
      modifies this, rows
      ensures Valid()
      ensures View() == GameModel.Update(old(View()), input, wordLength, validWords)
    {
      ghost var g := View();
      ghost var next := GameModel.Update(g, input, wordLength, validWords);
      if input == GameModel.Backspace {
        if columnIndex > 0 {
          columnIndex := columnIndex - 1;
          var tile := rows[rowIndex][columnIndex];
          rows[rowIndex] := rows[rowIndex][columnIndex := tile.(letter := '\0')];
          rows[rowIndex] := rows[rowIndex][columnIndex := rows[rowIndex][columnIndex].(state := Empty)];
          assert rows[rowIndex] == g.rows[rowIndex][columnIndex := EmptyTile];
          assert rows[..] == next.rows;
        }
        assert View() == next;
      } else if columnIndex < wordLength {
        if input.Letter? && IsLetter(input.key) {
          rows[rowIndex] := rows[rowIndex][columnIndex := rows[rowIndex][columnIndex].(letter := input.key)];
          rows[rowIndex] := rows[rowIndex][columnIndex := rows[rowIndex][columnIndex].(state := Occupied)];
          assert rows[rowIndex] == g.rows[rowIndex][columnIndex := Tile(input.key, Occupied)];
          columnIndex := columnIndex + 1;
          assert rows[..] == next.rows;
        }
      }
      if input == GameModel.Return && columnIndex == wordLength {
        SubmitRow();
      }
      assert View() == next;
      GameModel.UpdatePreservesInv(g, input, wordLength, validWords);
    }

    /** SubmitRow: reject a row that spells no accepted word; otherwise
        score it in two passes, disable the board on a win, move to the
        next row and disable the board when none is left. */
    method SubmitRow()
      requires Valid() && enabled && columnIndex == wordLength
      modifies this, rows
      ensures Valid()
      ensures View() == GameModel.SubmitRow(old(View()), validWords)
    {
      ghost var g := View();
      var row := rows[rowIndex];
      var guess := GameModel.Letters(row);
      var valid := WordCatalog.IsValidWord(validWords, guess);
      if !valid {
        return;
      }
      ghost var scored := GameModel.Scored(row, Scoring.Evaluate(word, guess));
      ScoreRow();
      assert rows[..] == g.rows[rowIndex := scored];
      var won := HasWon(rows[rowIndex]);
      if won {
        enabled := false;
      }
      rowIndex := rowIndex + 1;
      columnIndex := 0;
      if rowIndex >= rows.Length {
        enabled := false;
      }
      ghost var next := GameModel.SubmitRow(g, validWords);
      assert rows[..] == next.rows;
      assert enabled == next.enabled;
      assert View() == next;
      GameModel.SubmitRowPreservesInv(g, wordLength, validWords);
    }

    /** The two scoring passes of SubmitRow over the cursor row, all of
        whose tiles are Occupied: the row ends up with the evaluator's
        states, and nothing else changes. */
    method ScoreRow()
      requires rowIndex < rows.Length && |word| == wordLength && |rows[rowIndex]| == wordLength
      requires GameModel.Typing(rows[rowIndex], wordLength)
      modifies rows
      ensures rows[rowIndex] == GameModel.Scored(old(rows[rowIndex]),
                                  Scoring.Evaluate(word, GameModel.Letters(old(rows[rowIndex]))))
      ensures forall r :: 0 <= r < rows.Length && r != rowIndex ==> rows[r] == old(rows[r])
    {
      ghost var row := rows[rowIndex];
      var remaining := ExactPass();
      WrongSpotPass(row, remaining);
    }

    /** Pass 1: an exact letter is Correct and blanked out of `remaining`,
        a letter the secret lacks is Incorrect, the rest stay Occupied. */
    method ExactPass() returns (remaining: string)
      requires rowIndex < rows.Length && |word| == wordLength && |rows[rowIndex]| == wordLength
      requires GameModel.Typing(rows[rowIndex], wordLength)
      modifies rows
      ensures var guess := GameModel.Letters(old(rows[rowIndex]));
        rows[rowIndex] == GameModel.Scored(old(rows[rowIndex]), Scoring.Pass1States(word, guess, wordLength))
        && remaining == Scoring.Pass1Remaining(word, guess, wordLength)
      ensures forall r :: 0 <= r < rows.Length && r != rowIndex ==> rows[r] == old(rows[r])
    {
      var row := rows[rowIndex];
      var guess := GameModel.Letters(row);
      remaining := word;
      assert row == GameModel.Scored(row, Scoring.Pass1States(word, guess, 0));
      for i := 0 to wordLength
        invariant rows[rowIndex] == GameModel.Scored(row, Scoring.Pass1States(word, guess, i))
        invariant remaining == Scoring.Pass1Remaining(word, guess, i)
        invariant forall r :: 0 <= r < rows.Length && r != rowIndex ==> rows[r] == old(rows[r])
      {
        var tile := rows[rowIndex][i];
        Scoring.Pass1Step(word, guess, i);
        GameModel.ScoredUpdate(row, Scoring.Pass1States(word, guess, i), i, Scoring.Pass1Class(word, guess, i));
        if tile.letter == word[i] {
          rows[rowIndex] := rows[rowIndex][i := tile.(state := Correct)];
          Strings.RemoveInsertIsUpdate(remaining, i, Scoring.Blank);
          remaining := Strings.Remove(remaining, i, 1);
          remaining := Strings.Insert(remaining, i, " ");
        } else if tile.letter !in word {
          rows[rowIndex] := rows[rowIndex][i := tile.(state := Incorrect)];
        }
      }
    }

    /** Pass 2 over the row pass 1 left (typed as `row`): each tile still
        Occupied is WrongSpot if its letter is left in `remaining`, which
        then loses that occurrence, and Incorrect otherwise. */
    method WrongSpotPass(ghost row: seq<Tile>, remaining0: string)
      requires rowIndex < rows.Length && |word| == wordLength && |row| == wordLength
      requires rows[rowIndex] == GameModel.Scored(row, Scoring.Pass1States(word, GameModel.Letters(row), wordLength))
      requires remaining0 == Scoring.Pass1Remaining(word, GameModel.Letters(row), wordLength)
      modifies rows
      ensures rows[rowIndex] == GameModel.Scored(row, Scoring.Evaluate(word, GameModel.Letters(row)))
      ensures forall r :: 0 <= r < rows.Length && r != rowIndex ==> rows[r] == old(rows[r])
    {
      var guess := GameModel.Letters(row);
      var remaining := remaining0;
      for i := 0 to |rows[rowIndex]|
        invariant |rows[rowIndex]| == |row|
        invariant rows[rowIndex] == GameModel.Scored(row, Scoring.Pass2Upto(word, guess, i).states)
        invariant remaining == Scoring.Pass2Upto(word, guess, i).remaining
        invariant forall r :: 0 <= r < rows.Length && r != rowIndex ==> rows[r] == old(rows[r])
      {
        var tile := rows[rowIndex][i];
        if tile.state != Correct && tile.state != Incorrect {
          if tile.letter in remaining {
            GameModel.ScoredUpdate(row, Scoring.Pass2Upto(word, guess, i).states, i, WrongSpot);
            rows[rowIndex] := rows[rowIndex][i := tile.(state := WrongSpot)];
            var index := Strings.IndexOf(remaining, tile.letter);
            Strings.RemoveInsertIsUpdate(remaining, index, Scoring.Blank);
            remaining := Strings.Remove(remaining, index, 1);
            remaining := Strings.Insert(remaining, index, " ");
          } else {
            GameModel.ScoredUpdate(row, Scoring.Pass2Upto(word, guess, i).states, i, Incorrect);
            rows[rowIndex] := rows[rowIndex][i := tile.(state := Incorrect)];
          }
        }
      }
    }

    /** HasWon: an early-return scan for a tile that is not Correct. */
    method HasWon(row: seq<Tile>) returns (won: bool)
      ensures won <==> GameModel.Solved(row)
    {
      for i := 0 to |row|
        invariant forall k :: 0 <= k < i ==> row[k].state == Correct
      {
        if row[i].state != Correct {
          return false;
        }
      }
      return true;
    }

    /** ClearBoard: every tile of every row gets the letter '\0' and the
        Empty state, and both indices go back to 0. */
    method ClearBoard()
      modifies this`rowIndex, this`columnIndex, rows
      ensures View() == GameModel.Clear(old(View()))
    {
      for r := 0 to rows.Length
        invariant forall q :: 0 <= q < r ==> rows[q] == seq(|old(rows[q])|, c => EmptyTile)
        invariant forall q :: r <= q < rows.Length ==> rows[q] == old(rows[q])
      {
        ghost var before := rows[..];
        for col := 0 to |rows[r]|
          invariant |rows[r]| == |old(rows[r])|
          invariant forall c :: 0 <= c < col ==> rows[r][c] == EmptyTile
          invariant forall c :: col <= c < |rows[r]| ==> rows[r][c] == old(rows[r])[c]
          invariant forall q :: 0 <= q < rows.Length && q != r ==> rows[q] == before[q]
        {
          rows[r] := rows[r][col := rows[r][col].(letter := '\0')];
          rows[r] := rows[r][col := rows[r][col].(state := Empty)];
        }
        assert rows[r] == seq(|old(rows[r])|, c => EmptyTile);
      }
      rowIndex := 0;
      columnIndex := 0;
      assert rows[..] == GameModel.Clear(old(View())).rows;
    }
  }
}
