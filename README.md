# Wordle board — a Dafny model of `Board`

This project models the `Board` behaviour of a Wordle-style game (a Unity
C# script). A player has a fixed number of rows to guess a secret word of
`wordLength` letters. They type letters into the row under the cursor,
delete them with Backspace and submit the row with Return. An accepted
guess is scored tile by tile as Correct (right letter, right place),
WrongSpot (letter elsewhere in the secret) or Incorrect. Duplicate letters
are accounted for.

The model has six modules, one per concern:

- `Strings`: the .NET string operations the board uses (`ToLower`, `Trim`, `IndexOf`, `Remove`, `Insert`).
- `Tiles`: the tile value (letter, state) and the closed set of states `Empty | Occupied | Correct | WrongSpot | Incorrect`. `Tile.cs` and `Board.cs` compare states by reference to one shared object per state; the model compares them as values.
- `Scoring`: the two scoring passes of `SubmitRow`, as functions that follow the loops iteration by iteration. The lemmas say what the result means: which tile gets which class; no letter is matched more often than the secret has it; the passes compute the usual Wordle rule (`Reference`), defined independently of the loops.
- `WordCatalog`: normalisation (`ToLower().Trim()`), `IsValidWord` as a loop proved against a membership predicate, and `FirstFit`, the specification of the resampling loop of `SetRandomWord`.
- `GameModel`: the board as a value (rows, `rowIndex`, `columnIndex`, secret, `enabled`). It has one function per move, the board invariant `Inv`, and lemmas about the moves.
- `WordleBoard`: the class `Board`. Its fields are updated in place by `Update`, `SubmitRow` (with the scoring loops in `ScoreRow`), `ClearBoard`, `SetRandomWord`, `NewGame` and `TryAgain`. `Update`, `SubmitRow`, `NewGame` and `TryAgain` are proved to take the board from `View()` to the `GameModel` value their operation gives and to keep `GameModel.Inv`. `ClearBoard` is proved to give `GameModel.Clear` of the old view; it does not by itself keep `Inv`, because it leaves `enabled` to its callers. The scoring passes (`ScoreRow`, `ExactPass`, `WrongSpotPass`) and `SetRandomWord` are specified on the fields they change. `HasWon` is a query.

Modelling decisions:

- The random indices of `SetRandomWord` (`Random.Range`) are a sequence `samples` given by the caller.
- The key polled in a frame (`Input.GetKeyDown`) is one `Input` per call to `Update`: a letter key, Backspace or Return.
- `gameManager.wordLength` is a constant of the board, fixed when the board is constructed.
- The two word lists (`solutions`, `validWords`) are given as sequences of strings.
- Every row has exactly `wordLength` tiles. This is where the two loop bounds of `SubmitRow` meet: pass 1 runs to `gameManager.wordLength`, while pass 2 and `HasWon` run to `row.tiles.Length`.
- `Row.word` is taken to be the row's letters in order (`GameModel.Letters`); `Row.cs` is not part of this model.
- Typed letters are `(char)KeyCode.A` … `(char)KeyCode.Z`, that is `'a'` … `'z'`.

Behaviour of `Board.cs` that the model keeps as written:

- `TryAgain` clears the board but keeps the secret word; only `NewGame` draws a new one.
- There is no won/lost status, only `enabled`. A solved row or running out of rows disables the board.
- After a winning row, `rowIndex` is still incremented.
- An unknown word leaves the row as typed and the cursor where it was.
- Secret "crane", guess "trace" scores Incorrect, Correct, Correct, WrongSpot, Correct: r, a and e are in place (`Scoring.CraneTrace`).
- "sassy" has three s. The guess "assss" gets two Correct s, one WrongSpot s and one Incorrect s (`Scoring.SassyAssss`).

## Model

| member | source | states |
|---|---|---|
| `Scoring.Pass1Class` | Assets/Scripts/Board.cs:190-200 | defines pass 1's decision for tile i: Correct when the letter equals the secret's letter there, else Incorrect when the secret lacks it, else left Occupied for pass 2 |
| `Scoring.Pass1States` | Assets/Scripts/Board.cs:186-201 | defines the tile states after the first i iterations of pass 1 over a row of Occupied tiles |
| `Scoring.Pass1Remaining` | Assets/Scripts/Board.cs:183-201 | defines `remaining` after i iterations of pass 1: the secret with each exact position so far replaced by the blank |
| `Scoring.Pass2Step` | Assets/Scripts/Board.cs:206-222 | defines one iteration of pass 2: a tile neither Correct nor Incorrect becomes WrongSpot and blanks the first occurrence of its letter in `remaining` when there is one, and Incorrect otherwise; the lengths of the states and of `remaining` are kept |
| `Scoring.Evaluate` | Assets/Scripts/Board.cs:183-223 | defines the states SubmitRow gives a row spelling `guess`: pass 1 followed by pass 2 over every tile, one state per tile; its meaning is stated by the `Evaluate…` lemmas and `EvaluateIsReference` |
| `Scoring.Pass1Step` | Assets/Scripts/Board.cs:188-200 | one iteration of pass 1: tile i gets its pass-1 class, and `remaining` is blanked at i exactly when the letter is in place |
| `Scoring.Pass2Upto` | Assets/Scripts/Board.cs:183-223 | `remaining` keeps the secret's length and the row keeps its length through both passes |
| `Scoring.Pass2Shape` | Assets/Scripts/Board.cs:186-223 | after pass 2 has visited a tile, it is Correct, WrongSpot or Incorrect; it is Correct exactly when its letter matches the secret there; an absent letter is Incorrect; unvisited tiles keep pass 1's decision (pass 2 never hands out and never changes Correct) |
| `Scoring.EvaluateCorrectIffExact` | Assets/Scripts/Board.cs:190-196 | a scored tile is Correct if and only if `guess[i] == word[i]` |
| `Scoring.EvaluateScoresEveryTile` | Assets/Scripts/Board.cs:186-223 | scoring classifies every tile as exactly one of Correct, WrongSpot, Incorrect |
| `Scoring.EvaluateAbsentIsIncorrect` | Assets/Scripts/Board.cs:197-200 | a guessed letter that does not occur in the secret is Incorrect |
| `Scoring.EvaluateSecretAllCorrect` | Assets/Scripts/Board.cs:190-192 | guessing the secret itself makes every tile Correct |
| `Scoring.Pass1Balance` | Assets/Scripts/Board.cs:186-201 | in pass 1 every occurrence of a letter in the secret is either still in `remaining` or matched by a Correct tile |
| `Scoring.MatchCountUpdate` | Assets/Scripts/Board.cs:212 | reclassifying one tile changes the count of matched tiles of a letter by that tile's part only |
| `Scoring.Pass2Balance` | Assets/Scripts/Board.cs:204-223 | in pass 2 each WrongSpot tile takes one occurrence of its letter out of `remaining`, so matched tiles plus what is left equal the secret's count of each letter |
| `Scoring.EvaluateMatchBound` | Assets/Scripts/Board.cs:194-195 | for each letter, the Correct plus WrongSpot tiles guessing it are at most its number of occurrences in the secret |
| `Scoring.Pass1RemainingCount` | Assets/Scripts/Board.cs:183-201 | after pass 1, `remaining` holds exactly the occurrences of each letter not matched in place |
| `Scoring.UnmatchedInSecretAbsent` | Assets/Scripts/Board.cs:197 | a letter absent from the secret has no occurrences left for pass 2 |
| `Scoring.Pass2ReferenceStart` | Assets/Scripts/Board.cs:183-201 | when pass 2 starts, `remaining` holds all unmatched occurrences |
| `Scoring.Pass2ReferenceTake` | Assets/Scripts/Board.cs:210-216 | a tile whose letter is still in `remaining` becomes WrongSpot, as the reference rule says, and uses one occurrence |
| `Scoring.Pass2ReferenceMiss` | Assets/Scripts/Board.cs:218-221 | a tile whose letter is used up becomes Incorrect, as the reference rule says |
| `Scoring.Pass2ReferenceSkip` | Assets/Scripts/Board.cs:208 | pass 2 skips the tiles pass 1 classified, and they already agree with the reference rule |
| `Scoring.Pass2MatchesReference` | Assets/Scripts/Board.cs:204-223 | pass 2 agrees with the reference rule tile by tile, and `remaining` holds the occurrences earlier misplaced tiles have not used |
| `Scoring.EvaluateIsReference` | Assets/Scripts/Board.cs:183-223 | the two passes compute the usual Wordle rule: Correct in place; otherwise WrongSpot if fewer earlier misplaced copies of the letter exist than unmatched occurrences in the secret; else Incorrect |
| `Scoring.RemainingWithinSecret` | Assets/Scripts/Board.cs:194-195 | each position of `remaining` holds the secret's letter there or the blank |
| `Scoring.AbsentLetterNeverRemains` | Assets/Scripts/Board.cs:197-200 | the pass-1 Incorrect shortcut is redundant: an absent letter is never in `remaining`, so pass 2 would also mark it Incorrect |
| `Scoring.CraneTrace` | Assets/Scripts/Board.cs:183-223 | secret "crane", guess "trace" scores Incorrect, Correct, Correct, WrongSpot, Correct |
| `Scoring.SassyAssss` | Assets/Scripts/Board.cs:183-223 | secret "sassy", guess "assss" scores WrongSpot, WrongSpot, Correct, Correct, Incorrect |
| `Strings.IsWhiteSpace` | Assets/Scripts/Board.cs:111 | defines the `Char.IsWhiteSpace` set that `Trim` cuts (also used at line 241): space, U+0009–U+000D, U+0085, U+00A0, U+1680, U+2000–U+200A, U+2028, U+2029, U+202F, U+205F and U+3000 |
| `Strings.ToLower` | Assets/Scripts/Board.cs:111 | defines `ToLower()` character by character through `LowerChar`, keeping the length |
| `Strings.TrimStart` | Assets/Scripts/Board.cs:111 | defines dropping leading `Char.IsWhiteSpace` characters; never longer than its input (the rest in `TrimStartSpec`) |
| `Strings.TrimEnd` | Assets/Scripts/Board.cs:111 | defines dropping trailing `Char.IsWhiteSpace` characters; never longer than its input (the rest in `TrimEndSpec`) |
| `Strings.Trim` | Assets/Scripts/Board.cs:241 | defines `Trim()` as TrimStart followed by TrimEnd; its meaning is stated by `TrimSpec` |
| `Strings.Remove` | Assets/Scripts/Board.cs:194-195 | defines `Remove(start, count)`: the characters before `start` followed by those after `start + count` (also used at lines 215-216) |
| `Strings.Insert` | Assets/Scripts/Board.cs:194-195 | defines `Insert(start, t)`: the characters before `start`, then `t`, then the rest (also used at lines 215-216) |
| `Strings.IndexOf` | Assets/Scripts/Board.cs:214 | `IndexOf` gives -1 exactly when the character is absent, otherwise the position of its first occurrence |
| `Strings.RemoveInsertIsUpdate` | Assets/Scripts/Board.cs:194-195 | `Remove(i, 1)` then `Insert(i, " ")` overwrites position i and keeps the length |
| `Strings.LowerChar` | Assets/Scripts/Board.cs:111 | lower-casing maps 'A'..'Z' to 'a'..'z' and leaves other characters alone |
| `Strings.TrimStartSpec` | Assets/Scripts/Board.cs:111 | TrimStart keeps a suffix not starting with white space and cuts only white space |
| `Strings.TrimEndSpec` | Assets/Scripts/Board.cs:111 | TrimEnd keeps a prefix not ending with white space and cuts only white space |
| `Strings.TrimSpec` | Assets/Scripts/Board.cs:241 | Trim keeps a contiguous stretch with no white space at either end, cutting only white space around it |
| `WordCatalog.SamplesInRange` | Assets/Scripts/Board.cs:110 | defines the range of `Random.Range(0, solutions.Length)`: every drawn index lies in [0, `solutions.Length`) |
| `WordCatalog.Normalize` | Assets/Scripts/Board.cs:111 | defines `ToLower().Trim()`, the form in which solutions (line 111) and accepted words (line 241) are compared |
| `WordCatalog.Accepted` | Assets/Scripts/Board.cs:237-247 | defines the membership `IsValidWord` decides: some entry of `validWords`, normalised, equals the word |
| `WordCatalog.FirstFit` | Assets/Scripts/Board.cs:105-117 | defines the word the resampling loop settles on for a given sequence of draws: the first drawn solution whose normal form has `wordLength` characters, or none if the draws run out first |
| `WordCatalog.NormalizeShape` | Assets/Scripts/Board.cs:241 | a normalised entry has no ASCII upper-case letter ('A'..'Z') and no white space at either end; other capitals pass through, as `Strings.LowerChar` maps only ASCII |
| `WordCatalog.IsValidWord` | Assets/Scripts/Board.cs:237-247 | returns true if and only if some entry of the accepted list, lower-cased and trimmed, equals the word |
| `WordCatalog.FirstFitIsNormalizedSolution` | Assets/Scripts/Board.cs:105-117 | a picked word has `wordLength` characters and is the lower-cased, trimmed form of one of the solutions |
| `WordCatalog.FirstFitFinds` | Assets/Scripts/Board.cs:108-116 | the loop ends as soon as a sampled solution has the right length |
| `WordCatalog.FirstFitNeverWithoutCandidate` | Assets/Scripts/Board.cs:108-116 | with no solution of length `wordLength`, no index sequence ever ends the loop |
| `Tiles.IsLetter` | Assets/Scripts/Board.cs:11-17 | defines the keys that type a letter, `SUPPORTED_KEYS` `KeyCode.A` … `KeyCode.Z`; `(char)KeyCode` (line 154) gives `'a'` … `'z'` |
| `GameModel.Letters` | Assets/Scripts/Board.cs:177 | defines `row.word`: the row's letters in order, one per tile |
| `GameModel.AddLetter` | Assets/Scripts/Board.cs:148-160 | defines a letter key: the tile under the column cursor gets the letter and Occupied, and the cursor moves one right |
| `GameModel.DeleteLetter` | Assets/Scripts/Board.cs:136-147 | defines Backspace with `columnIndex > 0`: the cursor moves one left and that tile becomes `'\0'`/Empty |
| `GameModel.SubmitRow` | Assets/Scripts/Board.cs:174-235 | defines SubmitRow: an unaccepted word changes nothing; an accepted one gets the evaluator's states, the cursor moves to column 0 of the next row, and the board is disabled by a solved row or when no row is left |
| `GameModel.Update` | Assets/Scripts/Board.cs:133-172 | defines one frame of an enabled board: Backspace deletes when there is a letter to delete, a letter key types when the row has room, Return submits a full row, anything else changes nothing |
| `GameModel.Clear` | Assets/Scripts/Board.cs:261-274 | defines ClearBoard: every tile `'\0'`/Empty and both indices 0, with the secret and `enabled` unchanged |
| `GameModel.NewGame` | Assets/Scripts/Board.cs:84-90 | defines NewGame as Clear, then the picked secret, then enabled |
| `GameModel.TryAgain` | Assets/Scripts/Board.cs:92-97 | defines TryAgain as Clear, then enabled, with the secret kept |
| `GameModel.Frame` | Assets/Scripts/Board.cs:133-172 | defines one engine frame: `Update` runs only while `enabled` is set (set at lines 89, 96, 226 and 233); a disabled board is left as it is |
| `GameModel.Run` | Assets/Scripts/Board.cs:133-172 | defines a sequence of frames, one key each, applied in order |
| `GameModel.ScoredRow` | Assets/Scripts/Board.cs:186-223 | scoring keeps the row's letters and sets exactly the evaluator's states |
| `GameModel.AddLetterPreservesInv` | Assets/Scripts/Board.cs:148-161 | typing a letter keeps the board invariant |
| `GameModel.DeleteLetterPreservesInv` | Assets/Scripts/Board.cs:136-147 | Backspace keeps the board invariant |
| `GameModel.SubmitRowPreservesInv` | Assets/Scripts/Board.cs:174-235 | submitting keeps the board invariant: scored rows above the cursor, the typed row, empty rows below, and `enabled` exactly while rows remain and none is solved |
| `GameModel.UpdatePreservesInv` | Assets/Scripts/Board.cs:133-172 | every frame keeps the board invariant; in particular `columnIndex <= wordLength` and `rowIndex <= rows.Length` |
| `GameModel.FramePreservesInv` | Assets/Scripts/Board.cs:133-172 | a frame, with or without Update being called, keeps the invariant |
| `GameModel.RunPreservesInv` | Assets/Scripts/Board.cs:133-172 | any sequence of frames keeps the board invariant |
| `GameModel.AddLetterEffect` | Assets/Scripts/Board.cs:148-161 | a letter key with room puts the letter, Occupied, under the cursor and moves the cursor right, never past `wordLength` |
| `GameModel.AddThenDelete` | Assets/Scripts/Board.cs:136-161 | Backspace right after a letter key restores the board exactly |
| `GameModel.DeleteAtStart` | Assets/Scripts/Board.cs:136-138 | Backspace at column 0 changes nothing |
| `GameModel.SubmitNeedsFullRow` | Assets/Scripts/Board.cs:163 | Return before the row is full changes nothing |
| `GameModel.SubmitRejectsUnknownWord` | Assets/Scripts/Board.cs:177-181 | an unaccepted word leaves tiles, `rowIndex` and `columnIndex` unchanged |
| `GameModel.SubmitAccepted` | Assets/Scripts/Board.cs:183-234 | an accepted word: the row keeps its letters and gets the evaluator's states; no other row changes; `rowIndex` + 1, `columnIndex` 0; enabled exactly when not solved and rows remain |
| `GameModel.GuessingTheSecretWins` | Assets/Scripts/Board.cs:225-230 | guessing the (accepted) secret solves the row, disables the board, and still advances `rowIndex` |
| `GameModel.LastRowEndsGame` | Assets/Scripts/Board.cs:232-234 | an accepted word on the last row disables the board |
| `GameModel.FrameKeepsHistory` | Assets/Scripts/Board.cs:133-235 | a frame never changes a submitted row or the secret and moves `rowIndex` forward by at most one |
| `GameModel.DisabledIgnoresInput` | Assets/Scripts/Board.cs:225-234 | once disabled (won or out of rows), the board ignores every key |
| `GameModel.NewGameStarts` | Assets/Scripts/Board.cs:84-90 | NewGame yields an enabled board of empty tiles, cursor at 0, 0, with the picked secret |
| `GameModel.TryAgainRestarts` | Assets/Scripts/Board.cs:92-97 | TryAgain yields the same fresh board but keeps the secret |
| `WordleBoard.Board.constructor` | Assets/Scripts/Board.cs:45-54 | Awake and Start: rows of empty tiles, then NewGame; the board is valid and enabled with the first fitting sample as secret |
| `WordleBoard.Board.NewGame` | Assets/Scripts/Board.cs:84-90 | clears the board, takes the picked word, enables, and keeps the invariant |
| `WordleBoard.Board.TryAgain` | Assets/Scripts/Board.cs:92-97 | clears the board and enables it with the same secret |
| `WordleBoard.Board.SetRandomWord` | Assets/Scripts/Board.cs:105-117 | the secret becomes the first sampled solution whose normal form has `wordLength` characters; it is unchanged if `wordLength` is 0 or the samples never hit |
| `WordleBoard.Board.Update` | Assets/Scripts/Board.cs:133-172 | one frame changes the board exactly as `GameModel.Update` says and keeps the invariant |
| `WordleBoard.Board.SubmitRow` | Assets/Scripts/Board.cs:174-235 | changes the board exactly as `GameModel.SubmitRow` says and keeps the invariant |
| `WordleBoard.Board.ScoreRow` | Assets/Scripts/Board.cs:183-223 | the two in-place passes leave the cursor row with the evaluator's states and its letters kept, and no other row changed |
| `WordleBoard.Board.ExactPass` | Assets/Scripts/Board.cs:183-201 | pass 1 in place: the row gets the pass-1 classes (Correct at exact positions, Incorrect for absent letters, Occupied otherwise) and `remaining` is the secret with exact positions blanked |
| `WordleBoard.Board.WrongSpotPass` | Assets/Scripts/Board.cs:203-223 | pass 2 in place: starting from pass 1's row and `remaining`, the row ends with the evaluator's states; no other row changes |
| `WordleBoard.Board.HasWon` | Assets/Scripts/Board.cs:249-259 | true if and only if every tile of the row is Correct |
| `WordleBoard.Board.ClearBoard` | Assets/Scripts/Board.cs:261-274 | every tile becomes `'\0'`/Empty and both indices become 0; the secret and `enabled` stay |

## Left out

- Rendering and UI toggling are not modelled; they only drive presentation. This covers column hiding in `OnSceneLoaded`, button visibility in `OnEnable`/`OnDisable`, and `invalidWordText`.
- `Tile.cs` is not modelled as a class. Its setters push colours and text to the UI; the model keeps only its `letter`/`state` pair, as the `Tile` value.
- `LoadData` is not modelled. It is resource loading and splitting on newlines; the two word lists are given as sequences.
- `Input.GetKeyDown` polling is replaced by one key per frame. Frames where several keys go down together are not modelled, for example the last letter and Return in the same frame. The scan over `SUPPORTED_KEYS` becomes the test `'a' <= c <= 'z'`.
- `Random.Range` is replaced by the `samples` sequence of indices.
- `SetRandomWord` loops forever when no solution has the configured length. The model ends its loop when the samples run out and then leaves the word unchanged. `FirstFitNeverWithoutCandidate` states the non-termination.
- `Board.constructor` and `Board.NewGame` require samples that hit a solution of the right length. They cover only runs in which the resampling loop ends.
- `SceneManager` scene changes (`OptionMenu`) and the `GameManager.Instance` singleton are not modelled. `wordLength` is a board constant instead.
- The `StringBuilder enteredWord` in `Update` is not modelled; it has no effect.
- Rows with hidden columns are not modelled. In the scene, a row may hold more tiles than `wordLength`. The model's rows have exactly `wordLength` tiles. `Row.cs` is not part of this model.
- Consequence of the hidden columns, read from the code but never observed: take a 6-tile row with `wordLength` 4 or 5. Pass 2 (lines 204-223) visits the hidden `'\0'`/Empty tiles. Since `'\0'` is never in `remaining`, it marks them Incorrect (lines 218-221). `HasWon` (lines 251-254) would then never return true on such a row. This depends on the tile layout in `Row.cs`.
- Boards with no rows are not modelled. `GameModel.Inv` and `Board.constructor` require at least one row. With an empty `rows`, `Board.cs` would throw at `rows[rowIndex]` (line 135) on every frame.
- Strings are sequences of Unicode scalar values, not .NET's UTF-16 code units. A solution with a character outside the Basic Multilingual Plane would have a different `Length` in `Board.cs` (lines 108 and 112) than `|s|` in the model, and `Trim`, `IndexOf` and `Remove(index, 1)` would cut code units rather than characters. The model assumes that the word lists loaded at lines 77 and 80 hold only ASCII; under that assumption this changes nothing. The model does not see those resources.
- `Strings.LowerChar` maps only the ASCII letters. The culture-dependent Unicode case mapping of .NET `ToLower` is left out.
- `Board.Update` requires `enabled`, because the engine calls `Update` only on an enabled behaviour. `GameModel.Frame` models the frames in which it is not called.
- `EvaluateMatchBound` is stated for every letter except the blank `' '`, the marker for consumed letters. Typed guesses never contain a blank; a guess that did could match the marker.
- `EvaluateIsReference` requires a guess without the blank, for the same reason.
