/** The guess evaluator of SubmitRow: two passes over the guessed row.
    Pass 1 marks exact positions Correct, blanking them in a copy
    `remaining` of the secret, and marks letters absent from the secret
    Incorrect. Pass 2 hands each still unclassified tile WrongSpot while its
    letter still occurs in `remaining` (blanking its first occurrence), and
    Incorrect otherwise.

    The functions below follow the two loops step by step; the lemmas say
    what the result means. */
module Scoring {
  import opened Tiles
  import Strings

  /** The character SubmitRow writes over a consumed letter of `remaining`. */
  const Blank: char := ' '

  function Min(a: nat, b: nat): nat { if a <= b then a else b }

  /** What pass 1 decides for tile i; Occupied means "left for pass 2". */
  function Pass1Class(secret: string, guess: string, i: nat): State
    requires |guess| == |secret| && i < |guess|
  {
    if guess[i] == secret[i] then Correct
    else if guess[i] !in secret then Incorrect
    else Occupied
  }

  /** The tile states after the first i iterations of pass 1 over a row of
      Occupied tiles. */
  function Pass1States(secret: string, guess: string, i: nat): seq<State>
    requires |guess| == |secret| && i <= |guess|
  {
    seq(|guess|, k requires 0 <= k < |guess| =>
      if k < i then Pass1Class(secret, guess, k) else Occupied)
  }

  /** `remaining` after the first i iterations of pass 1. */
  function Pass1Remaining(secret: string, guess: string, i: nat): string
    requires |guess| == |secret| && i <= |guess|
  {
    seq(|secret|, k requires 0 <= k < |secret| =>
      if k < i && guess[k] == secret[k] then Blank else secret[k])
  }

  /** One iteration of pass 1: tile i gets its class and, at an exact
      position, `remaining` is blanked there. */
  lemma Pass1Step(secret: string, guess: string, i: nat)
    requires |guess| == |secret| && i < |guess|
    ensures Pass1States(secret, guess, i + 1)
         == Pass1States(secret, guess, i)[i := Pass1Class(secret, guess, i)]
    ensures Pass1Remaining(secret, guess, i + 1)
         == if guess[i] == secret[i] then Pass1Remaining(secret, guess, i)[i := Blank]
            else Pass1Remaining(secret, guess, i)
  {
  }

  /** The state pass 2 carries from one tile to the next. */
  datatype Scan = Scan(states: seq<State>, remaining: string)

  /** One iteration of pass 2, at tile i. */
  function Pass2Step(s: Scan, guess: string, i: nat): (t: Scan)
    requires i < |s.states| && i < |guess|
    ensures |t.states| == |s.states| && |t.remaining| == |s.remaining|
  {
    if s.states[i] != Correct && s.states[i] != Incorrect then
      if guess[i] in s.remaining then
        Scan(s.states[i := WrongSpot], s.remaining[Strings.IndexOf(s.remaining, guess[i]) := Blank])
      else
        Scan(s.states[i := Incorrect], s.remaining)
    else
      s
  }

  /** The states and `remaining` after pass 1 and the first i iterations of
      pass 2; `remaining` keeps the secret's length throughout. */
  function Pass2Upto(secret: string, guess: string, i: nat): (s: Scan)
    requires |guess| == |secret| && i <= |guess|
    ensures |s.states| == |guess| && |s.remaining| == |secret|
  {
    if i == 0 then
      Scan(Pass1States(secret, guess, |guess|), Pass1Remaining(secret, guess, |guess|))
    else
      Pass2Step(Pass2Upto(secret, guess, i - 1), guess, i - 1)
  }

  /** The classification SubmitRow gives a row spelling `guess`. */
  function Evaluate(secret: string, guess: string): (r: seq<State>)
    requires |guess| == |secret|
  {
    Pass2Upto(secret, guess, |guess|).states
  }

  /** Number of positions j < i that guess letter c where the secret has
      another letter. */
  function UnmatchedInGuess(secret: string, guess: string, c: char, i: nat): nat
    requires |guess| == |secret| && i <= |guess|
  {
    if i == 0 then 0
    else UnmatchedInGuess(secret, guess, c, i - 1)
         + (if guess[i - 1] == c && secret[i - 1] != c then 1 else 0)
  }

  /** Number of positions k < i where the secret has letter c and the guess
      another letter: the occurrences of c left for pass 2. */
  function UnmatchedInSecret(secret: string, guess: string, c: char, i: nat): nat
    requires |guess| == |secret| && i <= |guess|
  {
    if i == 0 then 0
    else UnmatchedInSecret(secret, guess, c, i - 1)
         + (if secret[i - 1] == c && guess[i - 1] != c then 1 else 0)
  }

  /** Number of tiles j < i guessing letter c that are Correct or WrongSpot. */
  function MatchCount(guess: string, states: seq<State>, c: char, i: nat): nat
    requires |states| == |guess| && i <= |guess|
  {
    if i == 0 then 0
    else MatchCount(guess, states, c, i - 1)
         + (if guess[i - 1] == c && IsMatch(states[i - 1]) then 1 else 0)
  }

  /** The usual statement of the Wordle rule, independent of the loops: a
      tile is Correct when its letter is at the right place; otherwise it is
      WrongSpot when fewer earlier tiles carry the same misplaced letter than
      the secret has unmatched occurrences of it, and Incorrect if not. */
  function Reference(secret: string, guess: string): (r: seq<State>)
    requires |guess| == |secret|
  {
    seq(|guess|, i requires 0 <= i < |guess| =>
      if guess[i] == secret[i] then Correct
      else if UnmatchedInGuess(secret, guess, guess[i], i)
              < UnmatchedInSecret(secret, guess, guess[i], |guess|) then WrongSpot
      else Incorrect)
  }

  // ---------------------------------------------------------------------
  // Which tile gets which class

  /** Pass 2 so far: the tiles it has visited hold a final class, Correct
      exactly at the exact positions (pass 2 never hands out Correct and
      never changes a Correct tile), Incorrect wherever the letter is absent
      from the secret; the others still hold what pass 1 left. */
  lemma {:induction false} Pass2Shape(secret: string, guess: string, i: nat)
    requires |guess| == |secret| && i <= |guess|
    ensures forall k :: 0 <= k < i ==>
      var st := Pass2Upto(secret, guess, i).states[k];
      IsScored(st) && (st == Correct <==> guess[k] == secret[k])
      && (guess[k] !in secret ==> st == Incorrect)
    ensures forall k :: i <= k < |guess| ==>
      Pass2Upto(secret, guess, i).states[k] == Pass1Class(secret, guess, k)
  {
    if i > 0 {
      Pass2Shape(secret, guess, i - 1);
    }
  }

  /** A tile is Correct exactly when its letter is the secret's letter at
      that position. */
  lemma EvaluateCorrectIffExact(secret: string, guess: string, i: nat)
    requires |guess| == |secret| && i < |guess|
    ensures Evaluate(secret, guess)[i] == Correct <==> guess[i] == secret[i]
  {
    Pass2Shape(secret, guess, |guess|);
  }

  /** After scoring, every tile is Correct, WrongSpot or Incorrect. */
  lemma EvaluateScoresEveryTile(secret: string, guess: string)
    requires |guess| == |secret|
    ensures |Evaluate(secret, guess)| == |guess|
    ensures forall i :: 0 <= i < |guess| ==> IsScored(Evaluate(secret, guess)[i])
  {
    Pass2Shape(secret, guess, |guess|);
  }

  /** A letter that does not occur in the secret is always Incorrect. */
  lemma EvaluateAbsentIsIncorrect(secret: string, guess: string, i: nat)
    requires |guess| == |secret| && i < |guess| && guess[i] !in secret
    ensures Evaluate(secret, guess)[i] == Incorrect
  {
    Pass2Shape(secret, guess, |guess|);
  }

  /** Guessing the secret itself turns every tile Correct. */
  lemma EvaluateSecretAllCorrect(secret: string)
    ensures forall i :: 0 <= i < |secret| ==> Evaluate(secret, secret)[i] == Correct
  {
    Pass2Shape(secret, secret, |secret|);
  }

  // ---------------------------------------------------------------------
  // Duplicate letters: no letter is matched more often than the secret has it

  /** Pass 1 balance: every occurrence of c (not the blank) in a prefix of the
      secret is either still in `remaining` or matched by a Correct tile. */
  lemma {:induction false} Pass1Balance(secret: string, guess: string, c: char, i: nat)
    requires |guess| == |secret| && i <= |guess| && c != Blank
    ensures multiset(Pass1Remaining(secret, guess, |guess|)[..i])[c]
            + MatchCount(guess, Pass1States(secret, guess, |guess|), c, i)
            == multiset(secret[..i])[c]
  {
    if i > 0 {
      Pass1Balance(secret, guess, c, i - 1);
      var rem := Pass1Remaining(secret, guess, |guess|);
      assert rem[..i] == rem[..i - 1] + [rem[i - 1]];
      assert secret[..i] == secret[..i - 1] + [secret[i - 1]];
    }
  }

  /** Changing one state changes the match count by that tile's part only. */
  lemma {:induction false} MatchCountUpdate(guess: string, states: seq<State>, c: char,
                                            i: nat, j: nat, v: State)
    requires |states| == |guess| && i <= |guess| && j < |guess|
    ensures MatchCount(guess, states[j := v], c, i)
            + (if j < i && guess[j] == c && IsMatch(states[j]) then 1 else 0)
            == MatchCount(guess, states, c, i)
            + (if j < i && guess[j] == c && IsMatch(v) then 1 else 0)
  {
    if i > 0 {
      MatchCountUpdate(guess, states, c, i - 1, j, v);
    }
  }

  /** Pass 2 balance: each WrongSpot tile takes its letter out of `remaining`,
      so matched tiles plus what is left always add up to the secret. */
  lemma {:induction false} Pass2Balance(secret: string, guess: string, c: char, i: nat)
    requires |guess| == |secret| && i <= |guess| && c != Blank
    ensures multiset(Pass2Upto(secret, guess, i).remaining)[c]
            + MatchCount(guess, Pass2Upto(secret, guess, i).states, c, |guess|)
            == multiset(secret)[c]
  {
    if i == 0 {
      Pass1Balance(secret, guess, c, |guess|);
      assert Pass1Remaining(secret, guess, |guess|)[..|guess|] == Pass1Remaining(secret, guess, |guess|);
      assert secret[..|guess|] == secret;
    } else {
      var j := i - 1;
      Pass2Balance(secret, guess, c, j);
      Pass2Shape(secret, guess, j);
      var s := Pass2Upto(secret, guess, j);
      if s.states[j] != Correct && s.states[j] != Incorrect {
        assert s.states[j] == Occupied;
        if guess[j] in s.remaining {
          var idx := Strings.IndexOf(s.remaining, guess[j]);
          MatchCountUpdate(guess, s.states, c, |guess|, j, WrongSpot);
          assert multiset(s.remaining[idx := Blank])[c]
                 == multiset(s.remaining)[c] - (if guess[j] == c then 1 else 0);
        } else {
          MatchCountUpdate(guess, s.states, c, |guess|, j, Incorrect);
        }
      }
    }
  }

  /** For every letter other than the blank, the Correct plus WrongSpot
      tiles guessing it are at most as many as its occurrences in the secret. */
  lemma EvaluateMatchBound(secret: string, guess: string, c: char)
    requires |guess| == |secret| && c != Blank
    ensures MatchCount(guess, Evaluate(secret, guess), c, |guess|) <= multiset(secret)[c]
  {
    Pass2Balance(secret, guess, c, |guess|);
  }

  // ---------------------------------------------------------------------
  // The two passes compute the reference rule

  /** For every letter other than the blank, and for every guess, the
      first i positions of `remaining` after pass 1 hold exactly the
      unmatched occurrences of that letter among them. */
  lemma {:induction false} Pass1RemainingCount(secret: string, guess: string, c: char, i: nat)
    requires |guess| == |secret| && i <= |guess| && c != Blank
    ensures multiset(Pass1Remaining(secret, guess, |guess|)[..i])[c]
            == UnmatchedInSecret(secret, guess, c, i)
  {
    if i > 0 {
      Pass1RemainingCount(secret, guess, c, i - 1);
      var rem := Pass1Remaining(secret, guess, |guess|);
      assert rem[..i] == rem[..i - 1] + [rem[i - 1]];
    }
  }

  /** A letter absent from the secret has no unmatched occurrences. */
  lemma {:induction false} UnmatchedInSecretAbsent(secret: string, guess: string, c: char, i: nat)
    requires |guess| == |secret| && i <= |guess| && c !in secret
    ensures UnmatchedInSecret(secret, guess, c, i) == 0
  {
    if i > 0 {
      UnmatchedInSecretAbsent(secret, guess, c, i - 1);
    }
  }

  /** Pass 2 so far agrees with the reference rule on the tiles it visited. */
  ghost predicate AgreesWithReference(secret: string, guess: string, i: nat)
    requires |guess| == |secret| && i <= |guess|
  {
    forall k :: 0 <= k < i ==> Pass2Upto(secret, guess, i).states[k] == Reference(secret, guess)[k]
  }

  /** After i tiles of pass 2, `remaining` holds the unmatched occurrences of
      each letter that the earlier misplaced tiles have not yet used. */
  ghost predicate RemainingIsUnused(secret: string, guess: string, i: nat)
    requires |guess| == |secret| && i <= |guess|
  {
    forall c :: c != Blank ==>
      multiset(Pass2Upto(secret, guess, i).remaining)[c]
      + Min(UnmatchedInGuess(secret, guess, c, i), UnmatchedInSecret(secret, guess, c, |guess|))
      == UnmatchedInSecret(secret, guess, c, |guess|)
  }

  /** The start of pass 2. */
  lemma Pass2ReferenceStart(secret: string, guess: string)
    requires |guess| == |secret|
    ensures RemainingIsUnused(secret, guess, 0)
  {
    var n := |guess|;
    forall c | c != Blank
      ensures multiset(Pass1Remaining(secret, guess, n))[c] == UnmatchedInSecret(secret, guess, c, n)
    {
      Pass1RemainingCount(secret, guess, c, n);
      assert Pass1Remaining(secret, guess, n)[..n] == Pass1Remaining(secret, guess, n);
    }
  }

  /** Tile j is unclassified after pass 1 and its letter is still in
      `remaining`: it becomes WrongSpot and uses one occurrence. */
  lemma Pass2ReferenceTake(secret: string, guess: string, j: nat)
    requires |guess| == |secret| && j < |guess| && Blank !in guess
    requires AgreesWithReference(secret, guess, j) && RemainingIsUnused(secret, guess, j)
    requires Pass2Upto(secret, guess, j).states[j] == Occupied
    requires guess[j] != secret[j]
    requires guess[j] in Pass2Upto(secret, guess, j).remaining
    ensures AgreesWithReference(secret, guess, j + 1) && RemainingIsUnused(secret, guess, j + 1)
  {
    var s := Pass2Upto(secret, guess, j);
    var g := guess[j];
    var idx := Strings.IndexOf(s.remaining, g);
    var rem := s.remaining[idx := Blank];
    assert Pass2Upto(secret, guess, j + 1) == Scan(s.states[j := WrongSpot], rem);
    assert multiset(s.remaining)[g] > 0;
    forall c | c != Blank
      ensures multiset(rem)[c] == multiset(s.remaining)[c] - (if c == g then 1 else 0)
    {
    }
  }

  /** Tile j is unclassified after pass 1 and its letter is used up: it
      becomes Incorrect. */
  lemma Pass2ReferenceMiss(secret: string, guess: string, j: nat)
    requires |guess| == |secret| && j < |guess| && Blank !in guess
    requires AgreesWithReference(secret, guess, j) && RemainingIsUnused(secret, guess, j)
    requires Pass2Upto(secret, guess, j).states[j] == Occupied
    requires guess[j] != secret[j]
    requires guess[j] !in Pass2Upto(secret, guess, j).remaining
    ensures AgreesWithReference(secret, guess, j + 1) && RemainingIsUnused(secret, guess, j + 1)
  {
    var s := Pass2Upto(secret, guess, j);
    assert Pass2Upto(secret, guess, j + 1) == Scan(s.states[j := Incorrect], s.remaining);
    assert multiset(s.remaining)[guess[j]] == 0;
  }

  /** Tile j was settled by pass 1, which pass 2 leaves alone. */
  lemma Pass2ReferenceSkip(secret: string, guess: string, j: nat)
    requires |guess| == |secret| && j < |guess| && Blank !in guess
    requires AgreesWithReference(secret, guess, j) && RemainingIsUnused(secret, guess, j)
    requires Pass2Upto(secret, guess, j).states[j] == Pass1Class(secret, guess, j)
    requires guess[j] == secret[j] || guess[j] !in secret
    ensures AgreesWithReference(secret, guess, j + 1) && RemainingIsUnused(secret, guess, j + 1)
  {
    var n := |guess|;
    var s := Pass2Upto(secret, guess, j);
    assert Pass2Upto(secret, guess, j + 1) == s;
    if guess[j] != secret[j] {
      UnmatchedInSecretAbsent(secret, guess, guess[j], n);
    }
    assert AgreesWithReference(secret, guess, j + 1) by {
      assert s.states[j] == Reference(secret, guess)[j];
    }
    forall c | c != Blank
      ensures multiset(s.remaining)[c]
              + Min(UnmatchedInGuess(secret, guess, c, j + 1), UnmatchedInSecret(secret, guess, c, n))
              == UnmatchedInSecret(secret, guess, c, n)
    {
      assert Min(UnmatchedInGuess(secret, guess, c, j + 1), UnmatchedInSecret(secret, guess, c, n))
          == Min(UnmatchedInGuess(secret, guess, c, j), UnmatchedInSecret(secret, guess, c, n));
    }
  }

  /** Pass 2 follows the reference rule tile by tile. */
  lemma {:induction false} Pass2MatchesReference(secret: string, guess: string, i: nat)
    requires |guess| == |secret| && i <= |guess| && Blank !in guess
    ensures AgreesWithReference(secret, guess, i) && RemainingIsUnused(secret, guess, i)
  {
    if i == 0 {
      Pass2ReferenceStart(secret, guess);
    } else {
      var j := i - 1;
      Pass2MatchesReference(secret, guess, j);
      Pass2Shape(secret, guess, j);
      if guess[j] == secret[j] || guess[j] !in secret {
        Pass2ReferenceSkip(secret, guess, j);
      } else if guess[j] in Pass2Upto(secret, guess, j).remaining {
        Pass2ReferenceTake(secret, guess, j);
      } else {
        Pass2ReferenceMiss(secret, guess, j);
      }
    }
  }

  /** With no blank among the guessed letters (the board only types 'a' to
      'z'), the two passes compute exactly the reference rule. */
  lemma EvaluateIsReference(secret: string, guess: string)
    requires |guess| == |secret| && Blank !in guess
    ensures Evaluate(secret, guess) == Reference(secret, guess)
  {
    Pass2MatchesReference(secret, guess, |guess|);
    Pass2Shape(secret, guess, |guess|);
  }

  // ---------------------------------------------------------------------
  // The shortcut of pass 1

  /** `remaining` only ever holds, at each position, the secret's letter or
      the blank. */
  lemma {:induction false} RemainingWithinSecret(secret: string, guess: string, i: nat)
    requires |guess| == |secret| && i <= |guess|
    ensures forall k :: 0 <= k < |secret| ==>
      Pass2Upto(secret, guess, i).remaining[k] in {Blank, secret[k]}
  {
    if i > 0 {
      RemainingWithinSecret(secret, guess, i - 1);
    }
  }

  /** Marking absent letters Incorrect already in pass 1 is only a
      shortcut: such a letter (other than the blank) is never in
      `remaining`, so pass 2 would mark the tile Incorrect as well. */
  lemma AbsentLetterNeverRemains(secret: string, guess: string, c: char, i: nat)
    requires |guess| == |secret| && i <= |guess|
    requires c != Blank && c !in secret
    ensures c !in Pass2Upto(secret, guess, i).remaining
  {
    RemainingWithinSecret(secret, guess, i);
  }

  // ---------------------------------------------------------------------
  // Two worked rows

  /** Secret "crane", guess "trace": t is absent, r, a and e are in place,
      c is misplaced. */
  lemma CraneTrace()
    ensures Evaluate("crane", "trace") == [Incorrect, Correct, Correct, WrongSpot, Correct]
  {
    assert Pass1States("crane", "trace", 5) == [Incorrect, Correct, Correct, Occupied, Correct];
    assert Pass1Remaining("crane", "trace", 5) == "c  n ";
    assert Strings.IndexOf("c  n ", 'c') == 0;
  }

  /** Secret "sassy" (three s), guess "assss": the two exact s are Correct,
      a and the first misplaced s are WrongSpot, and the last s finds no s
      left. */
  lemma SassyAssss()
    ensures Evaluate("sassy", "assss") == [WrongSpot, WrongSpot, Correct, Correct, Incorrect]
  {
    var s2 := Scan([WrongSpot, WrongSpot, Correct, Correct, Occupied], "    y");
    SassyFirstTwo();
    assert Pass2Upto("sassy", "assss", 4) == s2 by {
      assert Pass2Upto("sassy", "assss", 3) == s2;
    }
    assert 's' !in s2.remaining;
  }

  /** Pass 1 on "sassy"/"assss": the two middle s are Correct and their
      places blanked; nothing is absent from the secret. */
  lemma SassyPass1()
    ensures Pass2Upto("sassy", "assss", 0)
         == Scan([Occupied, Occupied, Correct, Correct, Occupied], "sa  y")
  {
    assert Pass1States("sassy", "assss", 5) == [Occupied, Occupied, Correct, Correct, Occupied];
    assert Pass1Remaining("sassy", "assss", 5) == "sa  y";
  }

  /** The first two iterations of pass 2 on "sassy"/"assss": a and then s
      each take a remaining occurrence. */
  lemma SassyFirstTwo()
    ensures Pass2Upto("sassy", "assss", 2)
         == Scan([WrongSpot, WrongSpot, Correct, Correct, Occupied], "    y")
  {
    var s0 := Scan([Occupied, Occupied, Correct, Correct, Occupied], "sa  y");
    var s1 := Scan([WrongSpot, Occupied, Correct, Correct, Occupied], "s   y");
    SassyPass1();
    assert Pass2Upto("sassy", "assss", 1) == s1 by {
      assert Strings.IndexOf(s0.remaining, 'a') == 1;
    }
    assert Strings.IndexOf(s1.remaining, 's') == 0;
  }
}
