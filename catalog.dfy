/** The two word lists of the board: `solutions` (candidate secrets) and
    `validWords` (accepted guesses). Entries carry stray case and white
    space, so every use goes through ToLower().Trim(). */
module WordCatalog {
  import Strings

  datatype Option<T> = None | Some(value: T)

  /** ToLower().Trim(), the normal form every entry is compared in. */
  function Normalize(s: string): string {
    Strings.Trim(Strings.ToLower(s))
  }

  /** Some entry of the accepted-guess list, normalised, spells `w`. */
  predicate Accepted(validWords: seq<string>, w: string) {
    exists k :: 0 <= k < |validWords| && Normalize(validWords[k]) == w
  }

  /** IsValidWord: a linear scan of the accepted-guess list that returns on
      the first entry whose normal form is `w`. */
  method IsValidWord(validWords: seq<string>, w: string) returns (r: bool)
    ensures r <==> Accepted(validWords, w)
  {
    for i := 0 to |validWords|
      invariant forall k :: 0 <= k < i ==> Normalize(validWords[k]) != w
    {
      if Normalize(validWords[i]) == w {
        return true;
      }
    }
    return false;
  }

  /** The random indices SetRandomWord draws lie in [0, |solutions|). */
  predicate SamplesInRange(solutions: seq<string>, samples: seq<nat>) {
    forall k :: 0 <= k < |samples| ==> samples[k] < |solutions|
  }

  /** The sample at which the resampling loop of SetRandomWord stops: the
      first whose solution has, once normalised, `wordLength` characters. */
  function FirstFit(solutions: seq<string>, wordLength: nat, samples: seq<nat>): Option<string>
    requires SamplesInRange(solutions, samples)
  {
    if samples == [] then None
    else
      var picked := Normalize(solutions[samples[0]]);
      if |picked| == wordLength then Some(picked)
      else FirstFit(solutions, wordLength, samples[1..])
  }

  /** A picked word has the configured length and is the normal form of one
      of the solutions. */
  lemma {:induction false} FirstFitIsNormalizedSolution(solutions: seq<string>, wordLength: nat, samples: seq<nat>)
    requires SamplesInRange(solutions, samples)
    requires FirstFit(solutions, wordLength, samples).Some?
    ensures var w := FirstFit(solutions, wordLength, samples).value;
      |w| == wordLength
      && exists j :: 0 <= j < |solutions| && Normalize(solutions[j]) == w
  {
    var picked := Normalize(solutions[samples[0]]);
    if |picked| != wordLength {
      FirstFitIsNormalizedSolution(solutions, wordLength, samples[1..]);
    }
  }

  /** The loop stops as soon as the indices hit a solution of the right
      length. */
  lemma {:induction false} FirstFitFinds(solutions: seq<string>, wordLength: nat, samples: seq<nat>, k: nat)
    requires SamplesInRange(solutions, samples)
    requires k < |samples| && |Normalize(solutions[samples[k]])| == wordLength
    ensures FirstFit(solutions, wordLength, samples).Some?
  {
    if k > 0 && |Normalize(solutions[samples[0]])| != wordLength {
      FirstFitFinds(solutions, wordLength, samples[1..], k - 1);
    }
  }

  /** When no solution has the configured length, no sequence of indices
      ever stops the loop: SetRandomWord does not terminate. */
  lemma {:induction false} FirstFitNeverWithoutCandidate(solutions: seq<string>, wordLength: nat, samples: seq<nat>)
    requires SamplesInRange(solutions, samples)
    requires forall j :: 0 <= j < |solutions| ==> |Normalize(solutions[j])| != wordLength
    ensures FirstFit(solutions, wordLength, samples) == None
  {
    if samples != [] {
      FirstFitNeverWithoutCandidate(solutions, wordLength, samples[1..]);
    }
  }

  /** Normal forms carry no upper-case ASCII letter and no white space at
      either end. */
  lemma NormalizeShape(s: string)
    ensures var w := Normalize(s);
      (forall i :: 0 <= i < |w| ==> !Strings.IsUpper(w[i]))
      && (w != [] ==> !Strings.IsWhiteSpace(w[0]) && !Strings.IsWhiteSpace(w[|w| - 1]))
  {
    var l := Strings.ToLower(s);
    var w := Normalize(s);
    Strings.TrimSpec(l);
    var a := |l| - |Strings.TrimStart(l)|;
    assert w == l[a..a + |w|];
    forall i | 0 <= i < |w| ensures !Strings.IsUpper(w[i]) {
      assert w[i] == l[a + i] == Strings.LowerChar(s[a + i]);
    }
  }
}
