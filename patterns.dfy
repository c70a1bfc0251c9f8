/** Hand-written equivalents of the fixed regular expressions the spiders
    search with: the word boundary `\b`, a case-insensitive `\bword\b`, and
    runs of digits `\d+` and `\d{n}`. Text is ASCII. */
module Patterns {
  import opened Text

  /** `\b` holds at position `i`: exactly one of the characters on either
      side of `i` is a word character (a missing character is not). */
  predicate Boundary(s: string, i: nat) {
    (0 < i <= |s| && IsWordChar(s[i - 1])) != (i < |s| && IsWordChar(s[i]))
  }

  /** `\bw\b` with `re.IGNORECASE` matches at `i`, for a lower-case `w`. */
  predicate WordAt(s: string, i: nat, w: string) {
    i + |w| <= |s| && Lower(s[i..i + |w|]) == w && Boundary(s, i) && Boundary(s, i + |w|)
  }

  /** `re.search(r"\b(?:w1|w2|...)\b", s, re.IGNORECASE)` finds a match,
      for lower-case alternatives. */
  predicate ContainsWord(s: string, words: seq<string>) {
    exists i, k :: 0 <= i < |s| && 0 <= k < |words| && WordAt(s, i, words[k])
  }

  /** `\d{n}` matches at `i`. */
  predicate DigitsAt(s: string, i: nat, n: nat) {
    i + n <= |s| && AllDigits(s[i..i + n])
  }

  /** Where the run of digits starting at `i` ends. */
  function DigitRunEnd(s: string, i: nat): (j: nat)
    requires i <= |s|
    ensures i <= j <= |s|
    ensures forall k :: i <= k < j ==> IsDigit(s[k])
    ensures j < |s| ==> !IsDigit(s[j])
    decreases |s| - i
  {
    if i < |s| && IsDigit(s[i]) then DigitRunEnd(s, i + 1) else i
  }

  /** `\d+` followed by `n - 1` repetitions of `sep\d+` matches at `i`, for a
      separator that is not a digit. `\d+` is greedy and the separator is not
      a digit, so each run reaches up to the next non-digit, which must be
      the separator. */
  predicate DigitRunsAt(s: string, i: nat, sep: char, n: nat)
    decreases n
  {
    i < |s| && IsDigit(s[i]) &&
    (n <= 1 ||
     var j := DigitRunEnd(s, i);
     j < |s| && s[j] == sep && DigitRunsAt(s, j + 1, sep, n - 1))
  }

  /** A run of exactly `n` digits at `i` ends at `i + n`. */
  lemma {:induction false} DigitRunEndAt(s: string, i: nat, n: nat)
    requires DigitsAt(s, i, n)
    requires i + n == |s| || !IsDigit(s[i + n])
    ensures DigitRunEnd(s, i) == i + n
    decreases n
  {
    if n > 0 {
      assert IsDigit(s[i..i + n][0]);
      assert s[i + 1..i + n] == s[i..i + n][1..];
      DigitRunEndAt(s, i + 1, n - 1);
    }
  }

  /** Digit strings joined by `sep` match `\d+(sep\d+)*` at the start of
      the first one, wherever they stand in the text. */
  lemma {:induction false} DigitRunsOf(u: string, runs: seq<string>, sep: char, v: string)
    requires |runs| > 0 && !IsDigit(sep)
    requires forall k :: 0 <= k < |runs| ==> |runs[k]| > 0 && AllDigits(runs[k])
    ensures DigitRunsAt(u + Join(runs, [sep]) + v, |u|, sep, |runs|)
    decreases |runs|
  {
    var s := u + Join(runs, [sep]) + v;
    var a := runs[0];
    if |runs| == 1 {
      assert s[|u|] == a[0];
    } else {
      var rest := Join(runs[1..], [sep]);
      assert Join(runs, [sep]) == a + [sep] + rest;
      var u' := u + a + [sep];
      assert s == u' + rest + v;
      DigitRunsOf(u', runs[1..], sep, v);
      assert s[|u|..|u| + |a|] == a;
      assert s[|u| + |a|] == sep;
      assert s[|u|] == a[0];
      DigitRunEndAt(s, |u|, |a|);
    }
  }
}
