/** db/utils.py: `split_content`, which cuts a list into batches, and
    `normalize_state_name`, which brings a state name into the form the
    seeding code matches on. */
module DbUtils {
  import opened Options
  import opened Text
  import opened Sequences

  // ---------------------------------------------------------------------------
  // split_content
  // ---------------------------------------------------------------------------

  /** The number of chunks: `len(range(0, n, m))`, which is `ceil(n / m)`. */
  function ChunkCount(n: nat, m: nat): nat
    requires m > 0
  {
    (n + m - 1) / m
  }

  /** `split_content(content, max_length)`: the slices
      `content[i : i + max_length]` for `i` in `range(0, len(content),
      max_length)`. A `max_length` of 0 makes `range` raise, so it must be
      positive. */
  function SplitContent<T>(content: seq<T>, maxLength: nat): (chunks: seq<seq<T>>)
    requires maxLength > 0
    ensures |chunks| == ChunkCount(|content|, maxLength)
  {
    Chunks(content, maxLength, ChunkCount(|content|, maxLength))
  }

  /** The slices for the first `j` values of the range. */
  function Chunks<T>(content: seq<T>, m: nat, j: nat): (chunks: seq<seq<T>>)
    ensures |chunks| == j
    ensures forall k :: 0 <= k < j ==> chunks[k] == Chunk(content, m, k)
  {
    if j == 0 then [] else Chunks(content, m, j - 1) + [Chunk(content, m, j - 1)]
  }

  /** The `k`-th value of `range(0, n, m)`, before the bound is applied. */
  function Offset(k: nat, m: nat): nat {
    if k == 0 then 0 else Offset(k - 1, m) + m
  }

  lemma {:induction false} OffsetIsProduct(k: nat, m: nat)
    ensures Offset(k, m) == k * m
  {
    if k > 0 {
      OffsetIsProduct(k - 1, m);
      assert (k - 1) * m + m == k * m;
    }
  }

  /** The slice `content[i : i + m]` for the `k`-th `i`; Python clamps slice
      bounds to the length, and so does this definition. */
  function Chunk<T>(content: seq<T>, m: nat, k: nat): seq<T> {
    content[Min(Offset(k, m), |content|)..Min(Offset(k + 1, m), |content|)]
  }

  lemma MulLe(a: nat, b: nat, m: nat)
    requires a <= b
    ensures a * m <= b * m
  {
  }

  /** The `k`-th chunk starts before the end of the content. */
  lemma ChunkStart(n: nat, m: nat, k: nat)
    requires m > 0 && k < ChunkCount(n, m)
    ensures Offset(k, m) < n
  {
    var q := ChunkCount(n, m);
    assert q * m <= n + m - 1;
    MulLe(k + 1, q, m);
    OffsetIsProduct(k + 1, m);
  }

  /** The chunks together reach the end of the content. */
  lemma ChunksCover(n: nat, m: nat)
    requires m > 0
    ensures n <= ChunkCount(n, m) * m
  {
    var q := ChunkCount(n, m);
    assert n + m - 1 == q * m + (n + m - 1) % m;
  }

  /** There are no chunks exactly when the content is empty. */
  lemma ChunkCountZero(n: nat, m: nat)
    requires m > 0
    ensures ChunkCount(n, m) == 0 <==> n == 0
  {
    if n > 0 {
      assert n + m - 1 >= m;
    }
  }

  /** The first `j` chunks hold the content up to the start of chunk `j`. */
  lemma {:induction false} ChunksPrefix<T>(content: seq<T>, m: nat, j: nat)
    ensures Concat(Chunks(content, m, j)) == content[..Min(Offset(j, m), |content|)]
  {
    if j > 0 {
      ChunksPrefix(content, m, j - 1);
      var chunk := Chunk(content, m, j - 1);
      assert Chunks(content, m, j) == Chunks(content, m, j - 1) + [chunk];
      ConcatAppend(Chunks(content, m, j - 1), [chunk]);
      assert Concat([chunk]) == chunk;
      assert Offset(j, m) == Offset(j - 1, m) + m;
      var a, b := Min(Offset(j - 1, m), |content|), Min(Offset(j, m), |content|);
      assert chunk == content[a..b];
      PrefixThenSlice(content, a, b);
    }
  }

  /** Concatenating the chunks gives back the content. */
  lemma SplitContentConcat<T>(content: seq<T>, maxLength: nat)
    requires maxLength > 0
    ensures Concat(SplitContent(content, maxLength)) == content
  {
    var chunks := SplitContent(content, maxLength);
    ChunksPrefix(content, maxLength, |chunks|);
    ChunksCover(|content|, maxLength);
    OffsetIsProduct(|chunks|, maxLength);
    assert content[..|content|] == content;
  }

  /** Every chunk is the next slice of the content and holds between 1 and
      `max_length` elements; all chunks but the last hold exactly
      `max_length`. */
  lemma SplitContentSizes<T>(content: seq<T>, maxLength: nat)
    requires maxLength > 0
    ensures var chunks := SplitContent(content, maxLength);
      && (forall k :: 0 <= k < |chunks| ==>
            0 < |chunks[k]| <= maxLength && k * maxLength + |chunks[k]| <= |content| &&
            chunks[k] == content[k * maxLength..k * maxLength + |chunks[k]|])
      && (forall k :: 0 <= k < |chunks| - 1 ==> |chunks[k]| == maxLength)
  {
    var chunks, n, m := SplitContent(content, maxLength), |content|, maxLength;
    forall k | 0 <= k < |chunks|
      ensures 0 < |chunks[k]| <= m && k * m + |chunks[k]| <= n
      ensures chunks[k] == content[k * m..k * m + |chunks[k]|]
      ensures k < |chunks| - 1 ==> |chunks[k]| == m
    {
      ChunkSize(content, m, k);
    }
  }

  lemma ChunkSize<T>(content: seq<T>, m: nat, k: nat)
    requires m > 0 && k < ChunkCount(|content|, m)
    ensures var chunk, n := Chunk(content, m, k), |content|;
      && 0 < |chunk| <= m && k * m + |chunk| <= n
      && chunk == content[k * m..k * m + |chunk|]
      && (k < ChunkCount(n, m) - 1 ==> |chunk| == m)
  {
    var n := |content|;
    ChunkStart(n, m, k);
    OffsetIsProduct(k, m);
    if k < ChunkCount(n, m) - 1 {
      ChunkStart(n, m, k + 1);
    }
  }

  /** Empty content gives no chunks, and otherwise the number of chunks is
      the least whose total capacity reaches the content's length:
      `ceil(len / max_length)`. */
  lemma SplitContentCount<T>(content: seq<T>, maxLength: nat)
    requires maxLength > 0
    ensures var chunks := SplitContent(content, maxLength);
      && (content == [] <==> chunks == [])
      && (chunks != [] ==> (|chunks| - 1) * maxLength < |content| <= |chunks| * maxLength)
  {
    var chunks := SplitContent(content, maxLength);
    ChunkCountZero(|content|, maxLength);
    ChunksCover(|content|, maxLength);
    if chunks != [] {
      ChunkStart(|content|, maxLength, |chunks| - 1);
      OffsetIsProduct(|chunks| - 1, maxLength);
    }
  }

  // ---------------------------------------------------------------------------
  // normalize_state_name
  // ---------------------------------------------------------------------------

  /** Every character is a word character or whitespace. */
  predicate WordOrSpace(s: string) {
    forall i :: 0 <= i < |s| ==> IsWordChar(s[i]) || IsSpace(s[i])
  }

  /** The only whitespace is ` `, and never two in a row. */
  predicate SingleSpaced(s: string) {
    && (forall i :: 0 <= i < |s| ==> IsSpace(s[i]) ==> s[i] == ' ')
    && (forall i :: 0 <= i < |s| - 1 ==> !(s[i] == ' ' && s[i + 1] == ' '))
  }

  /** The shape of a normalised name: lower-case word characters separated
      by single spaces. */
  predicate CleanName(s: string) {
    WordOrSpace(s) && NoUpper(s) && SingleSpaced(s)
  }

  /** `re.sub(r"[^\w\s]", "", s)`: keeps word characters and whitespace. */
  function RemovePunctuation(s: string): (r: string)
    ensures |r| <= |s|
    ensures WordOrSpace(r)
    ensures NoUpper(s) ==> NoUpper(r)
  {
    if s == [] then []
    else
      var rest := RemovePunctuation(s[..|s| - 1]);
      var c := s[|s| - 1];
      if IsWordChar(c) || IsSpace(c) then rest + [c] else rest
  }

  /** A string of word characters and whitespace loses nothing. */
  lemma {:induction false} RemovePunctuationKeeps(s: string)
    requires WordOrSpace(s)
    ensures RemovePunctuation(s) == s
  {
    if s != [] {
      RemovePunctuationKeeps(s[..|s| - 1]);
      assert s[..|s| - 1] + [s[|s| - 1]] == s;
    }
  }

  /** Removal works character by character: on a concatenation it is the
      removal on each part. */
  lemma {:induction false} RemovePunctuationAppend(a: string, b: string)
    ensures RemovePunctuation(a + b) == RemovePunctuation(a) + RemovePunctuation(b)
    decreases |b|
  {
    if b == [] {
      assert a + b == a;
    } else {
      var b', c := b[..|b| - 1], b[|b| - 1];
      assert (a + b)[..|a + b| - 1] == a + b';
      RemovePunctuationAppend(a, b');
    }
  }

  /** Every character stays where it is exactly when it is a word character
      or whitespace, and is dropped otherwise; the text around it is treated
      on its own. */
  lemma RemovePunctuationAt(a: string, c: char, b: string)
    ensures RemovePunctuation(a + [c] + b) ==
      RemovePunctuation(a) + (if IsWordChar(c) || IsSpace(c) then [c] else []) + RemovePunctuation(b)
  {
    RemovePunctuationAppend(a + [c], b);
    RemovePunctuationAppend(a, [c]);
    assert [c][..0] == [];
  }

  /** The characters of `s` that are not whitespace, in order. */
  function NonSpace(s: string): (r: string)
    ensures NoSpace(r)
  {
    if s == [] then []
    else if IsSpace(s[0]) then NonSpace(s[1..])
    else [s[0]] + NonSpace(s[1..])
  }

  lemma {:induction false} NonSpaceTrimStart(s: string)
    ensures NonSpace(TrimStart(s)) == NonSpace(s)
  {
    if s != [] && IsSpace(s[0]) {
      NonSpaceTrimStart(s[1..]);
    }
  }

  /** `re.sub(r"\s+", " ", s)`: each maximal run of whitespace becomes one
      space. */
  function CollapseWhitespace(s: string): (r: string)
    ensures SingleSpaced(r)
    ensures r == [] <==> s == []
    ensures r != [] ==> (r[0] == ' ' <==> IsSpace(s[0]))
    ensures WordOrSpace(s) ==> WordOrSpace(r)
    ensures NoUpper(s) ==> NoUpper(r)
    decreases |s|
  {
    if s == [] then []
    else if IsSpace(s[0]) then
      var rest := TrimStart(s);
      [' '] + CollapseWhitespace(rest)
    else [s[0]] + CollapseWhitespace(s[1..])
  }

  /** Collapsing keeps every character that is not whitespace, in order. */
  lemma {:induction false} CollapseKeepsText(s: string)
    ensures NonSpace(CollapseWhitespace(s)) == NonSpace(s)
    decreases |s|
  {
    if s != [] {
      var r := CollapseWhitespace(s);
      if IsSpace(s[0]) {
        var rest := TrimStart(s);
        CollapseKeepsText(rest);
        NonSpaceTrimStart(s);
        assert r[1..] == CollapseWhitespace(rest);
      } else {
        CollapseKeepsText(s[1..]);
        assert r[1..] == CollapseWhitespace(s[1..]);
      }
    }
  }

  /** Collapsing passes text without whitespace through unchanged. */
  lemma {:induction false} CollapseRun(t: string, rest: string)
    requires NoSpace(t)
    ensures CollapseWhitespace(t + rest) == t + CollapseWhitespace(rest)
    decreases |t|
  {
    if t == [] {
      assert t + rest == rest;
    } else {
      CollapseCons(t, rest);
      CollapseRun(t[1..], rest);
      ConsAppend(t, CollapseWhitespace(rest));
    }
  }

  /** A character other than whitespace in front is kept as it is. */
  lemma CollapseCons(t: string, rest: string)
    requires t != [] && !IsSpace(t[0])
    ensures CollapseWhitespace(t + rest) == [t[0]] + CollapseWhitespace(t[1..] + rest)
  {
    var u := t + rest;
    assert u[0] == t[0];
    assert u[1..] == t[1..] + rest;
  }

  lemma ConsAppend(t: string, c: string)
    requires t != []
    ensures [t[0]] + (t[1..] + c) == t + c
  {
  }

  /** The result ends with a space exactly when the input ends with
      whitespace. */
  lemma {:induction false} CollapseLast(s: string)
    requires s != []
    ensures var r := CollapseWhitespace(s); r[|r| - 1] == ' ' <==> IsSpace(s[|s| - 1])
    decreases |s|
  {
    var r := CollapseWhitespace(s);
    if IsSpace(s[0]) {
      var rest := TrimStart(s);
      assert r == [' '] + CollapseWhitespace(rest);
      if rest != [] {
        CollapseLast(rest);
        assert rest[|rest| - 1] == s[|s| - 1];
      } else {
        assert IsSpace(s[|s| - 1]);
      }
    } else {
      assert r == [s[0]] + CollapseWhitespace(s[1..]);
      if |s| > 1 {
        CollapseLast(s[1..]);
      }
    }
  }

  /** Whitespace in front does not change the words. */
  lemma {:induction false} SplitTrimStart(s: string)
    ensures Split(TrimStart(s)) == Split(s)
    decreases |s|
  {
    if s != [] && IsSpace(s[0]) {
      SplitTrimStart(s[1..]);
    }
  }

  /** Collapsing keeps the words: `str.split()` gives the same tokens
      before and after, so every run of whitespace between two words
      becomes a space rather than vanishing. */
  lemma {:induction false} CollapseKeepsWords(s: string)
    ensures Split(CollapseWhitespace(s)) == Split(s)
    decreases |s|
  {
    if s == [] {
    } else if IsSpace(s[0]) {
      var rest := TrimStart(s);
      var r := CollapseWhitespace(s);
      assert r[1..] == CollapseWhitespace(rest);
      CollapseKeepsWords(rest);
      SplitTrimStart(s);
      assert Split(s) == Split(s[1..]);
      SplitTrimStart(s[1..]);
    } else {
      var n := RunLength(s);
      var t, rest := s[..n], s[n..];
      var c := CollapseWhitespace(rest);
      assert s == t + rest;
      assert NoSpace(t);
      CollapseRun(t, rest);
      RunLengthOf(t, c);
      assert (t + c)[..n] == t && (t + c)[n..] == c;
      CollapseKeepsWords(rest);
    }
  }

  /** The abbreviations the function expands. */
  const Abbreviations: map<string, string> := map[
    "ap" := "andhra pradesh",
    "ts" := "telangana",
    "tn" := "tamil nadu",
    "wb" := "west bengal",
    "up" := "uttar pradesh",
    "mp" := "madhya pradesh",
    "jk" := "jammu and kashmir",
    "hp" := "himachal pradesh",
    "nct" := "delhi"]

  /** The name after lower-casing, stripping, punctuation removal and
      whitespace collapsing, before the abbreviation lookup. */
  function Cleaned(s: string): (r: string)
    ensures CleanName(r)
  {
    var lowered := Strip(Lower(s));
    StripKeeps(Lower(s), c => !IsUpper(c));
    CollapseWhitespace(RemovePunctuation(lowered))
  }

  /** `normalize_state_name(state_name)`; `None` stands for a missing
      value. */
  function NormalizeStateName(name: Option<string>): (r: string)
    ensures name == None || name == Some("") ==> r == ""
    ensures CleanName(r)
  {
    if name == None || name.value == "" then ""
    else
      var cleaned := Cleaned(name.value);
      if cleaned in Abbreviations then
        AbbreviationsClean(cleaned);
        Abbreviations[cleaned]
      else cleaned
  }

  /** The expansions are themselves clean names. */
  lemma AbbreviationsClean(k: string)
    requires k in Abbreviations
    ensures CleanName(Abbreviations[k])
  {
    if k == "ap" {
      CleanAp(k);
    } else if k == "ts" {
      CleanTs(k);
    } else if k == "tn" {
      CleanTn(k);
    } else if k == "wb" {
      CleanWb(k);
    } else if k == "up" {
      CleanUp(k);
    } else if k == "mp" {
      CleanMp(k);
    } else if k == "jk" {
      CleanJk(k);
    } else if k == "hp" {
      CleanHp(k);
    } else {
      assert k == "nct";
      CleanNct(k);
    }
  }

  /** Lower-case letters separated by single spaces make a clean name. */
  lemma LettersAndSpaces(v: string)
    requires forall i :: 0 <= i < |v| ==> 'a' <= v[i] <= 'z' || v[i] == ' '
    requires forall i :: 0 <= i < |v| - 1 ==> v[i] == ' ' ==> v[i + 1] != ' '
    ensures CleanName(v)
  {
  }

  lemma CleanAp(k: string)
    requires k == "ap"
    ensures CleanName(Abbreviations[k])
  {
    LettersAndSpaces(Abbreviations[k]);
  }

  lemma CleanTs(k: string)
    requires k == "ts"
    ensures CleanName(Abbreviations[k])
  {
    LettersAndSpaces(Abbreviations[k]);
  }

  lemma CleanTn(k: string)
    requires k == "tn"
    ensures CleanName(Abbreviations[k])
  {
    LettersAndSpaces(Abbreviations[k]);
  }

  lemma CleanWb(k: string)
    requires k == "wb"
    ensures CleanName(Abbreviations[k])
  {
    LettersAndSpaces(Abbreviations[k]);
  }

  lemma CleanUp(k: string)
    requires k == "up"
    ensures CleanName(Abbreviations[k])
  {
    LettersAndSpaces(Abbreviations[k]);
  }

  lemma CleanMp(k: string)
    requires k == "mp"
    ensures CleanName(Abbreviations[k])
  {
    LettersAndSpaces(Abbreviations[k]);
  }

  lemma CleanJk(k: string)
    requires k == "jk"
    ensures CleanName(Abbreviations[k])
  {
    LettersAndSpaces(Abbreviations[k]);
  }

  lemma CleanHp(k: string)
    requires k == "hp"
    ensures CleanName(Abbreviations[k])
  {
    LettersAndSpaces(Abbreviations[k]);
  }

  lemma CleanNct(k: string)
    requires k == "nct"
    ensures CleanName(Abbreviations[k])
  {
    LettersAndSpaces(Abbreviations[k]);
  }

  /** An abbreviation is expanded only when the whole cleaned name is one:
      the result differs from the cleaned name exactly when the cleaned
      name is a key of the table, and then it is that key's expansion. */
  lemma AbbreviationWholeName(s: string)
    requires s != ""
    ensures NormalizeStateName(Some(s)) != Cleaned(s) <==> Cleaned(s) in Abbreviations
    ensures Cleaned(s) in Abbreviations ==> NormalizeStateName(Some(s)) == Abbreviations[Cleaned(s)]
  {
    if Cleaned(s) in Abbreviations {
      AbbreviationsLonger(Cleaned(s));
    }
  }

  /** Every expansion is longer than its abbreviation. */
  lemma AbbreviationsLonger(k: string)
    requires k in Abbreviations
    ensures |Abbreviations[k]| > |k|
  {
  }

  /** Stripping happens before punctuation is removed, so the space that a
      removed leading `.` leaves behind stays, and the abbreviation is then
      not recognised. */
  lemma StripBeforePunctuation()
    ensures NormalizeStateName(Some(". AP")) == " ap"
  {
    DotAbbreviationKept(". AP");
  }

  lemma DotAbbreviationKept(x: string)
    requires x == ". AP"
    ensures NormalizeStateName(Some(x)) == " ap"
  {
    CleanedDotAbbreviation(x);
    NotAnAbbreviation(Cleaned(x));
    AbbreviationWholeName(x);
  }

  lemma CleanedDotAbbreviation(x: string)
    requires x == ". AP"
    ensures Cleaned(x) == " ap"
  {
    LowerDotAbbreviation(x);
    var y := Lower(x);
    StripDotAbbreviation(y);
    RemoveDot(y);
    var z := y[1..];
    assert z == " ap";
    CollapseLeadingSpace(z);
  }

  /** Normalising twice can give a different name than normalising once:
      the space left in front of the abbreviation is stripped the second
      time, and the abbreviation is then expanded. */
  lemma NormalizeNotIdempotent()
    ensures NormalizeStateName(Some(". AP")) == " ap"
    ensures NormalizeStateName(Some(" ap")) == "andhra pradesh"
  {
    DotAbbreviationKept(". AP");
    SpacedLowerExpanded(" ap");
  }

  lemma SpacedLowerExpanded(x: string)
    requires x == " ap"
    ensures NormalizeStateName(Some(x)) == "andhra pradesh"
  {
    CleanedSpacedLower(x);
    ExpandAp(Cleaned(x));
    AbbreviationWholeName(x);
  }

  lemma CleanedSpacedLower(x: string)
    requires x == " ap"
    ensures Cleaned(x) == "ap"
  {
    assert NoUpper(x);
    LowerKeeps(x);
    StripLeadingSpace(x);
    var w := x[1..];
    assert w == "ap";
    RemovePunctuationKeeps(w);
    CollapseWord(w);
  }

  lemma StripLeadingSpace(x: string)
    requires x == " ap"
    ensures Strip(x) == x[1..]
  {
    assert x[|x| - 1] == 'p';
    assert TrimEnd(x) == x;
    assert x[0] == ' ' && x[1..][0] == 'a';
  }

  lemma NotAnAbbreviation(z: string)
    requires z == " ap"
    ensures z !in Abbreviations
  {
    assert |z| == 3 && z[0] == ' ';
  }

  lemma LowerDotAbbreviation(x: string)
    requires x == ". AP"
    ensures Lower(x) == ". ap"
  {
    assert LowerChar('A') == 'a' && LowerChar('P') == 'p';
    assert LowerChar('.') == '.' && LowerChar(' ') == ' ';
  }

  lemma StripDotAbbreviation(y: string)
    requires y == ". ap"
    ensures Strip(y) == y
  {
    assert y[|y| - 1] == 'p';
    assert TrimEnd(y) == y;
    assert y[0] == '.';
    assert TrimStart(y) == y;
  }

  lemma RemoveDot(y: string)
    requires y == ". ap"
    ensures RemovePunctuation(y) == y[1..]
  {
    var a, b, c := y[..3], y[..2], y[..1];
    assert a[..2] == b && b[..1] == c && c[..0] == [];
    assert RemovePunctuation(c) == [] by {
      assert c[0] == '.';
    }
    assert RemovePunctuation(b) == [' '] by {
      assert b[1] == ' ';
    }
    assert RemovePunctuation(a) == [' ', 'a'] by {
      assert a[2] == 'a';
    }
    assert y[3] == 'p';
    assert RemovePunctuation(y) == [' ', 'a', 'p'];
  }

  lemma CollapseLeadingSpace(z: string)
    requires z == " ap"
    ensures CollapseWhitespace(z) == z
  {
    assert z[0] == ' ' && z[1..][0] == 'a';
    assert TrimStart(z) == z[1..];
    CollapseWord(z[1..]);
  }

  /** Surrounding whitespace and case do not keep an abbreviation from being
      expanded. */
  lemma AbbreviationAfterStrip()
    ensures NormalizeStateName(Some(" AP ")) == "andhra pradesh"
  {
    SpacedAbbreviationExpanded(" AP ");
  }

  lemma SpacedAbbreviationExpanded(x: string)
    requires x == " AP "
    ensures NormalizeStateName(Some(x)) == "andhra pradesh"
  {
    CleanedSpacedAbbreviation(x);
    ExpandAp(Cleaned(x));
    AbbreviationWholeName(x);
  }

  lemma CleanedSpacedAbbreviation(x: string)
    requires x == " AP "
    ensures Cleaned(x) == "ap"
  {
    LowerSpacedAbbreviation(x);
    var y := Lower(x);
    StripSpacedAbbreviation(y);
    var w := y[1..3];
    assert w == "ap";
    RemovePunctuationKeeps(w);
    CollapseWord(w);
  }

  lemma ExpandAp(w: string)
    requires w == "ap"
    ensures w in Abbreviations && Abbreviations[w] == "andhra pradesh"
  {
  }

  lemma LowerSpacedAbbreviation(x: string)
    requires x == " AP "
    ensures Lower(x) == " ap "
  {
    assert LowerChar('A') == 'a' && LowerChar('P') == 'p';
    assert LowerChar(' ') == ' ';
  }

  lemma StripSpacedAbbreviation(y: string)
    requires y == " ap "
    ensures Strip(y) == y[1..3]
  {
    var e := y[..3];
    assert y[3] == ' ' && e[2] == 'p';
    assert TrimEnd(e) == e;
    assert TrimEnd(y) == e;
    assert e[0] == ' ' && e[1..][0] == 'a';
    assert TrimStart(e) == e[1..];
    assert e[1..] == y[1..3];
  }

  lemma CollapseWord(w: string)
    requires w == "ap"
    ensures CollapseWhitespace(w) == w
  {
    var p := w[1..];
    assert w[0] == 'a' && p[0] == 'p' && p[1..] == [];
    assert CollapseWhitespace(p) == p;
  }
}
