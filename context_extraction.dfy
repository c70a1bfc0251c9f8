/** `extract_context` (admission_scraper/utils.py): for every regex match in a
    text, a window of whitespace tokens around the match, then one record per
    distinct matched text with the windows of its occurrences merged.

    The regex engine is not modelled: the matches arrive as a list of
    `Match` values (character offsets and matched text), as `re.finditer`
    would return them. */
module ContextExtraction {
  import opened Text
  import opened Sequences

  /** One match of the date pattern: `text` is what matched, and it spans the
      characters `start` to `end` of the document. */
  datatype Match = Match(start: nat, end: nat, text: string)

  /** One result dictionary of `extract_context`: the matched text, the
      context around it and the token window `[startToken, endToken)`. */
  datatype ContextRecord = ContextRecord(matched: string, context: string, startToken: nat, endToken: nat)

  /** Default size of the window on each side of a match, in tokens. */
  const DefaultWindow: nat := 50

  /** The blank line placed between the contexts of merged occurrences. */
  const MergeSeparator: string := "\n\n"

  function MatchOf(r: ContextRecord): string { r.matched }

  function TextOf(m: Match): string { m.text }

  function ContextText(r: ContextRecord): string { r.context }

  /** What `re.finditer` guarantees of each match and the model relies on. */
  predicate WellFormed(matches: seq<Match>) {
    forall i :: 0 <= i < |matches| ==> matches[i].start <= matches[i].end
  }

  // ---------------------------------------------------------------------------
  // Token offsets
  // ---------------------------------------------------------------------------

  /** The character offset assigned to token `i`: the lengths of the tokens
      before it, each counted with one extra character for a separating
      space. */
  function Offset(tokens: seq<string>, i: nat): nat
    requires i <= |tokens|
  {
    if i == 0 then 0 else Offset(tokens, i - 1) + |tokens[i - 1]| + 1
  }

  function Offsets(tokens: seq<string>): (offsets: seq<nat>)
    ensures |offsets| == |tokens|
    ensures forall i :: 0 <= i < |tokens| ==> offsets[i] == Offset(tokens, i)
  {
    seq(|tokens|, i requires 0 <= i < |tokens| => Offset(tokens, i))
  }

  /** The loop that fills `token_positions`. */
  method TokenOffsets(tokens: seq<string>) returns (positions: seq<nat>)
    ensures positions == Offsets(tokens)
  {
    positions := [];
    var charCount := 0;
    for i := 0 to |tokens|
      invariant charCount == Offset(tokens, i)
      invariant positions == Offsets(tokens)[..i]
    {
      positions := positions + [charCount];
      charCount := charCount + |tokens[i]| + 1;
    }
    assert Offsets(tokens)[..|tokens|] == Offsets(tokens);
  }

  /** Offsets start at 0 and strictly increase. */
  lemma {:induction false} OffsetsIncrease(tokens: seq<string>, i: nat, j: nat)
    requires i < j <= |tokens|
    ensures Offset(tokens, 0) == 0
    ensures Offset(tokens, i) + |tokens[i]| < Offset(tokens, j)
  {
    if i < j - 1 {
      OffsetsIncrease(tokens, i, j - 1);
    }
  }

  lemma {:induction false} OffsetTail(tokens: seq<string>, i: nat)
    requires 0 < i <= |tokens|
    ensures Offset(tokens, i) == |tokens[0]| + 1 + Offset(tokens[1..], i - 1)
  {
    if i > 1 {
      OffsetTail(tokens, i - 1);
    }
  }

  /** When the text is exactly the single-space join of its tokens, the
      offset of every token is where that token really starts. */
  lemma {:induction false} JoinedTokenAt(tokens: seq<string>, i: nat)
    requires i < |tokens|
    ensures Offset(tokens, i) + |tokens[i]| <= |Join(tokens, " ")|
    ensures Join(tokens, " ")[Offset(tokens, i)..Offset(tokens, i) + |tokens[i]|] == tokens[i]
  {
    var t := tokens[0];
    if |tokens| == 1 {
      assert t[0..|t|] == t;
    } else {
      var rest := Join(tokens[1..], " ");
      var joined := t + " " + rest;
      assert Join(tokens, " ") == joined;
      if i == 0 {
        assert joined[0..|t|] == t;
      } else {
        JoinedTokenAt(tokens[1..], i - 1);
        OffsetTail(tokens, i);
        var o := Offset(tokens[1..], i - 1);
        var n := |tokens[i]|;
        assert rest[o..o + n] == tokens[i];
        assert joined == (t + " ") + rest;
        SliceAfter(t + " ", rest, o, o + n);
      }
    }
  }

  // ---------------------------------------------------------------------------
  // Character offset to token index
  // ---------------------------------------------------------------------------

  /** The greatest index whose offset is at most `p`; 0 when no offset is. */
  function FloorIndex(offsets: seq<nat>, p: nat): (r: nat)
    ensures offsets == [] ==> r == 0
    ensures offsets != [] ==> r < |offsets|
    ensures r > 0 ==> offsets[r] <= p
    ensures forall j :: r < j < |offsets| ==> p < offsets[j]
  {
    if offsets == [] then 0
    else if offsets[|offsets| - 1] <= p then |offsets| - 1
    else FloorIndex(offsets[..|offsets| - 1], p)
  }

  /** The loop that finds `token_start` and `token_end`: it keeps the last
      index whose offset is at most the match's start, and likewise for its
      end. */
  method LocateTokens(offsets: seq<nat>, startPos: nat, endPos: nat) returns (tokenStart: nat, tokenEnd: nat)
    ensures tokenStart == FloorIndex(offsets, startPos)
    ensures tokenEnd == FloorIndex(offsets, endPos)
    ensures startPos <= endPos ==> tokenStart <= tokenEnd
  {
    tokenStart, tokenEnd := 0, 0;
    for i := 0 to |offsets|
      invariant tokenStart == FloorIndex(offsets[..i], startPos)
      invariant tokenEnd == FloorIndex(offsets[..i], endPos)
    {
      assert offsets[..i + 1][..i] == offsets[..i];
      if offsets[i] <= startPos {
        tokenStart := i;
      }
      if offsets[i] <= endPos {
        tokenEnd := i;
      }
    }
    assert offsets[..|offsets|] == offsets;
  }

  /** The token a character offset of `text` falls in. */
  function TokenIndex(text: string, p: nat): nat {
    FloorIndex(Offsets(Split(text)), p)
  }

  /** Over real token offsets the lookup is exact: the token found starts at
      or before `p`, and the next one starts after `p`. */
  lemma TokenIndexBrackets(text: string, p: nat)
    requires Split(text) != []
    ensures var offsets := Offsets(Split(text));
      var r := TokenIndex(text, p);
      offsets[r] <= p && (r + 1 < |offsets| ==> p < offsets[r + 1])
  {
  }

  /** The offsets count one character between tokens, so after a run of
      several whitespace characters they fall behind the real positions: in
      `a   b c` the match position 4 holds the `b`, but the lookup lands on
      the token `c`. */
  lemma OffsetsDrift()
    ensures "a   b c"[4] == 'b'
    ensures Split("a   b c") == ["a", "b", "c"]
    ensures TokenIndex("a   b c", 4) == 2
  {
    DriftAt("a   b c");
  }

  lemma DriftAt(x: string)
    requires x == "a   b c"
    ensures x[4] == 'b'
    ensures Split(x) == ["a", "b", "c"]
    ensures TokenIndex(x, 4) == 2
  {
    SplitDriftText(x);
    DriftIndex(Split(x));
  }

  lemma DriftIndex(tokens: seq<string>)
    requires tokens == ["a", "b", "c"]
    ensures FloorIndex(Offsets(tokens), 4) == 2
  {
    assert Offset(tokens, 1) == 2;
    assert Offset(tokens, 2) == 4;
    var offsets := Offsets(tokens);
    assert offsets[|offsets| - 1] == 4;
  }

  lemma SplitDriftText(x: string)
    requires x == "a   b c"
    ensures Split(x) == ["a", "b", "c"]
  {
    var y := x[1..];
    assert x == x[..1] + y && x[..1] == "a";
    RunLengthOf(x[..1], y);
    assert Split(x) == [x[..1]] + Split(y);
    SkipSpaces(y);
    SplitSpaces(y[3..]);
  }

  lemma SkipSpaces(y: string)
    requires y == "   b c"
    ensures Split(y) == Split(y[3..])
  {
    assert y[0] == ' ' && y[1..][0] == ' ' && y[2..][0] == ' ';
    assert y[1..][1..] == y[2..] && y[2..][1..] == y[3..];
    assert Split(y) == Split(y[1..]);
    assert Split(y[1..]) == Split(y[2..]);
  }

  lemma SplitSpaces(z: string)
    requires z == "b c"
    ensures Split(z) == ["b", "c"]
  {
    var c := z[2..];
    assert z == z[..1] + z[1..] && z[..1] == "b";
    RunLengthOf(z[..1], z[1..]);
    assert Split(z) == [z[..1]] + Split(z[1..]);
    assert z[1..][0] == ' ' && z[1..][1..] == c;
    assert Split(z[1..]) == Split(c);
    assert c == c + [] && c == "c";
    RunLengthOf(c, []);
    assert c[1..] == [];
    assert Split(c) == [c];
  }

  // ---------------------------------------------------------------------------
  // The context of one match
  // ---------------------------------------------------------------------------

  /** The record built for one match: the tokens from `before` tokens ahead
      of the match's first token up to `after` tokens past its last token,
      cut off at both ends of the document and joined with single spaces. */
  function ContextOf(text: string, m: Match, before: nat, after: nat): ContextRecord
    requires m.start <= m.end
  {
    var tokens := Split(text);
    var offsets := Offsets(tokens);
    var tokenStart := FloorIndex(offsets, m.start);
    var tokenEnd := FloorIndex(offsets, m.end);
    var extractStart := if tokenStart >= before then tokenStart - before else 0;
    var extractEnd := Min(|tokens|, tokenEnd + after);
    ContextRecord(m.text, Join(tokens[extractStart..extractEnd], " "), extractStart, extractEnd)
  }

  /** The body of the loop of `extract_context` for one match. */
  method MatchContext(text: string, m: Match, before: nat, after: nat) returns (r: ContextRecord)
    requires m.start <= m.end
    ensures r == ContextOf(text, m, before, after)
  {
    var tokens := Split(text);
    var positions := TokenOffsets(tokens);
    var tokenStart, tokenEnd := LocateTokens(positions, m.start, m.end);
    var extractStart := if tokenStart >= before then tokenStart - before else 0;
    var extractEnd := Min(|tokens|, tokenEnd + after);
    var contextTokens := tokens[extractStart..extractEnd];
    r := ContextRecord(m.text, Join(contextTokens, " "), extractStart, extractEnd);
  }

  /** The window of a match: it starts at most `before` tokens ahead of the
      match's first token and never before the document, it ends at most
      `after` tokens past the match's last token and never past the
      document, and when there is a token and `after >= 1` it contains both
      tokens of the match. Re-splitting the context gives back exactly the
      window's tokens, and the context holds no line break. */
  lemma ContextWindow(text: string, m: Match, before: nat, after: nat)
    requires m.start <= m.end
    ensures var tokens := Split(text);
      var tokenStart, tokenEnd := TokenIndex(text, m.start), TokenIndex(text, m.end);
      var r := ContextOf(text, m, before, after);
      && r.matched == m.text
      && r.startToken <= tokenStart <= tokenEnd
      && tokenStart <= r.startToken + before
      && r.startToken <= r.endToken <= |tokens|
      && r.endToken <= tokenEnd + after
      && (|tokens| > 0 && after >= 1 ==> tokenEnd < r.endToken)
      && Split(r.context) == tokens[r.startToken..r.endToken]
      && '\n' !in r.context
  {
    var tokens := Split(text);
    var r := ContextOf(text, m, before, after);
    var window := tokens[r.startToken..r.endToken];
    assert forall k :: 0 <= k < |window| ==> window[k] == tokens[r.startToken + k];
    SplitJoin(window);
    JoinSpaceOnly(window);
  }

  // ---------------------------------------------------------------------------
  // Merging the records of equal matched texts
  // ---------------------------------------------------------------------------

  /** The records whose matched text is `k`, in order. */
  function Occurrences(records: seq<ContextRecord>, k: string): seq<ContextRecord> {
    if records == [] then []
    else
      var last := records[|records| - 1];
      Occurrences(records[..|records| - 1], k) + if last.matched == k then [last] else []
  }

  lemma OccurrencesSnoc(records: seq<ContextRecord>, r: ContextRecord, k: string)
    ensures Occurrences(records + [r], k) ==
      Occurrences(records, k) + if r.matched == k then [r] else []
  {
    assert (records + [r])[..|records|] == records;
  }

  /** A record is an occurrence of `k` exactly when it is one of the records
      and its matched text is `k`. */
  lemma {:induction false} OccurrencesMembers(records: seq<ContextRecord>, k: string)
    ensures forall r :: r in Occurrences(records, k) <==> r in records && r.matched == k
  {
    if records != [] {
      var p, last := records[..|records| - 1], records[|records| - 1];
      assert records == p + [last];
      OccurrencesMembers(p, k);
    }
  }

  /** The smallest start token among the records (0 for none). */
  function MinStart(occ: seq<ContextRecord>): (m: nat)
    ensures occ != [] ==> exists i :: 0 <= i < |occ| && m == occ[i].startToken
    ensures forall i :: 0 <= i < |occ| ==> m <= occ[i].startToken
  {
    if occ == [] then 0
    else if |occ| == 1 then occ[0].startToken
    else Min(MinStart(occ[..|occ| - 1]), occ[|occ| - 1].startToken)
  }

  /** The largest end token among the records (0 for none). */
  function MaxEnd(occ: seq<ContextRecord>): (m: nat)
    ensures occ != [] ==> exists i :: 0 <= i < |occ| && m == occ[i].endToken
    ensures forall i :: 0 <= i < |occ| ==> occ[i].endToken <= m
  {
    if occ == [] then 0
    else if |occ| == 1 then occ[0].endToken
    else Max(MaxEnd(occ[..|occ| - 1]), occ[|occ| - 1].endToken)
  }

  /** The merged record for matched text `k` and its occurrences `occ`. */
  function Combine(k: string, occ: seq<ContextRecord>): ContextRecord {
    ContextRecord(k, Join(Keys(occ, ContextText), MergeSeparator), MinStart(occ), MaxEnd(occ))
  }

  /** What one more occurrence does to a merged record: the loop body's
      update of an existing entry. */
  lemma CombineSnoc(k: string, occ: seq<ContextRecord>, r: ContextRecord)
    requires occ != []
    ensures Combine(k, occ + [r]) == ContextRecord(k,
      Combine(k, occ).context + MergeSeparator + r.context,
      Min(Combine(k, occ).startToken, r.startToken),
      Max(Combine(k, occ).endToken, r.endToken))
  {
    assert (occ + [r])[..|occ|] == occ;
    KeysSnoc(occ, r, ContextText);
    JoinSnoc(Keys(occ, ContextText), r.context, MergeSeparator);
  }

  /** The matched texts in order of first occurrence. */
  function DistinctMatches(records: seq<ContextRecord>): seq<string> {
    Keys(KeepFirstBy(records, MatchOf), MatchOf)
  }

  /** The result of the merge: one record per distinct matched text, in order
      of first occurrence, each combining all occurrences of that text. */
  function Merged(records: seq<ContextRecord>): seq<ContextRecord> {
    var keys := DistinctMatches(records);
    seq(|keys|, j requires 0 <= j < |keys| => Combine(keys[j], Occurrences(records, keys[j])))
  }

  /** The distinct matched texts are exactly the matched texts of the
      records. */
  lemma DistinctMatchesSame(records: seq<ContextRecord>)
    ensures forall k :: k in DistinctMatches(records) <==> k in Keys(records, MatchOf)
  {
    KeepFirstByCovers(records, MatchOf);
    KeepFirstByFirst(records, MatchOf);
    var kept := KeepFirstBy(records, MatchOf);
    forall k | k in DistinctMatches(records) ensures k in Keys(records, MatchOf) {
      var j :| 0 <= j < |kept| && DistinctMatches(records)[j] == k;
    }
    forall k | k in Keys(records, MatchOf) ensures k in DistinctMatches(records) {
      var j :| 0 <= j < |records| && Keys(records, MatchOf)[j] == k;
      assert records[j] in records;
    }
  }

  /** Adding a record leaves the occurrences of every other matched text
      as they were. */
  lemma OccurrencesOthers(done: seq<ContextRecord>, r: ContextRecord)
    ensures forall k :: k != r.matched ==> Occurrences(done + [r], k) == Occurrences(done, k)
  {
    forall k | k != r.matched ensures Occurrences(done + [r], k) == Occurrences(done, k) {
      OccurrencesSnoc(done, r, k);
    }
  }

  /** A record whose matched text has been seen extends that text's merged
      record and adds no key. */
  lemma MergeStepSeen(done: seq<ContextRecord>, r: ContextRecord)
    requires r.matched in DistinctMatches(done)
    ensures DistinctMatches(done + [r]) == DistinctMatches(done)
    ensures var old_ := Combine(r.matched, Occurrences(done, r.matched));
      Combine(r.matched, Occurrences(done + [r], r.matched)) ==
      ContextRecord(r.matched, old_.context + MergeSeparator + r.context,
        Min(old_.startToken, r.startToken), Max(old_.endToken, r.endToken))
  {
    KeepFirstBySnoc(done, r, MatchOf);
    DistinctMatchesSame(done);
    OccurrencesSnoc(done, r, r.matched);
    OccurrencesMembers(done, r.matched);
    var j :| 0 <= j < |done| && Keys(done, MatchOf)[j] == r.matched;
    assert done[j] in Occurrences(done, r.matched);
    CombineSnoc(r.matched, Occurrences(done, r.matched), r);
  }

  /** A record whose matched text is new becomes that text's merged record,
      and the text is appended to the keys. */
  lemma MergeStepNew(done: seq<ContextRecord>, r: ContextRecord)
    requires r.matched !in DistinctMatches(done)
    ensures DistinctMatches(done + [r]) == DistinctMatches(done) + [r.matched]
    ensures Combine(r.matched, Occurrences(done + [r], r.matched)) == r
  {
    KeepFirstBySnoc(done, r, MatchOf);
    KeysSnoc(KeepFirstBy(done, MatchOf), r, MatchOf);
    DistinctMatchesSame(done);
    assert r.matched !in Keys(done, MatchOf);
    NewMatchOccursOnce(done, r);
  }

  lemma NewMatchOccursOnce(done: seq<ContextRecord>, r: ContextRecord)
    requires r.matched !in Keys(done, MatchOf)
    ensures Occurrences(done + [r], r.matched) == [r]
    ensures Combine(r.matched, [r]) == r
  {
    OccurrencesSnoc(done, r, r.matched);
    OccurrencesNone(done, r.matched);
    assert Keys([r], ContextText) == [r.context];
  }

  /** A text no record matched has no occurrences. */
  lemma {:induction false} OccurrencesNone(records: seq<ContextRecord>, k: string)
    requires k !in Keys(records, MatchOf)
    ensures Occurrences(records, k) == []
  {
    if records != [] {
      var p := records[..|records| - 1];
      assert records == p + [records[|records| - 1]];
      KeysSnoc(p, records[|records| - 1], MatchOf);
      OccurrencesNone(p, k);
    }
  }

  /** The dictionary of `extract_context` after the records `done`: `order`
      lists its keys in insertion order and `combined` maps each key to the
      merge of that key's occurrences so far. */
  ghost predicate MergeState(done: seq<ContextRecord>, order: seq<string>, combined: map<string, ContextRecord>) {
    && order == DistinctMatches(done)
    && (forall k :: k in combined <==> k in order)
    && (forall k :: k in order ==> combined[k] == Combine(k, Occurrences(done, k)))
  }

  /** A record whose text is already a key updates that key's record. */
  lemma MergeStateSeen(done: seq<ContextRecord>, r: ContextRecord,
                       order: seq<string>, combined: map<string, ContextRecord>)
    requires MergeState(done, order, combined) && r.matched in combined
    ensures var existing := combined[r.matched];
      MergeState(done + [r], order, combined[r.matched := ContextRecord(r.matched,
        existing.context + MergeSeparator + r.context,
        Min(existing.startToken, r.startToken), Max(existing.endToken, r.endToken))])
  {
    var existing := combined[r.matched];
    var updated := ContextRecord(r.matched, existing.context + MergeSeparator + r.context,
      Min(existing.startToken, r.startToken), Max(existing.endToken, r.endToken));
    var combined' := combined[r.matched := updated];
    DistinctMatchesSame(done);
    MergeStepSeen(done, r);
    forall k | k in order ensures combined'[k] == Combine(k, Occurrences(done + [r], k)) {
      if k != r.matched {
        assert combined'[k] == combined[k];
        OccurrencesSnoc(done, r, k);
        assert Occurrences(done + [r], k) == Occurrences(done, k);
      } else {
        assert existing == Combine(r.matched, Occurrences(done, r.matched));
        assert combined'[k] == updated;
      }
    }
    assert DistinctMatches(done + [r]) == order;
    assert forall k :: k in combined' <==> k in order;
    assert MergeState(done + [r], order, combined');
  }

  /** A record whose text is not yet a key becomes the record of a new key,
      added last. */
  lemma MergeStateNew(done: seq<ContextRecord>, r: ContextRecord,
                      order: seq<string>, combined: map<string, ContextRecord>)
    requires MergeState(done, order, combined) && r.matched !in combined
    ensures MergeState(done + [r], order + [r.matched], combined[r.matched := r])
  {
    var combined', order' := combined[r.matched := r], order + [r.matched];
    MergeStepNew(done, r);
    forall k | k in order' ensures combined'[k] == Combine(k, Occurrences(done + [r], k)) {
      if k != r.matched {
        assert k in order && combined'[k] == combined[k];
        OccurrencesSnoc(done, r, k);
        assert Occurrences(done + [r], k) == Occurrences(done, k);
      }
    }
    assert forall k :: k in combined' <==> k in order';
    assert MergeState(done + [r], order', combined');
  }

  /** The dictionary's values, in key order, are the merge. */
  lemma MergeStateValues(records: seq<ContextRecord>, order: seq<string>, combined: map<string, ContextRecord>)
    requires MergeState(records, order, combined)
    ensures seq(|order|, j requires 0 <= j < |order| => combined[order[j]]) == Merged(records)
  {
  }

  /** The dictionary loop of `extract_context`: `order` lists the keys of the
      dictionary in insertion order and `combined` maps each key to its
      current record; `list(combined.values())` is the result. */
  method MergeByMatch(records: seq<ContextRecord>) returns (merged: seq<ContextRecord>)
    ensures merged == Merged(records)
  {
    var order: seq<string> := [];
    var combined: map<string, ContextRecord> := map[];
    for i := 0 to |records|
      invariant MergeState(records[..i], order, combined)
    {
      var r := records[i];
      assert records[..i + 1] == records[..i] + [r];
      if r.matched in combined {
        MergeStateSeen(records[..i], r, order, combined);
        var existing := combined[r.matched];
        var newContext := existing.context + MergeSeparator + r.context;
        var startToken := Min(existing.startToken, r.startToken);
        var endToken := Max(existing.endToken, r.endToken);
        combined := combined[r.matched := ContextRecord(r.matched, newContext, startToken, endToken)];
      } else {
        MergeStateNew(records[..i], r, order, combined);
        combined := combined[r.matched := r];
        order := order + [r.matched];
      }
    }
    assert records[..|records|] == records;
    MergeStateValues(records, order, combined);
    merged := seq(|order|, j requires 0 <= j < |order| => combined[order[j]]);
  }

  /** Merging yields one record per distinct matched text, never more records
      than it was given, in the order in which the matched texts first
      occur. */
  lemma MergedOnePerMatch(records: seq<ContextRecord>)
    ensures |Merged(records)| <= |records|
    ensures DistinctKeys(Merged(records), MatchOf)
    ensures forall k :: k in Keys(Merged(records), MatchOf) <==> k in Keys(records, MatchOf)
    ensures forall i, j :: 0 <= i < j < |Merged(records)| ==>
      Merged(records)[i].matched in Keys(records, MatchOf) &&
      Merged(records)[j].matched in Keys(records, MatchOf) &&
      FirstIndex(Keys(records, MatchOf), Merged(records)[i].matched) <
      FirstIndex(Keys(records, MatchOf), Merged(records)[j].matched)
  {
    var m, kept := Merged(records), KeepFirstBy(records, MatchOf);
    KeepFirstByLength(records, MatchOf);
    KeepFirstByDistinct(records, MatchOf);
    KeepFirstByFirst(records, MatchOf);
    KeepFirstByOrder(records, MatchOf);
    DistinctMatchesSame(records);
    assert Keys(m, MatchOf) == DistinctMatches(records);
    forall i | 0 <= i < |m| ensures m[i].matched == kept[i].matched { }
  }

  /** A merged record spans every occurrence of its matched text: its start
      token is the least and its end token the greatest of theirs, and its
      context joins their contexts in order with a blank line. */
  lemma MergedSpan(records: seq<ContextRecord>, j: nat)
    requires j < |Merged(records)|
    ensures var m := Merged(records)[j];
      var occ := Occurrences(records, m.matched);
      && occ != []
      && m.context == Join(Keys(occ, ContextText), MergeSeparator)
      && (forall r :: r in records && r.matched == m.matched ==>
            m.startToken <= r.startToken && r.endToken <= m.endToken)
      && (exists r :: r in records && r.matched == m.matched && r.startToken == m.startToken)
      && (exists r :: r in records && r.matched == m.matched && r.endToken == m.endToken)
  {
    var m := Merged(records)[j];
    var occ := Occurrences(records, m.matched);
    OccurrencesMembers(records, m.matched);
    DistinctMatchesSame(records);
    assert m.matched in DistinctMatches(records);
    var i :| 0 <= i < |records| && Keys(records, MatchOf)[i] == m.matched;
    assert records[i] in occ;
    forall r | r in records && r.matched == m.matched
      ensures m.startToken <= r.startToken && r.endToken <= m.endToken
    {
      var x :| 0 <= x < |occ| && occ[x] == r;
    }
    var a :| 0 <= a < |occ| && m.startToken == occ[a].startToken;
    assert occ[a] in occ;
    var b :| 0 <= b < |occ| && m.endToken == occ[b].endToken;
    assert occ[b] in occ;
  }

  // ---------------------------------------------------------------------------
  // extract_context
  // ---------------------------------------------------------------------------

  /** The record of every match, in match order, before merging. */
  function PerMatch(text: string, matches: seq<Match>, before: nat, after: nat): (records: seq<ContextRecord>)
    requires WellFormed(matches)
  {
    seq(|matches|, i requires 0 <= i < |matches| => ContextOf(text, matches[i], before, after))
  }

  lemma PerMatchTexts(text: string, matches: seq<Match>, before: nat, after: nat)
    requires WellFormed(matches)
    ensures |PerMatch(text, matches, before, after)| == |matches|
    ensures forall i :: 0 <= i < |matches| ==> PerMatch(text, matches, before, after)[i].matched == matches[i].text
  {
  }

  /** `extract_context(text, pattern, before, after)` given the matches of
      `pattern` in `text`. */
  method ExtractContext(text: string, matches: seq<Match>, before: nat, after: nat)
    returns (records: seq<ContextRecord>)
    requires WellFormed(matches)
    ensures matches == [] ==> records == []
    ensures records == Merged(PerMatch(text, matches, before, after))
  {
    if matches == [] {
      return [];
    }
    var results: seq<ContextRecord> := [];
    for i := 0 to |matches|
      invariant |results| == i
      invariant forall j :: 0 <= j < i ==> results[j] == ContextOf(text, matches[j], before, after)
    {
      var r := MatchContext(text, matches[i], before, after);
      results := results + [r];
    }
    assert results == PerMatch(text, matches, before, after);
    records := MergeByMatch(results);
  }

  /** The result has one record for each distinct matched text and for no
      other text, never more records than matches, in the order in which the
      texts are first matched. */
  lemma ExtractedOnePerMatch(text: string, matches: seq<Match>, before: nat, after: nat)
    requires WellFormed(matches)
    ensures var out := Merged(PerMatch(text, matches, before, after));
      && |out| <= |matches|
      && DistinctKeys(out, MatchOf)
      && (forall k :: k in Keys(out, MatchOf) <==> exists i :: 0 <= i < |matches| && matches[i].text == k)
      && (forall i, j :: 0 <= i < j < |out| ==>
            out[i].matched in Keys(matches, TextOf) && out[j].matched in Keys(matches, TextOf) &&
            FirstIndex(Keys(matches, TextOf), out[i].matched) < FirstIndex(Keys(matches, TextOf), out[j].matched))
  {
    var per := PerMatch(text, matches, before, after);
    PerMatchTexts(text, matches, before, after);
    MergedOnePerMatch(per);
    KeysOfTexts(per, matches);
    assert Keys(per, MatchOf) == Keys(matches, TextOf);
  }

  /** Records made one per match carry the matches' texts as their keys. */
  lemma KeysOfTexts(records: seq<ContextRecord>, matches: seq<Match>)
    requires |records| == |matches|
    requires forall i :: 0 <= i < |matches| ==> records[i].matched == matches[i].text
    ensures forall k :: k in Keys(records, MatchOf) <==> exists i :: 0 <= i < |matches| && matches[i].text == k
  {
    forall k ensures k in Keys(records, MatchOf) <==> exists i :: 0 <= i < |matches| && matches[i].text == k {
      if k in Keys(records, MatchOf) {
        var i :| 0 <= i < |records| && Keys(records, MatchOf)[i] == k;
        assert matches[i].text == k;
      }
      if exists i :: 0 <= i < |matches| && matches[i].text == k {
        var i :| 0 <= i < |matches| && matches[i].text == k;
        assert Keys(records, MatchOf)[i] == k;
      }
    }
  }
}
