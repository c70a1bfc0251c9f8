/** admission_scraper/spiders/pages.py: `is_likely_phone_number`, which
    rejects matched dates that look like phone numbers, and the part of
    `PagesSpider.parse` that turns the records of `extract_context` into
    yielded items. */
module Pages {
  import opened Options
  import opened Text
  import opened Patterns
  import opened ContextExtraction
  import Links

  // ---------------------------------------------------------------------------
  // is_likely_phone_number
  // ---------------------------------------------------------------------------

  /** The phone patterns, in the order the function tries them. */
  datatype PhonePattern =
    | SlashQuad    // \d+/\d+/\d+/\d+
    | DashTriple   // \d+-\d+-\d+
    | DashedPhone  // \d{4}-\d{2,3}-\d{2,4}
    | LongDigits   // \d{10,}

  const PhonePatterns: seq<PhonePattern> := [SlashQuad, DashTriple, DashedPhone, LongDigits]

  /** `\d{4}-\d{2,3}-\d{2,4}` matches at `i`. */
  predicate DashedPhoneAt(s: string, i: nat) {
    DigitsAt(s, i, 4) && i + 4 < |s| && s[i + 4] == '-' &&
    (DashedTailAt(s, i + 5, 2) || DashedTailAt(s, i + 5, 3))
  }

  /** `\d{m}-\d{2,4}` matches at `j`. */
  predicate DashedTailAt(s: string, j: nat, m: nat) {
    DigitsAt(s, j, m) && j + m < |s| && s[j + m] == '-' && DigitsAt(s, j + m + 1, 2)
  }

  /** The pattern matches at position `i` of `s`. */
  predicate MatchesAt(p: PhonePattern, s: string, i: nat) {
    match p
    case SlashQuad => DigitRunsAt(s, i, '/', 4)
    case DashTriple => DigitRunsAt(s, i, '-', 3)
    case DashedPhone => DashedPhoneAt(s, i)
    case LongDigits => DigitsAt(s, i, 10)
  }

  /** `re.search(pattern, s)` finds a match. */
  predicate Found(p: PhonePattern, s: string) {
    exists i :: 0 <= i < |s| && MatchesAt(p, s, i)
  }

  /** The month abbreviations, lower-cased; the search ignores case. */
  const MonthAbbreviations: seq<string> :=
    ["jan", "feb", "mar", "apr", "may", "jun", "jul", "aug", "sep", "oct", "nov", "dec"]

  /** `\b\d{4}\b` matches somewhere: a number of exactly four digits. */
  predicate HasYear(s: string) {
    exists i :: 0 <= i < |s| && DigitsAt(s, i, 4) && Boundary(s, i) && Boundary(s, i + 4)
  }

  /** `looks_like_date`: a month abbreviation as a whole word, or a
      four-digit number. */
  predicate LooksLikeDate(s: string) {
    ContainsWord(s, MonthAbbreviations) || HasYear(s)
  }

  /** What `is_likely_phone_number` answers. */
  predicate LikelyPhoneNumber(s: string) {
    (exists k :: 0 <= k < |PhonePatterns| && Found(PhonePatterns[k], s)) || !LooksLikeDate(s)
  }

  /** `is_likely_phone_number(text)`: tries the phone patterns in order and
      answers true at the first that is found; otherwise the text is a phone
      number exactly when it does not look like a date. */
  method IsLikelyPhoneNumber(text: string) returns (r: bool)
    ensures r == LikelyPhoneNumber(text)
  {
    var looksLikeDate := ContainsWord(text, MonthAbbreviations) || HasYear(text);
    for k := 0 to |PhonePatterns|
      invariant forall j :: 0 <= j < k ==> !Found(PhonePatterns[j], text)
    {
      if Found(PhonePatterns[k], text) {
        return true;
      }
    }
    return !looksLikeDate;
  }

  /** Wherever `\d{4}-\d{2,3}-\d{2,4}` matches, `\d+-\d+-\d+` matches too. */
  lemma DashedPhoneSubsumed(s: string, i: nat)
    requires DashedPhoneAt(s, i)
    ensures DigitRunsAt(s, i, '-', 3)
  {
    var m := if DashedTailAt(s, i + 5, 2) then 2 else 3;
    DigitRunEndAt(s, i, 4);
    DigitRunEndAt(s, i + 5, m);
    assert IsDigit(s[i..i + 4][0]);
    assert IsDigit(s[i + 5..i + 5 + m][0]);
    assert IsDigit(s[i + 6 + m..i + 8 + m][0]);
  }

  /** Since the third pattern is subsumed by the second, the answer is the
      same with it left out, and so does not depend on which of the two is
      tried first. */
  lemma PhonePatternOrderIrrelevant(s: string)
    ensures LikelyPhoneNumber(s) <==>
      Found(SlashQuad, s) || Found(DashTriple, s) || Found(LongDigits, s) || !LooksLikeDate(s)
  {
    if Found(DashedPhone, s) {
      var i :| 0 <= i < |s| && MatchesAt(DashedPhone, s, i);
      DashedPhoneSubsumed(s, i);
      assert MatchesAt(DashTriple, s, i);
    }
    assert PhonePatterns[0] == SlashQuad && PhonePatterns[1] == DashTriple;
    assert PhonePatterns[2] == DashedPhone && PhonePatterns[3] == LongDigits;
  }

  /** Any text holding three dash-separated runs of digits is a likely phone
      number: ISO dates `2025-04-12` and day-first dates `12-04-2025`
      included. */
  lemma DashSeparatedDigitsArePhone(u: string, a: string, b: string, c: string, v: string)
    requires |a| > 0 && |b| > 0 && |c| > 0
    requires AllDigits(a) && AllDigits(b) && AllDigits(c)
    ensures LikelyPhoneNumber(u + Join([a, b, c], "-") + v)
  {
    DigitRunsOf(u, [a, b, c], '-', v);
    assert MatchesAt(PhonePatterns[1], u + Join([a, b, c], "-") + v, |u|);
  }

  /** Any text holding four slash-separated runs of digits is a likely phone
      number. */
  lemma SlashSeparatedDigitsArePhone(u: string, a: string, b: string, c: string, d: string, v: string)
    requires |a| > 0 && |b| > 0 && |c| > 0 && |d| > 0
    requires AllDigits(a) && AllDigits(b) && AllDigits(c) && AllDigits(d)
    ensures LikelyPhoneNumber(u + Join([a, b, c, d], "/") + v)
  {
    DigitRunsOf(u, [a, b, c, d], '/', v);
    assert MatchesAt(PhonePatterns[0], u + Join([a, b, c, d], "/") + v, |u|);
  }

  /** Any text holding ten or more consecutive digits is a likely phone
      number. */
  lemma LongDigitRunsArePhone(u: string, d: string, v: string)
    requires |d| >= 10 && AllDigits(d)
    ensures LikelyPhoneNumber(u + d + v)
  {
    var s := u + d + v;
    assert s[|u|..|u| + 10] == d[..10];
    assert MatchesAt(PhonePatterns[3], s, |u|);
  }

  /** A full month name is not a month abbreviation followed by a word
      boundary, and `12 April 25` holds no four-digit number either, so it
      is judged a phone number. */
  lemma FullMonthNameIsPhone()
    ensures LikelyPhoneNumber("12 April 25")
  {
    NoMonthAbbreviation("12 April 25");
    NoFourDigits("12 April 25");
  }

  /** Every month abbreviation is three word characters. */
  lemma MonthAbbreviationsAreWords()
    ensures forall k :: 0 <= k < |MonthAbbreviations| ==>
      |MonthAbbreviations[k]| == 3 && IsWordChar(MonthAbbreviations[k][0]) &&
      IsWordChar(MonthAbbreviations[k][1]) && IsWordChar(MonthAbbreviations[k][2])
  {
  }

  /** A word of exactly three characters starts at `i`: three word
      characters with none just before or just after them. */
  predicate ThreeLetterWordAt(s: string, i: nat) {
    i + 3 <= |s| && IsWordChar(s[i]) && IsWordChar(s[i + 1]) && IsWordChar(s[i + 2]) &&
    (i == 0 || !IsWordChar(s[i - 1])) && (i + 3 == |s| || !IsWordChar(s[i + 3]))
  }

  /** A whole-word match of three word characters is a word of exactly
      three characters. */
  lemma ThreeLetterWord(s: string, i: nat, w: string)
    requires |w| == 3 && IsWordChar(w[0]) && IsWordChar(w[1]) && IsWordChar(w[2])
    requires WordAt(s, i, w)
    ensures ThreeLetterWordAt(s, i)
  {
    assert Lower(s[i..i + 3])[0] == LowerChar(s[i]);
    assert Lower(s[i..i + 3])[1] == LowerChar(s[i + 1]);
    assert Lower(s[i..i + 3])[2] == LowerChar(s[i + 2]);
  }

  lemma NoThreeLetterWordAt(s: string, i: nat)
    requires s == "12 April 25"
    ensures !ThreeLetterWordAt(s, i)
  {
    if i == 0 {
      assert !IsWordChar(s[2]);
    } else if i == 3 {
      assert IsWordChar(s[6]);
    }
  }

  /** `12 April 25` holds no word of exactly three characters. */
  lemma NoThreeLetterWord(s: string)
    requires s == "12 April 25"
    ensures forall i: nat :: !ThreeLetterWordAt(s, i)
  {
    forall i: nat ensures !ThreeLetterWordAt(s, i) {
      NoThreeLetterWordAt(s, i);
    }
  }

  lemma NoMonthAbbreviation(s: string)
    requires s == "12 April 25"
    ensures !ContainsWord(s, MonthAbbreviations)
  {
    MonthAbbreviationsAreWords();
    NoThreeLetterWord(s);
    forall i, k | 0 <= i < |s| && 0 <= k < |MonthAbbreviations|
      ensures !WordAt(s, i, MonthAbbreviations[k])
    {
      if WordAt(s, i, MonthAbbreviations[k]) {
        ThreeLetterWord(s, i, MonthAbbreviations[k]);
      }
    }
  }

  lemma NoFourDigits(s: string)
    requires s == "12 April 25"
    ensures !HasYear(s)
  {
    forall i | 0 <= i < |s| ensures !DigitsAt(s, i, 4) {
      if i + 4 <= |s| {
        var k := if i <= 2 then 2 - i else 0;
        assert s[i..i + 4][k] == s[i + k] && !IsDigit(s[i + k]);
      }
    }
  }

  /** In `12 Apr 2025` each run of digits reaches the space after `12` or
      the end of the text. */
  lemma AbbreviatedDateRuns(t: string, i: nat)
    requires t == "12 Apr 2025" && i < |t| && IsDigit(t[i])
    ensures DigitRunEnd(t, i) == if i < 2 then 2 else 11
  {
    if i < 2 {
      DigitRunEndAt(t, i, 2 - i);
    } else {
      assert i >= 7;
      DigitRunEndAt(t, i, 11 - i);
    }
  }

  /** No separated runs of digits, four digits followed by a dash, or ten
      digits occur in `12 Apr 2025`. */
  lemma AbbreviatedDateNoPattern(t: string, i: nat)
    requires t == "12 Apr 2025" && i < |t|
    ensures !DigitRunsAt(t, i, '/', 4) && !DigitRunsAt(t, i, '-', 3)
    ensures !DashedPhoneAt(t, i) && !DigitsAt(t, i, 10)
  {
    if IsDigit(t[i]) {
      AbbreviatedDateRuns(t, i);
    }
    if i + 4 <= |t| && i != 7 {
      var k := if i <= 2 then 2 - i else if i < 7 then 0 else 3;
      assert t[i..i + 4][k] == t[i + k] && !IsDigit(t[i + k]);
    }
  }

  /** With the abbreviation `Apr` and the year 2025, `12 Apr 2025` looks
      like a date and matches no phone pattern. */
  lemma AbbreviatedDateIsNotPhone()
    ensures !LikelyPhoneNumber("12 Apr 2025")
  {
    var t := "12 Apr 2025";
    assert WordAt(t, 3, MonthAbbreviations[3]) by {
      assert t[3..6] == "Apr";
    }
    forall k | 0 <= k < |PhonePatterns| ensures !Found(PhonePatterns[k], t) {
      forall i | 0 <= i < |t| ensures !MatchesAt(PhonePatterns[k], t, i) {
        AbbreviatedDateNoPattern(t, i);
      }
    }
  }

  // ---------------------------------------------------------------------------
  // The items PagesSpider.parse yields
  // ---------------------------------------------------------------------------

  /** The alternatives of the spider's admission-term pattern. */
  const AdmissionTerms: seq<string> :=
    ["admission", "apply", "application", "deadline", "enroll", "registration"]

  /** `\b(?:terms)s?\b`: each term, alone or with a plural `s`. */
  function AdmissionWords(): (words: seq<string>)
    ensures |words| == 2 * |AdmissionTerms|
  {
    AdmissionTerms + seq(|AdmissionTerms|, k requires 0 <= k < |AdmissionTerms| => AdmissionTerms[k] + "s")
  }

  /** `re.findall(word_pattern, context, re.IGNORECASE)` is not empty. */
  predicate HasAdmissionTerm(context: string) {
    ContainsWord(context, AdmissionWords())
  }

  /** An item of the spider's output. */
  datatype PageItem = PageItem(url: string, site: Option<string>, date: string, context: string, relatedDates: seq<string>)

  /** The filter of `PagesSpider.parse`: the matched text is not a likely phone
      number and its context mentions an admission term. */
  predicate Emits(r: ContextRecord) {
    !LikelyPhoneNumber(r.matched) && HasAdmissionTerm(r.context)
  }

  /** The item yielded for a record; `related_dates` is read with a default
      of `[]` and `extract_context` never sets it. */
  function ItemOf(url: string, site: Option<string>, r: ContextRecord): PageItem {
    PageItem(Links.RemoveTrailingSlash(url), site, r.matched, r.context, [])
  }

  /** The items for the records that pass the filter, in record order. */
  function Emitted(url: string, site: Option<string>, records: seq<ContextRecord>): seq<PageItem> {
    if records == [] then []
    else
      var last := records[|records| - 1];
      Emitted(url, site, records[..|records| - 1]) + if Emits(last) then [ItemOf(url, site, last)] else []
  }

  /** The emit loop of `PagesSpider.parse` over the records of
      `extract_context`. */
  method EmitItems(url: string, site: Option<string>, records: seq<ContextRecord>) returns (items: seq<PageItem>)
    ensures items == Emitted(url, site, records)
  {
    items := [];
    for i := 0 to |records|
      invariant items == Emitted(url, site, records[..i])
    {
      var record := records[i];
      assert records[..i + 1][..i] == records[..i];
      var phone := IsLikelyPhoneNumber(record.matched);
      if !phone {
        if HasAdmissionTerm(record.context) {
          items := items + [ItemOf(url, site, record)];
        }
      }
    }
    assert records[..|records|] == records;
  }

  /** An item is yielded exactly for each record that is not a likely phone
      number and whose context mentions an admission term; every item has
      the slash-stripped page URL and no related dates. */
  lemma {:induction false} EmittedItems(url: string, site: Option<string>, records: seq<ContextRecord>)
    ensures |Emitted(url, site, records)| <= |records|
    ensures forall x :: x in Emitted(url, site, records) <==>
      exists r :: r in records && Emits(r) && x == ItemOf(url, site, r)
    ensures forall x :: x in Emitted(url, site, records) ==>
      x.relatedDates == [] && x.url == Links.RemoveTrailingSlash(url) &&
      !LikelyPhoneNumber(x.date) && HasAdmissionTerm(x.context)
  {
    if records != [] {
      var p, last := records[..|records| - 1], records[|records| - 1];
      assert records == p + [last];
      EmittedItems(url, site, p);
      forall x | exists r :: r in records && Emits(r) && x == ItemOf(url, site, r)
        ensures x in Emitted(url, site, records)
      {
        var r :| r in records && Emits(r) && x == ItemOf(url, site, r);
        if r != last {
          assert r in p;
        }
      }
    }
  }

  /** The spider; `counter` counts the pages parsed. */
  class PagesSpider {
    var counter: nat

    constructor ()
      ensures counter == 0
    {
      counter := 0;
    }

    /** `parse(response)` for the page at `url`. `cleanedBody` is the page
        body after `clean_body_content`, or `None` when the response's body
        is missing or empty; `dateMatches` are the matches of the date
        pattern in it; `site` is what `get_site_from_link` answers for the
        page. */
    method Parse(url: string, site: Option<string>, cleanedBody: Option<string>, dateMatches: seq<Match>)
      returns (items: seq<PageItem>)
      requires WellFormed(dateMatches)
      modifies this
      ensures counter == old(counter) + 1
      ensures cleanedBody == None ==> items == []
      ensures cleanedBody != None ==>
        items == Emitted(url, site, Merged(PerMatch(cleanedBody.value, dateMatches, DefaultWindow, DefaultWindow)))
    {
      counter := counter + 1;
      if cleanedBody == None {
        return [];
      }
      var records := ExtractContext(cleanedBody.value, dateMatches, DefaultWindow, DefaultWindow);
      items := [];
      if |records| != 0 {
        items := EmitItems(url, site, records);
      }
    }
  }
}
