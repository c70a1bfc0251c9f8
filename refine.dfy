/** The URL clean-up scripts: refine_data.py, applied to the `url` column of
    sites.csv, and data/refine_data.py, which also trims whitespace, trims
    the `state` column and drops rows with a repeated URL. */
module Refine {
  import opened Text
  import opened Sequences

  const Https := "https://"
  const Http := "http://"

  /** The URL carries one of the two schemes the scripts test for. */
  predicate HasScheme(s: string) {
    StartsWith(s, Https) || StartsWith(s, Http)
  }

  /** The first lambda of refine_data.py: `https://` is put in front of a
      value without a scheme. */
  function PrefixScheme(x: string): (r: string)
    ensures HasScheme(r)
    ensures HasScheme(x) ==> r == x
    ensures !HasScheme(x) ==> r == Https + x
  {
    if !HasScheme(x) then Https + x else x
  }

  /** The four `rstrip` lambdas, in order: trailing `/`, then `#`, then `?`,
      then `&`. */
  function StripTrailing(x: string): (r: string)
    ensures r <= x
    ensures r == [] || r[|r| - 1] != '&'
    ensures forall i :: |r| <= i < |x| ==> x[i] in {'/', '#', '?', '&'}
  {
    RStrip(RStrip(RStrip(RStrip(x, '/'), '#'), '?'), '&')
  }

  /** refine_data.py: the value after all five lambdas. */
  function RefineUrl(x: string): string {
    StripTrailing(PrefixScheme(x))
  }

  /** The result is the (possibly prefixed) value with some trailing `/`,
      `#`, `?` and `&` characters removed, and it never ends with `&`. */
  lemma RefineUrlShape(x: string)
    ensures var r := RefineUrl(x);
      && r <= PrefixScheme(x)
      && (forall i :: |r| <= i < |PrefixScheme(x)| ==> PrefixScheme(x)[i] in {'/', '#', '?', '&'})
      && (r == [] || r[|r| - 1] != '&')
      && (HasScheme(x) ==> r <= x)
      && (!HasScheme(x) ==> r <= Https + x)
  {
  }

  /** The strips run one after the other, so a character stripped later
      can uncover one stripped earlier: `x/#` keeps its `/`. */
  lemma StripOrderMatters()
    ensures RefineUrl("https://x/#") == "https://x/"
  {
    HashUncoversSlash("https://x/#");
  }

  lemma HashUncoversSlash(x: string)
    requires x == "https://x/#"
    ensures RefineUrl(x) == "https://x/"
  {
    assert x[..8] == Https;
    KeepsScheme(x);
    var y := x[..10];
    assert y == "https://x/";
    assert x[|x| - 1] == '#';
    assert RStrip(x, '/') == x;
    assert RStrip(x, '#') == y by {
      assert y[|y| - 1] != '#';
    }
    assert y[|y| - 1] == '/';
    assert RStrip(y, '?') == y;
    assert RStrip(y, '&') == y;
  }

  /** Refining twice can remove more than refining once. */
  lemma RefineUrlNotIdempotent()
    ensures RefineUrl("https://a?&") == "https://a?"
    ensures RefineUrl("https://a?") == "https://a"
  {
    StripQueryAmp("https://a?&");
    StripQuery("https://a?");
  }

  lemma KeepsScheme(x: string)
    requires |x| >= 8 && x[..8] == Https
    ensures PrefixScheme(x) == x
  {
    assert StartsWith(x, Https);
  }

  lemma StripQueryAmp(x: string)
    requires x == "https://a?&"
    ensures RefineUrl(x) == "https://a?"
  {
    assert x[..8] == Https;
    KeepsScheme(x);
    var y := x[..10];
    assert y == "https://a?";
    assert x[|x| - 1] == '&';
    assert RStrip(x, '/') == x;
    assert RStrip(x, '#') == x;
    assert RStrip(x, '?') == x;
    assert RStrip(x, '&') == y by {
      assert y[|y| - 1] != '&';
    }
  }

  lemma StripQuery(x: string)
    requires x == "https://a?"
    ensures RefineUrl(x) == "https://a"
  {
    assert x[..8] == Https;
    KeepsScheme(x);
    var y := x[..9];
    assert y == "https://a";
    assert x[|x| - 1] == '?';
    assert RStrip(x, '/') == x;
    assert RStrip(x, '#') == x;
    assert RStrip(x, '?') == y by {
      assert y[|y| - 1] != '?';
    }
    assert y[|y| - 1] == 'a';
    assert RStrip(y, '&') == y;
  }

  /** A bare scheme loses the slashes of its `//`. */
  lemma BareSchemeEroded()
    ensures RefineUrl("http://") == "http:"
  {
    BareSchemeStrip("http://");
  }

  lemma BareSchemeStrip(x: string)
    requires x == "http://"
    ensures RefineUrl(x) == "http:"
  {
    assert x[..7] == Http;
    assert StartsWith(x, Http);
    assert PrefixScheme(x) == x;
    var y, z := x[..6], x[..5];
    assert y == "http:/" && z == "http:";
    assert x[|x| - 1] == '/' && y[|y| - 1] == '/' && z[|z| - 1] == ':';
    assert y[..5] == z;
    assert RStrip(y, '/') == z;
    assert RStrip(x, '/') == z;
    assert RStrip(z, '#') == z;
    assert RStrip(z, '?') == z;
    assert RStrip(z, '&') == z;
  }

  // ---------------------------------------------------------------------------
  // data/refine_data.py
  // ---------------------------------------------------------------------------

  /** The first lambda of data/refine_data.py: the value is trimmed in both
      branches, but the scheme test looks at the untrimmed value. */
  function PrefixSchemeTrimmed(x: string): (r: string)
    ensures HasScheme(r)
    ensures !IsSpace(r[0]) && !IsSpace(r[|r| - 1])
    ensures HasScheme(x) ==> r == Strip(x)
    ensures !HasScheme(x) ==> r == Https + Strip(x)
  {
    StripEnds(x);
    if !HasScheme(x) then Https + Strip(x)
    else if StartsWith(x, Https) then StripKeepsPrefix(x, Https); Strip(x)
    else StripKeepsPrefix(x, Http); Strip(x)
  }

  /** Trimming cannot reach into a prefix that starts and ends with
      characters other than whitespace, such as a scheme. */
  lemma StripKeepsPrefix(x: string, p: string)
    requires p != [] && p <= x && !IsSpace(p[0]) && !IsSpace(p[|p| - 1])
    ensures p <= Strip(x)
  {
    var t := TrimEnd(x);
    assert x[|p| - 1] == p[|p| - 1];
    assert |p| <= |t|;
    assert p <= t;
    assert TrimStart(t) == t;
  }

  /** data/refine_data.py: the URL after all five lambdas. */
  function RefineUrlTrimmed(x: string): string {
    StripTrailing(PrefixSchemeTrimmed(x))
  }

  /** A value already free of surrounding whitespace is refined the same way
      by both scripts. */
  lemma RefineUrlsAgree(x: string)
    requires x == [] || (!IsSpace(x[0]) && !IsSpace(x[|x| - 1]))
    ensures RefineUrlTrimmed(x) == RefineUrl(x)
  {
    assert TrimEnd(x) == x;
    assert TrimStart(x) == x;
  }

  /** Because the scheme test sees the leading space, a URL that already has
      its scheme gets a second one. */
  lemma LeadingSpaceDoublesScheme()
    ensures RefineUrlTrimmed(" https://a") == "https://https://a"
  {
    SpacedUrlDoubled(" https://a");
  }

  lemma SpacedUrlDoubled(x: string)
    requires x == " https://a"
    ensures RefineUrlTrimmed(x) == "https://https://a"
  {
    SpacedUrlHasNoScheme(x);
    StripSpacedUrl(x);
    assert x[1..] == "https://a";
    assert Https + x[1..] == "https://https://a";
    StripPlainUrl(Https + x[1..]);
  }

  lemma SpacedUrlHasNoScheme(x: string)
    requires x == " https://a"
    ensures !HasScheme(x)
  {
    assert x[0] != Https[0] && x[0] != Http[0];
  }

  lemma StripSpacedUrl(x: string)
    requires x == " https://a"
    ensures Strip(x) == x[1..]
  {
    assert x[|x| - 1] == 'a';
    assert TrimEnd(x) == x;
    assert x[0] == ' ' && x[1..][0] == 'h';
    assert TrimStart(x) == x[1..];
  }

  lemma StripPlainUrl(x: string)
    requires x == "https://https://a"
    ensures StripTrailing(x) == x
  {
    assert x[|x| - 1] == 'a';
  }

  /** A row of data/iits.csv; `rest` stands for the columns the script does
      not touch. */
  datatype Row = Row(url: string, state: string, rest: seq<string>)

  function UrlOf(row: Row): string { row.url }

  /** The row after the URL lambdas and `df["state"].str.strip()`. */
  function RefineRow(row: Row): (r: Row)
    ensures r.rest == row.rest
  {
    row.(url := RefineUrlTrimmed(row.url), state := Strip(row.state))
  }

  /** Every row refined. */
  function RefinedRows(rows: seq<Row>): (r: seq<Row>)
    ensures |r| == |rows|
    ensures forall i :: 0 <= i < |rows| ==> r[i] == RefineRow(rows[i])
  {
    seq(|rows|, i requires 0 <= i < |rows| => RefineRow(rows[i]))
  }

  /** data/refine_data.py on the whole table: every row refined, then
      `drop_duplicates(subset=["url"], keep="first")`. */
  function RefineRows(rows: seq<Row>): seq<Row> {
    KeepFirstBy(RefinedRows(rows), UrlOf)
  }

  /** `str.strip()` leaves no whitespace at either end. */
  lemma StripEnds(s: string)
    ensures Trimmed(Strip(s))
  {
    var t := TrimEnd(s);
    var r := TrimStart(t);
    if r != [] {
      assert r[|r| - 1] == t[|t| - 1];
    }
  }

  /** After the script no two rows share a URL; every refined URL of the
      input is kept; each row kept is the FIRST refined row with its URL;
      and the rows keep their relative order. */
  lemma RefineRowsUnique(rows: seq<Row>)
    ensures var out, refined := RefineRows(rows), RefinedRows(rows);
      && |out| <= |rows|
      && DistinctKeys(out, UrlOf)
      && (forall i :: 0 <= i < |rows| ==> RefineUrlTrimmed(rows[i].url) in Keys(out, UrlOf))
      && (forall k :: 0 <= k < |out| ==>
            out[k].url in Keys(refined, UrlOf) &&
            out[k] == refined[FirstIndex(Keys(refined, UrlOf), out[k].url)])
      && (forall k, l :: 0 <= k < l < |out| ==>
            FirstIndex(Keys(refined, UrlOf), out[k].url) < FirstIndex(Keys(refined, UrlOf), out[l].url))
  {
    var refined := RefinedRows(rows);
    KeepFirstByLength(refined, UrlOf);
    KeepFirstByDistinct(refined, UrlOf);
    KeepFirstByCovers(refined, UrlOf);
    assert forall i :: 0 <= i < |rows| ==> refined[i] in refined;
    KeepFirstByFirst(refined, UrlOf);
    KeepFirstByOrder(refined, UrlOf);
  }

  /** No whitespace at either end. */
  predicate Trimmed(s: string) {
    s == [] || (!IsSpace(s[0]) && !IsSpace(s[|s| - 1]))
  }

  /** Every state in the output is trimmed, and every row of the output is
      a refined input row. */
  lemma RefineRowsTrimmed(rows: seq<Row>)
    ensures forall k :: 0 <= k < |RefineRows(rows)| ==> Trimmed(RefineRows(rows)[k].state)
    ensures forall k :: 0 <= k < |RefineRows(rows)| ==>
      exists i :: 0 <= i < |rows| && RefineRows(rows)[k] == RefineRow(rows[i])
  {
    var out := RefineRows(rows);
    forall k | 0 <= k < |out|
      ensures Trimmed(out[k].state)
      ensures exists i :: 0 <= i < |rows| && out[k] == RefineRow(rows[i])
    {
      var i := KeptRow(rows, k);
      StripEnds(rows[i].state);
    }
  }

  /** The row kept at position `k` is the refined row of input row `i`. */
  lemma KeptRow(rows: seq<Row>, k: nat) returns (i: nat)
    requires k < |RefineRows(rows)|
    ensures i < |rows| && RefineRows(rows)[k] == RefineRow(rows[i])
  {
    var refined := RefinedRows(rows);
    KeepFirstByFirst(refined, UrlOf);
    i := FirstIndex(Keys(refined, UrlOf), UrlOf(RefineRows(rows)[k]));
  }
}
