/** `remove_trailing_slash` (admission_scraper/utils/generic.py, with an
    identical copy in admission_scraper/spiders/uni.py) and the link
    collection of `UniSpider.parse` (admission_scraper/spiders/uni.py). */
module Links {
  import opened Text
  import opened Sequences
  import opened Patterns

  /** `remove_trailing_slash(url)`: drops one trailing `/`, if there is one. */
  function RemoveTrailingSlash(url: string): (r: string)
    ensures r <= url
    ensures |url| - 1 <= |r|
    ensures |r| < |url| <==> EndsWith(url, '/')
  {
    if EndsWith(url, '/') then url[..|url| - 1] else url
  }

  /** Only a trailing run of two or more slashes survives the removal in
      part; the function is therefore not idempotent. */
  lemma RemoveTrailingSlashNotIdempotent()
    ensures RemoveTrailingSlash("a//") == "a/"
    ensures RemoveTrailingSlash(RemoveTrailingSlash("a//")) == "a"
  {
    assert "a//"[..2] == "a/";
    assert "a/"[..1] == "a";
  }

  /** A link found on a page: its target and its anchor text. */
  datatype Link = Link(url: string, text: string)

  /** The item `UniSpider.parse` yields for one page. */
  datatype SiteLinks = SiteLinks(site: string, matchedLinks: seq<string>)

  /** The alternatives of the spider's admission-term pattern. */
  const UniTerms: seq<string> := [
    "admission", "apply", "enroll", "registration", "announcement", "update",
    "notification", "programs", "courses", "degree", "application", "intake",
    "enrollment", "entry", "admit", "acceptance", "accepting"]

  /** One of the terms occurs as a whole word, in any case, in the link's
      text or in its URL. */
  predicate Qualifies(link: Link) {
    ContainsWord(link.text, UniTerms) || ContainsWord(link.url, UniTerms)
  }

  /** The slash-stripped URLs of the qualifying links, in page order. */
  function QualifyingUrls(links: seq<Link>): seq<string> {
    if links == [] then []
    else
      var last := links[|links| - 1];
      QualifyingUrls(links[..|links| - 1]) + if Qualifies(last) then [RemoveTrailingSlash(last.url)] else []
  }

  lemma {:induction false} QualifyingUrlsMembers(links: seq<Link>)
    ensures forall u :: u in QualifyingUrls(links) <==>
      exists l :: l in links && Qualifies(l) && RemoveTrailingSlash(l.url) == u
  {
    if links != [] {
      var p, last := links[..|links| - 1], links[|links| - 1];
      assert links == p + [last];
      QualifyingUrlsMembers(p);
      forall u | exists l :: l in links && Qualifies(l) && RemoveTrailingSlash(l.url) == u
        ensures u in QualifyingUrls(links)
      {
        var l :| l in links && Qualifies(l) && RemoveTrailingSlash(l.url) == u;
        if l != last {
          assert l in p;
        }
      }
    }
  }

  /** `UniSpider.parse(response)`, given the links the link extractor
      returns for the page at `responseUrl`. */
  method Parse(responseUrl: string, links: seq<Link>) returns (res: SiteLinks)
    ensures res.site == responseUrl
    ensures res.matchedLinks == KeepFirstBy(QualifyingUrls(links), Identity)
  {
    var matched: seq<string> := [];
    for i := 0 to |links|
      invariant matched == KeepFirstBy(QualifyingUrls(links[..i]), Identity)
    {
      var link := links[i];
      assert links[..i + 1] == links[..i] + [link];
      assert links[..i + 1][..i] == links[..i];
      var qualifies := ContainsWord(link.text, UniTerms) || ContainsWord(link.url, UniTerms);
      assert QualifyingUrls(links[..i + 1]) ==
        QualifyingUrls(links[..i]) + if qualifies then [RemoveTrailingSlash(link.url)] else [];
      if qualifies {
        var url := RemoveTrailingSlash(link.url);
        KeepFirstBySnoc(QualifyingUrls(links[..i]), url, Identity);
        assert Keys(matched, Identity) == matched && Identity(url) == url;
        if url !in matched {
          matched := matched + [url];
        }
      } else {
        assert QualifyingUrls(links[..i + 1]) == QualifyingUrls(links[..i]);
      }
    }
    assert links[..|links|] == links;
    res := SiteLinks(responseUrl, matched);
  }

  /** The collected links hold no duplicates; they are exactly the
      slash-stripped URLs of the links that mention an admission term in
      their text or their URL; and they keep the order in which each URL
      first qualified. */
  lemma MatchedLinksSpec(links: seq<Link>)
    ensures var matched := KeepFirstBy(QualifyingUrls(links), Identity);
      && (forall i, j :: 0 <= i < j < |matched| ==> matched[i] != matched[j])
      && (forall u :: u in matched <==>
            exists l :: l in links && Qualifies(l) && RemoveTrailingSlash(l.url) == u)
      && (forall i, j :: 0 <= i < j < |matched| ==>
            matched[i] in QualifyingUrls(links) && matched[j] in QualifyingUrls(links) &&
            FirstIndex(QualifyingUrls(links), matched[i]) < FirstIndex(QualifyingUrls(links), matched[j]))
  {
    var q := QualifyingUrls(links);
    var matched := KeepFirstBy(q, Identity);
    KeepFirstByDistinct(q, Identity);
    KeepFirstByFirst(q, Identity);
    KeepFirstByOrder(q, Identity);
    assert Keys(q, Identity) == q;
    assert Keys(matched, Identity) == matched;
    assert forall u :: u in matched <==> u in q by {
      KeepFirstByCovers(q, Identity);
      forall u | u in matched ensures u in q {
        var i :| 0 <= i < |matched| && matched[i] == u;
      }
    }
    QualifyingUrlsMembers(links);
  }
}
