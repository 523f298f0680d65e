/** The article extraction loop of the `/scrape` handler
    (web-scraping-api/app.py, `scrape()`): walk the page's anchors in
    document order, keep those whose serialised HTML mentions "article"
    in any letter case, and keep only the first entry for each `href`.

    HTML parsing is not modelled: each anchor arrives as the three values
    the handler reads from it. */
module Extraction {
  import opened Text

  /** One `<a href=...>` element found on the page:
      `html` is `str(link)`, the whole serialised tag with its content,
      `text` is `link.get_text(strip=True)`, `href` is `link['href']`. */
  datatype Anchor = Anchor(html: string, text: string, href: string)

  /** One entry of the `articles` list: `{"title": ..., "link": ...}`. */
  datatype Article = Article(title: string, link: string)

  const Keyword: string := "article"

  /** `"article" in str(link).lower()` */
  predicate IsArticleAnchor(a: Anchor) {
    Contains(Lower(a.html), Keyword)
  }

  /** The entry the handler builds from a qualifying anchor. */
  function ArticleOf(a: Anchor): Article {
    Article(a.text, a.href)
  }

  // ---------------------------------------------------------------------
  // Specification: filter, then keep the first occurrence of each link.
  // ---------------------------------------------------------------------

  /** The entries of all qualifying anchors, in document order, duplicates kept. */
  function Qualifying(anchors: seq<Anchor>): seq<Article> {
    if anchors == [] then []
    else
      var n := |anchors| - 1;
      Qualifying(anchors[..n]) + (if IsArticleAnchor(anchors[n]) then [ArticleOf(anchors[n])] else [])
  }

  /** The set of links carried by a list of entries. */
  function Links(s: seq<Article>): set<string> {
    set k | 0 <= k < |s| :: s[k].link
  }

  /** `s` with every entry dropped whose link already occurs earlier in `s`. */
  function FirstOccurrences(s: seq<Article>): seq<Article> {
    if s == [] then []
    else
      var n := |s| - 1;
      FirstOccurrences(s[..n]) + (if s[n].link in Links(s[..n]) then [] else [s[n]])
  }

  /** What the loop is meant to leave in `articles`. */
  function Extract(anchors: seq<Anchor>): seq<Article> {
    FirstOccurrences(Qualifying(anchors))
  }

  // ---------------------------------------------------------------------
  // The loop itself.
  // ---------------------------------------------------------------------

  /** The `for link in soup.find_all('a', href=True)` loop with its
      `articles` list and `seen_links` set. */
  method ScrapeArticles(anchors: seq<Anchor>) returns (articles: seq<Article>)
    ensures articles == Extract(anchors)
  {
    articles := [];
    var seenLinks: set<string> := {};
    var i := 0;
    while i < |anchors|
      invariant 0 <= i <= |anchors|
      invariant articles == Extract(anchors[..i])
      invariant seenLinks == Links(articles)
    {
      var link := anchors[i];
      assert anchors[..i + 1][..i] == anchors[..i];
      ghost var q := Qualifying(anchors[..i]);
      if Contains(Lower(link.html), Keyword) {
        var title := link.text;
        var href := link.href;
        assert Qualifying(anchors[..i + 1]) == q + [Article(title, href)];
        assert (q + [Article(title, href)])[..|q|] == q;
        LinksOfFirstOccurrences(q);
        if href !in seenLinks {
          LinksAppend(articles, [Article(title, href)]);
          LinksSingleton(Article(title, href));
          articles := articles + [Article(title, href)];
          seenLinks := seenLinks + {href};
        }
      } else {
        assert Qualifying(anchors[..i + 1]) == q;
      }
      i := i + 1;
    }
    assert anchors[..i] == anchors;
  }

  // ---------------------------------------------------------------------
  // Lemmas about the specification.
  // ---------------------------------------------------------------------

  /** The links of a concatenation are the links of its parts. */
  lemma LinksAppend(s: seq<Article>, t: seq<Article>)
    ensures Links(s + t) == Links(s) + Links(t)
  {
    forall h | h in Links(s + t) ensures h in Links(s) + Links(t) {
      var k :| 0 <= k < |s + t| && (s + t)[k].link == h;
      if k >= |s| {
        assert t[k - |s|].link == h;
      }
    }
    forall h | h in Links(s) ensures h in Links(s + t) {
      var k :| 0 <= k < |s| && s[k].link == h;
      assert (s + t)[k].link == h;
    }
    forall h | h in Links(t) ensures h in Links(s + t) {
      var k :| 0 <= k < |t| && t[k].link == h;
      assert (s + t)[|s| + k].link == h;
    }
  }

  lemma LinksSingleton(x: Article)
    ensures Links([x]) == {x.link}
  {
    assert [x][0].link == x.link;
  }

  /** Dropping repeats loses no link and adds none. */
  lemma {:induction false} LinksOfFirstOccurrences(s: seq<Article>)
    ensures Links(FirstOccurrences(s)) == Links(s)
  {
    if s != [] {
      var n := |s| - 1;
      LinksOfFirstOccurrences(s[..n]);
      assert s == s[..n] + [s[n]];
      LinksAppend(s[..n], [s[n]]);
      var tail := if s[n].link in Links(s[..n]) then [] else [s[n]];
      LinksAppend(FirstOccurrences(s[..n]), tail);
      LinksSingleton(s[n]);
    }
  }

  /** The hrefs of all anchors that mention "article". */
  function QualifyingHrefs(anchors: seq<Anchor>): set<string> {
    set i | 0 <= i < |anchors| && IsArticleAnchor(anchors[i]) :: anchors[i].href
  }

  /** The links of the qualifying entries are the hrefs of the qualifying anchors. */
  lemma {:induction false} LinksOfQualifying(anchors: seq<Anchor>)
    ensures Links(Qualifying(anchors)) == QualifyingHrefs(anchors)
  {
    if anchors != [] {
      var n := |anchors| - 1;
      var p := anchors[..n];
      LinksOfQualifying(p);
      var q := Qualifying(p);
      var tail := if IsArticleAnchor(anchors[n]) then [ArticleOf(anchors[n])] else [];
      LinksAppend(q, tail);
      var hrefs := QualifyingHrefs(anchors);
      var hrefsP := QualifyingHrefs(p);
      forall h | h in hrefs ensures h in hrefsP + Links(tail) {
        var i :| 0 <= i < |anchors| && IsArticleAnchor(anchors[i]) && anchors[i].href == h;
        if i < n {
          assert p[i] == anchors[i];
        } else {
          assert tail[0].link == h;
        }
      }
      forall h | h in hrefsP ensures h in hrefs {
        var i :| 0 <= i < |p| && IsArticleAnchor(p[i]) && p[i].href == h;
        assert anchors[i] == p[i];
      }
    }
  }

  // ---------------------------------------------------------------------
  // An independent description of the result, by anchor positions.
  // ---------------------------------------------------------------------

  /** Anchor `i` qualifies, and no earlier qualifying anchor has the same href. */
  predicate FirstQualifying(anchors: seq<Anchor>, i: int) {
    && 0 <= i < |anchors|
    && IsArticleAnchor(anchors[i])
    && forall j :: 0 <= j < i && IsArticleAnchor(anchors[j]) ==> anchors[j].href != anchors[i].href
  }

  /** The positions of the anchors whose entry the handler keeps, in document order. */
  function Origins(anchors: seq<Anchor>): seq<nat> {
    if anchors == [] then []
    else
      var n := |anchors| - 1;
      Origins(anchors[..n]) + (if FirstQualifying(anchors, n) then [n] else [])
  }

  /** Whether an anchor is first of its href does not depend on what follows it. */
  lemma FirstQualifyingPrefix(anchors: seq<Anchor>, m: int, i: int)
    requires 0 <= i < m <= |anchors|
    ensures FirstQualifying(anchors[..m], i) <==> FirstQualifying(anchors, i)
  {
    assert forall j :: 0 <= j < m ==> anchors[..m][j] == anchors[j];
  }

  /** `Origins` lists exactly the first qualifying anchor of each href, in increasing order. */
  lemma {:induction false} OriginsAreFirstQualifyingInOrder(anchors: seq<Anchor>)
    ensures forall k :: 0 <= k < |Origins(anchors)| ==> Origins(anchors)[k] < |anchors|
    ensures forall k1, k2 :: 0 <= k1 < k2 < |Origins(anchors)| ==> Origins(anchors)[k1] < Origins(anchors)[k2]
    ensures forall i: int :: i in Origins(anchors) <==> FirstQualifying(anchors, i)
  {
    if anchors != [] {
      var n := |anchors| - 1;
      var p := anchors[..n];
      OriginsAreFirstQualifyingInOrder(p);
      forall i | 0 <= i < n ensures FirstQualifying(p, i) <==> FirstQualifying(anchors, i) {
        FirstQualifyingPrefix(anchors, n, i);
      }
    }
  }

  /** The extracted list is the entry of each first qualifying anchor, in document order. */
  lemma {:induction false} ExtractFollowsOrigins(anchors: seq<Anchor>)
    ensures |Extract(anchors)| == |Origins(anchors)|
    ensures forall k :: 0 <= k < |Origins(anchors)| ==>
              Origins(anchors)[k] < |anchors| && Extract(anchors)[k] == ArticleOf(anchors[Origins(anchors)[k]])
  {
    OriginsAreFirstQualifyingInOrder(anchors);
    if anchors != [] {
      var n := |anchors| - 1;
      var p := anchors[..n];
      var a := anchors[n];
      ExtractFollowsOrigins(p);
      OriginsAreFirstQualifyingInOrder(p);
      var q := Qualifying(p);
      var o := Origins(p);
      forall k | 0 <= k < |o| ensures anchors[o[k]] == p[o[k]] { }
      if IsArticleAnchor(a) {
        var art := ArticleOf(a);
        assert Qualifying(anchors) == q + [art];
        assert (q + [art])[..|q|] == q;
        LinksOfQualifying(p);
        if art.link in Links(q) {
          var j :| 0 <= j < |p| && IsArticleAnchor(p[j]) && p[j].href == a.href;
          assert anchors[j] == p[j];
          assert !FirstQualifying(anchors, n);
        } else {
          forall j | 0 <= j < n && IsArticleAnchor(anchors[j]) ensures anchors[j].href != a.href {
            assert p[j] == anchors[j];
          }
          assert FirstQualifying(anchors, n);
        }
      } else {
        assert Qualifying(anchors) == q;
      }
    }
  }

  /** Two anchors that are each first of their href, with the same href, are the same anchor. */
  lemma FirstQualifyingUnique(anchors: seq<Anchor>, i: int, j: int)
    requires FirstQualifying(anchors, i) && FirstQualifying(anchors, j)
    requires anchors[i].href == anchors[j].href
    ensures i == j
  {
  }

  // ---------------------------------------------------------------------
  // What the handler promises about its `articles` list.
  // ---------------------------------------------------------------------

  /** No two entries share a link. */
  lemma ExtractLinksDistinct(anchors: seq<Anchor>)
    ensures forall k1, k2 :: 0 <= k1 < k2 < |Extract(anchors)| ==> Extract(anchors)[k1].link != Extract(anchors)[k2].link
  {
    ExtractFollowsOrigins(anchors);
    OriginsAreFirstQualifyingInOrder(anchors);
    var r, o := Extract(anchors), Origins(anchors);
    forall k1, k2 | 0 <= k1 < k2 < |r| ensures r[k1].link != r[k2].link {
      assert o[k1] in o && o[k2] in o;
      if r[k1].link == r[k2].link {
        FirstQualifyingUnique(anchors, o[k1], o[k2]);
      }
    }
  }

  /** `e` is the stripped text and raw href of the first qualifying anchor
      carrying its link. */
  predicate FromFirstQualifying(anchors: seq<Anchor>, e: Article) {
    exists i :: 0 <= i < |anchors| && FirstQualifying(anchors, i) && e.title == anchors[i].text && e.link == anchors[i].href
  }

  /** Every entry comes from a qualifying anchor, namely the first one carrying that href. */
  lemma ExtractEntriesComeFromFirstQualifying(anchors: seq<Anchor>)
    ensures forall k :: 0 <= k < |Extract(anchors)| ==> FromFirstQualifying(anchors, Extract(anchors)[k])
  {
    ExtractFollowsOrigins(anchors);
    OriginsAreFirstQualifyingInOrder(anchors);
    var o := Origins(anchors);
    forall k | 0 <= k < |Extract(anchors)| ensures FromFirstQualifying(anchors, Extract(anchors)[k]) {
      assert o[k] in o;
      assert FirstQualifying(anchors, o[k]);
    }
  }

  /** The links in the list are exactly the hrefs of the qualifying anchors. */
  lemma ExtractLinksAreQualifyingHrefs(anchors: seq<Anchor>)
    ensures Links(Extract(anchors)) == QualifyingHrefs(anchors)
  {
    LinksOfFirstOccurrences(Qualifying(anchors));
    LinksOfQualifying(anchors);
  }

  /** For a repeated href, the entry kept is that of the first qualifying anchor. */
  lemma ExtractKeepsFirst(anchors: seq<Anchor>, i: int, k: int)
    requires FirstQualifying(anchors, i)
    requires 0 <= k < |Extract(anchors)| && Extract(anchors)[k].link == anchors[i].href
    ensures Extract(anchors)[k] == ArticleOf(anchors[i])
  {
    ExtractFollowsOrigins(anchors);
    OriginsAreFirstQualifyingInOrder(anchors);
    var o := Origins(anchors);
    assert o[k] in o;
    FirstQualifyingUnique(anchors, i, o[k]);
  }

  /** Entries appear in the document order of the anchors they come from. */
  lemma ExtractInDocumentOrder(anchors: seq<Anchor>, k1: int, k2: int, i1: int, i2: int)
    requires 0 <= k1 < k2 < |Extract(anchors)|
    requires FirstQualifying(anchors, i1) && Extract(anchors)[k1].link == anchors[i1].href
    requires FirstQualifying(anchors, i2) && Extract(anchors)[k2].link == anchors[i2].href
    ensures i1 < i2
  {
    ExtractFollowsOrigins(anchors);
    OriginsAreFirstQualifyingInOrder(anchors);
    var o := Origins(anchors);
    assert o[k1] in o && o[k2] in o;
    FirstQualifyingUnique(anchors, i1, o[k1]);
    FirstQualifyingUnique(anchors, i2, o[k2]);
  }

  /** Filtering distributes over concatenation. */
  lemma {:induction false} QualifyingAppend(s: seq<Anchor>, t: seq<Anchor>)
    ensures Qualifying(s + t) == Qualifying(s) + Qualifying(t)
    decreases |t|
  {
    if t != [] {
      var n := |t| - 1;
      QualifyingAppend(s, t[..n]);
      assert (s + t)[..|s + t| - 1] == s + t[..n];
    } else {
      assert s + t == s;
    }
  }

  /** An anchor that does not mention "article" has no effect at all: in
      particular its href never shadows a later qualifying anchor. */
  lemma NonQualifyingAnchorIsIgnored(anchors: seq<Anchor>, i: int)
    requires 0 <= i < |anchors| && !IsArticleAnchor(anchors[i])
    ensures Extract(anchors) == Extract(anchors[..i] + anchors[i + 1..])
  {
    assert anchors == anchors[..i] + [anchors[i]] + anchors[i + 1..];
    QualifyingAppend(anchors[..i] + [anchors[i]], anchors[i + 1..]);
    QualifyingAppend(anchors[..i], [anchors[i]]);
    QualifyingAppend(anchors[..i], anchors[i + 1..]);
    assert [anchors[i]][..0] == [];
    assert Qualifying([anchors[i]]) == [];
    calc {
      Qualifying(anchors);
      Qualifying(anchors[..i] + [anchors[i]]) + Qualifying(anchors[i + 1..]);
      Qualifying(anchors[..i]) + Qualifying(anchors[i + 1..]);
      Qualifying(anchors[..i] + anchors[i + 1..]);
    }
  }

  /** The window of `html` starting at `i` is "article" in some letter case
      ("article", "Article", "ARTICLE", ...). */
  predicate KeywordAnyCaseAt(html: string, i: int) {
    0 <= i && i + |Keyword| <= |html| && Lower(html[i..i + |Keyword|]) == Keyword
  }

  /** The keyword test ignores letter case: an anchor qualifies exactly when
      some window of its HTML is "article" in some letter case. */
  lemma ArticleMatchIsCaseInsensitive(a: Anchor)
    ensures IsArticleAnchor(a) <==> exists i :: KeywordAnyCaseAt(a.html, i)
  {
    var h := a.html;
    var w := |Keyword|;
    ContainsIffOccurs(Lower(h), Keyword);
    if IsArticleAnchor(a) {
      var i :| OccursAt(Lower(h), Keyword, i);
      LowerSlice(h, i, i + w);
      assert KeywordAnyCaseAt(h, i);
    }
    if i :| KeywordAnyCaseAt(h, i) {
      LowerSlice(h, i, i + w);
      assert OccursAt(Lower(h), Keyword, i);
    }
  }
}
