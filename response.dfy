/** The end of the `/scrape` handler (web-scraping-api/app.py, `scrape()`):
    the `type` query parameter picks which view of the extracted entries is
    returned as the JSON body. */
module Response {
  import opened Extraction

  datatype Option<T> = None | Some(value: T)

  /** The JSON body: a list of titles, a list of links, or the full entries. */
  datatype Body =
    | TitleList(titles: seq<string>)
    | LinkList(links: seq<string>)
    | ArticleList(articles: seq<Article>)

  /** `request.args.get('type', default='all')`; Flask plumbing is not
      modelled, the parameter arrives as an optional string. */
  function ResponseType(param: Option<string>): string {
    match param
    case None => "all"
    case Some(t) => t
  }

  /** `[article['title'] for article in articles]` */
  function TitlesOf(articles: seq<Article>): seq<string> {
    seq(|articles|, k requires 0 <= k < |articles| => articles[k].title)
  }

  /** `[article['link'] for article in articles]` */
  function LinksOf(articles: seq<Article>): seq<string> {
    seq(|articles|, k requires 0 <= k < |articles| => articles[k].link)
  }

  /** Pairs titles with links position by position, rebuilding entries. */
  function Zip(titles: seq<string>, links: seq<string>): (r: seq<Article>)
    requires |titles| == |links|
    ensures |r| == |titles|
  {
    seq(|titles|, k requires 0 <= k < |titles| => Article(titles[k], links[k]))
  }

  /** The `if response_type == 'titles' ... elif ... 'links' ... else` choice. */
  function Respond(articles: seq<Article>, responseType: string): (body: Body)
    ensures body.TitleList? <==> responseType == "titles"
    ensures body.LinkList? <==> responseType == "links"
    ensures body.TitleList? ==>
              |body.titles| == |articles| && forall k :: 0 <= k < |articles| ==> body.titles[k] == articles[k].title
    ensures body.LinkList? ==>
              |body.links| == |articles| && forall k :: 0 <= k < |articles| ==> body.links[k] == articles[k].link
    ensures body.ArticleList? ==> body.articles == articles
  {
    if responseType == "titles" then TitleList(TitlesOf(articles))
    else if responseType == "links" then LinkList(LinksOf(articles))
    else ArticleList(articles)
  }

  /** The two projections together lose nothing: zipping the titles view with
      the links view gives back the full list. */
  lemma ProjectionsLoseNothing(articles: seq<Article>)
    ensures |Respond(articles, "titles").titles| == |Respond(articles, "links").links|
    ensures Zip(Respond(articles, "titles").titles, Respond(articles, "links").links) == articles
  {
    var z := Zip(TitlesOf(articles), LinksOf(articles));
    assert forall k :: 0 <= k < |articles| ==> z[k] == articles[k];
  }

  /** The handler from the anchors on: run the extraction loop, then project. */
  method Scrape(anchors: seq<Anchor>, typeParam: Option<string>) returns (body: Body)
    ensures body == Respond(Extract(anchors), ResponseType(typeParam))
    ensures typeParam.None? ==> body == ArticleList(Extract(anchors))
    ensures body.LinkList? ==>
              && (forall k1, k2 :: 0 <= k1 < k2 < |body.links| ==> body.links[k1] != body.links[k2])
              && (set h | h in body.links) == QualifyingHrefs(anchors)
  {
    var articles := ScrapeArticles(anchors);
    ExtractLinksDistinct(anchors);
    ExtractLinksAreQualifyingHrefs(anchors);
    body := Respond(articles, ResponseType(typeParam));
    if body.LinkList? {
      assert (set h | h in body.links) == Links(articles) by {
        forall h | h in Links(articles) ensures h in body.links {
          var k :| 0 <= k < |articles| && articles[k].link == h;
          assert body.links[k] == h;
        }
      }
    }
  }
}
