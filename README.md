# Article extraction of the `/scrape` handler, in Dafny

This project models the core of the first version of a small web-scraping
service, `web-scraping-api/app.py`. Its one HTTP handler, `scrape()`, fetches
a page and walks the page's `<a href=...>` anchors in document order. It keeps
an anchor only if the lower-cased serialised tag contains `"article"`. It then
keeps one entry `{title, link}` per distinct `href`: the first one seen. The
`type` query parameter decides what is returned: the titles, the links, or
the full entries.

The model has three modules:

- `Text` (`text.dfy`) stands in for the two Python string operations the
  handler uses. `Lower` is ASCII lower-casing for `str.lower()`. `Contains`
  is the substring test `needle in haystack`. It is proved equal to "some
  start position carries the needle".
- `Extraction` (`extraction.dfy`) holds the anchor record and the entry
  record. It has a functional specification of the loop: `Qualifying`
  filters the anchors and `FirstOccurrences` keeps the first entry per link,
  giving `Extract`. `ScrapeArticles` is the loop itself, an imperative
  method with the `articles` list and the `seen_links` set. It is proved to
  compute `Extract`. `Origins` is an independent description of the result:
  the positions of the first qualifying anchor of each href, in increasing
  order. `ExtractFollowsOrigins` ties the two together. The listed guarantees
  follow from it: distinct links, entries from qualifying anchors, every
  qualifying href present, first one wins, document order.
- `Response` (`response.dfy`) models the projection by `type` (`Respond`)
  and the handler from the anchor list onwards (`Scrape`).

An anchor is the record `Anchor(html, text, href)`. `html` is `str(link)`,
`text` is `link.get_text(strip=True)` and `href` is `link['href']`. These
are the three values the handler reads from a parsed anchor. The anchor list
is what `soup.find_all('a', href=True)` yields, in document order.

Later iterations of the service add keyword AND/OR logic, internal-link
classification, image lookup, title truncation and `400`/`404` error bodies.
None of these is in `web-scraping-api/app.py`, so none is modelled. In this
code the keyword is the fixed string `"article"`. It is matched against the
whole serialised tag, attributes included, not only the anchor text or URL.
Links are the raw `href` values, not resolved to absolute URLs.

## Model

| member | source | states |
|---|---|---|
| `Text.LowerChar` | web-scraping-api/app.py:38 | the lower-cased character is never an ASCII capital; a capital moves to its small letter and every other character is unchanged |
| `Text.ContainsIffOccurs` | web-scraping-api/app.py:38 | the substring test `"article" in s` holds exactly when `"article"` occurs in `s` at some start position |
| `Extraction.ArticleMatchIsCaseInsensitive` | web-scraping-api/app.py:35-38 | an anchor qualifies exactly when some window of its serialised HTML reads "article" in some letter case ("Article", "ARTICLE", ...) |
| `Extraction.ScrapeArticles` | web-scraping-api/app.py:32-48 | the loop over anchors with its `articles` list and `seen_links` set returns exactly the qualifying entries with each link kept at its first occurrence; its invariant keeps `seen_links` equal to the set of links in `articles` |
| `Extraction.LinksOfFirstOccurrences` | web-scraping-api/app.py:43-48 | dropping later duplicates loses no link and adds none, so the seen set stays the set of links of every qualifying entry so far |
| `Extraction.LinksOfQualifying` | web-scraping-api/app.py:38-40 | the links of the qualifying entries are exactly the hrefs of the anchors whose HTML mentions "article" |
| `Extraction.OriginsAreFirstQualifyingInOrder` | web-scraping-api/app.py:34-48 | the reference list of kept positions is strictly increasing and holds a position exactly when that anchor qualifies and no earlier qualifying anchor has its href |
| `Extraction.ExtractFollowsOrigins` | web-scraping-api/app.py:32-48 | the extracted list has one entry per kept position, in that order, and entry k is the stripped text and raw href of the anchor at kept position k |
| `Extraction.ExtractLinksDistinct` | web-scraping-api/app.py:43-48 | no two entries of `articles` share a link |
| `Extraction.ExtractEntriesComeFromFirstQualifying` | web-scraping-api/app.py:35-47 | every entry's title is the stripped text and its link the raw href of a qualifying anchor, the first qualifying anchor with that href |
| `Extraction.ExtractLinksAreQualifyingHrefs` | web-scraping-api/app.py:38-48 | the set of links in `articles` equals the set of hrefs of qualifying anchors: sound and complete |
| `Extraction.ExtractKeepsFirst` | web-scraping-api/app.py:43-48 | for a repeated href, the entry kept is the one built from the first qualifying anchor; later duplicates are dropped |
| `Extraction.ExtractInDocumentOrder` | web-scraping-api/app.py:34 | an earlier entry comes from an earlier anchor than a later entry |
| `Extraction.QualifyingAppend` | web-scraping-api/app.py:34-38 | filtering a concatenation of anchor lists is the concatenation of the filtered lists |
| `Extraction.NonQualifyingAnchorIsIgnored` | web-scraping-api/app.py:38-48 | removing an anchor that does not mention "article" leaves the result unchanged, so such an anchor never marks its href as seen |
| `Response.Respond` | web-scraping-api/app.py:53-58 | `"titles"` gives exactly the titles and `"links"` exactly the links, each with the length and order of `articles`; any other value returns `articles` unchanged |
| `Response.ProjectionsLoseNothing` | web-scraping-api/app.py:53-56 | the titles view and the links view have equal length, and pairing them position by position rebuilds the full list |
| `Response.Scrape` | web-scraping-api/app.py:32-58 | the handler returns the chosen view of the extracted list; with no `type` parameter the view is the full list (default `'all'`); a links view has no repeated link and holds exactly the qualifying hrefs |

## Left out

- Fetching the page (`fetch_html` and the `headers` dict): network I/O. The model starts from the anchor list of the fetched page. A missing `url` parameter therefore fails inside the fetch, which is outside the model.
- HTML parsing by BeautifulSoup: `find_all('a', href=True)`, `str(link)` and `get_text(strip=True)` are a foreign library. Their results are the fields of `Anchor`, and the anchor list is assumed to be in document order.
- Flask routing, `request.args`, `jsonify`, CORS and `app.run`: framework plumbing. The `type` parameter is an `Option<string>`, and the JSON body is the `Body` datatype.
- `Text.LowerChar`: folds only ASCII capitals, where Python's `str.lower()` folds all of Unicode. The non-ASCII characters that lower to ASCII letters (KELVIN SIGN to `k`; `İ` to `i` followed by a combining dot) cannot complete the keyword `"article"`, so the keyword test should agree, but the model does not prove this.
