/**
 * `extractUrlsFromSitemap` and `extractUrlsFromURLSet`
 * (src/scraping/sitemapXmlParser.ts) over the tree xml2js builds for a
 * sitemap index ("sitemapindex/sitemap/loc") or a URL set ("urlset/url/loc"),
 * the two document shapes of the Sitemap protocol 0.9.
 */
module SitemapXml {
  import opened Wrappers

  /** A `<sitemap>` or `<url>` entry; its other children (lastmod, changefreq, priority) are not read. */
  datatype Entry = Entry(loc: string)

  /**
   * The parsed document, by its root element. A root without any entry
   * child has no entry list at all (None), as the parser omits the key.
   */
  datatype Document =
    | SitemapIndex(sitemap: Option<seq<Entry>>)
    | UrlSet(url: Option<seq<Entry>>)
    | OtherRoot(name: string)

  /** Why a call rejects: the parser's error, or the TypeError of reading a missing key. */
  datatype Failure = ParseError(message: string) | TypeError

  /** `entries.map(({ loc }) => loc)`. */
  function Locs(entries: seq<Entry>): (r: seq<string>)
    ensures |r| == |entries|
    ensures forall i :: 0 <= i < |entries| ==> r[i] == entries[i].loc
  {
    if entries == [] then [] else [entries[0].loc] + Locs(entries[1..])
  }

  /**
   * `extractUrlsFromSitemap(xml)` with the parser passed in: the empty
   * string gives [] without parsing; otherwise the document must be a
   * sitemap index with entries, whose locations come back in order.
   */
  function ExtractUrlsFromSitemap(xml: string, parse: string -> Result<Document, string>): (r: Result<seq<string>, Failure>)
    ensures xml == "" ==> r == Ok([])
    ensures xml != "" && parse(xml).Err? ==> r == Err(ParseError(parse(xml).error))
    ensures xml != "" && parse(xml).Ok? ==>
              match parse(xml).value
              case SitemapIndex(Some(entries)) => r.Ok? && |r.value| == |entries| &&
                                                 forall i :: 0 <= i < |entries| ==> r.value[i] == entries[i].loc
              case _ => r == Err(TypeError)
  {
    if xml == "" then Ok([])
    else
      match parse(xml)
      case Err(e) => Err(ParseError(e))
      case Ok(SitemapIndex(Some(entries))) => Ok(Locs(entries))
      case Ok(_) => Err(TypeError)
  }

  /**
   * `extractUrlsFromURLSet(xml)` with the parser passed in: the empty string
   * gives [] without parsing; otherwise the document must be a URL set with
   * entries, whose locations come back in order.
   */
  function ExtractUrlsFromUrlSet(xml: string, parse: string -> Result<Document, string>): (r: Result<seq<string>, Failure>)
    ensures xml == "" ==> r == Ok([])
    ensures xml != "" && parse(xml).Err? ==> r == Err(ParseError(parse(xml).error))
    ensures xml != "" && parse(xml).Ok? ==>
              match parse(xml).value
              case UrlSet(Some(entries)) => r.Ok? && |r.value| == |entries| &&
                                           forall i :: 0 <= i < |entries| ==> r.value[i] == entries[i].loc
              case _ => r == Err(TypeError)
  {
    if xml == "" then Ok([])
    else
      match parse(xml)
      case Err(e) => Err(ParseError(e))
      case Ok(UrlSet(Some(entries))) => Ok(Locs(entries))
      case Ok(_) => Err(TypeError)
  }

  /** Listing the entries of two documents back to back lists their locations back to back. */
  lemma {:induction false} LocsAppend(a: seq<Entry>, b: seq<Entry>)
    ensures Locs(a + b) == Locs(a) + Locs(b)
  {
    if a == [] {
      assert a + b == b;
    } else {
      assert (a + b)[1..] == a[1..] + b;
      LocsAppend(a[1..], b);
    }
  }

  /** Only the empty string is short-circuited: any other text, white space included, goes to the parser. */
  lemma OnlyEmptyInputSkipsParser(xml: string, p1: string -> Result<Document, string>, p2: string -> Result<Document, string>)
    requires xml != "" && p1(xml) != p2(xml)
    requires p1(xml).Err? || p2(xml).Err?
    ensures ExtractUrlsFromSitemap(xml, p1) != ExtractUrlsFromSitemap(xml, p2)
    ensures ExtractUrlsFromUrlSet(xml, p1) != ExtractUrlsFromUrlSet(xml, p2)
  {
  }

  /** A sitemap index is not a URL set: each function rejects the other's document. */
  lemma WrongRootRejected(xml: string, parse: string -> Result<Document, string>)
    requires xml != "" && parse(xml).Ok?
    ensures parse(xml).value.UrlSet? ==> ExtractUrlsFromSitemap(xml, parse) == Err(TypeError)
    ensures parse(xml).value.SitemapIndex? ==> ExtractUrlsFromUrlSet(xml, parse) == Err(TypeError)
  {
  }
}
