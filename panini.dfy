/** The Panini scraper (src/scraping/scrapers/panini.ts). */
module PaniniScraper {
  import opened Wrappers
  import opened JsText
  import opened Extraction
  import opened ComicTypes

  /** What cheerio returns for each selector the scraper queries, before trimming. */
  datatype Selection = Selection(
    titleText: string,             // h1.page-title
    priceText: string,             // .special-price .price,.price-container .price, first
    pagesCellText: string,         // [data-th="Quantidade de páginas"], first
    oldPriceText: string,          // .old-price .price
    overviewText: string,          // .product.overview, first
    ogImage: Option<string>,       // meta[property="og:image"], attribute content
    addToCartCount: nat)           // #product-addtocart-button, length

  /** The publisher constant of the scraper. */
  const PaniniPublisher: string := "Panini"

  /** The colon/semicolon rewrite and the trim leave the constant publisher as it is. */
  lemma PublisherConstantUnchanged()
    ensures Trim(RewritePublisher(PaniniPublisher)) == PaniniPublisher
  {
    var s := PaniniPublisher;
    forall i | 0 <= i < |s| ensures s[i] != ':' {
      assert s[i] in "Panini";
    }
    RewritePublisherNoColonSemicolon(s);
    assert !IsTrimmable(s[0]) && !IsTrimmable(s[|s| - 1]);
    TrimKeepsUntrimmedEnds(s);
  }

  /**
   * `Panini.scrape` on the page's selector results, with `normalizePrice`
   * and the clock passed in. The publisher is always "Panini" and the ISBN
   * always empty.
   */
  function Scrape(url: string, sel: Selection, normalizePrice: string -> Number, now: Instant): (r: ComicData)
    ensures r.url == url && r.title == Trim(sel.titleText) && r.imageUrl == sel.ogImage
    ensures r.publisher == PaniniPublisher && r.isbn13 == Some("")
    ensures r.offer.price == normalizePrice(Trim(sel.priceText))
    ensures r.offer.oldPrice == Some(normalizePrice(Trim(sel.oldPriceText)))
    ensures r.offer.isAvailable == Some(sel.addToCartCount > 0)
    ensures r.pages.Some? ==> r.pages.value > 0
    ensures r.pages == PageCount(Trim(sel.pagesCellText))
    ensures r.synopsis == StripCurlyQuotes(Trim(sel.overviewText))
    ensures forall k :: 0 <= k < |r.synopsis| ==> !IsCurlyQuote(r.synopsis[k])
    ensures r.stamp == LastSuccessfulUpdateAt(now) && NoTableAttributes(r)
  {
    PublisherConstantUnchanged();
    var offer := ProductOffer(normalizePrice(Trim(sel.priceText)),
                              Some(sel.addToCartCount > 0),
                              Some(normalizePrice(Trim(sel.oldPriceText))));
    BaseRecord(Trim(sel.titleText), url, Trim(RewritePublisher(PaniniPublisher)), offer,
               StripCurlyQuotes(Trim(sel.overviewText)), sel.ogImage,
               LastSuccessfulUpdateAt(now))
      .(pages := PageCount(Trim(sel.pagesCellText)),
        isbn13 := Some(""))
  }

  /** The page count follows the same rule as ComicBoom's: missing exactly when no positive first digit run. */
  lemma PagesAbsentExactly(url: string, sel: Selection, normalizePrice: string -> Number, now: Instant)
    ensures Scrape(url, sel, normalizePrice, now).pages.None? <==> NoPositiveRun(Trim(sel.pagesCellText))
  {
    PageCountAbsent(Trim(sel.pagesCellText));
  }

  /**
   * The synopsis is the trimmed overview with the curly quotes removed
   * and every other character kept in order.
   */
  lemma SynopsisKeepsOtherCharacters(url: string, sel: Selection, normalizePrice: string -> Number, now: Instant,
                                     a: string, b: string)
    requires Trim(sel.overviewText) == a + b
    ensures Scrape(url, sel, normalizePrice, now).synopsis == StripCurlyQuotes(a) + StripCurlyQuotes(b)
  {
    StripCurlyQuotesAppend(a, b);
  }
}
