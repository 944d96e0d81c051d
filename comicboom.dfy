/** The ComicBoom scraper (src/scraping/scrapers/comicboom.ts). */
module ComicBoomScraper {
  import opened Wrappers
  import opened JsText
  import opened Extraction
  import opened ComicTypes

  /**
   * What cheerio returns for each selector the scraper queries, before
   * trimming: the `.text()` of the selections, the `src` attribute of the
   * cover image, and how many elements carry both `stock` and `in-stock`.
   */
  datatype Selection = Selection(
    editorText: string,       // a[id^="editor"], first
    isbnRowText: string,      // .shop_attributes tr:contains("ISBN"), first
    titleText: string,        // h1.product-title
    priceText: string,        // .product-info ins .woocommerce-Price-amount.amount
    pagesRowText: string,     // .shop_attributes tr:contains("Páginas"), first
    oldPriceText: string,     // .product-info del .woocommerce-Price-amount.amount
    descriptionText: string,  // #bookDescription_feature_div, first
    imageSrc: Option<string>, // img.wp-post-image, attribute src
    inStockCount: nat)        // .stock.in-stock, length

  /** The publisher: the trimmed anchor text, rewritten by the colon/semicolon pattern, trimmed again. */
  function Publisher(sel: Selection): (r: string)
    ensures |r| <= |sel.editorText|
    ensures r == [] || (!IsTrimmable(r[0]) && !IsTrimmable(r[|r| - 1]))
  {
    Trim(RewritePublisher(Trim(sel.editorText)))
  }

  /**
   * `ComicBoom.scrape` on the page's selector results, with `normalizePrice`
   * and the clock (`new Date()`) passed in.
   */
  function Scrape(url: string, sel: Selection, normalizePrice: string -> Number, now: Instant): (r: ComicData)
    ensures r.url == url && r.title == Trim(sel.titleText) && r.imageUrl == sel.imageSrc
    ensures r.offer.price == normalizePrice(Trim(sel.priceText))
    ensures r.offer.oldPrice == Some(normalizePrice(Trim(sel.oldPriceText)))
    ensures r.offer.isAvailable == Some(sel.inStockCount > 0)
    ensures r.publisher == Publisher(sel)
    ensures r.pages.Some? ==> r.pages.value > 0
    ensures r.pages == PageCount(Trim(sel.pagesRowText))
    ensures r.isbn13 == Some(Isbn13(Trim(sel.isbnRowText)))
    ensures r.synopsis == StripCurlyQuotes(Trim(sel.descriptionText))
    ensures r.isbn13.Some? && (r.isbn13.value == "" || |r.isbn13.value| == IsbnLength)
    ensures forall k :: 0 <= k < |r.isbn13.value| ==> IsAsciiDigit(r.isbn13.value[k])
    ensures forall k :: 0 <= k < |r.synopsis| ==> !IsCurlyQuote(r.synopsis[k])
    ensures r.stamp == LastSuccessfulUpdateAt(now) && NoTableAttributes(r)
  {
    var offer := ProductOffer(normalizePrice(Trim(sel.priceText)),
                              Some(sel.inStockCount > 0),
                              Some(normalizePrice(Trim(sel.oldPriceText))));
    BaseRecord(Trim(sel.titleText), url, Publisher(sel), offer,
               StripCurlyQuotes(Trim(sel.descriptionText)), sel.imageSrc,
               LastSuccessfulUpdateAt(now))
      .(pages := PageCount(Trim(sel.pagesRowText)),
        isbn13 := Some(Isbn13(Trim(sel.isbnRowText))))
  }

  /**
   * A one-line editor text "label: name; rest" gives the trimmed text between
   * its first colon and the first semicolon after it.
   */
  lemma PublisherBetweenColonAndSemicolon(url: string, sel: Selection, normalizePrice: string -> Number, now: Instant,
                                          c: nat, q: nat)
    requires var t := Trim(sel.editorText);
             && NoLineTerminator(t, 0, |t|)
             && c < q < |t| && t[c] == ':' && t[q] == ';'
             && (forall k :: 0 <= k < c ==> t[k] != ':')
             && NoSemicolon(t, c + 1, q)
    ensures Scrape(url, sel, normalizePrice, now).publisher == Trim(Trim(sel.editorText)[c + 1..q])
  {
    RewritePublisherSingleLine(Trim(sel.editorText), c, q);
  }

  /** Without a colon followed by a semicolon, the publisher is the trimmed editor text itself. */
  lemma PublisherUnchangedWithoutPattern(url: string, sel: Selection, normalizePrice: string -> Number, now: Instant)
    requires var t := Trim(sel.editorText);
             forall i, j :: 0 <= i < j < |t| && t[i] == ':' ==> t[j] != ';'
    ensures Scrape(url, sel, normalizePrice, now).publisher == Trim(sel.editorText)
  {
    RewritePublisherNoColonSemicolon(Trim(sel.editorText));
    TrimIdempotent(sel.editorText);
  }

  /** The ISBN is the leftmost thirteen consecutive digits of the ISBN row. */
  lemma IsbnIsLeftmostWindow(url: string, sel: Selection, normalizePrice: string -> Number, now: Instant, i: nat)
    requires IsbnWindow(Trim(sel.isbnRowText), i)
    requires forall k: nat :: k < i ==> !IsbnWindow(Trim(sel.isbnRowText), k)
    ensures Scrape(url, sel, normalizePrice, now).isbn13 == Some(Trim(sel.isbnRowText)[i..i + IsbnLength])
  {
    Isbn13Leftmost(Trim(sel.isbnRowText), i);
  }

  /** The ISBN is empty exactly when the ISBN row holds no thirteen consecutive digits. */
  lemma IsbnEmptyWithoutWindow(url: string, sel: Selection, normalizePrice: string -> Number, now: Instant)
    ensures Scrape(url, sel, normalizePrice, now).isbn13 == Some("") <==> forall k :: !IsbnWindow(Trim(sel.isbnRowText), k)
  {
    Isbn13Empty(Trim(sel.isbnRowText));
  }

  /** The page count is missing exactly when the row has no digit or its first digit run is all zeros. */
  lemma PagesAbsentExactly(url: string, sel: Selection, normalizePrice: string -> Number, now: Instant)
    ensures Scrape(url, sel, normalizePrice, now).pages.None? <==> NoPositiveRun(Trim(sel.pagesRowText))
  {
    PageCountAbsent(Trim(sel.pagesRowText));
  }

  /**
   * The synopsis is the trimmed description with the curly quotes removed
   * and every other character kept in order.
   */
  lemma SynopsisKeepsOtherCharacters(url: string, sel: Selection, normalizePrice: string -> Number, now: Instant,
                                     a: string, b: string)
    requires Trim(sel.descriptionText) == a + b
    ensures Scrape(url, sel, normalizePrice, now).synopsis == StripCurlyQuotes(a) + StripCurlyQuotes(b)
  {
    StripCurlyQuotesAppend(a, b);
  }
}
