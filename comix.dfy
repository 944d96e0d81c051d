/** The Comix scraper (src/scraping/scrapers/comix.ts). */
module ComixScraper {
  import opened Wrappers
  import opened JsText
  import opened ComicTypes

  /** What cheerio returns for each selector the scraper queries, before trimming. */
  datatype Selection = Selection(
    titleText: string,              // h1.page-title
    editoraText: string,            // div.info-produto a:contains("Editora")
    specialPriceText: string,       // .special-price .price
    descriptionText: string,        // .product.attribute.description p, first
    galleryImageSrc: Option<string>) // img.gallery-placeholder__image, attribute src

  /**
   * `Comix.scrape` on the page's selector results, with `normalizePrice` and
   * the clock passed in. The offer is always available and has no old price;
   * the publisher and synopsis are only trimmed; the record has no pages or
   * ISBN and carries its time under `lastSuccessfulUpdate`.
   */
  function Scrape(url: string, sel: Selection, normalizePrice: string -> Number, now: Instant): (r: ComicData)
    ensures r.url == url && r.title == Trim(sel.titleText) && r.imageUrl == sel.galleryImageSrc
    ensures r.offer == ProductOffer(normalizePrice(Trim(sel.specialPriceText)), Some(true), None)
    ensures r.publisher == Trim(sel.editoraText) && r.synopsis == Trim(sel.descriptionText)
    ensures r.pages.None? && r.isbn13.None? && NoTableAttributes(r)
    ensures r.stamp == LastSuccessfulUpdate(now) && !HasDeclaredStamp(r)
  {
    var price := normalizePrice(Trim(sel.specialPriceText));
    BaseRecord(Trim(sel.titleText), url, Trim(sel.editoraText), ProductOffer(price, Some(true), None),
               Trim(sel.descriptionText), sel.galleryImageSrc, LastSuccessfulUpdate(now))
  }

  /** Availability does not depend on the page: two pages give the same flag. */
  lemma AvailableRegardlessOfMarkup(url: string, a: Selection, b: Selection, normalizePrice: string -> Number, now: Instant)
    ensures Scrape(url, a, normalizePrice, now).offer.isAvailable == Scrape(url, b, normalizePrice, now).offer.isAvailable == Some(true)
  {
  }
}
