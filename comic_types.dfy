/** The normalized record every scraper produces (src/scraping/types.ts). */
module ComicTypes {
  import opened Wrappers

  /**
   * A JavaScript number. Prices are whatever `normalizePrice` returns; that
   * helper is not part of this model, so prices are left uninterpreted.
   */
  type Number = real

  /** A `Date`, as milliseconds since the epoch. */
  type Instant = int

  /** The offer block: a price is always present, availability and old price may be missing. */
  datatype ProductOffer = ProductOffer(price: Number, isAvailable: Option<bool>, oldPrice: Option<Number>)

  /**
   * The key under which a record carries the time it was extracted. The
   * declared interface names it `lastSuccessfulUpdateAt`; the Comix scraper
   * writes `lastSuccessfulUpdate` instead, so both keys are representable.
   */
  datatype UpdateStamp = LastSuccessfulUpdateAt(at: Instant) | LastSuccessfulUpdate(at: Instant)

  /**
   * `ComicData`. `title`, `url`, `publisher`, `offer` and `synopsis` are
   * required; `imageUrl` is a required key whose value may be undefined;
   * every other attribute is optional.
   */
  datatype ComicData = ComicData(
    title: string,
    url: string,
    publisher: string,
    offer: ProductOffer,
    synopsis: string,
    imageUrl: Option<string>,
    pages: Option<nat>,
    isbn: Option<string>,
    isbn13: Option<string>,
    weight: Option<string>,
    dimensions: Option<string>,
    categories: Option<seq<string>>,
    tags: Option<seq<string>>,
    seriesType: Option<seq<string>>,
    coverType: Option<seq<string>>,
    color: Option<seq<string>>,
    authors: Option<seq<string>>,
    formats: Option<seq<string>>,
    languages: Option<seq<string>>,
    numberInSeries: Option<string>,
    year: Option<int>,
    stamp: UpdateStamp)

  /** The record carries the timestamp under the key the interface declares. */
  predicate HasDeclaredStamp(d: ComicData) {
    d.stamp.LastSuccessfulUpdateAt?
  }

  /** None of the attribute-table fields (`isbn`, `weight` … `year`) is set. */
  predicate NoTableAttributes(d: ComicData) {
    && d.isbn.None? && d.weight.None? && d.dimensions.None?
    && d.categories.None? && d.tags.None? && d.seriesType.None? && d.coverType.None?
    && d.color.None? && d.authors.None? && d.formats.None? && d.languages.None?
    && d.numberInSeries.None? && d.year.None?
  }

  /** A record with the required keys set and every optional attribute absent. */
  function BaseRecord(title: string, url: string, publisher: string, offer: ProductOffer,
                      synopsis: string, imageUrl: Option<string>, stamp: UpdateStamp): (d: ComicData)
    ensures d.title == title && d.url == url && d.publisher == publisher && d.offer == offer
    ensures d.synopsis == synopsis && d.imageUrl == imageUrl && d.stamp == stamp
    ensures d.pages.None? && d.isbn13.None? && NoTableAttributes(d)
  {
    ComicData(title, url, publisher, offer, synopsis, imageUrl,
              None, None, None, None, None, None, None, None, None, None, None, None, None, None, None,
              stamp)
  }
}
