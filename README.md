# comics-database: scraping, sitemap, query-string and Airtable core in Dafny

This project models the core of comics-database, a service that collects
product data about Brazilian comic books from three online shops and keeps
video records in Airtable:

- **Dispatch** (`scrapeComicsData`). It fetches a product page with a fixed
  browser User-Agent and an optional Cookie, parses the URL's hostname, and
  looks it up in a table of three registered hostnames. It then runs that
  shop's scraper on the page body after non-ASCII noise has been removed.
  A fetch error, an unparsable URL and an unknown hostname each reject.
  The unknown hostname rejects with the plain string
  `Handler not found for <url>`. The table is a plain object, so the
  hostnames `constructor` and `__proto__` find inherited `Object.prototype`
  members instead, and calling their `scrape` rejects with a TypeError.
  A host ending in a number is read as an IPv4 address and written back in
  dotted decimal (sections 3.5 and 3.6 of the WHATWG URL Standard).
- **Scrapers** (ComicBoom, Panini, Comix). Each turns its selector results
  into a `ComicData` record, with trimming and with normalised prices.
  ComicBoom and Panini also:
  - rewrite the publisher with the pattern `/.*?:([^;]*);.*/`, using full
    JavaScript regular-expression semantics (leftmost match, lazy first
    group, greedy tail, `.` stopping at line terminators);
  - read the page count from the first decimal digit run, where a value of
    0 becomes absent;
  - strip curly double quotes from the synopsis.

  ComicBoom takes the ISBN-13 as the first run of thirteen digits, or `""`.
  Panini's ISBN is always `""`.

  Comix always reports the offer as available. Comix also stamps its record
  under the key `lastSuccessfulUpdate`, not the declared
  `lastSuccessfulUpdateAt`.
- **Sitemap projection**. It maps a parsed sitemap index or URL set to its
  `loc` strings. The empty string skips the parser. A document of the
  wrong shape rejects with a TypeError.
- **`paramsToUrl`**. It drops the undefined parameters and serialises the
  rest as `application/x-www-form-urlencoded`, following the serializer
  of section 5.2 of the WHATWG URL Standard. The bytes are UTF-8 as
  RFC 3629 defines them. A parser (section 5.1) and a UTF-8 decoder are
  modelled as partners, and `Parse(Serialize(pairs)) == pairs` is proved.
- **Airtable client**. It covers `insert`, `select`, `update` and `upsert`
  over one table, modelled as a class whose `rows` field the methods update.
  The remote store's answers are modelled by the table itself. A store
  rejection is a `fault` argument.

Files:
- `wrappers.dfy`: Option and Result.
- `js_text.dfy`: JavaScript `trim`, line terminators and decimal digit strings.
- `extraction.dfy`: the regular-expression post-processing.
- `comic_types.dfy`: the record.
- `comicboom.dfy`, `panini.dfy`, `comix.dfy`: the scrapers.
- `url_host.dfy`: hostname parsing.
- `ipv4.dfy`: the IPv4 host parser and serializer.
- `scraping.dfy`: the dispatch.
- `sitemap.dfy`: the sitemap projection.
- `utf8.dfy`, `form_urlencoded.dfy`, `utils.dfy`: the query string.
- `airtable.dfy`: the Airtable client.

## Model

| member | source | states |
|---|---|---|
| JsText.Trim | src/scraping/scrapers/comicboom.ts:12 | The result is no longer than the input and neither starts nor ends with JavaScript white space or a line terminator. |
| JsText.TrimIsMiddle | src/scraping/scrapers/comicboom.ts:12-18 | `trim` returns a contiguous middle slice of its input. Everything cut from either end is JavaScript white space or a line terminator. The result neither starts nor ends with one. |
| JsText.TrimIdempotent | src/scraping/scrapers/comicboom.ts:24 | Trimming an already trimmed text changes nothing. |
| Extraction.RewritePublisher | src/scraping/scrapers/comicboom.ts:24 | Without a match the text is returned as it is. With one, the result is the text before the reported match, then the first group, then the text after it. It is never longer than the input. |
| Extraction.MatchAtCorrect | src/scraping/scrapers/comicboom.ts:24 | From a start position, the computed match is a match of `.*?:([^;]*);.*`. Its colon is the earliest possible and its end the furthest possible. When none is found, no match starts there. |
| Extraction.FirstMatchFromCorrect | src/scraping/scrapers/comicboom.ts:24 | The match the scan reports starts leftmost, and among matches at that start it has the lazy colon and the greedy end. No match is missed. |
| Extraction.ReportedMatchUnique | src/scraping/scrapers/comicboom.ts:24 | The leftmost/lazy/greedy rule picks at most one match. |
| Extraction.RewritePublisherOnMatch | src/scraping/scrapers/comicboom.ts:24 | `replace` keeps the text before and after the reported match. It swaps the match for its first group (between the colon and the semicolon). |
| Extraction.RewritePublisherNoMatch | src/scraping/scrapers/comicboom.ts:24 | Text the pattern does not match is returned unchanged. |
| Extraction.RewritePublisherMatchesSomewhere | src/scraping/scrapers/comicboom.ts:24 | The scan finds a match if and only if the pattern matches somewhere. What it finds is the reported match. |
| Extraction.RewritePublisherSingleLine | src/scraping/scrapers/comicboom.ts:24 | On one line with a first colon and a later semicolon, the result is exactly the text between the colon and the first semicolon after it. |
| Extraction.RewritePublisherNoColonSemicolon | src/scraping/scrapers/comicboom.ts:24 | A text with no semicolon after a colon is left as it is. |
| Extraction.FirstDigitRun | src/scraping/scrapers/comicboom.ts:31 | There is no match exactly when the text has no ASCII digit. A match is a non-empty run of ASCII digits. |
| Extraction.FirstDigitRunNone | src/scraping/scrapers/comicboom.ts:31 | `match(/\d+/)` fails if and only if the text has no ASCII digit. |
| Extraction.FirstDigitRunIs | src/scraping/scrapers/comicboom.ts:31 | The match is the first maximal run of ASCII digits. |
| JsText.DecimalValueZero | src/scraping/scrapers/comicboom.ts:31 | A digit string converts to 0 if and only if every digit is `0`. |
| JsText.DecimalValueSnoc | src/scraping/scrapers/comicboom.ts:31 | Appending a digit multiplies the value by ten and adds that digit. |
| Extraction.PageCount | src/scraping/scrapers/comicboom.ts:31 | A page count, when present, is positive (`\|\| undefined` drops 0). |
| Extraction.PageCountAbsent | src/scraping/scrapers/comicboom.ts:31 | The page count is absent if and only if the text has no digit or its first digit run is all zeros. |
| Extraction.PageCountOfRun | src/scraping/scrapers/comicboom.ts:31 | A positive first digit run gives its decimal value as the page count. |
| Extraction.Isbn13 | src/scraping/scrapers/comicboom.ts:33 | The ISBN is either `""` or exactly thirteen ASCII digits. |
| Extraction.Isbn13Empty | src/scraping/scrapers/comicboom.ts:33 | The ISBN is `""` if and only if no thirteen consecutive digits occur. |
| Extraction.Isbn13Leftmost | src/scraping/scrapers/comicboom.ts:33 | Otherwise it is the leftmost window of thirteen digits. |
| Extraction.StripCurlyQuotes | src/scraping/scrapers/comicboom.ts:32 | The synopsis contains no U+201C or U+201D and is no longer than its input. A quote-free text is unchanged. |
| Extraction.StripCurlyQuotesChar | src/scraping/scrapers/comicboom.ts:32 | A single character is deleted when it is U+201C or U+201D and kept otherwise. |
| Extraction.StripCurlyQuotesLength | src/scraping/scrapers/comicboom.ts:32 | The result is shorter than the input by exactly the number of curly quotes in it. |
| Extraction.StripCurlyQuotesAppend | src/scraping/scrapers/comicboom.ts:32 | The global replace works piecewise, so every other character is kept in order. |
| Extraction.StripCurlyQuotesIdempotent | src/scraping/scrapers/comicboom.ts:32 | Stripping twice is stripping once. |
| ComicTypes.BaseRecord | src/scraping/types.ts:7-30 | A record has its required keys set as given and every optional attribute absent. |
| ComicBoomScraper.Scrape | src/scraping/scrapers/comicboom.ts:9-36 | The record has the page URL and the trimmed title. The prices come from `normalizePrice` on the trimmed texts. The offer is available if and only if an in-stock element exists. The publisher is `Publisher` of the editor text. The page count is `PageCount` of the trimmed pages row, so it is positive when present. The ISBN is `Isbn13` of the trimmed ISBN row, so it is `""` or thirteen digits. The synopsis is the trimmed description with the curly quotes stripped. The stamp is the declared key. |
| ComicBoomScraper.Publisher | src/scraping/scrapers/comicboom.ts:12-24 | The publisher is no longer than the editor text and has no white space at either end. |
| ComicBoomScraper.PublisherBetweenColonAndSemicolon | src/scraping/scrapers/comicboom.ts:12-24 | An editor text `label: name; rest` gives the publisher `name`, trimmed. |
| ComicBoomScraper.PublisherUnchangedWithoutPattern | src/scraping/scrapers/comicboom.ts:12-24 | Without a colon followed by a semicolon, the publisher is the trimmed anchor text. |
| ComicBoomScraper.IsbnIsLeftmostWindow | src/scraping/scrapers/comicboom.ts:13-33 | The ISBN is the leftmost thirteen-digit window of the trimmed ISBN row. |
| ComicBoomScraper.IsbnEmptyWithoutWindow | src/scraping/scrapers/comicboom.ts:13-33 | The ISBN is `""` exactly when the trimmed ISBN row holds no thirteen consecutive digits. |
| ComicBoomScraper.PagesAbsentExactly | src/scraping/scrapers/comicboom.ts:16-31 | The page count is missing exactly when the pages row has no positive first digit run. |
| ComicBoomScraper.SynopsisKeepsOtherCharacters | src/scraping/scrapers/comicboom.ts:18-32 | The synopsis is the trimmed description, minus only the curly quotes. |
| PaniniScraper.PublisherConstantUnchanged | src/scraping/scrapers/panini.ts:23 | The rewrite and trim leave the constant `Panini` unchanged. |
| PaniniScraper.Scrape | src/scraping/scrapers/panini.ts:9-35 | The publisher is always `Panini` and the ISBN always `""`. The offer is available if and only if an add-to-cart button exists. The page count is `PageCount` of the trimmed pages cell, so it is positive when present. The synopsis is the trimmed overview with the curly quotes stripped. The stamp is the declared key. |
| PaniniScraper.PagesAbsentExactly | src/scraping/scrapers/panini.ts:16-30 | The page count is missing exactly when the pages cell has no positive first digit run. |
| PaniniScraper.SynopsisKeepsOtherCharacters | src/scraping/scrapers/panini.ts:18-31 | The synopsis is the trimmed overview, minus only the curly quotes. |
| ComixScraper.Scrape | src/scraping/scrapers/comix.ts:9-29 | The offer is always available, with no old price. The publisher and synopsis are only trimmed. There are no pages and no ISBN. The record is stamped under `lastSuccessfulUpdate`, not the declared key. |
| ComixScraper.AvailableRegardlessOfMarkup | src/scraping/scrapers/comix.ts:24 | Availability does not depend on the page at all. |
| UrlHost.AsciiLower | src/scraping/scraping.ts:28 | Each ASCII capital letter of the host is lower-cased, and nothing else changes. |
| UrlHost.ParseHostText | src/scraping/scraping.ts:28 | A host that does not end in a number is lower-cased. One that does must parse as an IPv4 address, and it becomes that address in dotted decimal; otherwise the URL is invalid. |
| UrlHost.HostOfAuthority | src/scraping/scraping.ts:28 | A host taken from an authority is non-empty, lower-case and free of forbidden host characters. |
| UrlHost.HostOf | src/scraping/scraping.ts:28 | A parsed hostname is non-empty, lower-case and free of forbidden host characters. |
| UrlHost.HostOfHostPort | src/scraping/scraping.ts:28 | An authority `host[:port]` without userinfo yields the parsed host; the port does not change it. |
| UrlHost.HostOfHostText | src/scraping/scraping.ts:28 | For `scheme://host[:port][/?#…]`, the hostname is the parsed host. |
| UrlHost.HostOfComposed | src/scraping/scraping.ts:28 | For `scheme://host[:port][/?#…]` whose host does not end in a number, the hostname is the host, lower-cased. |
| UrlHost.HostOfNumericComposed | src/scraping/scraping.ts:28 | When the host ends in a number, the URL parses exactly when the host is an IPv4 address. The hostname is then that address in dotted decimal, and it parses back to the same address. |
| Ipv4.SplitOnDots | src/scraping/scraping.ts:28 | Splitting on `.` gives at least one piece, and no piece holds a `.`. |
| Ipv4.SplitJoin | src/scraping/scraping.ts:28 | Splitting the dot-join of dot-free pieces gives the pieces back. |
| Ipv4.JoinSplit | src/scraping/scraping.ts:28 | Joining the pieces of a split with `.` gives the text back. |
| Ipv4.DropTrailingEmpty | src/scraping/scraping.ts:28 | The labels are the pieces in order, less the last one exactly when it is empty and not the only piece. |
| Ipv4.ParseNumber | src/scraping/scraping.ts:28 | The empty string is no number. A part not starting with `0` is a number exactly when it is all decimal digits. |
| Ipv4.ParseDecimal | src/scraping/scraping.ts:28 | A decimal part without a leading zero parses to its decimal value. |
| Ipv4.ParseNumbers | src/scraping/scraping.ts:28 | The parts parse together exactly when each parses, each to its own number, in order. |
| Ipv4.CombineFits | src/scraping/scraping.ts:28 | Numbers within the parser's bounds combine to an address below 2^32. |
| Ipv4.ParseAddress | src/scraping/scraping.ts:28 | An address is found exactly when there are at most four labels, each is a number, and they are within bounds. It is then the numbers combined and is below 2^32. |
| Ipv4.Decimal | src/scraping/scraping.ts:28 | A number is written as a non-empty digit string, with no leading zero, whose decimal value is the number. |
| Ipv4.Octets | src/scraping/scraping.ts:28 | The serializer's four octets are each at most 255. |
| Ipv4.OctetsCombine | src/scraping/scraping.ts:28 | A 32-bit address is recombined from its four octets. |
| Ipv4.Serialize | src/scraping/scraping.ts:28 | The dotted-decimal form holds only digits and dots, and ends in a digit. |
| Ipv4.SerializeLabels | src/scraping/scraping.ts:28 | The labels of the dotted-decimal form are the four octets in decimal. |
| Ipv4.ParseSerialize | src/scraping/scraping.ts:28 | Parsing the dotted-decimal form of a 32-bit address gives the address back. |
| Ipv4.ShortHexAddress | src/scraping/scraping.ts:28 | `0x7f.1` ends in a number and is the address 0x7F000001. |
| Ipv4.LoopbackText | src/scraping/scraping.ts:28 | The address 0x7F000001 is written `127.0.0.1`. |
| Ipv4.NameThenNumber | src/scraping/scraping.ts:28 | `foo.123` ends in a number but is no IPv4 address, so a URL with that host is invalid. |
| Scraping.HandlerFor | src/scraping/scraping.ts:29 | A hostname resolves only to the site registered under exactly that name, and it resolves exactly when some site is registered under it. |
| Scraping.Lookup | src/scraping/scraping.ts:14-18 | `handlers[hostname]` yields a scraper exactly for a registered hostname, an inherited member exactly for `constructor` and `__proto__`, and nothing otherwise. |
| Scraping.SiteFor | src/scraping/scraping.ts:28-29 | A scraper is chosen only for a URL whose hostname is that scraper's registered name. No scraper is chosen exactly when the URL does not parse or its hostname is no registered name. |
| Scraping.ExactlyThreeRegistered | src/scraping/scraping.ts:8-18 | Exactly the three enum hostnames have a scraper, each resolving to its own site. |
| Scraping.NeighbouringHostsUnregistered | src/scraping/scraping.ts:29 | The lookup is by exact equality, so `www.`-prefixed or stripped variants have no scraper. |
| Scraping.RequestFor | src/scraping/scraping.ts:22-27 | The request carries the URL, the fixed Chrome User-Agent, and the caller's Cookie or `""`. |
| Scraping.ScrapeWith | src/scraping/scraping.ts:35 | Whichever scraper runs, the record carries the requested URL. |
| Scraping.ScrapeComicsData | src/scraping/scraping.ts:20-41 | A fetch error is rethrown unchanged. A result is produced exactly for a fetched URL whose host is registered, and it carries that URL. After the fetch, an unparsable URL rejects with the URL error. The hosts `constructor` and `__proto__` reject with the TypeError of calling a missing `scrape`. Any other unregistered host rejects with the `Handler not found` string. |
| Scraping.UnregisteredHostFailsAfterFetch | src/scraping/scraping.ts:29-33 | A fetched page from a host that is neither registered nor an inherited member name rejects with `Handler not found for <url>`. |
| Scraping.DigitEndedHostUnregistered | src/scraping/scraping.ts:29-33 | A hostname ending in a digit finds no scraper and no inherited member. |
| Scraping.NumericHostFindsNoScraper | src/scraping/scraping.ts:28-33 | A fetched URL whose host ends in a number never reaches a scraper. It rejects with `Handler not found` when the host is an IPv4 address and with the URL error otherwise. |
| Scraping.ScraperSeesOnlyCleanedBody | src/scraping/scraping.ts:35 | Two bodies that clean to the same text give the same result. |
| Scraping.DispatchIgnoresPortPathAndCase | src/scraping/scraping.ts:28-29 | The chosen scraper depends only on the lower-cased host. Port, path, query and fragment do not matter. |
| Scraping.RegisteredSiteScrapes | src/scraping/scraping.ts:29-35 | A registered site yields its scraper's record on the cleaned body. Comix is always available, Panini's publisher is `Panini`, and only Comix uses the undeclared stamp key. |
| SitemapXml.Locs | src/scraping/sitemapXmlParser.ts:21 | The locations come out one per entry, in order. |
| SitemapXml.ExtractUrlsFromSitemap | src/scraping/sitemapXmlParser.ts:16-22 | `""` gives `[]` without parsing. A parse error is rethrown. A sitemap index gives its entries' `loc` in order. Any other document, or an index without entries, is a TypeError. |
| SitemapXml.ExtractUrlsFromUrlSet | src/scraping/sitemapXmlParser.ts:36-42 | The same rules for a URL set. |
| SitemapXml.LocsAppend | src/scraping/sitemapXmlParser.ts:21 | Projection distributes over concatenation of entry lists. |
| SitemapXml.OnlyEmptyInputSkipsParser | src/scraping/sitemapXmlParser.ts:17-19 | Only the empty string short-circuits. Any other text, white space included, reaches the parser. |
| SitemapXml.WrongRootRejected | src/scraping/sitemapXmlParser.ts:20 | Each function rejects the other's document shape. |
| Utf8.Encode | src/utils.ts:10 | The encoding is as long as the text exactly when every character is ASCII. |
| Utf8.EncodeChar | src/utils.ts:10 | A code point encodes to 1 to 4 bytes. It is one byte (itself) exactly when it is ASCII, and the trailing bytes are continuation bytes. |
| Utf8.EncodeAppend | src/utils.ts:10 | Encoding distributes over concatenation. |
| Utf8.EncodeAscii | src/utils.ts:10 | ASCII text encodes to itself byte for byte. |
| Utf8.EncodeCharCodePoint | src/utils.ts:10 | A character's encoding has the length its lead byte announces. It decodes to the character's code point and is not overlong. |
| Utf8.DecodeEncode | src/utils.ts:10 | Decoding the encoding of any string gives it back. |
| FormUrlencoded.SerializeByte | src/utils.ts:10 | A space becomes `+`. The ASCII alphanumerics and `*-._` stay as they are. Every other byte becomes `%` and two upper-case hexadecimal digits whose value is the byte. The output is ASCII, with no `&` or `=`. |
| FormUrlencoded.HexDigit | src/utils.ts:10 | A value below 16 is written as an upper-case hexadecimal digit of that value. |
| FormUrlencoded.SerializeString | src/utils.ts:10 | A serialised name or value is ASCII with no `&` or `=`. |
| FormUrlencoded.SerializePair | src/utils.ts:10 | A serialised pair is non-empty, ASCII, with no `&`. |
| FormUrlencoded.Serialize | src/utils.ts:10 | The query string is ASCII. |
| FormUrlencoded.PercentDecodeSerializeBytes | src/utils.ts:10 | Percent-decoding undoes the byte serialiser. |
| FormUrlencoded.DecodeSerializedString | src/utils.ts:10 | Decoding a serialised component gives back the original string. |
| FormUrlencoded.ParseSerializedPair | src/utils.ts:10 | Parsing one serialised pair gives back the pair. |
| FormUrlencoded.ParseSerialize | src/utils.ts:10 | Parsing the serialised list gives back the list: names, values and order. |
| Utils.DefinedEntries | src/utils.ts:9 | No more entries are kept than given. None are kept if and only if every value is undefined. |
| Utils.DefinedEntriesAppend | src/utils.ts:9 | Filtering works piecewise, so the kept entries keep their relative order. |
| Utils.DefinedEntriesSingle | src/utils.ts:9 | An entry is kept, unchanged, exactly when its value is defined (an empty string included). |
| Utils.ParamsToUrl | src/utils.ts:8-12 | The URL is the base verbatim, then `?`. All-undefined parameters give `url?`. |
| Utils.ParamsToUrlRoundTrip | src/utils.ts:8-12 | The query after the added `?` parses back to exactly the defined parameters, in order. |
| Airtable.Matching | src/airtable/airtable.ts:86 | The store's filtered rows all match the formula and come from the table. None are returned if and only if no row matches. |
| Airtable.FirstMatch | src/airtable/airtable.ts:147-148 | The first row the formula selects: it matches, and no row before it does. None means no row matches. |
| Airtable.FirstPage | src/airtable/airtable.ts:86-92 | The first page is the leading rows of the matching rows, in order, at most the limit of them. When it is shorter than the limit, it holds every matching row. |
| Airtable.SingleRecordLookup | src/airtable/airtable.ts:147-149 | A `maxRecords: 1` lookup returns exactly the first matching row, or nothing. |
| Airtable.MatchingAppend | src/airtable/airtable.ts:46-92 | A record appended by an insert is selected by a later query exactly when the formula matches it. |
| Airtable.InsertedRecordFoundNext | src/airtable/airtable.ts:147-151 | After an upsert inserted a matching record, the next lookup finds it, so a repeated upsert updates rather than inserting twice. |
| Airtable.IndexOfId | src/airtable/airtable.ts:117 | The store finds the row holding the id, or reports that no row does. |
| Airtable.IndexOfOwnId | src/airtable/airtable.ts:149 | With unique ids, looking up a row's own id finds that row. |
| Airtable.Merge | src/airtable/airtable.ts:117 | An update sets the given fields and keeps the others. |
| Airtable.Table.Insert | src/airtable/airtable.ts:41-56 | On success, one row with a fresh id is appended, the next id advances, and the caller's record is returned. A store error is rethrown and the table and next id are unchanged. Ids stay unique. |
| Airtable.Table.Select | src/airtable/airtable.ts:74-96 | The query always carries the formula. It carries `sort` only when given, and `maxRecords` only when non-zero. The result is the store's first page as `{ id, fields }`, or the store error. |
| Airtable.Table.Update | src/airtable/airtable.ts:112-127 | The row with the id gets the fields merged in, and the caller's record is returned. An unknown id or a store error rejects and leaves the table unchanged. |
| Airtable.Table.Upsert | src/airtable/airtable.ts:144-156 | The lookup is `maxRecords: 1` with the formula. When a row matches, the first matching row is updated, no row is added and the next id stays. Otherwise one row is appended under the next id, which then advances. Errors from either step are rethrown unchanged and leave the table and the next id as they were. |

## Left out

- Cheerio HTML parsing and CSS selectors are not modelled. Each scraper receives the selector results (texts, attributes, element counts) as a `Selection` value.
- `normalizePrice`, `removeNonAscii`, the HTTP client, the xml2js parser and the clock (`new Date()`) are parameters. `utils.ts` helpers other than `paramsToUrl` are not part of this model.
- Promises, `async`/`await`, console logging and the `try`/`catch` blocks that only rethrow are left out. A rejection is an `Err` value.
- Extraction.PageCount: JavaScript's `Number` converts the digit run to a double. Values above 2^53 round, and runs of more than about 309 digits become `Infinity`, which `|| undefined` keeps. The model keeps the exact integer.
- UrlHost.HostOf: follows the WHATWG URL parser only for `scheme://[userinfo@]host[:port][path]` URLs, and answers None outside that form. Special URLs that parse in JavaScript but are outside it, such as `http:comicboom.com.br` (no slashes) and `http:///comicboom.com.br/x` (extra slashes), get None, and so a scrape of them rejects with the URL error where the source would scrape. Leading and trailing C0 controls and spaces are not stripped. IPv6 literals, IDNA/punycode, percent-decoded hosts, tab and newline stripping, backslashes, non-special schemes and the empty-port edge cases are not modelled. The IPv4 parser is modelled, but its validation errors are not, since `new URL` does not report them.
- Airtable.Table.Update: the store's rejection of an unknown id with the error `NOT_FOUND` is an assumption about the remote store. The client itself only rethrows what the store reports.
- Utf8.Decode: replaces each rejected byte with U+FFFD, where the WHATWG decoder replaces each maximal subpart once. It only serves as the partner of the encoder here, and the round trip only decodes well-formed input.
- Utf8.EncodeChar: Dafny characters are Unicode scalar values. The JavaScript lone surrogates, which `URLSearchParams` turns into U+FFFD, are not representable.
- Utils.DefinedEntries: the model takes `Object.entries` order as given. JavaScript's reordering of integer-like keys to the front is not modelled.
- SitemapXml.ExtractUrlsFromSitemap: xml2js by default wraps each `loc` in an array. The model follows the declared interface (`loc` is a string), and an entry without `loc` is not represented.
- `getXMLContent` (a plain `fetch` of a URL) is I/O and is not part of this model.
- The Airtable API token and base id checks, `Airtable.configure` and the `getAirtableTables` table registry are configuration and are not modelled.
- The `typecast: true` option is not modelled.
- Airtable.FirstPage: the order a `sort` option asks for is not applied, and rows come back in table order. The page size of 100 and the store's formula evaluation (a parameter) are assumptions about the remote store.
- Airtable.Merge: how the store combines fields on `update` is an assumption, namely that the given fields overwrite and the others stay. Record ids are numbers, not the store's opaque strings.
- Airtable.Table.Select: `maxRecords` is modelled as a non-negative count.
- The crawler, the resume ledger, the HTTP API, Google Sheets and YouTube modules are outside the modelled core.
