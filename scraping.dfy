/**
 * `scrapeComicsData` (src/scraping/scraping.ts): fetch the page, pick the
 * scraper registered for the URL's hostname, and run it on the page body
 * with non-ASCII noise removed.
 */
module Scraping {
  import opened Wrappers
  import opened ComicTypes
  import opened UrlHost
  import Ipv4
  import JsText
  import ComicBoomScraper
  import PaniniScraper
  import ComixScraper

  /** `ScrapableSites`: the shops that have a scraper. */
  datatype Site = Comix | ComicBoom | Panini

  /** The enum's value: the hostname each scraper is registered under. */
  function Hostname(site: Site): string {
    match site
    case Comix => "www.comix.com.br"
    case ComicBoom => "comicboom.com.br"
    case Panini => "panini.com.br"
  }

  /** The hostnames of the `handlers` table. */
  const RegisteredHostnames: set<string> := set site: Site :: Hostname(site)

  /** `handlers[hostname]`: a lookup by exact hostname. */
  function HandlerFor(hostname: string): (r: Option<Site>)
    ensures r.Some? ==> Hostname(r.value) == hostname
    ensures r.None? <==> forall site :: hostname != Hostname(site)
  {
    if hostname == Hostname(Comix) then Some(Comix)
    else if hostname == Hostname(ComicBoom) then Some(ComicBoom)
    else if hostname == Hostname(Panini) then Some(Panini)
    else None
  }

  /**
   * The hostnames `handlers[hostname]` resolves through the prototype chain:
   * `handlers` is a plain object literal, so a key it does not own still
   * finds an `Object.prototype` member. A parsed hostname is lower-case, so
   * of those members only the all-lower-case names can be reached.
   */
  const InheritedMemberNames: set<string> := {"constructor", "__proto__"}

  /** A truthy value `handlers[hostname]` can yield: a registered scraper, or an inherited member with no `scrape`. */
  datatype HandlerValue = ScraperOf(site: Site) | InheritedMember(name: string)

  /** `handlers[hostname]`: an own property, an inherited member, or undefined (None). */
  function Lookup(hostname: string): (r: Option<HandlerValue>)
    ensures r.Some? && r.value.ScraperOf? <==> HandlerFor(hostname).Some?
    ensures r.Some? && r.value.ScraperOf? ==> HandlerFor(hostname) == Some(r.value.site)
    ensures r.Some? && r.value.InheritedMember? <==> hostname in InheritedMemberNames
    ensures r.None? <==> HandlerFor(hostname).None? && hostname !in InheritedMemberNames
  {
    match HandlerFor(hostname)
    case Some(site) => Some(ScraperOf(site))
    case None => if hostname in InheritedMemberNames then Some(InheritedMember(hostname)) else None
  }

  /** Exactly three hostnames have a scraper, one per site. */
  lemma ExactlyThreeRegistered()
    ensures forall h :: HandlerFor(h).Some? <==> h in RegisteredHostnames
    ensures forall site :: HandlerFor(Hostname(site)) == Some(site)
    ensures |RegisteredHostnames| == 3
  {
    assert RegisteredHostnames == {Hostname(Comix)} + {Hostname(ComicBoom)} + {Hostname(Panini)};
  }

  /** The lookup is by equality: neighbouring spellings of the registered hosts have no scraper. */
  lemma NeighbouringHostsUnregistered()
    ensures HandlerFor("www.comicboom.com.br").None?
    ensures HandlerFor("www.panini.com.br").None?
    ensures HandlerFor("comix.com.br").None?
  {
  }

  /** The browser User-Agent sent with every page request. */
  const UserAgent: string :=
    "Mozilla/5.0 (Macintosh; Intel Mac OS X 10_15_7) AppleWebKit/537.36 (KHTML, like Gecko) Chrome/124.0.0.0 Safari/537.36"

  /** The GET request `axios.get` is given. */
  datatype Request = Request(url: string, userAgent: string, cookie: string)

  /** The request for a URL and the optional caller-supplied Cookie value (`headers?.Cookie || ''`). */
  function RequestFor(url: string, cookie: Option<string>): (r: Request)
    ensures r.url == url && r.userAgent == UserAgent
    ensures r.cookie == if cookie.Some? then cookie.value else ""
  {
    Request(url, UserAgent, match cookie case Some(c) => c case None => "")
  }

  /**
   * What `scrapeComicsData` reaches that is outside this model: the HTTP
   * fetch (body or transport error), `removeNonAscii`, `normalizePrice`,
   * cheerio's answers to each site's selectors for a page, and the clock.
   */
  datatype Collaborators = Collaborators(
    fetch: Request -> Result<string, string>,
    removeNonAscii: string -> string,
    normalizePrice: string -> Number,
    selectComix: string -> ComixScraper.Selection,
    selectComicBoom: string -> ComicBoomScraper.Selection,
    selectPanini: string -> PaniniScraper.Selection,
    now: Instant)

  /**
   * What the call rejects with: the fetch's own error, the TypeError of
   * `new URL`, the plain string (not an Error object) thrown for an
   * unregistered hostname, or the TypeError of calling `scrape` on an
   * inherited member. Each is rethrown unchanged.
   */
  datatype Thrown =
    | TransportError(reason: string)
    | InvalidUrl(input: string)
    | ThrownMessage(text: string)
    | ScrapeNotCallable  // TypeError: scraper.scrape is not a function

  /** The string thrown when no scraper is registered for the URL's hostname. */
  function HandlerNotFound(url: string): string {
    "Handler not found for " + url
  }

  /** The scraper chosen for a URL: by its parsed hostname. */
  function SiteFor(url: string): (r: Option<Site>)
    ensures r.Some? ==> HostOf(url) == Some(Hostname(r.value))
    ensures r.None? <==> HostOf(url).None? || forall site :: HostOf(url).value != Hostname(site)
  {
    match HostOf(url)
    case None => None
    case Some(host) => HandlerFor(host)
  }

  /** `scraper.scrape(url, content)` for the chosen site. */
  function ScrapeWith(site: Site, url: string, content: string, env: Collaborators): (r: ComicData)
    ensures r.url == url
  {
    match site
    case Comix => ComixScraper.Scrape(url, env.selectComix(content), env.normalizePrice, env.now)
    case ComicBoom => ComicBoomScraper.Scrape(url, env.selectComicBoom(content), env.normalizePrice, env.now)
    case Panini => PaniniScraper.Scrape(url, env.selectPanini(content), env.normalizePrice, env.now)
  }

  /**
   * `scrapeComicsData(url, headers)`: the page is fetched first, then the
   * hostname is parsed and looked up, then the scraper runs on the cleaned body.
   */
  function ScrapeComicsData(url: string, cookie: Option<string>, env: Collaborators): (r: Result<ComicData, Thrown>)
    ensures env.fetch(RequestFor(url, cookie)).Err? ==> r == Err(TransportError(env.fetch(RequestFor(url, cookie)).error))
    ensures r.Ok? <==> env.fetch(RequestFor(url, cookie)).Ok? && SiteFor(url).Some?
    ensures r.Ok? ==> r.value.url == url
    ensures env.fetch(RequestFor(url, cookie)).Ok? && HostOf(url).None? ==> r == Err(InvalidUrl(url))
    ensures env.fetch(RequestFor(url, cookie)).Ok? && HostOf(url).Some? && HostOf(url).value in InheritedMemberNames ==>
              r == Err(ScrapeNotCallable)
    ensures env.fetch(RequestFor(url, cookie)).Ok? && HostOf(url).Some? && Lookup(HostOf(url).value).None? ==>
              r == Err(ThrownMessage(HandlerNotFound(url)))
  {
    match env.fetch(RequestFor(url, cookie))
    case Err(e) => Err(TransportError(e))
    case Ok(body) =>
      match HostOf(url)
      case None => Err(InvalidUrl(url))
      case Some(host) =>
        match Lookup(host)
        case None => Err(ThrownMessage(HandlerNotFound(url)))
        case Some(InheritedMember(_)) => Err(ScrapeNotCallable)
        case Some(ScraperOf(site)) => Ok(ScrapeWith(site, url, env.removeNonAscii(body), env))
  }

  /**
   * A URL whose hostname parses but is neither registered nor an inherited
   * member name is still fetched, and then fails with the "Handler not found" string.
   */
  lemma UnregisteredHostFailsAfterFetch(url: string, cookie: Option<string>, env: Collaborators, body: string)
    requires env.fetch(RequestFor(url, cookie)) == Ok(body)
    requires HostOf(url).Some? && HandlerFor(HostOf(url).value).None?
    requires HostOf(url).value !in InheritedMemberNames
    ensures ScrapeComicsData(url, cookie, env) == Err(ThrownMessage("Handler not found for " + url))
  {
  }

  /**
   * The scraper only sees `removeNonAscii(body)`: two bodies that clean to
   * the same text give the same result.
   */
  lemma ScraperSeesOnlyCleanedBody(url: string, cookie: Option<string>, env1: Collaborators, env2: Collaborators,
                                   body1: string, body2: string)
    requires env1.fetch(RequestFor(url, cookie)) == Ok(body1) && env2.fetch(RequestFor(url, cookie)) == Ok(body2)
    requires env1.removeNonAscii(body1) == env2.removeNonAscii(body2)
    requires env1.(fetch := env2.fetch) == env2
    ensures ScrapeComicsData(url, cookie, env1) == ScrapeComicsData(url, cookie, env2)
  {
  }

  /**
   * The chosen scraper depends only on the host: the port, the path, the
   * query, the fragment and the host's ASCII case make no difference.
   */
  lemma DispatchIgnoresPortPathAndCase(scheme: string, h: string, port: string, rest: string)
    requires IsScheme(scheme) && IsPlainHost(h) && IsValidPortPart(port) && IsAuthorityTail(rest)
    ensures SiteFor(scheme + "://" + h + port + rest) == HandlerFor(AsciiLower(h))
  {
    HostOfComposed(scheme, h, port, rest);
  }

  /**
   * A URL whose host ends in a number never reaches a scraper: the host is
   * either no IPv4 address (the URL is invalid) or an address in dotted
   * decimal, which no registered hostname and no inherited member name is.
   */
  lemma NumericHostFindsNoScraper(scheme: string, h: string, port: string, rest: string, url: string,
                                  cookie: Option<string>, env: Collaborators, body: string)
    requires IsScheme(scheme) && IsNumericHost(h) && IsValidPortPart(port) && IsAuthorityTail(rest)
    requires url == scheme + "://" + h + port + rest
    requires env.fetch(RequestFor(url, cookie)) == Ok(body)
    ensures ScrapeComicsData(url, cookie, env) ==
              if Ipv4.ParseAddress(AsciiLower(h)).Some? then Err(ThrownMessage(HandlerNotFound(url))) else Err(InvalidUrl(url))
  {
    HostOfNumericComposed(scheme, h, port, rest);
    if HostOf(url).Some? {
      DigitEndedHostUnregistered(HostOf(url).value);
    }
  }

  /** A hostname ending in a digit is neither registered nor an inherited member name. */
  lemma DigitEndedHostUnregistered(host: string)
    requires host != [] && JsText.IsAsciiDigit(host[|host| - 1])
    ensures Lookup(host).None?
  {
    assert forall site :: Hostname(site)[|Hostname(site)| - 1] == 'r';
  }

  /** Which record a registered site yields, for a page that was fetched. */
  lemma RegisteredSiteScrapes(url: string, cookie: Option<string>, env: Collaborators, body: string, site: Site)
    requires env.fetch(RequestFor(url, cookie)) == Ok(body)
    requires SiteFor(url) == Some(site)
    ensures ScrapeComicsData(url, cookie, env) == Ok(ScrapeWith(site, url, env.removeNonAscii(body), env))
    ensures site == Comix ==> ScrapeComicsData(url, cookie, env).value.offer.isAvailable == Some(true)
    ensures site == Panini ==> ScrapeComicsData(url, cookie, env).value.publisher == "Panini"
    ensures site != Comix ==> HasDeclaredStamp(ScrapeComicsData(url, cookie, env).value)
  {
  }
}
