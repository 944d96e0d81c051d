/**
 * The part of the WHATWG URL parser that `new URL(url).hostname` exercises,
 * for URLs written "scheme://[userinfo@]host[:port][path]": the host is
 * the authority after the last '@' and before the port, ASCII-lowercased,
 * and rewritten in dotted decimal when it is an IPv4 address.
 */
module UrlHost {
  import opened Wrappers
  import opened JsText
  import Ipv4

  predicate IsAsciiAlpha(c: char) {
    'a' <= c <= 'z' || 'A' <= c <= 'Z'
  }

  /** Characters a scheme may hold after its first letter. */
  predicate IsSchemeChar(c: char) {
    IsAsciiAlpha(c) || '0' <= c <= '9' || c == '+' || c == '-' || c == '.'
  }

  /** Characters that end the authority of a special URL. */
  predicate EndsAuthority(c: char) {
    c == '/' || c == '?' || c == '#' || c == '\\'
  }

  /** Forbidden domain code points: a host holding one is a parse failure. */
  predicate IsForbiddenDomainChar(c: char) {
    || c < ' ' || c == ' ' || c == '#' || c == '%' || c == '/' || c == ':' || c == '<' || c == '>'
    || c == '?' || c == '@' || c == '[' || c == '\\' || c == ']' || c == '^' || c == '|' || c == '\U{7F}'
  }

  /** The largest port number. */
  const MaxPort: nat := 65535

  /** A port part: empty, or ':' followed by decimal digits whose value fits a port. */
  predicate IsValidPortPart(p: string) {
    p == [] || (p[0] == ':' && AllDigits(p, 1, |p|) && DecimalValue(p[1..]) <= MaxPort)
  }

  /** ASCII upper-case letters become lower-case; every other character is kept. */
  function AsciiLower(s: string): (r: string)
    ensures |r| == |s|
    ensures forall k :: 0 <= k < |s| ==> r[k] == if 'A' <= s[k] <= 'Z' then (s[k] as int + 32) as char else s[k]
  {
    if s == [] then [] else
      [if 'A' <= s[0] <= 'Z' then (s[0] as int + 32) as char else s[0]] + AsciiLower(s[1..])
  }

  /** The first index at or after `from` that is not a scheme character. */
  function SchemeEnd(url: string, from: nat): (r: nat)
    requires from <= |url|
    ensures from <= r <= |url| && (forall k :: from <= k < r ==> IsSchemeChar(url[k]))
    ensures r == |url| || !IsSchemeChar(url[r])
    decreases |url| - from
  {
    if from == |url| || !IsSchemeChar(url[from]) then from else SchemeEnd(url, from + 1)
  }

  /** The first index at or after `from` that ends the authority, or the end of the string. */
  function AuthorityEnd(url: string, from: nat): (r: nat)
    requires from <= |url|
    ensures from <= r <= |url| && (forall k :: from <= k < r ==> !EndsAuthority(url[k]))
    ensures r == |url| || EndsAuthority(url[r])
    decreases |url| - from
  {
    if from == |url| || EndsAuthority(url[from]) then from else AuthorityEnd(url, from + 1)
  }

  /** The index just after the last '@' of s, or 0 when there is none. */
  function AfterLastAt(s: string): (r: nat)
    ensures r <= |s| && (r == 0 || s[r - 1] == '@')
    ensures forall k :: r <= k < |s| ==> s[k] != '@'
  {
    if s == [] then 0
    else if s[|s| - 1] == '@' then |s|
    else AfterLastAt(s[..|s| - 1])
  }

  /** The index of the first ':' of s, or |s|. */
  function ColonOrEnd(s: string): (r: nat)
    ensures r <= |s| && (r == |s| || s[r] == ':')
    ensures forall k :: 0 <= k < r ==> s[k] != ':'
  {
    if s == [] then 0
    else if s[0] == ':' then 0
    else 1 + ColonOrEnd(s[1..])
  }

  /** The authority of "scheme://authority[path]", or None when the URL has no such prefix. */
  function AuthorityOf(url: string): (r: Option<string>)
    ensures r.Some? ==> forall k :: 0 <= k < |r.value| ==> !EndsAuthority(r.value[k])
  {
    var i := SchemeEnd(url, 0);
    if i == 0 || !IsAsciiAlpha(url[0]) || i + 3 > |url| || url[i..i + 3] != "://" then None
    else Some(url[i + 3..AuthorityEnd(url, i + 3)])
  }

  /** A host as written: non-empty, no forbidden domain code point. */
  predicate IsHostText(h: string) {
    h != [] && forall k :: 0 <= k < |h| ==> !IsForbiddenDomainChar(h[k])
  }

  /**
   * The host parser's last steps on a host text: ASCII-lowercase it; when
   * it then ends in a number it must be an IPv4 address, which is written
   * back as four decimal octets.
   */
  function ParseHostText(h: string): (r: Option<string>)
    requires IsHostText(h)
    ensures !Ipv4.EndsInNumber(AsciiLower(h)) ==> r == Some(AsciiLower(h))
    ensures Ipv4.EndsInNumber(AsciiLower(h)) ==>
              (r.Some? <==> Ipv4.ParseAddress(AsciiLower(h)).Some?) &&
              (r.Some? ==> r.value == Ipv4.Serialize(Ipv4.ParseAddress(AsciiLower(h)).value))
    ensures r.Some? ==> r.value != [] && forall k :: 0 <= k < |r.value| ==> !('A' <= r.value[k] <= 'Z') && !IsForbiddenDomainChar(r.value[k])
  {
    var lower := AsciiLower(h);
    if !Ipv4.EndsInNumber(lower) then
      LowerHostText(h);
      Some(lower)
    else
      match Ipv4.ParseAddress(lower)
      case None => None
      case Some(address) => Some(Ipv4.Serialize(address))
  }

  /** Lower-casing a host text leaves no upper-case letter and adds no forbidden code point. */
  lemma LowerHostText(h: string)
    requires IsHostText(h)
    ensures AsciiLower(h) != [] && forall k :: 0 <= k < |h| ==> !('A' <= AsciiLower(h)[k] <= 'Z') && !IsForbiddenDomainChar(AsciiLower(h)[k])
  {
  }

  /** The host of an authority "[userinfo@]host[:port]", or None when it is empty, malformed or has a bad port. */
  function HostOfAuthority(authority: string): (r: Option<string>)
    ensures r.Some? ==> r.value != [] && forall k :: 0 <= k < |r.value| ==> !('A' <= r.value[k] <= 'Z') && !IsForbiddenDomainChar(r.value[k])
  {
    var hostPort := authority[AfterLastAt(authority)..];
    var host := hostPort[..ColonOrEnd(hostPort)];
    if !IsHostText(host) then None
    else if !IsValidPortPart(hostPort[ColonOrEnd(hostPort)..]) then None
    else ParseHostText(host)
  }

  /**
   * `new URL(url).hostname` for a URL written "scheme://[userinfo@]host[:port][path]",
   * or None: either the constructor throws a TypeError (an empty or
   * malformed host, a host ending in a number that is not an IPv4 address,
   * a bad port), or the URL is outside that form. Some URLs outside it
   * parse in JavaScript and get None here.
   */
  function HostOf(url: string): (r: Option<string>)
    ensures r.Some? ==> r.value != [] && forall k :: 0 <= k < |r.value| ==> !('A' <= r.value[k] <= 'Z') && !IsForbiddenDomainChar(r.value[k])
  {
    match AuthorityOf(url)
    case None => None
    case Some(authority) => HostOfAuthority(authority)
  }

  /** A scheme: a letter, then scheme characters. */
  predicate IsScheme(scheme: string) {
    scheme != [] && IsAsciiAlpha(scheme[0]) && forall k :: 0 <= k < |scheme| ==> IsSchemeChar(scheme[k])
  }

  /** A host written as a domain: a host text that does not end in a number. */
  predicate IsPlainHost(h: string) {
    IsHostText(h) && !Ipv4.EndsInNumber(AsciiLower(h))
  }

  /** A host written as a number: a host text whose last label is a number. */
  predicate IsNumericHost(h: string) {
    IsHostText(h) && Ipv4.EndsInNumber(AsciiLower(h))
  }

  /** What may follow the authority: nothing, or a path, query or fragment. */
  predicate IsAuthorityTail(rest: string) {
    rest == [] || EndsAuthority(rest[0])
  }

  /** The scheme ends at the ':' of "://". */
  lemma SchemeEndOfComposed(scheme: string, tail: string)
    requires IsScheme(scheme) && tail != [] && tail[0] == ':'
    ensures SchemeEnd(scheme + tail, 0) == |scheme|
  {
    var url := scheme + tail;
    var i' := SchemeEnd(url, 0);
    assert forall k :: 0 <= k < |scheme| ==> url[k] == scheme[k];
    assert url[|scheme|] == ':';
  }

  /** The authority runs up to the path, query or fragment. */
  lemma AuthorityOfComposed(scheme: string, authority: string, rest: string)
    requires IsScheme(scheme) && IsAuthorityTail(rest)
    requires forall k :: 0 <= k < |authority| ==> !EndsAuthority(authority[k])
    ensures AuthorityOf(scheme + "://" + authority + rest) == Some(authority)
  {
    var url := scheme + "://" + authority + rest;
    assert url == scheme + ("://" + authority + rest);
    SchemeEndOfComposed(scheme, "://" + authority + rest);
    var i := |scheme|;
    assert url[i..i + 3] == "://";
    var a := i + 3;
    var b := a + |authority|;
    assert url[a..b] == authority;
    forall k | a <= k < b ensures !EndsAuthority(url[k]) {
      assert url[k] == authority[k - a];
    }
    assert b < |url| ==> url[b] == rest[0];
    var b' := AuthorityEnd(url, a);
    assert b' == b;
  }

  /** An authority "host:port" without userinfo has the parsed host text. */
  lemma HostOfHostPort(h: string, port: string)
    requires IsHostText(h) && IsValidPortPart(port)
    ensures HostOfAuthority(h + port) == ParseHostText(h)
  {
    var authority := h + port;
    forall k | 0 <= k < |authority| ensures authority[k] != '@' {
      if k < |h| { assert authority[k] == h[k]; } else { assert authority[k] == port[k - |h|]; }
    }
    assert AfterLastAt(authority) == 0;
    assert authority[0..] == authority;
    var c := ColonOrEnd(authority);
    assert forall k :: 0 <= k < |h| ==> authority[k] == h[k];
    assert |h| < |authority| ==> authority[|h|] == port[0];
    assert c == |h|;
    assert authority[..c] == h;
    assert authority[c..] == port;
  }

  /**
   * The hostname of "scheme://host:port/path?query#fragment" is the host
   * in lower case: port, path, query, fragment and the host's ASCII case do
   * not change it.
   */
  lemma HostOfComposed(scheme: string, h: string, port: string, rest: string)
    requires IsScheme(scheme) && IsPlainHost(h) && IsValidPortPart(port) && IsAuthorityTail(rest)
    ensures HostOf(scheme + "://" + h + port + rest) == Some(AsciiLower(h))
  {
    HostOfHostText(scheme, h, port, rest);
  }

  /**
   * The hostname of "scheme://number:port/path" with a numeric host is the
   * IPv4 address the host denotes, in dotted decimal, and the URL is
   * invalid when the host is no IPv4 address; the hostname parses back to
   * the same address.
   */
  lemma HostOfNumericComposed(scheme: string, h: string, port: string, rest: string)
    requires IsScheme(scheme) && IsNumericHost(h) && IsValidPortPart(port) && IsAuthorityTail(rest)
    ensures HostOf(scheme + "://" + h + port + rest).Some? <==> Ipv4.ParseAddress(AsciiLower(h)).Some?
    ensures HostOf(scheme + "://" + h + port + rest).Some? ==>
              && HostOf(scheme + "://" + h + port + rest).value == Ipv4.Serialize(Ipv4.ParseAddress(AsciiLower(h)).value)
              && Ipv4.ParseAddress(HostOf(scheme + "://" + h + port + rest).value) == Ipv4.ParseAddress(AsciiLower(h))
  {
    HostOfHostText(scheme, h, port, rest);
    if Ipv4.ParseAddress(AsciiLower(h)).Some? {
      Ipv4.ParseSerialize(Ipv4.ParseAddress(AsciiLower(h)).value);
    }
  }

  /** The hostname of "scheme://host:port/path" is the parsed host text. */
  lemma HostOfHostText(scheme: string, h: string, port: string, rest: string)
    requires IsScheme(scheme) && IsHostText(h) && IsValidPortPart(port) && IsAuthorityTail(rest)
    ensures HostOf(scheme + "://" + h + port + rest) == ParseHostText(h)
  {
    HostTextAuthorityUnbroken(h, port);
    assert scheme + "://" + h + port + rest == scheme + "://" + (h + port) + rest;
    AuthorityOfComposed(scheme, h + port, rest);
    HostOfHostPort(h, port);
  }

  /** A host text and a valid port contain nothing that ends an authority. */
  lemma HostTextAuthorityUnbroken(h: string, port: string)
    requires IsHostText(h) && IsValidPortPart(port)
    ensures forall k :: 0 <= k < |h + port| ==> !EndsAuthority((h + port)[k])
  {
    var authority := h + port;
    forall k | 0 <= k < |authority| ensures !EndsAuthority(authority[k]) {
      if k < |h| { assert authority[k] == h[k]; } else { assert authority[k] == port[k - |h|]; }
    }
  }
}
