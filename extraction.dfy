/**
 * The string post-processing that the ComicBoom and Panini scrapers apply to
 * the texts they select: each function is one regular-expression call of
 * comicboom.ts / panini.ts, and each is proved against a statement of what
 * that regular expression matches.
 */
module Extraction {
  import opened Wrappers
  import opened JsText

  // ---------------------------------------------------------------------------
  // publisher.replace(/.*?:([^;]*);.*/, '$1')
  // ---------------------------------------------------------------------------

  /**
   * The positions of one match of `.*?:([^;]*);.*`: it starts at `start`,
   * `.*?` runs to `colon`, group 1 is s[colon + 1..semi], and `.*` runs from
   * semi + 1 to `end`.
   */
  datatype Span = Span(start: nat, colon: nat, semi: nat, end: nat)

  /** No semicolon among s[i..j]: the class `[^;]` (which does match line terminators). */
  predicate NoSemicolon(s: string, i: nat, j: nat)
    requires i <= j <= |s|
  {
    forall k :: i <= k < j ==> s[k] != ';'
  }

  /** Every way the pattern can match s, read off the pattern piece by piece. */
  ghost predicate IsPatternMatch(s: string, m: Span) {
    && m.start <= m.colon < m.semi < m.end <= |s|
    && NoLineTerminator(s, m.start, m.colon)   // .*?
    && s[m.colon] == ':'                       // :
    && NoSemicolon(s, m.colon + 1, m.semi)     // ([^;]*)
    && s[m.semi] == ';'                        // ;
    && NoLineTerminator(s, m.semi + 1, m.end)  // .*
  }

  /**
   * The match a backtracking engine reports: the leftmost start; at that
   * start the lazy `.*?` takes the earliest colon, and the greedy `.*` the
   * longest tail.
   */
  ghost predicate IsReportedMatch(s: string, m: Span) {
    && IsPatternMatch(s, m)
    && (forall m' :: IsPatternMatch(s, m') ==> m.start <= m'.start)
    && (forall m' :: IsPatternMatch(s, m') && m'.start == m.start ==>
          m.colon <= m'.colon && (m'.colon == m.colon ==> m'.end <= m.end))
  }

  /** The colon that `.*?:` reaches from `from`, if no line terminator comes first. */
  function LazyColon(s: string, from: nat): (r: Option<nat>)
    requires from <= |s|
    ensures r.Some? ==> from <= r.value < |s| && s[r.value] == ':' && NoLineTerminator(s, from, r.value)
    ensures r.Some? ==> forall k :: from <= k < r.value ==> s[k] != ':'
    ensures r.None? ==> forall k :: from <= k < |s| && s[k] == ':' ==> !NoLineTerminator(s, from, k)
    decreases |s| - from
  {
    if from == |s| then None
    else if s[from] == ':' then Some(from)
    else if IsLineTerminator(s[from]) then None
    else LazyColon(s, from + 1)
  }

  /** The first index at or after `from` holding `c`. */
  function IndexOfFrom(s: string, c: char, from: nat): (r: Option<nat>)
    requires from <= |s|
    ensures r.Some? ==> from <= r.value < |s| && s[r.value] == c
    ensures r.Some? ==> forall k :: from <= k < r.value ==> s[k] != c
    ensures r.None? ==> forall k :: from <= k < |s| ==> s[k] != c
    decreases |s| - from
  {
    if from == |s| then None
    else if s[from] == c then Some(from)
    else IndexOfFrom(s, c, from + 1)
  }

  /** How far the greedy `.*` runs from `from`: the next line terminator, or the end. */
  function LineEnd(s: string, from: nat): (r: nat)
    requires from <= |s|
    ensures from <= r <= |s| && NoLineTerminator(s, from, r)
    ensures r == |s| || IsLineTerminator(s[r])
    decreases |s| - from
  {
    if from == |s| || IsLineTerminator(s[from]) then from else LineEnd(s, from + 1)
  }

  /** The positions of m lie in s, in the order the pattern visits them. */
  predicate SpanFits(s: string, m: Span) {
    m.start <= m.colon < m.semi < m.end <= |s|
  }

  /** The match the engine finds when it tries position `start`. */
  function MatchAt(s: string, start: nat): (r: Option<Span>)
    requires start <= |s|
    ensures r.Some? ==> SpanFits(s, r.value)
  {
    match LazyColon(s, start)
    case None => None
    case Some(c) =>
      match IndexOfFrom(s, ';', c + 1)
      case None => None
      case Some(q) => Some(Span(start, c, q, LineEnd(s, q + 1)))
  }

  /** Trying `start`: what it finds is a match, and the one preferred at that start. */
  lemma MatchAtCorrect(s: string, start: nat)
    requires start <= |s|
    ensures MatchAt(s, start).Some? ==> MatchAt(s, start).value.start == start && IsPatternMatch(s, MatchAt(s, start).value)
    ensures MatchAt(s, start).Some? ==> forall m' :: IsPatternMatch(s, m') && m'.start == start ==>
              MatchAt(s, start).value.colon <= m'.colon &&
              (m'.colon == MatchAt(s, start).value.colon ==> m'.end <= MatchAt(s, start).value.end)
    ensures MatchAt(s, start).None? ==> forall m' :: IsPatternMatch(s, m') ==> m'.start != start
  {
    match LazyColon(s, start)
    case None =>
      forall m' | IsPatternMatch(s, m') ensures m'.start != start {
        assert s[m'.colon] == ':' && NoLineTerminator(s, m'.start, m'.colon);
      }
    case Some(c) =>
      match IndexOfFrom(s, ';', c + 1)
      case None =>
        forall m' | IsPatternMatch(s, m') ensures m'.start != start {
          assert s[m'.colon] == ':' && s[m'.semi] == ';';
        }
      case Some(q) =>
        var e := LineEnd(s, q + 1);
        forall m' | IsPatternMatch(s, m') && m'.start == start
          ensures c <= m'.colon && (m'.colon == c ==> m'.end <= e)
        {
          assert s[m'.colon] == ':' && s[m'.semi] == ';' && s[q] == ';';
          assert e < |s| ==> IsLineTerminator(s[e]);
        }
  }

  /** The engine tries start positions left to right and reports the first match it finds. */
  function FirstMatchFrom(s: string, from: nat): (r: Option<Span>)
    requires from <= |s|
    ensures r.Some? ==> SpanFits(s, r.value)
    decreases |s| - from
  {
    match MatchAt(s, from)
    case Some(m) => Some(m)
    case None => if from == |s| then None else FirstMatchFrom(s, from + 1)
  }

  /** What the search from `from` finds is the preferred match among those starting at `from` or later. */
  lemma {:induction false} FirstMatchFromCorrect(s: string, from: nat)
    requires from <= |s|
    ensures FirstMatchFrom(s, from).Some? ==>
              var m := FirstMatchFrom(s, from).value;
              from <= m.start && IsPatternMatch(s, m) &&
              (forall m' :: IsPatternMatch(s, m') && from <= m'.start ==> m.start <= m'.start) &&
              (forall m' :: IsPatternMatch(s, m') && m'.start == m.start ==>
                 m.colon <= m'.colon && (m'.colon == m.colon ==> m'.end <= m.end))
    ensures FirstMatchFrom(s, from).None? ==> forall m' :: IsPatternMatch(s, m') ==> m'.start < from
    decreases |s| - from
  {
    MatchAtCorrect(s, from);
    if MatchAt(s, from).None? {
      if from == |s| {
        forall m' | IsPatternMatch(s, m') ensures m'.start < from { }
      } else {
        FirstMatchFromCorrect(s, from + 1);
      }
    }
  }

  /** The reported match, when there is one, is unique. */
  lemma ReportedMatchUnique(s: string, m1: Span, m2: Span)
    requires IsReportedMatch(s, m1) && IsReportedMatch(s, m2)
    ensures m1 == m2
  {
    assert m1.start == m2.start;
    assert m1.colon == m2.colon;
    assert s[m1.semi] == ';' && s[m2.semi] == ';';
    assert m1.semi == m2.semi;
    assert m1.end == m2.end;
  }

  /**
   * `publisher.replace` with the pattern `.*?:([^;]*);.*` and `'$1'`: a non-global replace, so
   * the reported match (if any) is replaced by group 1 and the rest of the
   * string is kept.
   */
  function RewritePublisher(s: string): (r: string)
    ensures |r| <= |s|
    ensures (forall m :: !IsPatternMatch(s, m)) ==> r == s
    ensures (exists m :: IsPatternMatch(s, m)) ==>
              exists m :: IsReportedMatch(s, m) && r == s[..m.start] + s[m.colon + 1..m.semi] + s[m.end..]
  {
    RewritePublisherMatchesSomewhere(s);
    match FirstMatchFrom(s, 0)
    case None => s
    case Some(m) => s[..m.start] + s[m.colon + 1..m.semi] + s[m.end..]
  }

  /** When the pattern matches, the reported match is replaced by its group 1. */
  lemma RewritePublisherOnMatch(s: string, m: Span)
    requires IsReportedMatch(s, m)
    ensures RewritePublisher(s) == s[..m.start] + s[m.colon + 1..m.semi] + s[m.end..]
  {
    FirstMatchFromCorrect(s, 0);
    assert FirstMatchFrom(s, 0).Some?;
    ReportedMatchUnique(s, m, FirstMatchFrom(s, 0).value);
  }

  /** When the pattern does not match, the text is returned unchanged. */
  lemma RewritePublisherNoMatch(s: string)
    requires forall m :: !IsPatternMatch(s, m)
    ensures RewritePublisher(s) == s
  {
    FirstMatchFromCorrect(s, 0);
  }

  /** The rewrite changes the text exactly when the pattern matches somewhere. */
  lemma RewritePublisherMatchesSomewhere(s: string)
    ensures FirstMatchFrom(s, 0).Some? <==> exists m :: IsPatternMatch(s, m)
    ensures FirstMatchFrom(s, 0).Some? ==> IsReportedMatch(s, FirstMatchFrom(s, 0).value)
  {
    FirstMatchFromCorrect(s, 0);
  }

  /**
   * On one line of text, the rewrite keeps exactly what lies between the
   * first colon and the first semicolon after it.
   */
  lemma RewritePublisherSingleLine(s: string, c: nat, q: nat)
    requires NoLineTerminator(s, 0, |s|)
    requires c < q < |s| && s[c] == ':' && s[q] == ';'
    requires forall k :: 0 <= k < c ==> s[k] != ':'
    requires NoSemicolon(s, c + 1, q)
    ensures RewritePublisher(s) == s[c + 1..q]
  {
    var m := Span(0, c, q, |s|);
    assert IsPatternMatch(s, m);
    forall m' | IsPatternMatch(s, m') && m'.start == 0
      ensures c <= m'.colon && (m'.colon == c ==> m'.end <= |s|)
    { }
    RewritePublisherOnMatch(s, m);
    assert s[..0] + s[c + 1..q] + s[|s|..] == s[c + 1..q];
  }

  /** Text without a colon followed (anywhere later) by a semicolon is left unchanged. */
  lemma RewritePublisherNoColonSemicolon(s: string)
    requires forall i, j :: 0 <= i < j < |s| && s[i] == ':' ==> s[j] != ';'
    ensures RewritePublisher(s) == s
  {
    forall m ensures !IsPatternMatch(s, m) {
      if SpanFits(s, m) {
        assert s[m.colon] != ':' || s[m.semi] != ';';
      }
    }
    RewritePublisherNoMatch(s);
  }

  // ---------------------------------------------------------------------------
  // Number(pages.match(/\d+/)?.slice(0, 1)) || undefined
  // ---------------------------------------------------------------------------

  /** The index of the first ASCII digit at or after `from`. */
  function FirstDigitFrom(s: string, from: nat): (r: Option<nat>)
    requires from <= |s|
    ensures r.Some? ==> from <= r.value < |s| && IsAsciiDigit(s[r.value])
    ensures r.Some? ==> forall k :: from <= k < r.value ==> !IsAsciiDigit(s[k])
    ensures r.None? ==> forall k :: from <= k < |s| ==> !IsAsciiDigit(s[k])
    decreases |s| - from
  {
    if from == |s| then None
    else if IsAsciiDigit(s[from]) then Some(from)
    else FirstDigitFrom(s, from + 1)
  }

  /** Where the greedy `\d+` stops when it starts at `from`. */
  function DigitRunEnd(s: string, from: nat): (r: nat)
    requires from <= |s|
    ensures from <= r <= |s| && AllDigits(s, from, r)
    ensures r == |s| || !IsAsciiDigit(s[r])
    decreases |s| - from
  {
    if from == |s| || !IsAsciiDigit(s[from]) then from else DigitRunEnd(s, from + 1)
  }

  /** `s.match(/\d+/)?.[0]`: the leftmost, longest run of digits. */
  function FirstDigitRun(s: string): (r: Option<string>)
    ensures r.None? <==> AllNonDigits(s)
    ensures r.Some? ==> r.value != [] && forall k :: 0 <= k < |r.value| ==> IsAsciiDigit(r.value[k])
  {
    match FirstDigitFrom(s, 0)
    case None => None
    case Some(i) => Some(s[i..DigitRunEnd(s, i)])
  }

  /** `\d+` finds nothing exactly when the text holds no digit. */
  lemma FirstDigitRunNone(s: string)
    ensures FirstDigitRun(s).None? <==> AllNonDigits(s)
  {
  }

  /** No character of s is an ASCII digit. */
  predicate AllNonDigits(s: string) {
    forall k :: 0 <= k < |s| ==> !IsAsciiDigit(s[k])
  }

  /** The run `\d+` reports is the maximal run that begins at the first digit. */
  lemma FirstDigitRunIs(s: string, i: nat, j: nat)
    requires i < j <= |s|
    requires forall k :: 0 <= k < i ==> !IsAsciiDigit(s[k])
    requires AllDigits(s, i, j) && (j == |s| || !IsAsciiDigit(s[j]))
    ensures FirstDigitRun(s) == Some(s[i..j])
  {
    assert IsAsciiDigit(s[i]);
    var i' := FirstDigitFrom(s, 0).value;
    assert i' == i;
    var j' := DigitRunEnd(s, i);
    assert j' < |s| ==> !IsAsciiDigit(s[j']);
    assert j < |s| ==> !IsAsciiDigit(s[j]);
    assert j' == j;
  }

  /**
   * `Number(pages.match(/\d+/)?.slice(0, 1)) || undefined`: the value of the
   * first run of digits; no run gives NaN and a zero value is falsy, and
   * both become undefined.
   */
  function PageCount(text: string): (r: Option<nat>)
    ensures r.Some? ==> r.value > 0
  {
    match FirstDigitRun(text)
    case None => None
    case Some(run) =>
      var n := DecimalValue(run);
      if n == 0 then None else Some(n)
  }

  /** The text has no digit, or its first run of digits is all zeros. */
  predicate NoPositiveRun(text: string) {
    match FirstDigitRun(text)
    case None => true
    case Some(run) => forall k :: 0 <= k < |run| ==> run[k] == '0'
  }

  /** The page count is absent exactly when there is no digit or the first run is all zeros. */
  lemma PageCountAbsent(text: string)
    ensures PageCount(text).None? <==> NoPositiveRun(text)
  {
    match FirstDigitRun(text)
    case None =>
    case Some(run) => DecimalValueZero(run);
  }

  /** A page count is the value of the digits of the first run. */
  lemma PageCountOfRun(text: string, i: nat, j: nat)
    requires i < j <= |text|
    requires forall k :: 0 <= k < i ==> !IsAsciiDigit(text[k])
    requires AllDigits(text, i, j) && (j == |text| || !IsAsciiDigit(text[j]))
    requires DecimalValue(text[i..j]) > 0
    ensures PageCount(text) == Some(DecimalValue(text[i..j]))
  {
    FirstDigitRunIs(text, i, j);
  }

  // ---------------------------------------------------------------------------
  // isbn13.match(/\d{13}/)?.[0] || ''
  // ---------------------------------------------------------------------------

  /** The number of digits an ISBN-13 has. */
  const IsbnLength: nat := 13

  /** s[i..i + 13] is thirteen ASCII digits: where `\d{13}` can match. */
  predicate IsbnWindow(s: string, i: nat) {
    i + IsbnLength <= |s| && AllDigits(s, i, i + IsbnLength)
  }

  /** The leftmost position at or after `from` where `\d{13}` matches. */
  function IsbnWindowFrom(s: string, from: nat): (r: Option<nat>)
    requires from <= |s|
    ensures r.Some? ==> from <= r.value && IsbnWindow(s, r.value)
    ensures r.Some? ==> forall k :: from <= k < r.value ==> !IsbnWindow(s, k)
    ensures r.None? ==> forall k :: from <= k ==> !IsbnWindow(s, k)
    decreases |s| - from
  {
    if from + IsbnLength > |s| then None
    else if AllDigits(s, from, from + IsbnLength) then Some(from)
    else IsbnWindowFrom(s, from + 1)
  }

  /** `isbn13.match(/\d{13}/)?.[0] || ''`: the leftmost thirteen consecutive digits, or the empty string. */
  function Isbn13(s: string): (r: string)
    ensures r == [] || (|r| == IsbnLength && forall k :: 0 <= k < |r| ==> IsAsciiDigit(r[k]))
  {
    match IsbnWindowFrom(s, 0)
    case None => ""
    case Some(i) => s[i..i + IsbnLength]
  }

  /** The ISBN is empty exactly when no thirteen digits stand together. */
  lemma Isbn13Empty(s: string)
    ensures Isbn13(s) == [] <==> forall k :: !IsbnWindow(s, k)
  {
  }

  /** The ISBN is the leftmost window of thirteen digits (the first 13 of a longer run). */
  lemma Isbn13Leftmost(s: string, i: nat)
    requires IsbnWindow(s, i)
    requires forall k: nat :: k < i ==> !IsbnWindow(s, k)
    ensures Isbn13(s) == s[i..i + IsbnLength]
  {
    var r := IsbnWindowFrom(s, 0);
    assert r.Some?;
    assert r.value == i;
  }

  // ---------------------------------------------------------------------------
  // synopsis.replace(/[“”]/g, '')
  // ---------------------------------------------------------------------------

  /** The two typographic double quotes the scrapers delete. */
  predicate IsCurlyQuote(c: char) {
    c == '\U{201C}' || c == '\U{201D}'
  }

  /** `s.replace(/[“”]/g, '')`: every curly quote removed. */
  function StripCurlyQuotes(s: string): (r: string)
    ensures |r| <= |s|
    ensures forall k :: 0 <= k < |r| ==> !IsCurlyQuote(r[k])
    ensures (forall k :: 0 <= k < |s| ==> !IsCurlyQuote(s[k])) ==> r == s
  {
    if s == [] then []
    else if IsCurlyQuote(s[0]) then StripCurlyQuotes(s[1..])
    else [s[0]] + StripCurlyQuotes(s[1..])
  }

  /** Removal works piece by piece: together with the contract, it fixes the result (other characters kept, in order). */
  lemma {:induction false} StripCurlyQuotesAppend(a: string, b: string)
    ensures StripCurlyQuotes(a + b) == StripCurlyQuotes(a) + StripCurlyQuotes(b)
  {
    if a == [] {
      assert a + b == b;
    } else {
      assert (a + b)[0] == a[0];
      assert (a + b)[1..] == a[1..] + b;
      StripCurlyQuotesAppend(a[1..], b);
    }
  }

  /** One character: a curly quote is deleted, not replaced; any other character is kept. */
  lemma StripCurlyQuotesChar(c: char)
    ensures StripCurlyQuotes([c]) == if IsCurlyQuote(c) then [] else [c]
  {
    assert [c][1..] == [];
  }

  /** The number of curly quotes in a text. */
  function QuoteCount(s: string): nat {
    if s == [] then 0 else (if IsCurlyQuote(s[0]) then 1 else 0) + QuoteCount(s[1..])
  }

  /** Exactly one character is dropped per curly quote. */
  lemma {:induction false} StripCurlyQuotesLength(s: string)
    ensures |StripCurlyQuotes(s)| == |s| - QuoteCount(s)
  {
    if s != [] {
      StripCurlyQuotesLength(s[1..]);
    }
  }

  /** Removing the quotes twice removes nothing more. */
  lemma StripCurlyQuotesIdempotent(s: string)
    ensures StripCurlyQuotes(StripCurlyQuotes(s)) == StripCurlyQuotes(s)
  {
  }
}
