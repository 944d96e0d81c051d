/**
 * UTF-8 encoding of Unicode scalar values, and the decoder the
 * application/x-www-form-urlencoded parser applies to percent-decoded bytes.
 */
module Utf8 {

  /** An octet. */
  type Byte = b: int | 0 <= b < 256

  /** A continuation byte 10xxxxxx. */
  predicate IsContinuation(b: Byte) {
    0x80 <= b < 0xC0
  }

  /** The bytes of one scalar value: one to four, shortest form. */
  function EncodeChar(c: char): (r: seq<Byte>)
    ensures 1 <= |r| <= 4
    ensures (c as int < 0x80) <==> |r| == 1
    ensures |r| == 1 ==> r[0] == c as int
    ensures forall k :: 1 <= k < |r| ==> IsContinuation(r[k])
  {
    var n := c as int;
    if n < 0x80 then [n]
    else if n < 0x800 then [0xC0 + n / 64, 0x80 + n % 64]
    else if n < 0x10000 then [0xE0 + n / 4096, 0x80 + (n / 64) % 64, 0x80 + n % 64]
    else [0xF0 + n / 262144, 0x80 + (n / 4096) % 64, 0x80 + (n / 64) % 64, 0x80 + n % 64]
  }

  /** UTF-8 encode: the characters' byte sequences one after another. */
  function Encode(s: string): (r: seq<Byte>)
    ensures |r| >= |s|
    ensures |r| == |s| <==> forall k :: 0 <= k < |s| ==> s[k] as int < 0x80
  {
    if s == [] then [] else EncodeChar(s[0]) + Encode(s[1..])
  }

  /** Encoding a concatenation is concatenating the encodings. */
  lemma {:induction false} EncodeAppend(a: string, b: string)
    ensures Encode(a + b) == Encode(a) + Encode(b)
  {
    if a == [] {
      assert a + b == b;
    } else {
      assert (a + b)[0] == a[0];
      assert (a + b)[1..] == a[1..] + b;
      EncodeAppend(a[1..], b);
    }
  }

  /** An ASCII string encodes to its own code points. */
  lemma {:induction false} EncodeAscii(s: string)
    requires forall k :: 0 <= k < |s| ==> s[k] as int < 0x80
    ensures |Encode(s)| == |s| && forall k :: 0 <= k < |s| ==> Encode(s)[k] == s[k] as int
  {
    if s != [] {
      EncodeAscii(s[1..]);
    }
  }

  /** U+FFFD, emitted for bytes that do not form a character. */
  const Replacement: char := '\U{FFFD}'

  /** How many bytes a sequence starting with `lead` has, or 0 for a byte that cannot start one. */
  function SequenceLength(lead: Byte): nat {
    if lead < 0x80 then 1
    else if 0xC2 <= lead < 0xE0 then 2
    else if 0xE0 <= lead < 0xF0 then 3
    else if 0xF0 <= lead < 0xF5 then 4
    else 0
  }

  /** The code point a lead byte and its continuation bytes spell out. */
  function CodePoint(bs: seq<Byte>): int
    requires 1 <= |bs| <= 4
  {
    var b0, b1, b2, b3 := bs[0] as int, if |bs| > 1 then bs[1] as int else 0,
                          if |bs| > 2 then bs[2] as int else 0, if |bs| > 3 then bs[3] as int else 0;
    if |bs| == 1 then b0
    else if |bs| == 2 then (b0 - 0xC0) * 64 + (b1 - 0x80)
    else if |bs| == 3 then (b0 - 0xE0) * 4096 + (b1 - 0x80) * 64 + (b2 - 0x80)
    else (b0 - 0xF0) * 262144 + (b1 - 0x80) * 4096 + (b2 - 0x80) * 64 + (b3 - 0x80)
  }

  /** The smallest code point that needs `len` bytes: anything less is an overlong form. */
  function MinCodePoint(len: nat): int {
    if len <= 1 then 0 else if len == 2 then 0x80 else if len == 3 then 0x800 else 0x10000
  }

  /** A Unicode scalar value: a code point that is not a surrogate. */
  predicate IsScalar(n: int) {
    (0 <= n < 0xD800) || (0xE000 <= n < 0x110000)
  }

  /**
   * UTF-8 decode: each well-formed sequence becomes its character; a byte
   * that does not start one becomes U+FFFD and decoding resumes after it.
   */
  function Decode(bs: seq<Byte>): string
    decreases |bs|
  {
    if bs == [] then []
    else
      var len := SequenceLength(bs[0]);
      if 1 <= len <= |bs| && (forall k :: 1 <= k < len ==> IsContinuation(bs[k])) &&
         IsScalar(CodePoint(bs[..len])) && CodePoint(bs[..len]) >= MinCodePoint(len)
      then [CodePoint(bs[..len]) as char] + Decode(bs[len..])
      else [Replacement] + Decode(bs[1..])
  }

  /** The bytes of one character spell out its code point again, in shortest form. */
  lemma EncodeCharCodePoint(c: char)
    ensures SequenceLength(EncodeChar(c)[0]) == |EncodeChar(c)|
    ensures CodePoint(EncodeChar(c)) == c as int
    ensures CodePoint(EncodeChar(c)) >= MinCodePoint(|EncodeChar(c)|)
  {
    var n := c as int;
    var a := n / 64;
    var b := a / 64;
    var d := b / 64;
    assert n == a * 64 + n % 64;
    assert a == b * 64 + a % 64;
    assert b == d * 64 + b % 64;
    assert n / 4096 == b;
    assert n / 262144 == d;
    assert (n / 64) % 64 == a % 64;
    assert (n / 4096) % 64 == b % 64;
  }

  /** Decoding one encoded character, then the rest. */
  lemma DecodeEncodeChar(c: char, rest: seq<Byte>)
    ensures Decode(EncodeChar(c) + rest) == [c] + Decode(rest)
  {
    var e := EncodeChar(c);
    var bs := e + rest;
    EncodeCharCodePoint(c);
    assert bs[..|e|] == e;
    assert bs[|e|..] == rest;
    assert forall k :: 1 <= k < |e| ==> IsContinuation(bs[k]);
  }

  /** Decoding undoes encoding. */
  lemma {:induction false} DecodeEncode(s: string)
    ensures Decode(Encode(s)) == s
  {
    if s != [] {
      DecodeEncodeChar(s[0], Encode(s[1..]));
      DecodeEncode(s[1..]);
    }
  }
}
