/**
 * The application/x-www-form-urlencoded serializer and parser of the WHATWG
 * URL Standard (sections 5.2 and 5.1), which `URLSearchParams.toString()`
 * and `new URLSearchParams(string)` use, and the round trip between them.
 */
module FormUrlencoded {
  import opened Utf8

  /** A name-value pair. */
  type Pair = (string, string)

  /** The bytes the urlencoded serializer leaves as they are: ASCII alphanumerics and `*-._`. */
  predicate IsUnreserved(b: Byte) {
    || b == 0x2A || b == 0x2D || b == 0x2E || b == 0x5F
    || (0x30 <= b <= 0x39) || (0x41 <= b <= 0x5A) || (0x61 <= b <= 0x7A)
  }

  /** An upper-case hexadecimal digit. */
  function HexDigit(v: nat): (c: char)
    requires v < 16
    ensures IsUpperHex(c) && HexCharValue(c) == v
  {
    if v < 10 then ('0' as int + v) as char else ('A' as int + v - 10) as char
  }

  /** An upper-case hexadecimal digit character. */
  predicate IsUpperHex(c: char) {
    ('0' <= c <= '9') || ('A' <= c <= 'F')
  }

  /** The value of an upper-case hexadecimal digit character. */
  function HexCharValue(c: char): (v: nat)
    requires IsUpperHex(c)
    ensures v < 16
  {
    if c <= '9' then c as int - '0' as int else c as int - 'A' as int + 10
  }

  /** The urlencoded byte serializer on one byte: `+` for a space, the byte itself, or `%XY`. */
  function SerializeByte(b: Byte): (r: string)
    ensures |r| == 1 || |r| == 3
    ensures forall k :: 0 <= k < |r| ==> r[k] as int < 0x80 && r[k] != '&' && r[k] != '='
    ensures b == 0x20 <==> r == "+"
    ensures IsUnreserved(b) <==> r == [b as char]
    ensures |r| == 3 <==> b != 0x20 && !IsUnreserved(b)
    ensures |r| == 3 ==> r[0] == '%' && IsUpperHex(r[1]) && IsUpperHex(r[2])
                         && HexCharValue(r[1]) * 16 + HexCharValue(r[2]) == b
  {
    if b == 0x20 then "+"
    else if IsUnreserved(b) then [b as char]
    else ['%', HexDigit(b / 16), HexDigit(b % 16)]
  }

  /** The urlencoded byte serializer. */
  function SerializeBytes(bs: seq<Byte>): (r: string)
    ensures forall k :: 0 <= k < |r| ==> r[k] as int < 0x80 && r[k] != '&' && r[k] != '='
  {
    if bs == [] then "" else SerializeByte(bs[0]) + SerializeBytes(bs[1..])
  }

  /** A name or value: UTF-8 encoded, then byte-serialized. */
  function SerializeString(s: string): (r: string)
    ensures forall k :: 0 <= k < |r| ==> r[k] as int < 0x80 && r[k] != '&' && r[k] != '='
  {
    SerializeBytes(Encode(s))
  }

  /** One pair: `name=value`. */
  function SerializePair(p: Pair): (r: string)
    ensures |r| >= 1
    ensures forall k :: 0 <= k < |r| ==> r[k] as int < 0x80 && r[k] != '&'
  {
    SerializeString(p.0) + "=" + SerializeString(p.1)
  }

  /** The urlencoded serializer: the serialized pairs in order, separated by `&`. */
  function Serialize(pairs: seq<Pair>): (r: string)
    ensures forall k :: 0 <= k < |r| ==> r[k] as int < 0x80
  {
    if pairs == [] then ""
    else if |pairs| == 1 then SerializePair(pairs[0])
    else SerializePair(pairs[0]) + "&" + Serialize(pairs[1..])
  }

  // ---------------------------------------------------------------------------
  // The parser
  // ---------------------------------------------------------------------------

  /** An ASCII hexadecimal digit, either case. */
  predicate IsHexByte(b: Byte) {
    (0x30 <= b <= 0x39) || (0x41 <= b <= 0x46) || (0x61 <= b <= 0x66)
  }

  /** The value of a hexadecimal digit byte. */
  function HexValue(b: Byte): (v: nat)
    requires IsHexByte(b)
    ensures v < 16
  {
    if b <= 0x39 then b - 0x30 else if b <= 0x46 then b - 0x41 + 10 else b - 0x61 + 10
  }

  /** Percent-decode: `%` and two hex digits become that byte; every other byte is kept. */
  function PercentDecode(bs: seq<Byte>): seq<Byte>
    decreases |bs|
  {
    if bs == [] then []
    else if bs[0] == 0x25 && |bs| >= 3 && IsHexByte(bs[1]) && IsHexByte(bs[2])
    then [HexValue(bs[1]) * 16 + HexValue(bs[2])] + PercentDecode(bs[3..])
    else [bs[0]] + PercentDecode(bs[1..])
  }

  /** Every 0x2B (`+`) replaced by 0x20 (space). */
  function PlusToSpace(bs: seq<Byte>): (r: seq<Byte>)
    ensures |r| == |bs|
    ensures forall k :: 0 <= k < |bs| ==> r[k] == if bs[k] == 0x2B then 0x20 else bs[k]
  {
    if bs == [] then [] else [if bs[0] == 0x2B then 0x20 else bs[0]] + PlusToSpace(bs[1..])
  }

  /** A name or value of the parser: `+` to space, percent-decode, UTF-8 decode. */
  function DecodeComponent(bs: seq<Byte>): string {
    Decode(PercentDecode(PlusToSpace(bs)))
  }

  /** The index of the first `b` at or after `from`, or |bs|. */
  function IndexOrEnd(bs: seq<Byte>, b: Byte, from: nat): (r: nat)
    requires from <= |bs|
    ensures from <= r <= |bs| && (r == |bs| || bs[r] == b)
    ensures forall k :: from <= k < r ==> bs[k] != b
    decreases |bs| - from
  {
    if from == |bs| || bs[from] == b then from else IndexOrEnd(bs, b, from + 1)
  }

  /** One non-empty `&`-separated sequence: name before the first `=`, value after it (or empty). */
  function ParseSequence(bs: seq<Byte>): Pair {
    var i := IndexOrEnd(bs, 0x3D, 0);
    (DecodeComponent(bs[..i]), DecodeComponent(if i < |bs| then bs[i + 1..] else []))
  }

  /** The urlencoded parser on bytes: split on `&`, skip empty sequences, parse each. */
  function ParseBytes(bs: seq<Byte>): seq<Pair>
    decreases |bs|
  {
    if bs == [] then []
    else
      var i := IndexOrEnd(bs, 0x26, 0);
      (if i == 0 then [] else [ParseSequence(bs[..i])]) + (if i == |bs| then [] else ParseBytes(bs[i + 1..]))
  }

  /** The urlencoded parser on a string (what `new URLSearchParams(string)` does): UTF-8 encode, then parse. */
  function Parse(input: string): seq<Pair> {
    ParseBytes(Encode(input))
  }

  // ---------------------------------------------------------------------------
  // The round trip
  // ---------------------------------------------------------------------------

  /** The byte sequence of one serialized byte, once `+` is read as a space, percent-decodes to that byte. */
  lemma PercentDecodeSerializedByte(b: Byte, rest: seq<Byte>)
    ensures PercentDecode(PlusToSpace(Encode(SerializeByte(b))) + rest) == [b] + PercentDecode(rest)
  {
    var t := SerializeByte(b);
    EncodeAscii(t);
    var w := PlusToSpace(Encode(t));
    var bs := w + rest;
    if b == 0x20 || IsUnreserved(b) {
      assert w == [b];
      assert bs[1..] == rest;
    } else {
      assert w == [0x25, HexDigit(b / 16) as int, HexDigit(b % 16) as int];
      assert bs[3..] == rest;
    }
  }

  /** Decoding the serialization of bytes, `+` read as space, gives the bytes back. */
  lemma {:induction false} PercentDecodeSerializeBytes(bs: seq<Byte>)
    ensures PercentDecode(PlusToSpace(Encode(SerializeBytes(bs)))) == bs
  {
    if bs != [] {
      var head := SerializeByte(bs[0]);
      var tail := SerializeBytes(bs[1..]);
      EncodeAppend(head, tail);
      PlusToSpaceAppend(Encode(head), Encode(tail));
      PercentDecodeSerializedByte(bs[0], PlusToSpace(Encode(tail)));
      PercentDecodeSerializeBytes(bs[1..]);
    }
  }

  /** `+` replacement works piecewise. */
  lemma PlusToSpaceAppend(a: seq<Byte>, b: seq<Byte>)
    ensures PlusToSpace(a + b) == PlusToSpace(a) + PlusToSpace(b)
  {
  }

  /** A serialized name or value decodes to itself. */
  lemma DecodeSerializedString(s: string)
    ensures DecodeComponent(Encode(SerializeString(s))) == s
  {
    PercentDecodeSerializeBytes(Encode(s));
    DecodeEncode(s);
  }

  /** The bytes of an ASCII string with no `c` hold no byte `c`. */
  lemma EncodeAvoids(s: string, c: char)
    requires c as int < 0x80
    requires forall k :: 0 <= k < |s| ==> s[k] as int < 0x80 && s[k] != c
    ensures forall k :: 0 <= k < |Encode(s)| ==> Encode(s)[k] != c as int
  {
    EncodeAscii(s);
  }

  /** Joining two texts with `=` joins their encodings with the byte 0x3D. */
  lemma EncodeWithEquals(a: string, b: string)
    ensures Encode(a + "=" + b) == Encode(a) + [0x3D] + Encode(b)
  {
    EncodeAppend(a, "=");
    EncodeAppend(a + "=", b);
    EncodeAscii("=");
  }

  /** A serialized pair parses back to the pair. */
  lemma ParseSerializedPair(p: Pair)
    ensures ParseSequence(Encode(SerializePair(p))) == p
  {
    var n := SerializeString(p.0);
    var v := SerializeString(p.1);
    EncodeWithEquals(n, v);
    EncodeAvoids(n, '=');
    var bs := Encode(SerializePair(p));
    var i := IndexOrEnd(bs, 0x3D, 0);
    assert bs[|Encode(n)|] == 0x3D;
    assert forall k :: 0 <= k < |Encode(n)| ==> bs[k] == Encode(n)[k];
    assert i == |Encode(n)|;
    assert bs[..i] == Encode(n);
    assert bs[i + 1..] == Encode(v);
    DecodeSerializedString(p.0);
    DecodeSerializedString(p.1);
  }

  /** A last sequence without `&` parses on its own. */
  lemma ParseBytesLast(e: seq<Byte>)
    requires e != [] && forall k :: 0 <= k < |e| ==> e[k] != 0x26
    ensures ParseBytes(e) == [ParseSequence(e)]
  {
    assert IndexOrEnd(e, 0x26, 0) == |e|;
    assert e[..|e|] == e;
  }

  /** A sequence without `&`, then `&`, then the rest: the sequence's pair comes first. */
  lemma ParseBytesCons(e: seq<Byte>, rest: seq<Byte>)
    requires e != [] && forall k :: 0 <= k < |e| ==> e[k] != 0x26
    ensures ParseBytes(e + [0x26] + rest) == [ParseSequence(e)] + ParseBytes(rest)
  {
    var bs := e + [0x26] + rest;
    assert bs[|e|] == 0x26;
    assert forall k :: 0 <= k < |e| ==> bs[k] == e[k];
    assert IndexOrEnd(bs, 0x26, 0) == |e|;
    assert bs[..|e|] == e;
    assert bs[|e| + 1..] == rest;
  }

  /** Joining two texts with `&` joins their encodings with the byte 0x26. */
  lemma EncodeJoined(a: string, b: string)
    ensures Encode(a + "&" + b) == Encode(a) + [0x26] + Encode(b)
  {
    EncodeAppend(a, "&");
    EncodeAppend(a + "&", b);
    EncodeAscii("&");
  }

  /** A serialized pair encodes to a non-empty byte sequence without `&` that parses back to the pair. */
  lemma SerializedPairBytes(p: Pair)
    ensures var e := Encode(SerializePair(p));
            e != [] && (forall k :: 0 <= k < |e| ==> e[k] != 0x26) && ParseSequence(e) == p
  {
    EncodeAvoids(SerializePair(p), '&');
    ParseSerializedPair(p);
  }

  /** Parsing the serialization of a list of pairs gives the list back. */
  lemma {:induction false} ParseSerialize(pairs: seq<Pair>)
    ensures Parse(Serialize(pairs)) == pairs
  {
    if pairs != [] {
      var first := SerializePair(pairs[0]);
      SerializedPairBytes(pairs[0]);
      var e := Encode(first);
      if |pairs| == 1 {
        assert Serialize(pairs) == first;
        ParseBytesLast(e);
        assert Parse(first) == [pairs[0]];
      } else {
        var rest := Serialize(pairs[1..]);
        assert Serialize(pairs) == first + "&" + rest;
        EncodeJoined(first, rest);
        ParseBytesCons(e, Encode(rest));
        ParseSerialize(pairs[1..]);
        assert Parse(first + "&" + rest) == [pairs[0]] + Parse(rest);
      }
    }
  }
}
