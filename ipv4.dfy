/**
 * The IPv4 part of host parsing in the WHATWG URL Standard (section 3.5):
 * a host whose last label is a number is read as an IPv4 address of one
 * to four parts, each decimal, octal (leading `0`) or hexadecimal (leading
 * `0x`), and written back as four decimal octets (section 3.6).
 */
module Ipv4 {
  import opened Wrappers
  import opened JsText

  // ---------------------------------------------------------------------------
  // Splitting on '.'
  // ---------------------------------------------------------------------------

  /** No '.' in s. */
  predicate NoDot(s: string) {
    forall k :: 0 <= k < |s| ==> s[k] != '.'
  }

  /** `input` strictly split on '.': the pieces between the dots, in order. */
  function SplitOnDots(s: string): (r: seq<string>)
    ensures |r| >= 1
    ensures forall i :: 0 <= i < |r| ==> NoDot(r[i])
  {
    if s == [] then [""]
    else
      var rest := SplitOnDots(s[1..]);
      if s[0] == '.' then [""] + rest else [[s[0]] + rest[0]] + rest[1..]
  }

  /** The pieces joined back with '.' between them. */
  function JoinWithDots(parts: seq<string>): string
    requires |parts| >= 1
  {
    if |parts| == 1 then parts[0] else parts[0] + "." + JoinWithDots(parts[1..])
  }

  /** A dot-free prefix joins the first piece of what follows it. */
  lemma {:induction false} SplitDotFreePrefix(a: string, tail: string)
    requires NoDot(a)
    ensures SplitOnDots(a + tail) == [a + SplitOnDots(tail)[0]] + SplitOnDots(tail)[1..]
  {
    if a == [] {
      assert a + tail == tail;
      assert a + SplitOnDots(tail)[0] == SplitOnDots(tail)[0];
    } else {
      assert (a + tail)[0] == a[0];
      assert (a + tail)[1..] == a[1..] + tail;
      SplitDotFreePrefix(a[1..], tail);
      assert [a[0]] + (a[1..] + SplitOnDots(tail)[0]) == a + SplitOnDots(tail)[0];
    }
  }

  /** Splitting the join of dot-free pieces gives the pieces back. */
  lemma {:induction false} SplitJoin(parts: seq<string>)
    requires |parts| >= 1 && forall i :: 0 <= i < |parts| ==> NoDot(parts[i])
    ensures SplitOnDots(JoinWithDots(parts)) == parts
  {
    if |parts| == 1 {
      SplitDotFreePrefix(parts[0], "");
      assert parts[0] + "" == parts[0];
    } else {
      var rest := JoinWithDots(parts[1..]);
      SplitJoin(parts[1..]);
      assert ("." + rest)[0] == '.' && ("." + rest)[1..] == rest;
      assert SplitOnDots("." + rest) == [""] + parts[1..];
      assert parts[0] + "." + rest == parts[0] + ("." + rest);
      SplitDotFreePrefix(parts[0], "." + rest);
      assert parts[0] + "" == parts[0];
    }
  }

  /** Joining the pieces of a split gives the text back. */
  lemma {:induction false} JoinSplit(s: string)
    ensures JoinWithDots(SplitOnDots(s)) == s
  {
    if s != [] {
      var rest := SplitOnDots(s[1..]);
      JoinSplit(s[1..]);
      if s[0] == '.' {
        assert SplitOnDots(s)[1..] == rest;
        assert s == "." + s[1..];
      } else if |rest| == 1 {
        assert s == [s[0]] + s[1..];
      } else {
        assert SplitOnDots(s)[1..] == rest[1..];
        assert s[1..] == rest[0] + "." + JoinWithDots(rest[1..]);
        assert s == [s[0]] + s[1..];
      }
    }
  }

  /** The pieces, less a trailing empty piece when there are others (a host may end with '.'). */
  function DropTrailingEmpty(parts: seq<string>): (r: seq<string>)
    requires |parts| >= 1
    ensures 1 <= |r| <= |parts| && r == parts[..|r|]
    ensures |r| < |parts| ==> |r| == |parts| - 1
    ensures |r| < |parts| <==> |parts| > 1 && parts[|parts| - 1] == ""
  {
    if |parts| > 1 && parts[|parts| - 1] == "" then parts[..|parts| - 1] else parts
  }

  // ---------------------------------------------------------------------------
  // Numbers
  // ---------------------------------------------------------------------------

  /** A digit of radix 8, 10 or 16 (hexadecimal letters in either case). */
  predicate IsRadixDigit(c: char, radix: nat) {
    if radix == 16 then IsAsciiDigit(c) || ('a' <= c <= 'f') || ('A' <= c <= 'F')
    else if radix == 8 then '0' <= c <= '7'
    else IsAsciiDigit(c)
  }

  /** The value of a digit of the given radix. */
  function RadixDigitValue(c: char, radix: nat): (r: nat)
    requires IsRadixDigit(c, radix)
    ensures r < 16
  {
    if IsAsciiDigit(c) then c as int - '0' as int
    else if 'a' <= c <= 'f' then c as int - 'a' as int + 10
    else c as int - 'A' as int + 10
  }

  /** The value of a digit string in the given radix. */
  function RadixValue(ds: string, radix: nat): nat
    requires radix == 8 || radix == 10 || radix == 16
    requires forall k :: 0 <= k < |ds| ==> IsRadixDigit(ds[k], radix)
  {
    if ds == [] then 0
    else RadixValue(ds[..|ds| - 1], radix) * radix + RadixDigitValue(ds[|ds| - 1], radix)
  }

  /** In radix 10 the value is the ordinary decimal value. */
  lemma {:induction false} RadixTenIsDecimal(ds: string)
    requires forall k :: 0 <= k < |ds| ==> IsAsciiDigit(ds[k])
    ensures RadixValue(ds, 10) == DecimalValue(ds)
  {
    if ds != [] {
      RadixTenIsDecimal(ds[..|ds| - 1]);
    }
  }

  /**
   * The IPv4 number parser: None is failure. Its validation-error flag is
   * not observable through `new URL` and is not modelled.
   */
  function ParseNumber(input: string): (r: Option<nat>)
    ensures input == [] ==> r.None?
    ensures input != [] && input[0] != '0' ==>
              (r.Some? <==> forall k :: 0 <= k < |input| ==> IsAsciiDigit(input[k]))
  {
    if input == [] then None
    else
      var radix: nat := if |input| >= 2 && input[0] == '0' && (input[1] == 'x' || input[1] == 'X') then 16
                        else if |input| >= 2 && input[0] == '0' then 8
                        else 10;
      var digits := if radix == 16 then input[2..] else if radix == 8 then input[1..] else input;
      if digits == [] then Some(0)
      else if forall k :: 0 <= k < |digits| ==> IsRadixDigit(digits[k], radix) then Some(RadixValue(digits, radix))
      else None
  }

  /** A decimal number without a leading zero parses to its value. */
  lemma ParseDecimal(input: string)
    requires input != [] && forall k :: 0 <= k < |input| ==> IsAsciiDigit(input[k])
    requires |input| == 1 || input[0] != '0'
    ensures ParseNumber(input) == Some(DecimalValue(input))
  {
    RadixTenIsDecimal(input);
    assert forall k :: 0 <= k < |input| ==> IsRadixDigit(input[k], 10);
  }

  /** Each part parsed; None when any part fails. */
  function ParseNumbers(parts: seq<string>): (r: Option<seq<nat>>)
    ensures r.Some? ==> |r.value| == |parts|
    ensures r.Some? ==> forall i :: 0 <= i < |parts| ==> ParseNumber(parts[i]) == Some(r.value[i])
    ensures r.None? ==> exists i :: 0 <= i < |parts| && ParseNumber(parts[i]).None?
  {
    if parts == [] then Some([])
    else
      match ParseNumber(parts[0])
      case None => None
      case Some(n) =>
        match ParseNumbers(parts[1..])
        case None => None
        case Some(ns) => Some([n] + ns)
  }

  /** Parts that each parse to the matching number parse together to the numbers. */
  lemma {:induction false} ParseEach(parts: seq<string>, ns: seq<nat>)
    requires |parts| == |ns| && forall i :: 0 <= i < |parts| ==> ParseNumber(parts[i]) == Some(ns[i])
    ensures ParseNumbers(parts) == Some(ns)
  {
    if parts != [] {
      ParseEach(parts[1..], ns[1..]);
      assert [ns[0]] + ns[1..] == ns;
    }
  }

  /** 256 to the power e. */
  function Pow256(e: nat): nat {
    if e == 0 then 1 else 256 * Pow256(e - 1)
  }

  /** 256^e for the exponents the parser uses. */
  lemma Pow256Values()
    ensures Pow256(0) == 1 && Pow256(1) == 0x100 && Pow256(2) == 0x1_0000
    ensures Pow256(3) == 0x100_0000 && Pow256(4) == 0x1_0000_0000
  {
  }

  /** The earlier numbers weighted: each times 256^(3 - its position). */
  function Weighted(ns: seq<nat>, counter: nat): nat
    requires counter + |ns| <= 3
  {
    if ns == [] then 0 else ns[0] * Pow256(3 - counter) + Weighted(ns[1..], counter + 1)
  }

  /** The address the numbers denote: the last one plus the weighted earlier ones. */
  function Combine(numbers: seq<nat>): nat
    requires 1 <= |numbers| <= 4
  {
    numbers[|numbers| - 1] + Weighted(numbers[..|numbers| - 1], 0)
  }

  /** The parser's bounds: every number but the last fits an octet, the last fits what is left. */
  predicate WithinBounds(numbers: seq<nat>)
    requires 1 <= |numbers| <= 4
  {
    && (forall i :: 0 <= i < |numbers| - 1 ==> numbers[i] <= 255)
    && numbers[|numbers| - 1] < Pow256(5 - |numbers|)
  }

  /** Numbers within the bounds denote a 32-bit address. */
  lemma CombineFits(numbers: seq<nat>)
    requires 1 <= |numbers| <= 4 && WithinBounds(numbers)
    ensures Combine(numbers) < 0x1_0000_0000
  {
    Pow256Values();
    var n := numbers;
    var init := n[..|n| - 1];
    if |n| == 1 {
    } else if |n| == 2 {
      assert Weighted(init, 0) == n[0] * 0x100_0000;
    } else if |n| == 3 {
      assert Weighted(init[1..], 1) == n[1] * 0x1_0000;
      assert Weighted(init, 0) == n[0] * 0x100_0000 + n[1] * 0x1_0000;
    } else {
      assert Weighted(init[2..], 2) == n[2] * 0x100;
      assert Weighted(init[1..], 1) == n[1] * 0x1_0000 + n[2] * 0x100;
      assert Weighted(init, 0) == n[0] * 0x100_0000 + n[1] * 0x1_0000 + n[2] * 0x100;
    }
  }

  // ---------------------------------------------------------------------------
  // The IPv4 parser
  // ---------------------------------------------------------------------------

  /** The labels of a host: split on '.', a trailing empty label dropped. */
  function Labels(host: string): (r: seq<string>)
    ensures |r| >= 1
  {
    DropTrailingEmpty(SplitOnDots(host))
  }

  /** The "ends in a number" checker: the last label is all digits, or parses as an IPv4 number. */
  predicate EndsInNumber(host: string) {
    var last := Labels(host)[|Labels(host)| - 1];
    (last != [] && forall k :: 0 <= k < |last| ==> IsAsciiDigit(last[k])) || ParseNumber(last).Some?
  }

  /** The IPv4 parser: the address, or None for failure. */
  function ParseAddress(host: string): (r: Option<nat>)
    ensures r.Some? ==> r.value < 0x1_0000_0000
    ensures r.Some? <==> |Labels(host)| <= 4 && ParseNumbers(Labels(host)).Some? && WithinBounds(ParseNumbers(Labels(host)).value)
    ensures r.Some? ==> r.value == Combine(ParseNumbers(Labels(host)).value)
  {
    var parts := Labels(host);
    if |parts| > 4 then None
    else
      match ParseNumbers(parts)
      case None => None
      case Some(numbers) =>
        if !WithinBounds(numbers) then None
        else
          CombineFits(numbers);
          Some(Combine(numbers))
  }

  // ---------------------------------------------------------------------------
  // The IPv4 serializer
  // ---------------------------------------------------------------------------

  /** The ASCII digit for a value below ten. */
  function DigitChar(d: nat): (c: char)
    requires d < 10
    ensures IsAsciiDigit(c) && DigitValue(c) == d
  {
    ('0' as int + d) as char
  }

  /** A number in decimal, without leading zeros. */
  function Decimal(n: nat): (r: string)
    ensures r != [] && (forall k :: 0 <= k < |r| ==> IsAsciiDigit(r[k]))
    ensures |r| == 1 || r[0] != '0'
    ensures DecimalValue(r) == n
  {
    if n < 10 then [DigitChar(n)]
    else
      var r := Decimal(n / 10) + [DigitChar(n % 10)];
      DecimalValueSnoc(Decimal(n / 10), DigitChar(n % 10));
      r
  }

  /**
   * The four octets of an address, most significant first: the serializer
   * takes the address modulo 256 and divides it by 256, four times.
   */
  function Octets(address: nat): (r: seq<nat>)
    ensures |r| == 4 && forall i :: 0 <= i < 4 ==> r[i] <= 255
  {
    var b := address / 256;
    var c := b / 256;
    [c / 256 % 256, c % 256, b % 256, address % 256]
  }

  /** The IPv4 serializer: the four octets in decimal, joined by '.'. */
  function Serialize(address: nat): (r: string)
    ensures forall k :: 0 <= k < |r| ==> IsAsciiDigit(r[k]) || r[k] == '.'
    ensures r != [] && IsAsciiDigit(r[|r| - 1])
  {
    var o := Octets(address);
    Decimal(o[0]) + "." + Decimal(o[1]) + "." + Decimal(o[2]) + "." + Decimal(o[3])
  }

  /** A 32-bit address is recombined from its octets. */
  lemma OctetsCombine(address: nat)
    requires address < 0x1_0000_0000
    ensures Combine(Octets(address)) == address
  {
    var b := address / 256;
    var c := b / 256;
    var d := c / 256;
    assert address == b * 256 + address % 256;
    assert b == c * 256 + b % 256;
    assert c == d * 256 + c % 256;
    assert b < 0x100_0000 && c < 0x1_0000 && d < 256;
    var o := Octets(address);
    assert o == [d, c % 256, b % 256, address % 256];
    WeightedThree(o[..3]);
  }

  /** Three leading numbers weigh 256^3, 256^2 and 256. */
  lemma WeightedThree(ns: seq<nat>)
    requires |ns| == 3
    ensures Weighted(ns, 0) == (ns[0] * 256 + ns[1]) * 0x1_0000 + ns[2] * 256
  {
    Pow256Values();
    assert Weighted(ns[2..], 2) == ns[2] * 256;
    assert Weighted(ns[1..], 1) == ns[1] * 0x1_0000 + ns[2] * 256;
  }

  /** The decimal octets of an address, as the serializer writes them. */
  function OctetTexts(address: nat): (r: seq<string>)
    ensures |r| == 4
  {
    var o := Octets(address);
    [Decimal(o[0]), Decimal(o[1]), Decimal(o[2]), Decimal(o[3])]
  }

  /** The labels of a serialized address are its decimal octets. */
  lemma SerializeLabels(address: nat)
    ensures Labels(Serialize(address)) == OctetTexts(address)
  {
    var p := OctetTexts(address);
    SerializeJoins(address);
    forall i | 0 <= i < 4 ensures NoDot(p[i]) {
    }
    SplitJoin(p);
  }

  /** The serializer joins the decimal octets with '.'. */
  lemma SerializeJoins(address: nat)
    ensures JoinWithDots(OctetTexts(address)) == Serialize(address)
  {
    var p := OctetTexts(address);
    assert p[3..] == [p[3]];
    assert JoinWithDots(p[2..]) == p[2] + "." + p[3];
    assert JoinWithDots(p[1..]) == p[1] + "." + (p[2] + "." + p[3]);
    assert JoinWithDots(p) == p[0] + "." + (p[1] + "." + (p[2] + "." + p[3]));
  }

  /** Parsing a serialized address gives the address back. */
  lemma ParseSerialize(address: nat)
    requires address < 0x1_0000_0000
    ensures ParseAddress(Serialize(address)) == Some(address)
  {
    var o := Octets(address);
    var parts := OctetTexts(address);
    forall i | 0 <= i < 4 ensures ParseNumber(parts[i]) == Some(o[i]) {
      ParseDecimal(parts[i]);
    }
    SerializeLabels(address);
    ParseEach(parts, o);
    Pow256Values();
    assert WithinBounds(o);
    OctetsCombine(address);
  }

  // ---------------------------------------------------------------------------
  // Examples
  // ---------------------------------------------------------------------------

  /** "0x7f.1": a hexadecimal first part and a last part filling the three low octets. */
  lemma ShortHexAddress()
    ensures EndsInNumber("0x7f.1")
    ensures ParseAddress("0x7f.1") == Some(0x7F00_0001)
  {
    ShortHexLabels();
    ShortHexNumbers();
    ShortHexCombine();
  }

  /** 127 and 1 are within the bounds of a two-part address, and denote 127.0.0.1. */
  lemma ShortHexCombine()
    ensures WithinBounds([127, 1]) && Combine([127, 1]) == 0x7F00_0001
  {
    Pow256Values();
    assert [127, 1][..1] == [127] && [127][1..] == [];
    assert Weighted([127], 0) == 127 * 0x100_0000;
  }

  /** The parts of "0x7f.1" as numbers. */
  lemma ShortHexNumbers()
    ensures ParseNumbers(["0x7f", "1"]) == Some([127, 1])
  {
    assert "7f"[..1] == "7" && "7"[..0] == "";
    assert RadixValue("7f", 16) == 127;
    assert "0x7f"[2..] == "7f";
    assert ParseNumber("0x7f") == Some(127);
    assert "1"[..0] == "";
    ParseDecimal("1");
    ParseEach(["0x7f", "1"], [127, 1]);
  }

  /** The labels of "0x7f.1". */
  lemma ShortHexLabels()
    ensures Labels("0x7f.1") == ["0x7f", "1"]
  {
    SplitJoin(["0x7f", "1"]);
    assert JoinWithDots(["0x7f", "1"]) == "0x7f.1";
  }

  /** 127.0.0.1 written out. */
  lemma LoopbackText()
    ensures Serialize(0x7F00_0001) == "127.0.0.1"
  {
    assert Octets(0x7F00_0001) == [127, 0, 0, 1];
    assert Decimal(12) == Decimal(1) + "2";
    assert Decimal(127) == "127";
  }

  /** "foo.123" ends in a number but its first label is none: not an address. */
  lemma NameThenNumber()
    ensures EndsInNumber("foo.123")
    ensures ParseAddress("foo.123") == None
  {
    SplitJoin(["foo", "123"]);
    assert JoinWithDots(["foo", "123"]) == "foo.123";
    assert Labels("foo.123") == ["foo", "123"];
    assert ParseNumber("foo") == None;
  }
}
