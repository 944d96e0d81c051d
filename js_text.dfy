/**
 * String primitives of ECMAScript that the scrapers rely on: which characters
 * `String.prototype.trim` removes, which characters `.` in a regular
 * expression refuses, and `\d`.
 */
module JsText {

  /** The LineTerminator code points: `.` in a regular expression matches none of them. */
  predicate IsLineTerminator(c: char) {
    c == '\n' || c == '\r' || c == '\U{2028}' || c == '\U{2029}'
  }

  /** WhiteSpace or LineTerminator: the code points `trim` strips from both ends. */
  predicate IsTrimmable(c: char) {
    || IsLineTerminator(c)
    || c == '\t' || c == '\U{B}' || c == '\U{C}' || c == ' '
    || c == '\U{A0}' || c == '\U{FEFF}' || c == '\U{1680}'
    || ('\U{2000}' <= c <= '\U{200A}')
    || c == '\U{202F}' || c == '\U{205F}' || c == '\U{3000}'
  }

  /** `\d` without the `u` flag: the ASCII digits only. */
  predicate IsAsciiDigit(c: char) {
    '0' <= c <= '9'
  }

  /** No line terminator among s[i..j]. */
  predicate NoLineTerminator(s: string, i: nat, j: nat)
    requires i <= j <= |s|
  {
    forall k :: i <= k < j ==> !IsLineTerminator(s[k])
  }

  /** Every character of s[i..j] is trimmable. */
  predicate AllTrimmable(s: string, i: nat, j: nat)
    requires i <= j <= |s|
  {
    forall k :: i <= k < j ==> IsTrimmable(s[k])
  }

  /** The string with its leading white space removed. */
  function TrimStart(s: string): (r: string)
    ensures |r| <= |s| && r == s[|s| - |r|..]
    ensures AllTrimmable(s, 0, |s| - |r|)
    ensures r == [] || !IsTrimmable(r[0])
  {
    if s != [] && IsTrimmable(s[0]) then TrimStart(s[1..]) else s
  }

  /** The string with its trailing white space removed. */
  function TrimEnd(s: string): (r: string)
    ensures |r| <= |s| && r == s[..|r|]
    ensures AllTrimmable(s, |r|, |s|)
    ensures r == [] || !IsTrimmable(r[|r| - 1])
  {
    if s != [] && IsTrimmable(s[|s| - 1]) then TrimEnd(s[..|s| - 1]) else s
  }

  /** `String.prototype.trim`. */
  function Trim(s: string): (r: string)
    ensures |r| <= |s|
    ensures r == [] || (!IsTrimmable(r[0]) && !IsTrimmable(r[|r| - 1]))
  {
    var t := TrimStart(s);
    var u := TrimEnd(t);
    assert u != [] ==> u[0] == t[0];
    u
  }

  /** The first n characters of the suffix s[i..] are s[i..i + n], and its later characters are those of s. */
  lemma PrefixOfSuffix(s: string, i: nat, n: nat)
    requires i + n <= |s|
    ensures s[i..][..n] == s[i..i + n]
    ensures forall k :: i + n <= k < |s| ==> s[i..][k - i] == s[k]
  {
  }

  /**
   * What `trim` returns: the middle s[i..j] of the string, everything cut off
   * being white space, and no white space left at either end.
   */
  lemma TrimIsMiddle(s: string) returns (i: nat, j: nat)
    ensures i <= j <= |s| && Trim(s) == s[i..j]
    ensures AllTrimmable(s, 0, i) && AllTrimmable(s, j, |s|)
    ensures Trim(s) == [] || (!IsTrimmable(Trim(s)[0]) && !IsTrimmable(Trim(s)[|Trim(s)| - 1]))
  {
    var t := TrimStart(s);
    var u := TrimEnd(t);
    i := |s| - |t|;
    j := i + |u|;
    PrefixOfSuffix(s, i, |u|);
    assert t == s[i..];
    forall k | j <= k < |s| ensures IsTrimmable(s[k]) {
      assert IsTrimmable(t[k - i]);
    }
    if u != [] {
      assert u[0] == t[0];
    }
  }

  /** A string with no white space at its ends is left as it is. */
  lemma TrimKeepsUntrimmedEnds(s: string)
    requires s == [] || (!IsTrimmable(s[0]) && !IsTrimmable(s[|s| - 1]))
    ensures Trim(s) == s
  {
  }

  /** Trimming twice is trimming once. */
  lemma TrimIdempotent(s: string)
    ensures Trim(Trim(s)) == Trim(s)
  {
    var _, _ := TrimIsMiddle(s);
    TrimKeepsUntrimmedEnds(Trim(s));
  }

  /** Every character of s[i..j] is an ASCII digit. */
  predicate AllDigits(s: string, i: nat, j: nat)
    requires i <= j <= |s|
  {
    forall k :: i <= k < j ==> IsAsciiDigit(s[k])
  }

  /** The value of a non-empty string of decimal digits (what `Number` gives for it). */
  function DecimalValue(ds: string): nat
    requires forall k :: 0 <= k < |ds| ==> IsAsciiDigit(ds[k])
  {
    if ds == [] then 0
    else DecimalValue(ds[..|ds| - 1]) * 10 + DigitValue(ds[|ds| - 1])
  }

  /** The value of one ASCII digit. */
  function DigitValue(d: char): (r: nat)
    requires IsAsciiDigit(d)
    ensures r < 10
  {
    d as int - '0' as int
  }

  /** A digit string is worth 0 exactly when all its digits are '0'. */
  lemma {:induction false} DecimalValueZero(ds: string)
    requires forall k :: 0 <= k < |ds| ==> IsAsciiDigit(ds[k])
    ensures DecimalValue(ds) == 0 <==> forall k :: 0 <= k < |ds| ==> ds[k] == '0'
  {
    if ds != [] {
      var init := ds[..|ds| - 1];
      DecimalValueZero(init);
      if DecimalValue(ds) == 0 {
        forall k | 0 <= k < |ds| ensures ds[k] == '0' {
          if k < |ds| - 1 { assert ds[k] == init[k]; }
        }
      } else {
        assert DecimalValue(init) != 0 || ds[|ds| - 1] != '0';
      }
    }
  }

  /** Appending one digit multiplies by ten and adds it. */
  lemma DecimalValueSnoc(ds: string, d: char)
    requires forall k :: 0 <= k < |ds| ==> IsAsciiDigit(ds[k])
    requires IsAsciiDigit(d)
    ensures DecimalValue(ds + [d]) == DecimalValue(ds) * 10 + DigitValue(d)
  {
    assert (ds + [d])[..|ds|] == ds;
  }
}
