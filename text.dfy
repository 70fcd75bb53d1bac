/** The pieces of Python's text handling that the keygen's output depends on:
    the `X` presentation type of `str.format` with a zero-padded minimum width
    (`{:02X}`, `{:04X}`, `{:040X}`), `str.join` and `str.upper`, together with
    a reader of hexadecimal digit strings that serves as their inverse. */
module Text {

  function Pow16(k: nat): (p: nat)
    ensures p >= 1
  {
    if k == 0 then 1 else 16 * Pow16(k - 1)
  }

  predicate IsHexDigit(c: char) {
    '0' <= c <= '9' || 'a' <= c <= 'f' || 'A' <= c <= 'F'
  }

  predicate IsUpperHexDigit(c: char) {
    '0' <= c <= '9' || 'A' <= c <= 'F'
  }

  predicate IsHexString(s: string) {
    forall i :: 0 <= i < |s| ==> IsHexDigit(s[i])
  }

  predicate IsUpperHexString(s: string) {
    forall i :: 0 <= i < |s| ==> IsUpperHexDigit(s[i])
  }

  function DigitValue(c: char): (d: nat)
    requires IsHexDigit(c)
    ensures d < 16
  {
    if '0' <= c <= '9' then c as int - '0' as int
    else if 'a' <= c <= 'f' then c as int - 'a' as int + 10
    else c as int - 'A' as int + 10
  }

  /** The upper-case digit of a value below 16; DigitValue reads it back. */
  function DigitChar(d: nat): (c: char)
    requires d < 16
    ensures IsUpperHexDigit(c) && DigitValue(c) == d
  {
    if d < 10 then ('0' as int + d) as char else ('A' as int + (d - 10)) as char
  }

  /** The value of a string of hexadecimal digits, most significant digit first;
      a string of k digits never denotes 16^k or more. */
  function HexValue(s: string): (n: nat)
    requires IsHexString(s)
    ensures n < Pow16(|s|)
  {
    if s == [] then 0 else 16 * HexValue(s[..|s| - 1]) + DigitValue(s[|s| - 1])
  }

  /** The digits `format(n, 'X')` prints: upper case, no leading zero, "0" for zero. */
  function Digits(n: nat): (s: string)
    ensures 1 <= |s| && IsUpperHexString(s)
    decreases n
  {
    if n < 16 then [DigitChar(n)] else Digits(n / 16) + [DigitChar(n % 16)]
  }

  function Zeros(k: nat): (s: string)
    ensures |s| == k && forall i :: 0 <= i < k ==> s[i] == '0'
  {
    if k == 0 then "" else Zeros(k - 1) + "0"
  }

  /** `format(n, '0<width>X')` for n >= 0: the digits of n, padded on the left
      with zeros to at least `width` characters; the width is a minimum, a
      longer number is printed in full. */
  function PadHex(n: nat, width: nat): (s: string)
    ensures IsUpperHexString(s)
  {
    var d := Digits(n);
    (if |d| < width then Zeros(width - |d|) else "") + d
  }

  /** `format(n, '0<width>X')` for any integer: a negative number is printed as
      '-' followed by its magnitude, and the sign counts towards the width. */
  function PadHexSigned(n: int, width: nat): string {
    if n >= 0 then PadHex(n, width) else "-" + PadHex(-n, if width > 0 then width - 1 else 0)
  }

  /** `sep.join(parts)`. */
  function Join(sep: string, parts: seq<string>): (s: string)
  {
    if |parts| == 0 then ""
    else if |parts| == 1 then parts[0]
    else parts[0] + sep + Join(sep, parts[1..])
  }

  /** `str.upper` on one character, for the ASCII range: a-z become A-Z. */
  function Upper(c: char): char {
    if 'a' <= c <= 'z' then (c as int - 32) as char else c
  }

  function UpperString(s: string): (u: string)
    ensures |u| == |s|
    ensures forall i :: 0 <= i < |u| ==> !('a' <= u[i] <= 'z')
  {
    seq(|s|, i requires 0 <= i < |s| => Upper(s[i]))
  }

  // ---------------------------------------------------------------------------
  // Lemmas: PadHex is read back by HexValue; its length is exactly the width
  // when the number fits and the full digit count otherwise.

  lemma UpperHexIsHex(s: string)
    requires IsUpperHexString(s)
    ensures IsHexString(s)
  {
  }

  /** The digits of n denote n. */
  lemma {:induction false} DigitsValue(n: nat)
    ensures IsHexString(Digits(n)) && HexValue(Digits(n)) == n
    decreases n
  {
    var s := Digits(n);
    UpperHexIsHex(s);
    if n >= 16 {
      DigitsValue(n / 16);
      assert s[..|s| - 1] == Digits(n / 16);
    }
  }

  /** Leading zeros do not change the value of a digit string. */
  lemma {:induction false} ZerosPrefixValue(k: nat, s: string)
    requires IsHexString(s)
    ensures IsHexString(Zeros(k) + s) && HexValue(Zeros(k) + s) == HexValue(s)
    decreases |s|
  {
    var t := Zeros(k) + s;
    assert IsHexString(t) by {
      forall i | 0 <= i < |t| ensures IsHexDigit(t[i]) {
        if i >= k { assert t[i] == s[i - k]; }
      }
    }
    if s == [] {
      assert t == Zeros(k);
      ZerosValue(k);
    } else {
      assert t[..|t| - 1] == Zeros(k) + s[..|s| - 1];
      ZerosPrefixValue(k, s[..|s| - 1]);
    }
  }

  /** A string of zeros denotes zero. */
  lemma {:induction false} ZerosValue(k: nat)
    ensures IsHexString(Zeros(k)) && HexValue(Zeros(k)) == 0
  {
    var z := Zeros(k);
    assert IsHexString(z) by {
      forall i | 0 <= i < k ensures IsHexDigit(z[i]) {
        assert z[i] == '0';
      }
    }
    if k > 0 {
      ZerosValue(k - 1);
      assert z[..k - 1] == Zeros(k - 1);
      assert DigitValue(z[k - 1]) == 0;
    }
  }

  /** `int(format(n, '0<w>X'), 16) == n`. */
  lemma PadHexValue(n: nat, width: nat)
    ensures IsHexString(PadHex(n, width)) && HexValue(PadHex(n, width)) == n
  {
    var d := Digits(n);
    DigitsValue(n);
    var k := if |d| < width then width - |d| else 0;
    ZerosPrefixValue(k, d);
    var p := PadHex(n, width);
    assert p == Zeros(k) + d;
    assert IsHexString(p);
    assert HexValue(Zeros(k) + d) == n;
  }

  lemma PadHexLengthAtLeastDigits(n: nat, width: nat)
    ensures |PadHex(n, width)| >= 1 && |PadHex(n, width)| >= width
  {
  }

  /** The number of digits of n is at most k (k >= 1) exactly when n < 16^k. */
  lemma {:induction false} DigitsFit(n: nat, k: nat)
    requires k >= 1
    ensures |Digits(n)| <= k <==> n < Pow16(k)
    decreases n
  {
    if n >= 16 {
      if k == 1 {
        assert Pow16(1) == 16;
      } else {
        DigitsFit(n / 16, k - 1);
        assert n / 16 < Pow16(k - 1) <==> n < 16 * Pow16(k - 1);
      }
    } else {
      Pow16AtLeast16(k);
    }
  }

  lemma {:induction false} Pow16AtLeast16(k: nat)
    requires k >= 1
    ensures Pow16(k) >= 16
  {
    if k > 1 { Pow16AtLeast16(k - 1); }
  }

  /** A number in [16^(k-1), 16^k) has exactly k digits. */
  lemma DigitsExactLength(n: nat, k: nat)
    requires k >= 1 && Pow16(k - 1) <= n < Pow16(k)
    ensures |Digits(n)| == k
  {
    DigitsFit(n, k);
    if k > 1 {
      DigitsFit(n, k - 1);
    }
  }

  /** `{:0wX}` yields exactly w characters when n < 16^w, and the full digits
      (more than w of them) otherwise. */
  lemma PadHexLength(n: nat, width: nat)
    requires width >= 1
    ensures n < Pow16(width) ==> |PadHex(n, width)| == width
    ensures n >= Pow16(width) ==> PadHex(n, width) == Digits(n) && |PadHex(n, width)| > width
  {
    DigitsFit(n, width);
  }

  /** A signed field reads back as its integer: the digits after an optional
      '-' denote the magnitude. */
  lemma PadHexSignedValue(n: int, width: nat)
    ensures n >= 0 ==>
      var s := PadHexSigned(n, width);
      IsHexString(s) && IsUpperHexString(s) && HexValue(s) == n
    ensures n < 0 ==>
      var s := PadHexSigned(n, width);
      |s| >= 2 && s[0] == '-' && IsHexString(s[1..]) && HexValue(s[1..]) == -n
  {
    if n >= 0 {
      PadHexValue(n, width);
    } else {
      var m := PadHex(-n, if width > 0 then width - 1 else 0);
      PadHexValue(-n, if width > 0 then width - 1 else 0);
      PadHexLengthAtLeastDigits(-n, if width > 0 then width - 1 else 0);
      assert ("-" + m)[1..] == m;
    }
  }

  /** Appending a digit to a padded number pads the number sixteen times larger. */
  lemma PadHexShift(v: nat, d: nat, k: nat)
    requires d < 16 && k >= 1
    ensures PadHex(16 * v + d, k + 1) == PadHex(v, k) + [DigitChar(d)]
  {
    if v == 0 {
      assert Digits(d) == [DigitChar(d)];
      assert Digits(0) == "0";
      assert Zeros(k - 1) + "0" == Zeros(k);
    } else {
      assert (16 * v + d) / 16 == v && (16 * v + d) % 16 == d;
      assert Digits(16 * v + d) == Digits(v) + [DigitChar(d)];
    }
  }

  /** Upper-case digit strings are canonical: printing their value with their
      own length as the width gives them back. */
  lemma {:induction false} PadHexCanonical(b: string)
    requires IsUpperHexString(b) && |b| >= 1
    ensures IsHexString(b) && PadHex(HexValue(b), |b|) == b
    decreases |b|
  {
    UpperHexIsHex(b);
    var c := b[|b| - 1];
    var p := b[..|b| - 1];
    assert IsUpperHexString(p);
    LastDigitValue(b);
    if |b| == 1 {
      assert b == [c];
    } else {
      PadHexCanonical(p);
      PadHexShift(HexValue(p), DigitValue(c), |p|);
      assert b == p + [c];
    }
  }

  /** The last digit of an upper-case digit string is the one DigitChar prints
      for its value, and it adds that value to sixteen times the rest. */
  lemma LastDigitValue(b: string)
    requires IsUpperHexString(b) && |b| >= 1
    ensures IsUpperHexDigit(b[|b| - 1]) && DigitChar(DigitValue(b[|b| - 1])) == b[|b| - 1]
    ensures IsHexString(b) && IsHexString(b[..|b| - 1])
    ensures HexValue(b) == 16 * HexValue(b[..|b| - 1]) + DigitValue(b[|b| - 1])
  {
    var c, p := b[|b| - 1], b[..|b| - 1];
    assert IsUpperHexDigit(c);
    UpperDigitRoundTrip(c);
    UpperHexIsHex(b);
    assert IsHexString(p) by {
      forall i | 0 <= i < |p| ensures IsHexDigit(p[i]) {
        assert p[i] == b[i];
      }
    }
  }

  /** DigitChar prints an upper-case digit's value as that digit. */
  lemma UpperDigitRoundTrip(c: char)
    requires IsUpperHexDigit(c)
    ensures DigitChar(DigitValue(c)) == c
  {
  }

  /** Two upper-case digit strings together are one. */
  lemma UpperHexConcat(a: string, b: string)
    requires IsUpperHexString(a) && IsUpperHexString(b)
    ensures IsUpperHexString(a + b)
  {
    forall i | 0 <= i < |a + b|
      ensures IsUpperHexDigit((a + b)[i])
    {
      if i >= |a| { assert (a + b)[i] == b[i - |a|]; }
    }
  }

  /** Each part of width w with a one-character separator: n parts take n*(w+1)-1 characters. */
  lemma {:induction false} JoinLength(sep: string, parts: seq<string>, w: nat)
    requires |sep| == 1 && |parts| >= 1
    requires forall k :: 0 <= k < |parts| ==> |parts[k]| == w
    ensures |Join(sep, parts)| == |parts| * (w + 1) - 1
    decreases |parts|
  {
    if |parts| > 1 {
      JoinLength(sep, parts[1..], w);
      assert |parts| * (w + 1) == (|parts| - 1) * (w + 1) + w + 1;
    }
  }

  /** str.upper is idempotent. */
  lemma UpperStringIdempotent(s: string)
    ensures UpperString(UpperString(s)) == UpperString(s)
  {
  }

  /** Joining four-character parts with a one-character separator: part k
      sits at positions 5k to 5k+3, and the separator at 5k+4 between parts. */
  lemma {:induction false} JoinBlocks(sep: string, parts: seq<string>)
    requires |sep| == 1 && |parts| >= 1
    requires forall k :: 0 <= k < |parts| ==> |parts[k]| == 4
    ensures |Join(sep, parts)| == 5 * |parts| - 1
    ensures forall k :: 0 <= k < |parts| ==> Join(sep, parts)[5 * k .. 5 * k + 4] == parts[k]
    ensures forall k :: 0 <= k < |parts| - 1 ==> Join(sep, parts)[5 * k + 4] == sep[0]
    decreases |parts|
  {
    if |parts| > 1 {
      var rest := Join(sep, parts[1..]);
      JoinBlocks(sep, parts[1..]);
      var j := Join(sep, parts);
      assert j == parts[0] + sep + rest;
      forall k | 0 <= k < |parts|
        ensures j[5 * k .. 5 * k + 4] == parts[k]
      {
        if k > 0 {
          assert j[5 * k .. 5 * k + 4] == rest[5 * (k - 1) .. 5 * (k - 1) + 4];
          assert parts[1..][k - 1] == parts[k];
        }
      }
      forall k | 0 <= k < |parts| - 1
        ensures j[5 * k + 4] == sep[0]
      {
        if k > 0 {
          assert j[5 * k + 4] == rest[5 * (k - 1) + 4];
        }
      }
    }
  }

  /** Conversely, a string laid out that way is the join of its parts. */
  lemma JoinUnique(sep: string, parts: seq<string>, s: string)
    requires |sep| == 1 && |parts| >= 1
    requires forall k :: 0 <= k < |parts| ==> |parts[k]| == 4
    requires |s| == 5 * |parts| - 1
    requires forall k :: 0 <= k < |parts| ==> s[5 * k .. 5 * k + 4] == parts[k]
    requires forall k :: 0 <= k < |parts| - 1 ==> s[5 * k + 4] == sep[0]
    ensures s == Join(sep, parts)
  {
    JoinBlocks(sep, parts);
    var j := Join(sep, parts);
    forall i | 0 <= i < |s|
      ensures s[i] == j[i]
    {
      var k, d := i / 5, i % 5;
      assert i == 5 * k + d && k < |parts|;
      if d == 4 {
        assert k < |parts| - 1;
        assert s[5 * k + 4] == sep[0] == j[5 * k + 4];
      } else {
        assert s[5 * k .. 5 * k + 4] == parts[k] == j[5 * k .. 5 * k + 4];
        assert s[5 * k .. 5 * k + 4][d] == s[i];
        assert j[5 * k .. 5 * k + 4][d] == j[i];
      }
    }
  }

  /** A string without lower-case letters is its own upper case. */
  lemma UpperStringOfUpper(s: string)
    requires forall i :: 0 <= i < |s| ==> !('a' <= s[i] <= 'z')
    ensures UpperString(s) == s
  {
  }
}
