/** String helpers shared by the glyph-name parsers and the subfont picker,
    restricted to ASCII digits. */
module Text {

  predicate IsAsciiDigit(c: char)
  {
    '0' <= c <= '9'
  }

  /** Python's str.isdigit on ASCII text: non-empty and digits only. */
  predicate AllDigits(s: string)
  {
    |s| > 0 && forall k :: 0 <= k < |s| ==> IsAsciiDigit(s[k])
  }

  /** The decimal value of a digit string (int() of it). */
  function DigitsValue(s: string): nat
    requires forall k :: 0 <= k < |s| ==> IsAsciiDigit(s[k])
  {
    if s == [] then 0
    else
      assert IsAsciiDigit(s[|s| - 1]);
      DigitsValue(s[..|s| - 1]) * 10 + (s[|s| - 1] as int - '0' as int)
  }

  function DigitChar(d: nat): (c: char)
    requires d < 10
    ensures IsAsciiDigit(c) && c as int - '0' as int == d
  {
    ('0' as int + d) as char
  }

  /** Decimal spelling of a natural number, without leading zeros. */
  function NatToString(n: nat): (s: string)
    decreases n
  {
    if n < 10 then [DigitChar(n)] else NatToString(n / 10) + [DigitChar(n % 10)]
  }

  /** Spelling a number and reading it back gives the number. */
  lemma {:induction false} NatToStringRoundTrip(n: nat)
    ensures AllDigits(NatToString(n))
    ensures DigitsValue(NatToString(n)) == n
    decreases n
  {
    if n >= 10 {
      NatToStringRoundTrip(n / 10);
      var s := NatToString(n);
      assert s[..|s| - 1] == NatToString(n / 10);
    }
  }

  predicate IsHexDigit(c: char)
  {
    IsAsciiDigit(c) || 'A' <= c <= 'F'
  }

  predicate AllHex(s: string)
  {
    forall k :: 0 <= k < |s| ==> IsHexDigit(s[k])
  }

  /** An upper-case hexadecimal digit. */
  function HexDigit(d: nat): (c: char)
    requires d < 16
    ensures IsHexDigit(c)
  {
    if d < 10 then DigitChar(d) else ('A' as int + (d - 10)) as char
  }

  function HexDigitValue(c: char): nat
    requires IsHexDigit(c)
  {
    if IsAsciiDigit(c) then c as int - '0' as int else c as int - 'A' as int + 10
  }

  /** The value of a string of hexadecimal digits (int(s, 16)). */
  function HexValue(s: string): nat
    requires AllHex(s)
  {
    if s == [] then 0
    else
      assert IsHexDigit(s[|s| - 1]);
      HexValue(s[..|s| - 1]) * 16 + HexDigitValue(s[|s| - 1])
  }

  /** "%0*X" % (width, n): upper-case hexadecimal, padded with zeros to at
      least `width` digits. */
  function Hex(n: nat, width: nat): (s: string)
    ensures |s| >= width && |s| >= 1 && AllHex(s)
    decreases n, width
  {
    if n < 16 && width <= 1 then [HexDigit(n)]
    else Hex(n / 16, if width > 0 then width - 1 else 0) + [HexDigit(n % 16)]
  }

  /** Padding to four digits gives exactly four below 0x10000 and at least
      five from there on. */
  lemma {:induction false} HexWidth(n: nat, width: nat)
    requires width == 4
    ensures n < 0x10000 ==> |Hex(n, width)| == 4
    ensures n >= 0x10000 ==> |Hex(n, width)| >= 5
  {
    HexLength(n, 4);
  }

  /** Hex(n, w) has max(w, 1) digits when n < 16^max(w,1), more otherwise. */
  lemma {:induction false} HexLength(n: nat, width: nat)
    requires width >= 1
    ensures n < Pow16(width) ==> |Hex(n, width)| == width
    ensures n >= Pow16(width) ==> |Hex(n, width)| > width
    decreases width
  {
    if width == 1 {
      if n >= 16 {
        assert |Hex(n, width)| == |Hex(n / 16, 0)| + 1;
      }
    } else {
      HexLength(n / 16, width - 1);
    }
  }

  function Pow16(k: nat): (r: nat)
    ensures r >= 1
  {
    if k == 0 then 1 else 16 * Pow16(k - 1)
  }

  /** Spelling a number in hexadecimal and reading it back gives the number. */
  lemma {:induction false} HexRoundTrip(n: nat, width: nat)
    ensures HexValue(Hex(n, width)) == n
    decreases n, width
  {
    var s := Hex(n, width);
    if n < 16 && width <= 1 {
      assert s == [HexDigit(n)];
    } else {
      var w := if width > 0 then width - 1 else 0;
      HexRoundTrip(n / 16, w);
      assert s[..|s| - 1] == Hex(n / 16, w);
      assert s[|s| - 1] == HexDigit(n % 16);
    }
  }

  /** Python's `pat in s`: `pat` occurs as a contiguous piece of `s`. */
  predicate Contains(s: string, pat: string)
    decreases |s|
  {
    pat <= s || (s != [] && Contains(s[1..], pat))
  }

  /** `pat` occurs in `s` starting at position `k`. */
  predicate OccursAt(s: string, pat: string, k: nat)
  {
    k + |pat| <= |s| && s[k..k + |pat|] == pat
  }

  lemma {:induction false} ContainsIff(s: string, pat: string)
    ensures Contains(s, pat) <==> exists k: nat :: OccursAt(s, pat, k)
    decreases |s|
  {
    if pat <= s {
      assert OccursAt(s, pat, 0);
    } else {
      if s != [] {
        ContainsIff(s[1..], pat);
        if Contains(s[1..], pat) {
          var k: nat :| OccursAt(s[1..], pat, k);
          assert s[1..][k..k + |pat|] == s[k + 1..k + 1 + |pat|];
          assert OccursAt(s, pat, k + 1);
        }
      }
      if exists k: nat :: OccursAt(s, pat, k) {
        var k: nat :| OccursAt(s, pat, k);
        assert k != 0;
        assert s[1..][k - 1..k - 1 + |pat|] == s[k..k + |pat|];
        assert OccursAt(s[1..], pat, k - 1);
      }
    }
  }
}
