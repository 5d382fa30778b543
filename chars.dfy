/**
 * Character classes and numerals. Every `char` of a host string stands for one
 * byte of its UTF-8 encoding, as the `char`s of a C++ std::string_view do.
 */
module Chars {
  import opened Basics

  predicate IsDigit(c: char) { '0' <= c <= '9' }

  predicate IsAsciiHexDigit(c: char) { IsDigit(c) || 'a' <= c <= 'f' || 'A' <= c <= 'F' }

  /** The value of a hexadecimal digit (convert_hex_to_binary). */
  function HexValue(c: char): (v: nat)
    requires IsAsciiHexDigit(c)
    ensures v < 16
    ensures IsDigit(c) <==> v < 10
  {
    if IsDigit(c) then c as int - '0' as int
    else if 'a' <= c <= 'f' then c as int - 'a' as int + 10
    else c as int - 'A' as int + 10
  }

  /** A digit of the given radix (2..16), in either letter case. */
  predicate IsRadixDigit(c: char, radix: nat)
  {
    IsAsciiHexDigit(c) && HexValue(c) < radix
  }

  /** True when s starts with "0x" or "0X". */
  predicate HasHexPrefix(s: string)
  {
    |s| >= 2 && s[0] == '0' && (s[1] == 'x' || s[1] == 'X')
  }

  /** The length of the longest prefix of s made of digits of the radix. */
  function DigitRun(s: string, radix: nat): (n: nat)
    ensures n <= |s|
  {
    if |s| > 0 && IsRadixDigit(s[0], radix) then 1 + DigitRun(s[1..], radix) else 0
  }

  /** The run DigitRun measures is made of digits and is followed by a non-digit. */
  lemma {:induction false} DigitRunMaximal(s: string, radix: nat)
    ensures forall i :: 0 <= i < DigitRun(s, radix) ==> IsRadixDigit(s[i], radix)
    ensures DigitRun(s, radix) < |s| ==> !IsRadixDigit(s[DigitRun(s, radix)], radix)
  {
    if |s| > 0 && IsRadixDigit(s[0], radix) {
      DigitRunMaximal(s[1..], radix);
      assert forall i :: 1 <= i < |s| ==> s[i] == s[1..][i - 1];
    }
  }

  predicate AllHexDigits(d: string)
  {
    forall i :: 0 <= i < |d| ==> IsAsciiHexDigit(d[i])
  }

  /** The value of a digit string read most significant digit first. */
  function DigitsValue(d: string, radix: nat): nat
    requires AllHexDigits(d)
  {
    if |d| == 0 then 0 else DigitsValue(d[..|d| - 1], radix) * radix + HexValue(d[|d| - 1])
  }

  /** The lower-case digit for a value below 16. */
  function DigitChar(v: nat): (c: char)
    requires v < 16
    ensures IsAsciiHexDigit(c) && HexValue(c) == v
    ensures c != 'x' && c != 'X' && c != '.' && c != ':'
  {
    if v < 10 then ('0' as int + v) as char else ('a' as int + v - 10) as char
  }

  /** The shortest numeral of n in the radix, lower-case, with no leading zero. */
  function Numeral(n: nat, radix: nat): string
    requires 2 <= radix <= 16
    decreases n
  {
    if n < radix then [DigitChar(n)] else Numeral(n / radix, radix) + [DigitChar(n % radix)]
  }

  lemma {:induction false} DivisionFacts(n: nat, radix: nat)
    requires 2 <= radix && radix <= n
    ensures 0 < n / radix < n && n % radix < radix && n == (n / radix) * radix + n % radix
  {
  }

  function Power(b: nat, k: nat): nat
  {
    if k == 0 then 1 else b * Power(b, k - 1)
  }

  /** A numeral is a non-empty string of digits of its radix, led by '0' only for zero. */
  lemma {:induction false} NumeralDigits(n: nat, radix: nat)
    requires 2 <= radix <= 16
    ensures |Numeral(n, radix)| >= 1
    ensures forall i :: 0 <= i < |Numeral(n, radix)| ==> IsRadixDigit(Numeral(n, radix)[i], radix)
    ensures AllHexDigits(Numeral(n, radix))
    ensures Numeral(n, radix)[0] == '0' <==> n == 0
  {
    if n >= radix {
      DivisionFacts(n, radix);
      var q, d := n / radix, n % radix;
      NumeralDigits(q, radix);
      var t := Numeral(q, radix);
      var s := t + [DigitChar(d)];
      assert Numeral(n, radix) == s;
      assert s[0] == t[0];
      assert forall i :: 0 <= i < |t| ==> s[i] == t[i];
    }
  }

  /** A numeral denotes its number. */
  lemma {:induction false} NumeralDenotes(n: nat, radix: nat)
    requires 2 <= radix <= 16
    ensures AllHexDigits(Numeral(n, radix)) && DigitsValue(Numeral(n, radix), radix) == n
  {
    NumeralDigits(n, radix);
    if n >= radix {
      DivisionFacts(n, radix);
      var q, d := n / radix, n % radix;
      NumeralDenotes(q, radix);
      var t := Numeral(q, radix);
      var s := Numeral(n, radix);
      assert s == t + [DigitChar(d)];
      assert s[..|s| - 1] == t;
      assert DigitsValue(s, radix) == q * radix + d;
    }
  }

  /** A numeral of a value below radix^k has at most k digits. */
  lemma {:induction false} NumeralLength(n: nat, radix: nat, k: nat)
    requires 2 <= radix <= 16
    requires k >= 1 && n < Power(radix, k)
    ensures |Numeral(n, radix)| <= k
  {
    if n >= radix {
      DivisionFacts(n, radix);
      var q := n / radix;
      var p := Power(radix, k - 1);
      assert Power(radix, k) == radix * p;
      assert q < p by {
        if q >= p {
          MultiplyMonotone(p, q, radix);
        }
      }
      assert k > 1;
      NumeralLength(q, radix, k - 1);
      assert Numeral(n, radix) == Numeral(q, radix) + [DigitChar(n % radix)];
    }
  }

  lemma {:induction false} MultiplyMonotone(a: nat, b: nat, c: nat)
    requires a <= b
    ensures a * c <= b * c
  {
  }

  /**
   * The fast-path case fold of url.cpp: a byte c becomes c|0x20 when
   * (uint8_t)((c|0x20) - 0x61) <= 25, and is kept otherwise.
   */
  function FoldCase(c: char): (d: char)
    ensures 'A' <= c <= 'Z' ==> d as int == c as int + 32
    ensures !('A' <= c <= 'Z') ==> d == c
  {
    if c as int < 256 then
      var b := c as int as bv8;
      FoldByte(c as int);
      if (b | 0x20) - 0x61 <= 25 then (b | 0x20) as int as char else c
    else c
  }

  /** The guard of the fold holds exactly for ASCII letters; OR-ing 0x20 lowers an upper-case one. */
  lemma {:induction false} FoldByte(n: nat)
    requires n < 256
    ensures ((n as bv8 | 0x20) - 0x61 <= 25) <==> (65 <= n <= 90 || 97 <= n <= 122)
    ensures 65 <= n <= 90 ==> (n as bv8 | 0x20) as int == n + 32
    ensures 97 <= n <= 122 ==> (n as bv8 | 0x20) as int == n
  {
  }

  /** The byte-wise case fold of a whole string. */
  function FoldCaseAll(s: string): (r: string)
    ensures |r| == |s|
    ensures forall i :: 0 <= i < |s| ==> r[i] == FoldCase(s[i])
  {
    seq(|s|, i requires 0 <= i < |s| => FoldCase(s[i]))
  }

  /** std::any_of over the characters of s. */
  function AnyOf(s: string, p: char -> bool): (r: bool)
    ensures r <==> exists i :: 0 <= i < |s| && p(s[i])
  {
    if |s| == 0 then false
    else if p(s[0]) then true
    else
      assert forall i :: 1 <= i < |s| ==> s[i] == s[1..][i - 1];
      AnyOf(s[1..], p)
  }

  predicate OccursAt(s: string, needle: string, i: nat)
  {
    i + |needle| <= |s| && s[i..i + |needle|] == needle
  }

  /** std::string::find: the first position at or after `from` where needle occurs. */
  function FindFrom(s: string, needle: string, from: nat): (r: Option<nat>)
    requires from <= |s|
    ensures r.Some? ==> from <= r.value && OccursAt(s, needle, r.value)
    ensures r.Some? ==> forall j :: from <= j < r.value ==> !OccursAt(s, needle, j)
    ensures r.None? ==> forall j :: from <= j <= |s| ==> !OccursAt(s, needle, j)
    decreases |s| - from
  {
    if OccursAt(s, needle, from) then Some(from)
    else if from == |s| then None
    else FindFrom(s, needle, from + 1)
  }

  function Find(s: string, needle: string): (r: Option<nat>)
    ensures r.Some? ==> OccursAt(s, needle, r.value) && forall j :: 0 <= j < r.value ==> !OccursAt(s, needle, j)
    ensures r.None? ==> forall j :: 0 <= j <= |s| ==> !OccursAt(s, needle, j)
  {
    FindFrom(s, needle, 0)
  }
}
