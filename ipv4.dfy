/**
 * The IPv4 parser of url.cpp (url::parse_ipv4): one to four dot-separated
 * parts, each in decimal, octal or hexadecimal, accumulated most significant
 * first into a 32-bit value.
 */
module Ipv4 {
  import opened Basics
  import opened Chars

  /** A number read off the front of a string, and the rest of the string. */
  datatype Part = Part(value: nat, rest: string)

  const Limit32: nat := 0x1_0000_0000

  /**
   * std::from_chars into a uint32_t: reads the longest run of digits of the
   * radix; fails when there is none or when its value does not fit in 32 bits.
   */
  function FromChars(s: string, radix: nat): (r: Option<Part>)
    requires 2 <= radix <= 16
    ensures r.Some? ==> r.value.value < Limit32 && |r.value.rest| < |s|
  {
    var n := DigitRun(s, radix);
    if n == 0 then None
    else
      DigitRunMaximal(s, radix);
      assert AllHexDigits(s[..n]);
      var v := DigitsValue(s[..n], radix);
      if v >= Limit32 then None else Some(Part(v, s[n..]))
  }

  /**
   * One part (url.cpp:32-48): after a 0x/0X prefix, hexadecimal, where a bare
   * prefix, alone or before '.', is 0; after a 0 followed by a digit, octal;
   * otherwise decimal.
   */
  function Ipv4Number(s: string): (r: Option<Part>)
    requires |s| > 0
    ensures r.Some? ==> r.value.value < Limit32 && |r.value.rest| < |s|
  {
    var isHex := HasHexPrefix(s);
    if isHex && (|s| == 2 || (|s| > 2 && s[2] == '.')) then Some(Part(0, s[2..]))
    else if isHex then FromChars(s[2..], 16)
    else if |s| >= 2 && s[0] == '0' && IsDigit(s[1]) then FromChars(s[1..], 8)
    else FromChars(s, 10)
  }

  /**
   * The parts loop of url.cpp:31-67 on the remaining input s, after k parts
   * whose octets make up acc. The final part fills the 32 - 8k low bits and is
   * combined by OR; every earlier part is an octet followed by '.', which the
   * source's shift by 8 and OR append as a byte (OctetShift).
   */
  function Ipv4Parts(s: string, k: nat, acc: nat): Option<nat>
    requires k <= 4
    decreases |s|
  {
    if k == 4 || |s| == 0 then
      if k == 4 && |s| == 0 then Some(acc) else None
    else
      match Ipv4Number(s)
      case None => None
      case Some(part) =>
        if |part.rest| == 0 then FinalPart(acc, k, part.value)
        else if part.value > 255 || part.rest[0] != '.' then None
        else Ipv4Parts(part.rest[1..], k + 1, acc * 256 + part.value)
  }

  /**
   * The last part after k earlier ones (url.cpp:50-57): it may not exceed
   * 2^(32-8k), and is OR-ed into the accumulator shifted left by 32 - 8k.
   */
  function FinalPart(acc: nat, k: nat, v: nat): (r: Option<nat>)
    requires k < 4
    ensures r.None? <==> v > Pow2(32 - 8 * k)
  {
    var shift := 32 - 8 * k;
    if v > Pow2(shift) then None else Some(BitOr(ShiftLeft(acc, shift), v))
  }

  /** The accumulator never leaves 32 bits: every address the parts loop yields is below 2^32. */
  lemma {:induction false} PartsBound(s: string, k: nat, acc: nat)
    requires k <= 4 && acc < Pow2(8 * k)
    ensures Ipv4Parts(s, k, acc).Some? ==> Ipv4Parts(s, k, acc).value < Limit32
    decreases |s|
  {
    if k == 4 || |s| == 0 {
      Pow2Values();
    } else {
      match Ipv4Number(s)
      case None =>
        PartsFail(s, k, acc);
      case Some(part) =>
        PartsStep(s, k, acc, part);
        if |part.rest| == 0 {
          FinalPartBounded(acc, k, part.value);
        } else if part.value <= 255 && part.rest[0] == '.' {
          OctetBound(acc, k, part.value);
          PartsBound(part.rest[1..], k + 1, acc * 256 + part.value);
        }
    }
  }

  /** One turn of the parts loop, once the part at the front of s is known. */
  lemma {:induction false} PartsStep(s: string, k: nat, acc: nat, part: Part)
    requires k < 4 && |s| > 0 && Ipv4Number(s) == Some(part)
    ensures |part.rest| == 0 ==> Ipv4Parts(s, k, acc) == FinalPart(acc, k, part.value)
    ensures |part.rest| > 0 && (part.value > 255 || part.rest[0] != '.') ==> Ipv4Parts(s, k, acc) == None
    ensures |part.rest| > 0 && part.value <= 255 && part.rest[0] == '.' ==>
      Ipv4Parts(s, k, acc) == Ipv4Parts(part.rest[1..], k + 1, acc * 256 + part.value)
  {
    assert Ipv4Parts(s, k, acc) == if |part.rest| == 0 then FinalPart(acc, k, part.value)
      else if part.value > 255 || part.rest[0] != '.' then None
      else Ipv4Parts(part.rest[1..], k + 1, acc * 256 + part.value);
  }

  /** A part that is an octet followed by '.' is shifted in, and the loop goes on after the '.'. */
  lemma {:induction false} PartsAdvance(s: string, k: nat, acc: nat, part: Part)
    requires k < 4 && |s| > 0 && Ipv4Number(s) == Some(part)
    requires |part.rest| > 0 && part.value <= 255 && part.rest[0] == '.'
    ensures Ipv4Parts(part.rest[1..], k + 1, BitOr(ShiftLeft(acc, 8), part.value)) == Ipv4Parts(s, k, acc)
  {
    OctetShift(acc, part.value);
    PartsStep(s, k, acc, part);
  }

  lemma {:induction false} PartsFail(s: string, k: nat, acc: nat)
    requires k < 4 && |s| > 0 && Ipv4Number(s).None?
    ensures Ipv4Parts(s, k, acc) == None
  {
  }

  lemma {:induction false} Pow2Values()
    ensures Pow2(8) == 256 && Pow2(16) == 0x1_0000 && Pow2(24) == 0x100_0000 && Pow2(32) == Limit32
  {
  }

  /** While the parts are octets, shifting left by 8 and OR-ing is appending a byte. */
  lemma {:induction false} OctetShift(acc: nat, v: nat)
    requires v <= 255
    ensures BitOr(ShiftLeft(acc, 8), v) == acc * 256 + v
  {
    Pow2Values();
    BitOrDisjoint(acc, v, 8);
  }

  /** Shifting in one more octet keeps the value within 8(k+1) bits. */
  lemma {:induction false} OctetBound(acc: nat, k: nat, v: nat)
    requires acc < Pow2(8 * k) && v <= 255
    ensures acc * 256 + v < Pow2(8 * (k + 1))
  {
    Pow2Values();
    Pow2Add(8 * k, 8);
    assert acc * 256 + v < Pow2(8 * k) * 256 by {
      MultiplyMonotone(acc + 1, Pow2(8 * k), 256);
    }
  }

  /** The final part test passes only values that stay within 32 bits. */
  lemma {:induction false} FinalPartBounded(acc: nat, k: nat, v: nat)
    requires k < 4 && acc < Pow2(8 * k) && v < Limit32
    ensures FinalPart(acc, k, v).Some? ==> FinalPart(acc, k, v).value < Limit32
  {
    if v <= Pow2(32 - 8 * k) {
      FinalPartBound(acc, k, v);
    }
  }

  /** The final part never carries the value past 32 bits. */
  lemma {:induction false} FinalPartBound(acc: nat, k: nat, v: nat)
    requires k < 4 && acc < Pow2(8 * k) && v < Limit32 && v <= Pow2(32 - 8 * k)
    ensures BitOr(ShiftLeft(acc, 32 - 8 * k), v) < Limit32
  {
    var shift := 32 - 8 * k;
    Pow2Values();
    Pow2Add(8 * k, shift);
    MultiplyMonotone(acc + 1, Pow2(8 * k), Pow2(shift));
    if k > 0 {
      Pow2Monotone(shift, 24);
    }
    BitOrBound(acc * Pow2(shift), v, 32);
  }

  /** The whole of parse_ipv4: a single trailing '.' is dropped first. */
  function Ipv4Spec(input: string): (r: Option<nat>)
    requires |input| > 0
    ensures r.Some? ==> r.value < Limit32
  {
    var s := if input[|input| - 1] == '.' then input[..|input| - 1] else input;
    PartsBound(s, 0, 0);
    Ipv4Parts(s, 0, 0)
  }

  /**
   * url::parse_ipv4 without its write to the URL record: the 32-bit address,
   * or None where the source sets is_valid to false.
   */
  method Ipv4Address(input: string) returns (r: Option<nat>)
    requires |input| > 0
    ensures r == Ipv4Spec(input)
  {
    var rest := input;
    if rest[|rest| - 1] == '.' {
      rest := rest[..|rest| - 1];
    }
    ghost var goal := Ipv4Spec(input);
    var digitCount := 0;
    var ipv4: nat := 0;
    assert Ipv4Parts(rest, digitCount, ipv4) == goal;
    while digitCount < 4 && |rest| > 0
      invariant digitCount <= 4
      invariant Ipv4Parts(rest, digitCount, ipv4) == goal
      decreases 4 - digitCount
    {
      ghost var before := rest;
      var parsed := Ipv4Number(rest);
      if parsed.None? {
        PartsFail(before, digitCount, ipv4);
        return None;
      }
      var result := parsed.value.value;
      rest := parsed.value.rest;
      PartsStep(before, digitCount, ipv4, Part(result, rest));
      if |rest| == 0 {
        if result > Pow2(32 - 8 * digitCount) {
          return None;
        }
        ipv4 := BitOr(ShiftLeft(ipv4, 32 - 8 * digitCount), result);
        return Some(ipv4);
      } else {
        if result > 255 || rest[0] != '.' {
          return None;
        }
        PartsAdvance(before, digitCount, ipv4, parsed.value);
        ipv4 := BitOr(ShiftLeft(ipv4, 8), result);
        rest := rest[1..];
      }
      digitCount := digitCount + 1;
    }
    if digitCount != 4 || |rest| != 0 {
      return None;
    }
    return Some(ipv4);
  }
}
