/**
 * The three notations the IPv4 part parser reads (decimal, "0"-prefixed octal
 * and "0x"- or "0X"-prefixed hexadecimal) and what parse_ipv4 makes of hosts
 * written with them.
 */
module Ipv4Numerals {
  import opened Basics
  import opened Chars
  import opened Ipv4
  import opened Ipv4Properties

  /** Hexadecimal numbers carry whether their prefix is written "0X" rather than "0x". */
  datatype Radix = Octal | Decimal | Hexadecimal(upper: bool)

  /** A number together with the notation it is written in. */
  datatype Written = Written(value: nat, radix: Radix)

  /** The text of a written number: its shortest numeral behind the notation's prefix. */
  function Text(w: Written): string
  {
    match w.radix
    case Octal => "0" + Numeral(w.value, 8)
    case Decimal => Numeral(w.value, 10)
    case Hexadecimal(upper) => ['0', if upper then 'X' else 'x'] + Numeral(w.value, 16)
  }

  /** A run of digits that ends at a non-digit is read in full. */
  lemma {:induction false} DigitRunOf(d: string, rest: string, radix: nat)
    requires forall i :: 0 <= i < |d| ==> IsRadixDigit(d[i], radix)
    requires |rest| == 0 || !IsRadixDigit(rest[0], radix)
    ensures DigitRun(d + rest, radix) == |d|
  {
    if |d| > 0 {
      assert (d + rest)[1..] == d[1..] + rest;
      DigitRunOf(d[1..], rest, radix);
    }
  }

  /** from_chars reads back a numeral, failing exactly when it does not fit in 32 bits. */
  lemma {:induction false} ReadNumeral(n: nat, radix: nat, rest: string)
    requires 2 <= radix <= 16 && EndsPart(rest)
    ensures FromChars(Numeral(n, radix) + rest, radix) == if n < Limit32 then Some(Part(n, rest)) else None
  {
    var d := Numeral(n, radix);
    NumeralDigits(n, radix);
    NumeralDenotes(n, radix);
    DigitRunOf(d, rest, radix);
    var s := d + rest;
    assert s[..|d|] == d;
    assert s[|d|..] == rest;
  }

  /** Decimal digits without a leading zero are read by the decimal branch. */
  lemma {:induction false} ReadDecimal(d: string, rest: string)
    requires |d| > 0 && IsDigit(d[0]) && (d[0] == '0' ==> |d| == 1) && EndsPart(rest)
    ensures Ipv4Number(d + rest) == FromChars(d + rest, 10)
  {
    var s := d + rest;
    assert s[0] == d[0];
    if d[0] == '0' && |s| >= 2 {
      assert s[1] == rest[0];
    }
  }

  /** A 0 followed by any decimal digit is read by the octal branch from the digit on. */
  lemma {:induction false} ReadOctal(d: string, rest: string)
    requires |d| > 0 && IsDigit(d[0])
    ensures Ipv4Number("0" + d + rest) == FromChars(d + rest, 8)
  {
    var s := "0" + d + rest;
    assert s[0] == '0' && s[1] == d[0];
    assert s[1..] == d + rest;
  }

  /** A 0 followed by 8 or 9 goes to the octal branch, where the 8 or 9 is refused. */
  lemma {:induction false} OctalRefusesNine(d: char, rest: string)
    requires d == '8' || d == '9'
    ensures Ipv4Number(['0', d] + rest) == None
  {
    ReadOctal([d], rest);
    assert ['0', d] + rest == "0" + [d] + rest;
    assert ([d] + rest)[0] == d;
  }

  /** 0x or 0X followed by hexadecimal digits is read by the hexadecimal branch. */
  lemma {:induction false} ReadHexadecimal(x: char, d: string, rest: string)
    requires (x == 'x' || x == 'X') && |d| > 0 && IsAsciiHexDigit(d[0])
    ensures Ipv4Number(['0', x] + d + rest) == FromChars(d + rest, 16)
  {
    var s := ['0', x] + d + rest;
    assert s[0] == '0' && s[1] == x && s[2] == d[0];
    assert s[2..] == d + rest;
  }

  /** Every notation the part parser knows is read back as the number written. */
  lemma {:induction false} ReadWritten(w: Written, rest: string)
    requires EndsPart(rest)
    ensures Ipv4Number(Text(w) + rest) == if w.value < Limit32 then Some(Part(w.value, rest)) else None
  {
    var radix := match w.radix case Octal => 8 case Decimal => 10 case Hexadecimal(_) => 16;
    var d := Numeral(w.value, radix);
    NumeralDigits(w.value, radix);
    ReadNumeral(w.value, radix, rest);
    match w.radix
    case Decimal =>
      if w.value == 0 {
        assert d == [DigitChar(0)];
      }
      ReadDecimal(d, rest);
    case Octal =>
      ReadOctal(d, rest);
    case Hexadecimal(upper) =>
      ReadHexadecimal(if upper then 'X' else 'x', d, rest);
  }

  lemma {:induction false} TextShape(w: Written)
    ensures |Text(w)| > 0 && Text(w)[|Text(w)| - 1] != '.'
  {
    var radix := match w.radix case Octal => 8 case Decimal => 10 case Hexadecimal(_) => 16;
    var d := Numeral(w.value, radix);
    NumeralDigits(w.value, radix);
    assert Text(w)[|Text(w)| - 1] == d[|d| - 1];
  }

  /** A written number below 2^32 is read in full as its value; a wider one is rejected. */
  lemma {:induction false} WrittenReads(w: Written)
    ensures w.value < Limit32 ==> ReadsAs(Text(w), w.value)
    ensures w.value >= Limit32 ==> Unreadable(Text(w))
  {
    TextShape(w);
    ReadWritten(w, "");
    assert Text(w) + "" == Text(w);
  }

  function Texts(parts: seq<Written>): (r: seq<string>)
    ensures |r| == |parts|
  {
    if |parts| == 0 then [] else [Text(parts[0])] + Texts(parts[1..])
  }

  function Values(parts: seq<Written>): (r: seq<nat>)
    ensures |r| == |parts|
  {
    if |parts| == 0 then [] else [parts[0].value] + Values(parts[1..])
  }

  /** Written numbers below 2^32 are read as their values. */
  lemma {:induction false} WrittenReading(parts: seq<Written>)
    requires forall i :: 0 <= i < |parts| ==> parts[i].value < Limit32
    ensures Reading(Texts(parts), Values(parts))
    decreases |parts|
  {
    if |parts| > 0 {
      WrittenReads(parts[0]);
      assert forall i :: 0 <= i < |parts| - 1 ==> parts[1..][i] == parts[i + 1];
      WrittenReading(parts[1..]);
      assert Texts(parts)[1..] == Texts(parts[1..]);
      assert Values(parts)[1..] == Values(parts[1..]);
    }
  }

  lemma {:induction false} ValuesAt(parts: seq<Written>)
    ensures forall i :: 0 <= i < |parts| ==> Values(parts)[i] == parts[i].value
    decreases |parts|
  {
    if |parts| > 0 {
      ValuesAt(parts[1..]);
    }
  }

  /**
   * Up to three octets and a final part below 2^32, each in any notation: the
   * address is the final-part test applied to the packed octets.
   */
  lemma {:induction false} WrittenAddress(parts: seq<Written>, last: Written)
    requires |parts| <= 3 && last.value < Limit32
    requires forall i :: 0 <= i < |parts| ==> parts[i].value <= 255
    ensures Ipv4Spec(Dotted(Texts(parts), Text(last))) == FinalPart(Packed(0, Values(parts)), |parts|, last.value)
  {
    ValuesAt(parts);
    WrittenReading(parts);
    WrittenReads(last);
    DottedAddress(Texts(parts), Values(parts), Text(last), last.value);
  }

  /** A bare "0x" or "0X", alone or before '.', is read as 0 (url.cpp:35-37). */
  lemma {:induction false} BareHexPrefix(x: char, rest: string)
    requires (x == 'x' || x == 'X') && EndsPart(rest)
    ensures Ipv4Number(['0', x] + rest) == Some(Part(0, rest))
  {
    var s := ['0', x] + rest;
    assert s[0] == '0' && s[1] == x;
    if |rest| > 0 {
      assert s[2] == rest[0];
    }
    assert s[2..] == rest;
  }
}
