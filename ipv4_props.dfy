/**
 * What parse_ipv4 accepts, stated over texts the part parser reads as numbers
 * (any notation: decimal, octal or hexadecimal; Ipv4Numerals shows that all
 * three qualify). Every part but the last is an octet followed by '.', the
 * last part fills the remaining low bits, and one trailing '.' is dropped.
 */
module Ipv4Properties {
  import opened Basics
  import opened Chars
  import opened Ipv4

  /** What may follow a part: nothing, or the '.' that ends it. */
  predicate EndsPart(rest: string)
  {
    |rest| == 0 || rest[0] == '.'
  }

  /** The part parser reads all of t as the number v; t does not end in '.'. */
  predicate ReadsAs(t: string, v: nat)
  {
    |t| > 0 && t[|t| - 1] != '.' && Ipv4Number(t) == Some(Part(v, ""))
  }

  /** The part parser rejects t, which does not end in '.'. */
  predicate Unreadable(t: string)
  {
    |t| > 0 && t[|t| - 1] != '.' && Ipv4Number(t).None?
  }

  /** A digit run stops at whatever non-digit follows it. */
  lemma {:induction false} DigitRunAppend(u: string, rest: string, radix: nat)
    requires |rest| == 0 || !IsRadixDigit(rest[0], radix)
    ensures DigitRun(u + rest, radix) == DigitRun(u, radix)
  {
    if |u| > 0 {
      assert (u + rest)[1..] == u[1..] + rest;
      DigitRunAppend(u[1..], rest, radix);
    }
  }

  /** from_chars on u followed by a non-digit reads what it reads on u alone. */
  lemma {:induction false} FromCharsAppend(u: string, rest: string, radix: nat)
    requires 2 <= radix <= 16 && EndsPart(rest)
    ensures FromChars(u + rest, radix) ==
      match FromChars(u, radix)
      case None => None
      case Some(p) => Some(Part(p.value, p.rest + rest))
  {
    DigitRunAppend(u, rest, radix);
    var n := DigitRun(u, radix);
    assert (u + rest)[..n] == u[..n];
    assert (u + rest)[n..] == u[n..] + rest;
  }

  /**
   * The part parser only looks at its own part: what follows the '.' after it
   * never changes how a part is read, and is left over untouched.
   */
  lemma {:induction false} NumberAppend(t: string, rest: string)
    requires |t| > 0 && EndsPart(rest)
    ensures Ipv4Number(t + rest) ==
      match Ipv4Number(t)
      case None => None
      case Some(p) => Some(Part(p.value, p.rest + rest))
  {
    var s := t + rest;
    assert s[0] == t[0];
    if |t| >= 2 {
      assert s[1] == t[1];
    }
    if |t| > 2 {
      assert s[2] == t[2];
    }
    if HasHexPrefix(t) {
      assert s[2..] == t[2..] + rest;
      if |t| > 2 && t[2] != '.' {
        FromCharsAppend(t[2..], rest, 16);
      }
    } else if |t| >= 2 && t[0] == '0' && IsDigit(t[1]) {
      assert s[1..] == t[1..] + rest;
      FromCharsAppend(t[1..], rest, 8);
    } else {
      FromCharsAppend(t, rest, 10);
    }
  }

  /** Each text is read as the number at the same position. */
  ghost predicate Reading(texts: seq<string>, values: seq<nat>)
  {
    |texts| == |values| && forall i {:trigger ReadsAs(texts[i], values[i])} :: 0 <= i < |texts| ==> ReadsAs(texts[i], values[i])
  }

  predicate AllOctets(values: seq<nat>)
  {
    forall i :: 0 <= i < |values| ==> values[i] <= 255
  }

  /** The texts, each followed by '.', and then last: a dotted IPv4 host. */
  function Dotted(texts: seq<string>, last: string): string
  {
    if |texts| == 0 then last else texts[0] + ("." + Dotted(texts[1..], last))
  }

  /** acc followed by the given octets, most significant first. */
  function Packed(acc: nat, values: seq<nat>): nat
    decreases |values|
  {
    if |values| == 0 then acc else Packed(acc * 256 + values[0], values[1..])
  }

  /** The input parse_ipv4 goes on with once its single trailing '.' is dropped. */
  function Stripped(input: string): string
    requires |input| > 0
  {
    if input[|input| - 1] == '.' then input[..|input| - 1] else input
  }

  /** A text read in full is read the same with a part-ending text after it. */
  lemma {:induction false} ReadsAsAppend(t: string, v: nat, rest: string)
    requires ReadsAs(t, v) && EndsPart(rest)
    ensures Ipv4Number(t + rest) == Some(Part(v, rest))
  {
    NumberAppend(t, rest);
    assert "" + rest == rest;
  }

  /** The last character decides whether a dotted input loses a trailing '.'. */
  lemma {:induction false} StrippedDotted(texts: seq<string>, last: string)
    requires |last| > 0
    ensures Stripped(Dotted(texts, last)) == Dotted(texts, Stripped(last))
  {
    if |texts| > 0 {
      StrippedDotted(texts[1..], last);
      var tail := Dotted(texts[1..], last);
      var s := texts[0] + ("." + tail);
      assert s[|s| - 1] == tail[|tail| - 1];
      if tail[|tail| - 1] == '.' {
        assert s[..|s| - 1] == texts[0] + ("." + tail[..|tail| - 1]);
      }
    }
  }

  /** One octet followed by '.' is shifted in as the next byte. */
  lemma {:induction false} DottedStep(texts: seq<string>, v: nat, last: string, k: nat, acc: nat)
    requires k < 4 && |texts| > 0 && v <= 255 && ReadsAs(texts[0], v)
    ensures Ipv4Parts(Dotted(texts, last), k, acc) == Ipv4Parts(Dotted(texts[1..], last), k + 1, acc * 256 + v)
  {
    var t, tail := texts[0], Dotted(texts[1..], last);
    ReadsAsAppend(t, v, "." + tail);
    PartsStep(t + ("." + tail), k, acc, Part(v, "." + tail));
    assert ("." + tail)[1..] == tail;
  }

  /** Dropping the first octet and its text keeps both readings. */
  lemma {:induction false} ReadingTail(texts: seq<string>, values: seq<nat>)
    requires |texts| > 0 && Reading(texts, values) && AllOctets(values)
    ensures AllOctets(values[1..]) && Reading(texts[1..], values[1..])
  {
    assert forall i :: 0 <= i < |values| - 1 ==> values[1..][i] == values[i + 1] && texts[1..][i] == texts[i + 1];
  }

  /**
   * Octets each followed by '.' are shifted in one byte at a time: the parts
   * loop goes on with last after j = k + |texts| parts, holding packed.
   */
  lemma {:induction false} PartsOfDotted(texts: seq<string>, values: seq<nat>, last: string, k: nat, acc: nat, j: nat, packed: nat)
    requires j == k + |texts| <= 4 && Reading(texts, values) && AllOctets(values) && packed == Packed(acc, values)
    ensures Ipv4Parts(Dotted(texts, last), k, acc) == Ipv4Parts(last, j, packed)
    decreases |texts|
  {
    if |texts| > 0 {
      var next := acc * 256 + values[0];
      DottedStep(texts, values[0], last, k, acc);
      ReadingTail(texts, values);
      PartsOfDotted(texts[1..], values[1..], last, k + 1, next, j, packed);
    }
  }

  /** After octets each followed by '.', the parts loop goes on with what follows them. */
  lemma {:induction false} SpecOfDotted(texts: seq<string>, values: seq<nat>, last: string)
    requires |texts| <= 4 && Reading(texts, values) && AllOctets(values) && |last| > 0
    ensures Ipv4Spec(Dotted(texts, last)) == Ipv4Parts(Stripped(last), |texts|, Packed(0, values))
  {
    StrippedDotted(texts, last);
    PartsOfDotted(texts, values, Stripped(last), 0, 0, |texts|, Packed(0, values));
  }

  /** One trailing '.' after a final part read in full changes nothing. */
  lemma {:induction false} TrailingDot(texts: seq<string>, t: string)
    requires |t| > 0 && t[|t| - 1] != '.'
    ensures Ipv4Spec(Dotted(texts, t) + ".") == Ipv4Spec(Dotted(texts, t))
  {
    var s := Dotted(texts, t);
    assert Stripped(t) == t;
    assert Stripped(s) == s by {
      StrippedDotted(texts, t);
    }
    assert (s + ".")[..|s + "."| - 1] == s;
  }

  /**
   * Up to three octets and then a final part read in full, with or without one
   * trailing '.': the octets are packed most significant first and the final
   * part goes through the final-part test of url.cpp:50-57.
   */
  lemma {:induction false} DottedAddress(texts: seq<string>, values: seq<nat>, t: string, v: nat)
    requires |texts| <= 3 && Reading(texts, values) && AllOctets(values) && ReadsAs(t, v)
    ensures Ipv4Spec(Dotted(texts, t)) == FinalPart(Packed(0, values), |texts|, v)
    ensures Ipv4Spec(Dotted(texts, t) + ".") == Ipv4Spec(Dotted(texts, t))
  {
    SpecOfDotted(texts, values, t);
    assert Stripped(t) == t;
    PartsStep(t, |texts|, Packed(0, values), Part(v, ""));
    TrailingDot(texts, t);
  }

  /** A final part below 2^(32-8k) fills the low bits under the octets. */
  lemma {:induction false} FinalPartBelow(acc: nat, k: nat, v: nat)
    requires k < 4 && v < Pow2(32 - 8 * k)
    ensures FinalPart(acc, k, v) == Some(acc * Pow2(32 - 8 * k) + v)
  {
    BitOrDisjoint(acc, v, 32 - 8 * k);
  }

  /**
   * A final part of exactly 2^(32-8k), which the `>` test of url.cpp:54 lets
   * through, is OR-ed in and so sets bit 32-8k, the lowest bit of the octets:
   * the address grows by 2^(32-8k) when the last octet is even and is the
   * octets alone when it is odd. The standard rejects such a final part.
   */
  lemma {:induction false} FinalPartAtBound(values: seq<nat>, k: nat)
    requires 1 <= k < 4 && |values| == k
    ensures FinalPart(Packed(0, values), k, Pow2(32 - 8 * k)) ==
      Some(Packed(0, values) * Pow2(32 - 8 * k) + (if values[k - 1] % 2 == 0 then Pow2(32 - 8 * k) else 0))
  {
    BitOrPower(Packed(0, values), 32 - 8 * k);
    PackedLast(values, 0);
  }

  /** The parity of a packing is the parity of its last octet. */
  lemma {:induction false} PackedLast(values: seq<nat>, acc: nat)
    requires |values| > 0
    ensures Packed(acc, values) % 2 == values[|values| - 1] % 2
    decreases |values|
  {
    if |values| > 1 {
      PackedLast(values[1..], acc * 256 + values[0]);
    } else {
      assert Packed(acc, values) == Packed(acc * 256 + values[0], values[1..]);
      assert (acc * 256 + values[0]) % 2 == values[0] % 2;
    }
  }

  /**
   * A part that is not the last must be at most 255: a larger one fails
   * wherever it comes among the first four parts and whatever follows its '.'.
   */
  lemma {:induction false} OctetTooLarge(texts: seq<string>, values: seq<nat>, t: string, v: nat, rest: string)
    requires |texts| <= 3 && Reading(texts, values) && AllOctets(values) && ReadsAs(t, v)
    requires v > 255 && |rest| > 0
    ensures Ipv4Spec(Dotted(texts, t + ("." + rest))) == None
  {
    var k, acc := |texts|, Packed(0, values);
    var last := t + ("." + rest);
    var tail := "." + Stripped(rest);
    assert Stripped(last) == t + tail;
    assert Ipv4Spec(Dotted(texts, last)) == Ipv4Parts(t + tail, k, acc) by {
      SpecOfDotted(texts, values, last);
    }
    assert Ipv4Parts(t + tail, k, acc) == None by {
      ReadsAsAppend(t, v, tail);
      PartsStep(t + tail, k, acc, Part(v, tail));
    }
  }

  /** A part the number reader rejects (no digits, or not below 2^32) rejects the address. */
  lemma {:induction false} UnreadablePart(texts: seq<string>, values: seq<nat>, t: string, rest: string)
    requires |texts| <= 3 && Reading(texts, values) && AllOctets(values) && Unreadable(t) && EndsPart(rest)
    ensures Ipv4Spec(Dotted(texts, t + rest)) == None
  {
    var k, acc := |texts|, Packed(0, values);
    var last := t + rest;
    var rest' := if |rest| > 0 then Stripped(rest) else rest;
    assert Stripped(last) == t + rest';
    assert Ipv4Spec(Dotted(texts, last)) == Ipv4Parts(t + rest', k, acc) by {
      SpecOfDotted(texts, values, last);
    }
    assert Ipv4Parts(t + rest', k, acc) == None by {
      NumberAppend(t, rest');
      PartsFail(t + rest', k, acc);
    }
  }

  /**
   * An empty part fails, except a single trailing one: with fewer than four
   * octets before it, a '.' where a part should start is always rejected.
   */
  lemma {:induction false} EmptyPart(texts: seq<string>, values: seq<nat>, rest: string)
    requires |texts| <= 3 && Reading(texts, values) && AllOctets(values)
    ensures Ipv4Spec(Dotted(texts, "." + rest)) == None
  {
    var k, acc := |texts|, Packed(0, values);
    var last' := Stripped("." + rest);
    assert Ipv4Spec(Dotted(texts, "." + rest)) == Ipv4Parts(last', k, acc) by {
      SpecOfDotted(texts, values, "." + rest);
    }
    if |rest| > 0 {
      assert last'[0] == '.';
      assert Ipv4Parts(last', k, acc) == None by {
        assert DigitRun(last', 10) == 0;
        PartsFail(last', k, acc);
      }
    }
  }

  /** Anything but a single '.' after four dotted octets fails. */
  lemma {:induction false} TooManyParts(texts: seq<string>, values: seq<nat>, rest: string)
    requires |texts| == 4 && Reading(texts, values) && AllOctets(values)
    requires |rest| > 0 && rest != "."
    ensures Ipv4Spec(Dotted(texts, rest)) == None
  {
    SpecOfDotted(texts, values, rest);
    assert |Stripped(rest)| > 0;
  }

  /** from_chars stops where it stopped whatever is cut off after the stop. */
  lemma {:induction false} FromCharsTruncate(u: string, r1: string, r2: string, radix: nat, v: nat)
    requires 2 <= radix <= 16 && |r1| > 0
    requires FromChars(u + r1 + r2, radix) == Some(Part(v, r1 + r2))
    ensures FromChars(u + r1, radix) == Some(Part(v, r1))
  {
    var s, s' := u + r1 + r2, u + r1;
    var n := DigitRun(s, radix);
    assert s[n..] == r1 + r2;
    assert n == |u|;
    DigitRunMaximal(s, radix);
    assert s[n] == r1[0];
    assert s == u + (r1 + r2);
    DigitRunAppend(u, r1 + r2, radix);
    DigitRunAppend(u, r1, radix);
    assert s[..n] == u == s'[..n];
    assert s'[n..] == r1;
  }

  /** A part is read the same when input after the character it stopped at is cut off. */
  lemma {:induction false} NumberTruncate(t: string, r1: string, r2: string, v: nat)
    requires |t| > 0 && |r1| > 0 && Ipv4Number(t + r1 + r2) == Some(Part(v, r1 + r2))
    ensures Ipv4Number(t + r1) == Some(Part(v, r1))
  {
    var s, s' := t + r1 + r2, t + r1;
    assert forall i :: 0 <= i < |s'| ==> s'[i] == s[i];
    var isHex := HasHexPrefix(s);
    if isHex && (|s| == 2 || (|s| > 2 && s[2] == '.')) {
      assert |t| == 2 && s'[2] == r1[0] == '.';
    } else if isHex {
      assert |s[2..]| > |r1 + r2|;
      assert s[2..] == t[2..] + r1 + r2 && s'[2..] == t[2..] + r1;
      FromCharsTruncate(t[2..], r1, r2, 16, v);
    } else if |s| >= 2 && s[0] == '0' && IsDigit(s[1]) {
      assert |s[1..]| > |r1 + r2|;
      assert s[1..] == t[1..] + r1 + r2 && s'[1..] == t[1..] + r1;
      FromCharsTruncate(t[1..], r1, r2, 8, v);
    } else {
      FromCharsTruncate(t, r1, r2, 10, v);
    }
  }

  /**
   * A part that is not the last must be followed by '.': a part read up to any
   * other character fails, whatever the character and whatever follows it.
   */
  lemma {:induction false} BadSeparator(texts: seq<string>, values: seq<nat>, t: string, v: nat, rest: string)
    requires |texts| <= 3 && Reading(texts, values) && AllOctets(values) && |t| > 0
    requires |rest| > 0 && rest[0] != '.' && Ipv4Number(t + rest) == Some(Part(v, rest))
    ensures Ipv4Spec(Dotted(texts, t + rest)) == None
  {
    var rest' := Stripped(rest);
    StrippedReading(t, rest, v);
    SpecOfDotted(texts, values, t + rest);
    PartsStep(t + rest', |texts|, Packed(0, values), Part(v, rest'));
  }

  /** Dropping the trailing '.' of a part's left-over input leaves the part read the same. */
  lemma {:induction false} StrippedReading(t: string, rest: string, v: nat)
    requires |t| > 0 && |rest| > 0 && rest[0] != '.' && Ipv4Number(t + rest) == Some(Part(v, rest))
    ensures Stripped(t + rest) == t + Stripped(rest) && |Stripped(rest)| > 0 && Stripped(rest)[0] == rest[0]
    ensures Ipv4Number(t + Stripped(rest)) == Some(Part(v, Stripped(rest)))
  {
    if rest[|rest| - 1] == '.' {
      var rest' := rest[..|rest| - 1];
      assert rest == rest' + ".";
      assert t + rest == t + rest' + ".";
      assert (t + rest)[..|t + rest| - 1] == t + rest';
      NumberTruncate(t, rest', ".", v);
    }
  }

  /**
   * Four octets followed by two dots are accepted: the first dot ends the fourth
   * part and the second is the trailing '.' that is dropped. The standard rejects
   * this input, because splitting it on '.' leaves an empty part.
   */
  lemma {:induction false} FourOctetsTwoDots(texts: seq<string>, values: seq<nat>)
    requires |texts| == 4 && Reading(texts, values) && AllOctets(values)
    ensures Ipv4Spec(Dotted(texts, ".")) == Some(Packed(0, values))
  {
    SpecOfDotted(texts, values, ".");
    assert Stripped(".") == "";
  }
}
