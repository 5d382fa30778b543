/**
 * What parse_ipv6 makes of a dotted IPv4 address at its end: the octets it
 * accepts, how it packs them into the last two pieces, and the ways the
 * embedded address fails.
 */
module Ipv6Embedded {
  import opened Basics
  import opened Chars
  import opened Ipv6
  import opened Ipv6Properties

  /** One to three decimal digits without a leading zero, denoting v of at most 255. */
  predicate OctetText(t: string, v: nat)
  {
    1 <= |t| <= 3 && (forall i :: 0 <= i < |t| ==> IsDigit(t[i])) && (|t| > 1 ==> t[0] != '0') && v <= 255 &&
    v == match |t|
      case 1 => DigitValue(t[0])
      case 2 => DigitValue(t[0]) * 10 + DigitValue(t[1])
      case _ => DigitValue(t[0]) * 100 + DigitValue(t[1]) * 10 + DigitValue(t[2])
  }

  /** What may follow an octet without extending it: nothing, or a non-digit. */
  predicate EndsOctet(rest: string)
  {
    |rest| == 0 || !IsDigit(rest[0])
  }

  ghost predicate AllOctetTexts(ts: seq<string>, vs: seq<nat>)
  {
    |ts| == |vs| && forall i {:trigger OctetText(ts[i], vs[i])} :: 0 <= i < |ts| ==> OctetText(ts[i], vs[i])
  }

  /** Octets each preceded by '.', and then rest. */
  function Dots(ts: seq<string>, rest: string): string
  {
    if |ts| == 0 then rest else "." + (ts[0] + Dots(ts[1..], rest))
  }

  /** Dotted octets, and then rest. */
  function Octets(ts: seq<string>, rest: string): string
    requires |ts| > 0
  {
    ts[0] + Dots(ts[1..], rest)
  }

  /** The digit loop of url.cpp:180-204 ends at a non-digit with the octet read so far. */
  lemma {:induction false} OctetEnd(rest: string, piece: nat)
    requires piece <= 255 && EndsOctet(rest)
    ensures OctetDigits(rest, piece) == Some(Octet(piece, rest))
  {
  }

  /** One more digit of the digit loop of url.cpp:180-204. */
  lemma {:induction false} OctetMore(c: char, rest: string, piece: nat)
    requires IsDigit(c) && 0 < piece && piece * 10 + DigitValue(c) <= 255
    ensures OctetDigits([c] + rest, piece) == OctetDigits(rest, piece * 10 + DigitValue(c))
  {
    assert ([c] + rest)[0] == c && ([c] + rest)[1..] == rest;
  }

  /** An octet followed by a non-digit is read in full (url.cpp:174-204). */
  lemma {:induction false} ReadOctetText(t: string, v: nat, rest: string)
    requires OctetText(t, v) && EndsOctet(rest)
    ensures ReadOctet(t + rest) == Some(Octet(v, rest))
  {
    var s := t + rest;
    var d0 := DigitValue(t[0]);
    assert s[0] == t[0] && s[1..] == t[1..] + rest;
    if |t| == 1 {
      assert t[1..] + rest == rest;
      OctetEnd(rest, d0);
    } else if |t| == 2 {
      assert t[1..] + rest == [t[1]] + rest;
      OctetMore(t[1], rest, d0);
      OctetEnd(rest, v);
    } else {
      var d1 := DigitValue(t[1]);
      assert t[1..] + rest == [t[1]] + ([t[2]] + rest);
      OctetMore(t[1], [t[2]] + rest, d0);
      OctetMore(t[2], rest, d0 * 10 + d1);
      OctetEnd(rest, v);
    }
  }

  /** A '0' followed by a digit fails: an octet has no leading zero (url.cpp:189-191). */
  lemma {:induction false} LeadingZero(d: char, rest: string)
    requires IsDigit(d)
    ensures ReadOctet(['0', d] + rest) == None
  {
    var s := ['0', d] + rest;
    assert s[0] == '0' && s[1..][0] == d;
  }

  /**
   * Three digits without a leading zero fail when they denote more than 255,
   * and so does any fourth digit (url.cpp:197-200).
   */
  lemma {:induction false} OctetOverflow(t: string, rest: string)
    requires |t| == 3 && (forall i :: 0 <= i < 3 ==> IsDigit(t[i])) && t[0] != '0'
    requires DigitValue(t[0]) * 100 + DigitValue(t[1]) * 10 + DigitValue(t[2]) > 255 || (|rest| > 0 && IsDigit(rest[0]))
    ensures ReadOctet(t + rest) == None
  {
    var s := t + rest;
    var d0, d1, d2 := DigitValue(t[0]), DigitValue(t[1]), DigitValue(t[2]);
    assert s[0] == t[0] && s[1..] == [t[1]] + ([t[2]] + rest);
    OctetMore(t[1], [t[2]] + rest, d0);
    var p := d0 * 10 + d1;
    if p * 10 + d2 <= 255 {
      OctetMore(t[2], rest, p);
    } else {
      assert ([t[2]] + rest)[0] == t[2];
    }
  }

  /** Shifting an octet into a piece that holds at most one octet stays within 16 bits. */
  lemma {:induction false} ShiftOctet(piece: int, v: nat)
    requires 0 <= piece <= 255 && v <= 255
    ensures (piece * 0x100 + v) % Limit16 == piece * 0x100 + v
  {
  }

  /** One octet after a '.' is one turn of the embedded IPv4 loop, which stores next. */
  lemma {:induction false} DotStep(ts: seq<string>, vs: seq<nat>, rest: string, seen: nat, address: seq<int>, pi0: nat,
                                   next: seq<int>)
    requires AllOctetTexts(ts, vs) && |ts| > 0 && EndsOctet(rest)
    requires 1 <= seen < 4 && pi0 <= 6 && |address| == 8
    requires next == address[pi0 + seen / 2 := (address[pi0 + seen / 2] * 0x100 + vs[0]) % Limit16]
    ensures AllOctetTexts(ts[1..], vs[1..])
    ensures Embedded(Dots(ts, rest), seen, address, pi0) == Embedded(Dots(ts[1..], rest), seen + 1, next, pi0)
  {
    var s := Dots(ts, rest);
    var tail := Dots(ts[1..], rest);
    assert OctetText(ts[0], vs[0]);
    assert EndsOctet(tail);
    assert s[0] == '.' && s[1..] == ts[0] + tail;
    ReadOctetText(ts[0], vs[0], tail);
    EmbeddedAdvance(s, seen, address, pi0, ts[0] + tail, vs[0], tail, pi0 + seen / 2);
    assert forall i :: 0 <= i < |ts| - 1 ==> ts[1..][i] == ts[i + 1] && vs[1..][i] == vs[i + 1];
  }

  /** The first octet is one turn of the embedded IPv4 loop, which stores next. */
  lemma {:induction false} FirstStep(ts: seq<string>, vs: seq<nat>, rest: string, address: seq<int>, pi0: nat, next: seq<int>)
    requires AllOctetTexts(ts, vs) && |ts| > 0 && EndsOctet(rest) && pi0 <= 6 && |address| == 8
    requires next == address[pi0 := (address[pi0] * 0x100 + vs[0]) % Limit16]
    ensures AllOctetTexts(ts[1..], vs[1..])
    ensures Embedded(Octets(ts, rest), 0, address, pi0) == Embedded(Dots(ts[1..], rest), 1, next, pi0)
  {
    var s := Octets(ts, rest);
    var tail := Dots(ts[1..], rest);
    assert OctetText(ts[0], vs[0]);
    assert EndsOctet(tail);
    ReadOctetText(ts[0], vs[0], tail);
    EmbeddedAdvance(s, 0, address, pi0, s, vs[0], tail, pi0);
    assert forall i :: 0 <= i < |ts| - 1 ==> ts[1..][i] == ts[i + 1] && vs[1..][i] == vs[i + 1];
  }

  /**
   * The pieces once the embedded IPv4 loop has shifted in the octets vs, `seen`
   * octets being in already: each octet goes into piece pi0 + seen / 2.
   */
  function Shifted(address: seq<int>, pi0: nat, seen: nat, vs: seq<nat>): (r: seq<int>)
    requires |address| == 8 && pi0 <= 6 && seen + |vs| <= 4
    ensures |r| == 8
    decreases |vs|
  {
    if |vs| == 0 then address
    else
      var i := pi0 + seen / 2;
      Shifted(address[i := (address[i] * 0x100 + vs[0]) % Limit16], pi0, seen + 1, vs[1..])
  }

  /** Octets each after a '.' are read one per turn of the embedded IPv4 loop. */
  lemma {:induction false} EmbeddedDots(ts: seq<string>, vs: seq<nat>, rest: string, seen: nat, address: seq<int>, pi0: nat)
    requires AllOctetTexts(ts, vs) && EndsOctet(rest) && 1 <= seen && seen + |ts| <= 4 && pi0 <= 6 && |address| == 8
    ensures Embedded(Dots(ts, rest), seen, address, pi0) == Embedded(rest, seen + |ts|, Shifted(address, pi0, seen, vs), pi0)
    decreases |ts|
  {
    if |ts| > 0 {
      var i := pi0 + seen / 2;
      var next := address[i := (address[i] * 0x100 + vs[0]) % Limit16];
      DotStep(ts, vs, rest, seen, address, pi0, next);
      EmbeddedDots(ts[1..], vs[1..], rest, seen + 1, next, pi0);
    }
  }

  /** Dotted octets are read one per turn of the embedded IPv4 loop. */
  lemma {:induction false} EmbeddedOctets(ts: seq<string>, vs: seq<nat>, rest: string, address: seq<int>, pi0: nat)
    requires AllOctetTexts(ts, vs) && EndsOctet(rest) && 1 <= |ts| <= 4 && pi0 <= 6 && |address| == 8
    ensures Embedded(Octets(ts, rest), 0, address, pi0) == Embedded(rest, |ts|, Shifted(address, pi0, 0, vs), pi0)
  {
    var next := address[pi0 := (address[pi0] * 0x100 + vs[0]) % Limit16];
    FirstStep(ts, vs, rest, address, pi0, next);
    EmbeddedDots(ts[1..], vs[1..], rest, 1, next, pi0);
  }

  /** The four shifts of the embedded IPv4 loop into two zero pieces. */
  lemma {:induction false} PackQuad(address: seq<int>, pi0: nat, v0: nat, v1: nat, v2: nat, v3: nat, packed: seq<int>)
    requires |address| == 8 && pi0 <= 6 && address[pi0] == 0 && address[pi0 + 1] == 0
    requires v0 <= 255 && v1 <= 255 && v2 <= 255 && v3 <= 255
    requires var a1 := address[pi0 := (address[pi0] * 0x100 + v0) % Limit16];
      var a2 := a1[pi0 + 1 / 2 := (a1[pi0 + 1 / 2] * 0x100 + v1) % Limit16];
      var a3 := a2[pi0 + 2 / 2 := (a2[pi0 + 2 / 2] * 0x100 + v2) % Limit16];
      packed == a3[pi0 + 3 / 2 := (a3[pi0 + 3 / 2] * 0x100 + v3) % Limit16]
    ensures packed == address[pi0 := v0 * 0x100 + v1][pi0 + 1 := v2 * 0x100 + v3]
  {
    ShiftOctet(0, v0);
    ShiftOctet(v0, v1);
    ShiftOctet(0, v2);
    ShiftOctet(v2, v3);
  }

  /** Four octets shifted into two zero pieces fill them two per piece, most significant first. */
  lemma {:induction false} ShiftedQuad(address: seq<int>, pi0: nat, vs: seq<nat>)
    requires |address| == 8 && pi0 <= 6 && address[pi0] == 0 && address[pi0 + 1] == 0
    requires |vs| == 4 && vs[0] <= 255 && vs[1] <= 255 && vs[2] <= 255 && vs[3] <= 255
    ensures Shifted(address, pi0, 0, vs) == address[pi0 := vs[0] * 0x100 + vs[1]][pi0 + 1 := vs[2] * 0x100 + vs[3]]
  {
    var vs1, vs2, vs3 := vs[1..], vs[2..], vs[3..];
    assert vs[1..][1..] == vs2 && vs2[1..] == vs3 && vs3[1..] == [];
    var a1: seq<int> := address[pi0 := (address[pi0] * 0x100 + vs[0]) % Limit16];
    var a2: seq<int> := a1[pi0 + 1 / 2 := (a1[pi0 + 1 / 2] * 0x100 + vs1[0]) % Limit16];
    var a3: seq<int> := a2[pi0 + 2 / 2 := (a2[pi0 + 2 / 2] * 0x100 + vs2[0]) % Limit16];
    var a4: seq<int> := a3[pi0 + 3 / 2 := (a3[pi0 + 3 / 2] * 0x100 + vs3[0]) % Limit16];
    assert Shifted(address, pi0, 0, vs) == Shifted(a1, pi0, 1, vs1);
    assert Shifted(a1, pi0, 1, vs1) == Shifted(a2, pi0, 2, vs2);
    assert Shifted(a2, pi0, 2, vs2) == Shifted(a3, pi0, 3, vs3);
    assert Shifted(a3, pi0, 3, vs3) == a4;
    PackQuad(address, pi0, vs[0], vs[1], vs[2], vs[3], a4);
  }

  /**
   * Four octets that end the input are packed two per piece, most significant
   * first, into the two pieces from pi0 on (url.cpp:206-216).
   */
  lemma {:induction false} EmbeddedQuad(ts: seq<string>, vs: seq<nat>, address: seq<int>, pi0: nat)
    requires AllOctetTexts(ts, vs) && |ts| == 4 && pi0 <= 6 && |address| == 8
    requires address[pi0] == 0 && address[pi0 + 1] == 0
    ensures Embedded(Octets(ts, ""), 0, address, pi0) ==
      Some(address[pi0 := vs[0] * 0x100 + vs[1]][pi0 + 1 := vs[2] * 0x100 + vs[3]])
  {
    assert OctetText(ts[0], vs[0]) && OctetText(ts[1], vs[1]) && OctetText(ts[2], vs[2]) && OctetText(ts[3], vs[3]);
    EmbeddedOctets(ts, vs, "", address, pi0);
    ShiftedQuad(address, pi0, vs);
  }

  /**
   * What the embedded IPv4 loop refuses after n octets: fewer than four
   * followed by the end of the input (url.cpp:220-222), by anything but '.'
   * (url.cpp:168-170), or by a '.' without an octet after it (url.cpp:174-204);
   * and anything at all after the fourth (url.cpp:163-166).
   */
  predicate BadTail(n: nat, rest: string)
  {
    (n < 4 && (|rest| == 0 || rest[0] != '.' || ReadOctet(rest[1..]).None?)) || (n == 4 && |rest| > 0)
  }

  /**
   * Octets followed by a tail the embedded IPv4 loop refuses fail: fewer than
   * four that end the input or are followed by anything but '.' and an octet,
   * and four with anything after them.
   */
  lemma {:induction false} EmbeddedCount(ts: seq<string>, vs: seq<nat>, rest: string, address: seq<int>, pi0: nat)
    requires AllOctetTexts(ts, vs) && 1 <= |ts| <= 4 && EndsOctet(rest) && pi0 <= 6 && |address| == 8
    requires BadTail(|ts|, rest)
    ensures Embedded(Octets(ts, rest), 0, address, pi0) == None
  {
    EmbeddedOctets(ts, vs, rest, address, pi0);
  }

  /** The first of several dotted octets, or one followed by '.', read as a group, stops at the '.' after it. */
  lemma {:induction false} OctetsAsGroup(ts: seq<string>, vs: seq<nat>, rest: string)
    requires AllOctetTexts(ts, vs) && |ts| > 0 && (|ts| > 1 || (|rest| > 0 && rest[0] == '.'))
    ensures GroupText(ts[0]) && |Octets(ts, rest)| > |ts[0]|
    ensures GroupLength(Octets(ts, rest)) == |ts[0]| && Octets(ts, rest)[|ts[0]|..] == Dots(ts[1..], rest)
    ensures Octets(ts, rest)[0] != ':'
  {
    assert OctetText(ts[0], vs[0]);
    var d := Dots(ts[1..], rest);
    assert d[0] == '.';
    GroupAppend(ts[0], d);
  }

  /**
   * Four dotted octets where a group would start are re-read as an embedded
   * IPv4 address (url.cpp:139-225): they fill the pieces at pi and pi + 1,
   * which must exist, and end the main loop.
   */
  lemma {:induction false} ScanQuad(ts: seq<string>, vs: seq<nat>, address: seq<int>, pi: nat, compress: Option<nat>)
    requires AllOctetTexts(ts, vs) && |ts| == 4 && |address| == 8 && pi <= 8
    requires compress.Some? ==> 1 <= compress.value <= pi
    requires pi <= 6 ==> address[pi] == 0 && address[pi + 1] == 0
    ensures Scan(Octets(ts, ""), address, pi, compress) ==
      if pi <= 6 then Some(Scanned(address[pi := vs[0] * 0x100 + vs[1]][pi + 1 := vs[2] * 0x100 + vs[3]], pi + 2, compress))
      else None
  {
    OctetsAsGroup(ts, vs, "");
    if pi < 8 {
      ScanGroup(Octets(ts, ""), address, pi, compress);
      if pi <= 6 {
        EmbeddedQuad(ts, vs, address, pi);
      }
    }
  }

  /**
   * Octets where a group would start, followed by a tail the embedded IPv4 loop
   * refuses, fail wherever they stand, once a '.' after the first octet has
   * committed the main loop to reading them.
   */
  lemma {:induction false} ScanOctetCount(ts: seq<string>, vs: seq<nat>, rest: string, address: seq<int>, pi: nat, compress: Option<nat>)
    requires AllOctetTexts(ts, vs) && EndsOctet(rest) && |address| == 8 && pi <= 8
    requires compress.Some? ==> 1 <= compress.value <= pi
    requires 1 <= |ts| <= 4 && (|ts| > 1 || (|rest| > 0 && rest[0] == '.')) && BadTail(|ts|, rest)
    ensures Scan(Octets(ts, rest), address, pi, compress) == None
  {
    OctetsAsGroup(ts, vs, rest);
    if pi < 8 {
      ScanGroup(Octets(ts, rest), address, pi, compress);
      if pi <= 6 {
        EmbeddedCount(ts, vs, rest, address, pi);
      }
    }
  }

  /** The two pieces four octets make, most significant first. */
  function Packed(vs: seq<nat>): (r: seq<int>)
    requires |vs| == 4
    ensures |r| == 2
    ensures (forall i :: 0 <= i < 4 ==> vs[i] <= 255) ==>
      0 <= r[0] < Limit16 && 0 <= r[1] < Limit16 &&
      r[0] / 0x100 == vs[0] && r[0] % 0x100 == vs[1] && r[1] / 0x100 == vs[2] && r[1] % 0x100 == vs[3]
  {
    [vs[0] * 0x100 + vs[1], vs[2] * 0x100 + vs[3]]
  }

  lemma {:induction false} OctetValues(ts: seq<string>, vs: seq<nat>)
    requires AllOctetTexts(ts, vs)
    ensures forall i :: 0 <= i < |vs| ==> vs[i] <= 255
  {
    forall i | 0 <= i < |vs|
      ensures vs[i] <= 255
    {
      assert OctetText(ts[i], vs[i]);
    }
  }

  /** The text before a dotted address does not start with ':'. */
  lemma {:induction false} ColonsStart(xs: seq<string>, ts: seq<string>, vs: seq<nat>, rest: string)
    requires AllGroups(xs) && AllOctetTexts(ts, vs) && |ts| > 0 && (|ts| > 1 || (|rest| > 0 && rest[0] == '.'))
    ensures |Colons(xs, Octets(ts, rest))| > 0 && Colons(xs, Octets(ts, rest))[0] != ':'
  {
    OctetsAsGroup(ts, vs, rest);
    ColonsLength(xs, Octets(ts, rest));
    if |xs| > 0 {
      GroupAppend(xs[0], ":" + Colons(xs[1..], Octets(ts, rest)));
    }
  }

  /**
   * Groups separated by ':' and then a dotted IPv4 address, without "::": six
   * groups are needed, and the four octets make the last two pieces.
   */
  lemma {:induction false} EmbeddedForm(xs: seq<string>, ts: seq<string>, vs: seq<nat>)
    requires AllGroups(xs) && AllOctetTexts(ts, vs) && |ts| == 4
    ensures Ipv6Spec(Colons(xs, Octets(ts, ""))) ==
      if |xs| == 6 then Some(Values(xs) + Packed(vs)) else None
  {
    OctetValues(ts, vs);
    var o := Octets(ts, "");
    ColonsStart(xs, ts, vs, "");
    if |xs| >= 8 {
      ScanPastEight(xs, o, Zeros(8), 0, None);
    } else {
      var vx := Values(xs);
      ScanColons(xs, o, Zeros(8), 0, None);
      QuadAfter(ts, vs, Zeros(8), 0, vx, None);
      if |xs| == 6 {
        PlacedFirst(vx + Packed(vs));
        assert vx + Packed(vs) + Zeros(0) == vx + Packed(vs);
      }
    }
  }

  /** Groups and then octets followed by a tail the embedded IPv4 loop refuses make the whole address fail. */
  lemma {:induction false} EmbeddedOctetCount(xs: seq<string>, ts: seq<string>, vs: seq<nat>, rest: string)
    requires AllGroups(xs) && AllOctetTexts(ts, vs) && EndsOctet(rest)
    requires 1 <= |ts| <= 4 && (|ts| > 1 || (|rest| > 0 && rest[0] == '.')) && BadTail(|ts|, rest)
    ensures Ipv6Spec(Colons(xs, Octets(ts, rest))) == None
  {
    var o := Octets(ts, rest);
    ColonsStart(xs, ts, vs, rest);
    OctetsAsGroup(ts, vs, rest);
    if |xs| >= 8 {
      ScanPastEight(xs, o, Zeros(8), 0, None);
    } else {
      ScanColons(xs, o, Zeros(8), 0, None);
      ScanOctetCount(ts, vs, rest, Place(Zeros(8), 0, Values(xs)), |xs|, None);
    }
  }

  /** A '.' with no digits before it fails (url.cpp:142-144). */
  lemma {:induction false} DotWithoutGroup(xs: seq<string>, rest: string)
    requires AllGroups(xs)
    ensures Ipv6Spec(Colons(xs, "." + rest)) == None
  {
    var t := "." + rest;
    var input := Colons(xs, t);
    ColonsLength(xs, t);
    assert input[0] != ':' by {
      if |xs| > 0 {
        GroupAppend(xs[0], ":" + Colons(xs[1..], t));
      }
    }
    if |xs| >= 8 {
      ScanPastEight(xs, t, Zeros(8), 0, None);
    } else {
      ScanColons(xs, t, Zeros(8), 0, None);
      assert GroupLength(t) == 0 && t[0..] == t;
      ScanGroup(t, Place(Zeros(8), 0, Values(xs)), |xs|, None);
    }
  }

  /**
   * A group followed by '.' that the embedded IPv4 loop cannot read as a first
   * octet makes the address fail: a leading zero (url.cpp:189-191), a value
   * above 255 or a fourth digit (url.cpp:197-200), or a hexadecimal digit.
   */
  lemma {:induction false} FirstOctetFails(xs: seq<string>, u: string, rest: string)
    requires AllGroups(xs) && GroupText(u)
    requires var r := ReadOctet(u + ("." + rest)); r.None? || |r.value.rest| == 0 || r.value.rest[0] != '.'
    ensures Ipv6Spec(Colons(xs, u + ("." + rest))) == None
  {
    var t := u + ("." + rest);
    var input := Colons(xs, t);
    GroupAppend(u, "." + rest);
    ColonsLength(xs, t);
    assert input[0] != ':' by {
      if |xs| > 0 {
        GroupAppend(xs[0], ":" + Colons(xs[1..], t));
      }
    }
    if |xs| >= 8 {
      ScanPastEight(xs, t, Zeros(8), 0, None);
    } else {
      var a := Place(Zeros(8), 0, Values(xs));
      ScanColons(xs, t, Zeros(8), 0, None);
      ScanGroup(t, a, |xs|, None);
      if |xs| <= 6 {
        EmbeddedStep(t, 0, a, |xs|, t);
        match ReadOctet(t)
        case None =>
        case Some(o) =>
          var i := |xs|;
          EmbeddedRefused(o.rest, a[i := (a[i] * 0x100 + o.value) % Limit16], i);
      }
    }
  }

  /** The embedded IPv4 loop after one octet refuses the end of input and anything but '.'. */
  lemma {:induction false} EmbeddedRefused(s: string, address: seq<int>, pi0: nat)
    requires (|s| == 0 || s[0] != '.') && pi0 <= 6 && |address| == 8
    ensures Embedded(s, 1, address, pi0) == None
  {
  }

  /** A '0' and a further digit after one to four octets and a '.' make the address fail (url.cpp:189-191). */
  lemma {:induction false} TailLeadingZero(xs: seq<string>, ts: seq<string>, vs: seq<nat>, d: char, rest: string)
    requires AllGroups(xs) && AllOctetTexts(ts, vs) && 1 <= |ts| <= 3 && IsDigit(d)
    ensures Ipv6Spec(Colons(xs, Octets(ts, ['.', '0', d] + rest))) == None
  {
    var tail := ['.', '0', d] + rest;
    assert tail[1..] == ['0', d] + rest;
    LeadingZero(d, rest);
    EmbeddedOctetCount(xs, ts, vs, tail);
  }

  /**
   * Three digits above 255, or a fourth digit, after one to three octets and a
   * '.' make the address fail (url.cpp:197-200).
   */
  lemma {:induction false} TailOverflow(xs: seq<string>, ts: seq<string>, vs: seq<nat>, t: string, rest: string)
    requires AllGroups(xs) && AllOctetTexts(ts, vs) && 1 <= |ts| <= 3
    requires |t| == 3 && (forall i :: 0 <= i < 3 ==> IsDigit(t[i])) && t[0] != '0'
    requires DigitValue(t[0]) * 100 + DigitValue(t[1]) * 10 + DigitValue(t[2]) > 255 || (|rest| > 0 && IsDigit(rest[0]))
    ensures Ipv6Spec(Colons(xs, Octets(ts, "." + t + rest))) == None
  {
    var tail := "." + t + rest;
    assert tail[1..] == t + rest;
    OctetOverflow(t, rest);
    EmbeddedOctetCount(xs, ts, vs, tail);
  }

  /** Four octets after the pieces vy stored from c on; the pieces after them are still 0. */
  lemma {:induction false} QuadAfter(ts: seq<string>, vs: seq<nat>, p: seq<int>, c: nat, vy: seq<int>, compress: Option<nat>)
    requires AllOctetTexts(ts, vs) && |ts| == 4 && |p| == 8 && c + |vy| <= 8 && ZeroFrom(p, c)
    requires compress.Some? ==> 1 <= compress.value <= c + |vy|
    ensures Scan(Octets(ts, ""), Place(p, c, vy), c + |vy|, compress) ==
        if c + |vy| <= 6 then Some(Scanned(Place(p, c, vy + Packed(vs)), c + |vy| + 2, compress)) else None
  {
    OctetValues(ts, vs);
    var q := Place(p, c, vy);
    var i := c + |vy|;
    PlaceShape(p, c, vy);
    if i <= 6 {
      assert q[i] == p[i] && q[i + 1] == p[i + 1];
    }
    ScanQuad(ts, vs, q, i, compress);
    if i <= 6 {
      var pk := Packed(vs);
      PlaceSnoc(p, c, vy, pk[0]);
      PlaceSnoc(p, c, vy + [pk[0]], pk[1]);
      assert vy + [pk[0]] + [pk[1]] == vy + pk;
    }
  }

  /**
   * xs::ys followed by a dotted IPv4 address: the octets make the last two
   * pieces, and "::" stands for the zero pieces still missing, of which there
   * must be at least one.
   */
  lemma {:induction false} CompressedEmbedded(xs: seq<string>, ys: seq<string>, ts: seq<string>, vs: seq<nat>)
    requires AllGroups(xs) && AllGroups(ys) && AllOctetTexts(ts, vs) && |ts| == 4
    ensures Ipv6Spec(CompressedPrefix(xs, Colons(ys, Octets(ts, "")))) ==
        if |xs| + |ys| <= 5 then Some(Values(xs) + Zeros(6 - |xs| - |ys|) + Values(ys) + Packed(vs)) else None
  {
    var tail := Colons(ys, Octets(ts, ""));
    if |xs| >= 8 {
      CompressStartTooLate(xs, tail);
    } else if |xs| + |ys| >= 7 {
      OctetsAsGroup(ts, vs, "");
      CompressStart(xs, tail);
      ScanPastEight(ys, Octets(ts, ""), Place(Zeros(8), 0, Values(xs)), |xs| + 1, Some(|xs| + 1));
    } else {
      CompressedQuad(xs, ys, ts, vs);
    }
  }

  /** The case of CompressedEmbedded where the groups leave room for "::". */
  lemma {:induction false} CompressedQuad(xs: seq<string>, ys: seq<string>, ts: seq<string>, vs: seq<nat>)
    requires AllGroups(xs) && AllGroups(ys) && AllOctetTexts(ts, vs) && |ts| == 4 && |xs| + |ys| < 7
    ensures Ipv6Spec(CompressedPrefix(xs, Colons(ys, Octets(ts, "")))) ==
      if |xs| + |ys| <= 5 then Some(Values(xs) + Zeros(6 - |xs| - |ys|) + Values(ys) + Packed(vs)) else None
  {
    CompressedQuadScan(xs, ys, ts, vs);
    if |xs| + |ys| <= 5 {
      var vx, vq := Values(xs), Values(ys) + Packed(vs);
      ResolveCompressed(vx, vq);
      ZerosAround(vx, Values(ys), Packed(vs), 8 - |vx| - |vq|);
    }
  }

  /** What the main loop makes of xs::ys and four octets. */
  lemma {:induction false} CompressedQuadScan(xs: seq<string>, ys: seq<string>, ts: seq<string>, vs: seq<nat>)
    requires AllGroups(xs) && AllGroups(ys) && AllOctetTexts(ts, vs) && |ts| == 4 && |xs| + |ys| < 7
    ensures |CompressedPrefix(xs, Colons(ys, Octets(ts, "")))| > 0
    ensures ScanInput(CompressedPrefix(xs, Colons(ys, Octets(ts, "")))) ==
      if |xs| + |ys| <= 5 then
        Some(Scanned(Place(Place(Zeros(8), 0, Values(xs)), |xs| + 1, Values(ys) + Packed(vs)), |xs| + 1 + |ys| + 2, Some(|xs| + 1)))
      else None
  {
    var o := Octets(ts, "");
    var vx, vy := Values(xs), Values(ys);
    var c := |xs| + 1;
    var p := Place(Zeros(8), 0, vx);
    OctetsAsGroup(ts, vs, "");
    CompressStart(xs, Colons(ys, o));
    ScanColons(ys, o, p, c, Some(c));
    PlacedFirst(vx);
    QuadAfter(ts, vs, p, c, vy, Some(c));
  }

  lemma {:induction false} ZerosAround(vx: seq<int>, vy: seq<int>, pk: seq<int>, n: nat)
    ensures vx + Zeros(n) + (vy + pk) == vx + Zeros(n) + vy + pk
  {
  }
}
