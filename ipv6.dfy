/**
 * The IPv6 parser of url.cpp (url::parse_ipv6): up to eight 16-bit pieces
 * written as groups of at most four hexadecimal digits separated by ':', one
 * "::" standing for a run of zero pieces, and an optional dotted IPv4 tail
 * that fills two pieces.
 *
 * The specification functions follow the source's position in the input through the
 * remaining suffix of the input; the end of the input plays the part of the EOF
 * code point, which is not a hexadecimal digit, not a digit, not '.' and not ':'.
 */
module Ipv6 {
  import opened Basics
  import opened Chars

  /**
   * Pieces and the group accumulator are uint16_t: the group loop's update and
   * the embedded IPv4 loop's shift are reduced modulo 2^16. A group's store needs
   * no reduction, its value being below 2^16 already.
   */
  const Limit16: nat := 0x1_0000

  function Zeros(n: nat): (r: seq<int>)
    ensures |r| == n && forall i :: 0 <= i < n ==> r[i] == 0
  {
    seq(n, _ => 0)
  }

  /**
   * The inner loop of url.cpp:130-137: the number of hexadecimal digits read at
   * the front of s, at most four, continuing from n digits already read.
   */
  function HexRunFrom(s: string, n: nat): (r: nat)
    requires n <= 4 && n <= |s|
    ensures n <= r <= 4 && r <= |s|
    decreases 4 - n
  {
    if n < 4 && n < |s| && IsAsciiHexDigit(s[n]) then HexRunFrom(s, n + 1) else n
  }

  /** The length of the group at the front of s. */
  function GroupLength(s: string): (r: nat)
    ensures r <= 4 && r <= |s|
  {
    HexRunFrom(s, 0)
  }

  /** The run HexRunFrom measures is made of hexadecimal digits and ends where the loop stops. */
  lemma {:induction false} HexRunDigits(s: string, n: nat)
    requires n <= 4 && n <= |s| && AllHexDigits(s[..n])
    ensures AllHexDigits(s[..HexRunFrom(s, n)])
    ensures HexRunFrom(s, n) < 4 && HexRunFrom(s, n) < |s| ==> !IsAsciiHexDigit(s[HexRunFrom(s, n)])
    decreases 4 - n
  {
    if n < 4 && n < |s| && IsAsciiHexDigit(s[n]) {
      assert s[..n + 1] == s[..n] + [s[n]];
      HexRunDigits(s, n + 1);
    }
  }

  /** A hexadecimal digit string denotes a number below 16^|d|. */
  lemma {:induction false} HexDigitsBound(d: string)
    requires AllHexDigits(d)
    ensures DigitsValue(d, 16) < Power(16, |d|)
    decreases |d|
  {
    if |d| > 0 {
      var init := d[..|d| - 1];
      assert AllHexDigits(init) by {
        assert forall i :: 0 <= i < |init| ==> init[i] == d[i];
      }
      HexDigitsBound(init);
      assert DigitsValue(d, 16) == DigitsValue(init, 16) * 16 + HexValue(d[|d| - 1]);
      assert Power(16, |d|) == 16 * Power(16, |init|);
    }
  }

  /** The value of the group at the front of s; at most four digits keep it inside a piece. */
  function GroupValue(s: string): (v: nat)
    ensures v < Limit16
  {
    var n := GroupLength(s);
    HexRunDigits(s, 0);
    HexDigitsBound(s[..n]);
    assert Power(16, n) <= Power(16, 4) by {
      PowerMonotone(16, n, 4);
    }
    DigitsValue(s[..n], 16)
  }

  lemma {:induction false} PowerMonotone(b: nat, m: nat, n: nat)
    requires 1 <= b && m <= n
    ensures Power(b, m) <= Power(b, n)
    decreases n
  {
    if m < n {
      PowerMonotone(b, m, n - 1);
      MultiplyMonotone(1, b, Power(b, n - 1));
    }
  }

  /** An octet of an embedded IPv4 address and the input after it. */
  datatype Octet = Octet(value: nat, rest: string)

  function DigitValue(c: char): (v: nat)
    requires IsDigit(c)
    ensures v < 10
  {
    c as int - '0' as int
  }

  /**
   * The digit loop of url.cpp:180-204 after its first digit: further digits
   * extend piece, which may not start with 0 and may not exceed 255.
   */
  function OctetDigits(t: string, piece: nat): (r: Option<Octet>)
    requires piece <= 255
    ensures r.Some? ==> r.value.value <= 255 && |r.value.rest| <= |t|
    decreases |t|
  {
    if |t| > 0 && IsDigit(t[0]) then
      if piece == 0 then None
      else
        var v := piece * 10 + DigitValue(t[0]);
        if v > 255 then None else OctetDigits(t[1..], v)
    else Some(Octet(piece, t))
  }

  /** One octet (url.cpp:174-204): a digit must come first. */
  function ReadOctet(t: string): (r: Option<Octet>)
    ensures r.Some? ==> |t| > 0 && IsDigit(t[0])
    ensures r.Some? ==> r.value.value <= 255 && |r.value.rest| < |t|
  {
    if |t| > 0 && IsDigit(t[0]) then OctetDigits(t[1..], DigitValue(t[0])) else None
  }

  /**
   * The embedded IPv4 loop of url.cpp:154-222 on the remaining input s, after
   * `seen` octets, writing into the pieces from pi0 on: every octet after the
   * first needs a '.' before it, octets are shifted into the current piece two
   * per piece, and exactly four octets must end the input.
   */
  function Embedded(s: string, seen: nat, address: seq<int>, pi0: nat): (r: Option<seq<int>>)
    requires seen <= 4 && pi0 <= 6 && |address| == 8
    ensures r.Some? ==> |r.value| == 8
    decreases |s|
  {
    if |s| == 0 then
      if seen == 4 then Some(address) else None
    else if seen > 0 && !(s[0] == '.' && seen < 4) then None
    else
      var t := if seen > 0 then s[1..] else s;
      match ReadOctet(t)
      case None => None
      case Some(o) =>
        var i := pi0 + seen / 2;
        Embedded(o.rest, seen + 1, address[i := (address[i] * 0x100 + o.value) % Limit16], pi0)
  }

  /** One turn of the embedded IPv4 loop once the octet after the optional '.' is known. */
  lemma {:induction false} EmbeddedStep(s: string, seen: nat, address: seq<int>, pi0: nat, t: string)
    requires seen < 4 && pi0 <= 6 && |address| == 8 && |s| > 0
    requires if seen > 0 then s[0] == '.' && t == s[1..] else t == s
    ensures Embedded(s, seen, address, pi0) ==
      match ReadOctet(t)
      case None => None
      case Some(o) =>
        Embedded(o.rest, seen + 1, address[pi0 + seen / 2 := (address[pi0 + seen / 2] * 0x100 + o.value) % Limit16], pi0)
  {
  }

  /** One turn of the embedded IPv4 loop that reads the octet v, with rest after it. */
  lemma {:induction false} EmbeddedAdvance(s: string, seen: nat, address: seq<int>, pi0: nat, t: string, v: nat, rest: string, i: nat)
    requires seen < 4 && pi0 <= 6 && |address| == 8 && |s| > 0 && i == pi0 + seen / 2
    requires if seen > 0 then s[0] == '.' && t == s[1..] else t == s
    requires ReadOctet(t) == Some(Octet(v, rest))
    ensures Embedded(s, seen, address, pi0) == Embedded(rest, seen + 1, address[i := (address[i] * 0x100 + v) % Limit16], pi0)
  {
    EmbeddedStep(s, seen, address, pi0, t);
  }

  /** Where the main loop of url.cpp:107-247 stops: the pieces, pieceIndex and compress. */
  datatype Scanned = Scanned(address: seq<int>, pieceIndex: nat, compress: Option<nat>)

  /** The main loop of url.cpp:107-247 on the remaining input s. */
  function Scan(s: string, address: seq<int>, pi: nat, compress: Option<nat>): (r: Option<Scanned>)
    requires |address| == 8 && pi <= 8
    requires compress.Some? ==> 1 <= compress.value <= pi
    ensures r.Some? ==> |r.value.address| == 8 && r.value.pieceIndex <= 8
    ensures r.Some? && r.value.compress.Some? ==> 1 <= r.value.compress.value <= r.value.pieceIndex
    decreases |s|, 1
  {
    if |s| == 0 then Some(Scanned(address, pi, compress))
    else if pi == 8 then None
    else if s[0] == ':' then
      if compress.Some? then None else Scan(s[1..], address, pi + 1, Some(pi + 1))
    else ScanGroupAt(s, address, pi, compress)
  }

  /** The main loop at a group that starts s (url.cpp:127-246). */
  function ScanGroupAt(s: string, address: seq<int>, pi: nat, compress: Option<nat>): (r: Option<Scanned>)
    requires |address| == 8 && pi < 8 && |s| > 0
    requires compress.Some? ==> 1 <= compress.value <= pi
    ensures r.Some? ==> |r.value.address| == 8 && r.value.pieceIndex <= 8
    ensures r.Some? && r.value.compress.Some? ==> 1 <= r.value.compress.value <= r.value.pieceIndex
    decreases |s|, 0
  {
    var n := GroupLength(s);
    var rest := s[n..];
    if |rest| > 0 && rest[0] == '.' then
      if n == 0 || pi > 6 then None
      else
        match Embedded(s, 0, address, pi)
        case None => None
        case Some(a) => Some(Scanned(a, pi + 2, compress))
    else if |rest| > 0 && rest[0] == ':' then
      if |rest| == 1 then None
      else Scan(rest[1..], address[pi := GroupValue(s)], pi + 1, compress)
    else if |rest| > 0 then None
    else Some(Scanned(address[pi := GroupValue(s)], pi + 1, compress))
  }

  /**
   * What the swap loop of url.cpp:249-264 makes of the pieces: those before
   * compress stay, the pieceIndex - compress pieces read after it move to the
   * end in order, and zeros fill the gap.
   */
  function Compressed(address: seq<int>, pi: nat, c: nat): (r: seq<int>)
    requires |address| == 8 && c <= pi <= 8
    ensures |r| == 8
    ensures forall k :: 0 <= k < c ==> r[k] == address[k]
    ensures forall k :: c <= k < c + 8 - pi ==> r[k] == 0
    ensures forall k :: c + 8 - pi <= k < 8 ==> r[k] == address[k - (8 - pi)]
  {
    address[..c] + Zeros(8 - pi) + address[c..pi]
  }

  /**
   * url.cpp:93-247: a leading ':' makes the loop start two characters on with
   * pieceIndex and compress 1. For a lone ':' the source reads input[2], past
   * the end of the input; the model fails there, as the WHATWG URL Standard
   * requires.
   */
  function ScanInput(input: string): (r: Option<Scanned>)
    requires |input| > 0
    ensures r.Some? ==> |r.value.address| == 8 && r.value.pieceIndex <= 8
    ensures r.Some? && r.value.compress.Some? ==> 1 <= r.value.compress.value <= r.value.pieceIndex
  {
    if input[0] == ':' then
      if |input| == 1 then None else Scan(input[2..], Zeros(8), 1, Some(1))
    else Scan(input, Zeros(8), 0, None)
  }

  /** url.cpp:249-268: compression is resolved; without it, eight pieces are needed. */
  function Resolve(sc: Scanned): (r: Option<seq<int>>)
    requires |sc.address| == 8 && sc.pieceIndex <= 8
    requires sc.compress.Some? ==> sc.compress.value <= sc.pieceIndex
    ensures r.Some? ==> |r.value| == 8
  {
    if sc.compress.Some? then Some(Compressed(sc.address, sc.pieceIndex, sc.compress.value))
    else if sc.pieceIndex != 8 then None
    else Some(sc.address)
  }

  /** The whole of parse_ipv6: the pieces, or None where the source sets is_valid to false. */
  function Ipv6Spec(input: string): (r: Option<seq<int>>)
    ensures r.Some? ==> |r.value| == 8
  {
    if |input| == 0 then None
    else
      match ScanInput(input)
      case None => None
      case Some(sc) => Resolve(sc)
  }

  /** One turn of the main loop at a ':' (url.cpp:114-125). */
  lemma {:induction false} ScanColon(s: string, address: seq<int>, pi: nat, compress: Option<nat>)
    requires |address| == 8 && pi < 8 && (compress.Some? ==> 1 <= compress.value <= pi)
    requires |s| > 0 && s[0] == ':'
    ensures Scan(s, address, pi, compress) ==
      if compress.Some? then None else Scan(s[1..], address, pi + 1, Some(pi + 1))
  {
  }

  /** One turn of the main loop at a group (url.cpp:127-246). */
  lemma {:induction false} ScanGroup(s: string, address: seq<int>, pi: nat, compress: Option<nat>)
    requires |address| == 8 && pi < 8 && (compress.Some? ==> 1 <= compress.value <= pi)
    requires |s| > 0 && s[0] != ':'
    ensures var rest := s[GroupLength(s)..];
      |rest| > 0 && rest[0] == '.' ==>
        Scan(s, address, pi, compress) ==
          if GroupLength(s) == 0 || pi > 6 then None
          else match Embedded(s, 0, address, pi)
            case None => None
            case Some(a) => Some(Scanned(a, pi + 2, compress))
    ensures var rest := s[GroupLength(s)..];
      |rest| > 0 && rest[0] == ':' ==>
        Scan(s, address, pi, compress) ==
          if |rest| == 1 then None else Scan(rest[1..], address[pi := GroupValue(s)], pi + 1, compress)
    ensures var rest := s[GroupLength(s)..];
      |rest| > 0 && rest[0] != '.' && rest[0] != ':' ==> Scan(s, address, pi, compress) == None
    ensures var rest := s[GroupLength(s)..];
      |rest| == 0 ==> Scan(s, address, pi, compress) == Some(Scanned(address[pi := GroupValue(s)], pi + 1, compress))
  {
  }

  /** Every piece from pi on is still 0. */
  predicate ZeroFrom(address: seq<int>, pi: nat)
  {
    forall k :: pi <= k < |address| ==> address[k] == 0
  }

  /** The embedded IPv4 loop only writes the two pieces from pi0 on. */
  lemma {:induction false} EmbeddedFrame(s: string, seen: nat, address: seq<int>, pi0: nat)
    requires seen <= 4 && pi0 <= 6 && |address| == 8
    ensures Embedded(s, seen, address, pi0).Some? ==>
      forall k :: 0 <= k < 8 && (k < pi0 || pi0 + 2 <= k) ==> Embedded(s, seen, address, pi0).value[k] == address[k]
    decreases |s|
  {
    if |s| > 0 && !(seen > 0 && !(s[0] == '.' && seen < 4)) {
      var t := if seen > 0 then s[1..] else s;
      match ReadOctet(t)
      case None =>
      case Some(o) =>
        var i := pi0 + seen / 2;
        EmbeddedFrame(o.rest, seen + 1, address[i := (address[i] * 0x100 + o.value) % Limit16], pi0);
    }
  }

  /** The pieces after the last one the main loop wrote are still 0 when it stops. */
  lemma {:induction false} ScanZeroTail(s: string, address: seq<int>, pi: nat, compress: Option<nat>)
    requires |address| == 8 && pi <= 8 && (compress.Some? ==> 1 <= compress.value <= pi)
    requires ZeroFrom(address, pi)
    ensures Scan(s, address, pi, compress).Some? ==>
      ZeroFrom(Scan(s, address, pi, compress).value.address, Scan(s, address, pi, compress).value.pieceIndex)
    decreases |s|
  {
    if |s| > 0 && pi < 8 {
      if s[0] == ':' {
        if compress.None? {
          ScanZeroTail(s[1..], address, pi + 1, Some(pi + 1));
        }
      } else {
        var n := GroupLength(s);
        var rest := s[n..];
        if |rest| > 0 && rest[0] == '.' {
          if n > 0 && pi <= 6 {
            EmbeddedFrame(s, 0, address, pi);
          }
        } else if |rest| > 1 && rest[0] == ':' {
          ScanZeroTail(rest[1..], address[pi := GroupValue(s)], pi + 1, compress);
        }
      }
    }
  }

  /** One more digit of a group: it never carries the value out of 16 bits. */
  lemma {:induction false} GroupDigit(s: string, n: nat, value: nat)
    requires n < 4 && n < |s| && IsAsciiHexDigit(s[n]) && AllHexDigits(s[..n]) && value == DigitsValue(s[..n], 16)
    ensures AllHexDigits(s[..n + 1]) && HexRunFrom(s, n + 1) == HexRunFrom(s, n)
    ensures (value * 0x10 + HexValue(s[n])) % Limit16 == DigitsValue(s[..n + 1], 16)
  {
    HexDigitsBound(s[..n]);
    PowerMonotone(16, n, 3);
    assert Power(16, 3) == 4096;
    assert s[..n + 1][..n] == s[..n];
  }

  /** The hexadecimal digit loop of url.cpp:130-137, from position p of the input. */
  method ReadGroup(input: string, p: nat) returns (value: nat, length: nat)
    requires p <= |input|
    ensures length == GroupLength(input[p..]) && value == GroupValue(input[p..])
  {
    ghost var s := input[p..];
    value, length := 0, 0;
    while length < 4 && p + length < |input| && IsAsciiHexDigit(input[p + length])
      invariant length <= 4 && p + length <= |input|
      invariant HexRunFrom(s, length) == GroupLength(s)
      invariant AllHexDigits(s[..length])
      invariant value == DigitsValue(s[..length], 16)
      decreases 4 - length
    {
      assert s[length] == input[p + length];
      GroupDigit(s, length, value);
      value := (value * 0x10 + HexValue(input[p + length])) % Limit16;
      length := length + 1;
    }
    HexRunDigits(s, 0);
  }

  /** The decimal digit loop of url.cpp:174-204, from position q of the input. */
  method ReadIpv4Piece(input: string, q: nat) returns (piece: Option<nat>, next: nat)
    requires q <= |input|
    ensures q <= next <= |input| && (piece.Some? ==> q < next)
    ensures ReadOctet(input[q..]) == if piece.Some? then Some(Octet(piece.value, input[next..])) else None
  {
    next := q;
    if q == |input| || !IsDigit(input[q]) {
      return None, next;
    }
    var ipv4Piece: Option<nat> := None;
    while next < |input| && IsDigit(input[next])
      invariant q <= next <= |input|
      invariant ipv4Piece.None? <==> next == q
      invariant ipv4Piece.Some? ==>
        ipv4Piece.value <= 255 && OctetDigits(input[next..], ipv4Piece.value) == ReadOctet(input[q..])
      decreases |input| - next
    {
      assert input[next..][1..] == input[next + 1..];
      var number := DigitValue(input[next]);
      if ipv4Piece.None? {
        ipv4Piece := Some(number);
      } else if ipv4Piece.value == 0 {
        return None, next;
      } else {
        ipv4Piece := Some(ipv4Piece.value * 10 + number);
      }
      if ipv4Piece.value > 255 {
        return None, next;
      }
      next := next + 1;
    }
    return ipv4Piece, next;
  }

  /** pieceIndex grows when numbersSeen reaches 2 or 4, so it stays pieceIndex + numbersSeen / 2. */
  lemma {:induction false} PieceAdvance(n: nat)
    requires n < 4
    ensures (n + 1) / 2 == n / 2 + (if n + 1 == 2 || n + 1 == 4 then 1 else 0)
  {
  }

  /**
   * One turn of the embedded IPv4 loop of url.cpp:158-217 at position pos,
   * after numbersSeen octets: the '.' that must separate octets, then one octet,
   * shifted into the piece at pi.
   */
  method EmbeddedTurn(input: string, pos: nat, address: array<int>, pieceIndex: nat, numbersSeen: nat, pi: nat)
    returns (ok: bool, next: nat)
    requires pos < |input| && address.Length == 8 && pieceIndex <= 6
    requires numbersSeen <= 4 && pi == pieceIndex + numbersSeen / 2
    modifies address
    ensures ok ==> pos < next <= |input| && numbersSeen < 4
    ensures ok ==>
      Embedded(input[pos..], numbersSeen, old(address[..]), pieceIndex) ==
      Embedded(input[next..], numbersSeen + 1, address[..], pieceIndex)
    ensures !ok ==> Embedded(input[pos..], numbersSeen, old(address[..]), pieceIndex) == None
  {
    ghost var before := input[pos..];
    var q := pos;
    if numbersSeen > 0 {
      if input[q] == '.' && numbersSeen < 4 {
        assert input[q + 1..] == before[1..];
        q := q + 1;
      } else {
        return false, q;
      }
    }
    var piece;
    piece, next := ReadIpv4Piece(input, q);
    if piece.None? {
      EmbeddedStep(before, numbersSeen, address[..], pieceIndex, input[q..]);
      return false, next;
    }
    ghost var a := address[..];
    EmbeddedAdvance(before, numbersSeen, a, pieceIndex, input[q..], piece.value, input[next..], pi);
    address[pi] := (address[pi] * 0x100 + piece.value) % Limit16;
    assert address[..] == a[pi := (a[pi] * 0x100 + piece.value) % Limit16];
    return true, next;
  }

  /**
   * The embedded IPv4 loop of url.cpp:154-222 from position p of the input,
   * writing into address from pieceIndex on; on success pieceIndex has grown by 2.
   */
  method ReadEmbeddedIpv4(input: string, p: nat, address: array<int>, pieceIndex: nat) returns (ok: bool, pi: nat)
    requires p <= |input| && address.Length == 8 && pieceIndex <= 6
    modifies address
    ensures ok == Embedded(input[p..], 0, old(address[..]), pieceIndex).Some?
    ensures ok ==> address[..] == Embedded(input[p..], 0, old(address[..]), pieceIndex).value && pi == pieceIndex + 2
  {
    ghost var goal := Embedded(input[p..], 0, address[..], pieceIndex);
    var pos := p;
    var numbersSeen := 0;
    pi := pieceIndex;
    while pos != |input|
      invariant p <= pos <= |input| && numbersSeen <= 4 && pi == pieceIndex + numbersSeen / 2
      invariant Embedded(input[pos..], numbersSeen, address[..], pieceIndex) == goal
      decreases |input| - pos
    {
      var more, next := EmbeddedTurn(input, pos, address, pieceIndex, numbersSeen, pi);
      if !more {
        return false, pi;
      }
      PieceAdvance(numbersSeen);
      numbersSeen := numbersSeen + 1;
      if numbersSeen == 2 || numbersSeen == 4 {
        pi := pi + 1;
      }
      pos := next;
    }
    if numbersSeen != 4 {
      return false, pi;
    }
    return true, pi;
  }

  /**
   * The swap loop of url.cpp:249-264: with every piece from pi on still 0, it
   * moves the pieces from c up to pi to the end of the address.
   */
  method ResolveCompression(address: array<int>, pi: nat, c: nat)
    requires address.Length == 8 && 1 <= c <= pi <= 8
    requires ZeroFrom(address[..], pi)
    modifies address
    ensures address[..] == Compressed(old(address[..]), pi, c)
  {
    ghost var a := address[..];
    ghost var gap := 8 - pi;
    var swaps := pi - c;
    var pieceIndex := 7;
    while pieceIndex != 0 && swaps > 0
      invariant 0 <= swaps <= pi - c && pieceIndex == c + swaps - 1 + gap
      invariant forall k :: 0 <= k < c + swaps ==> address[k] == a[k]
      invariant forall k :: c + swaps <= k <= pieceIndex ==> address[k] == 0
      invariant forall k :: pieceIndex < k < 8 ==> address[k] == a[k - gap]
      decreases swaps
    {
      var tmp := address[pieceIndex];
      address[pieceIndex] := address[c + swaps - 1];
      address[c + swaps - 1] := tmp;
      pieceIndex := pieceIndex - 1;
      swaps := swaps - 1;
    }
    assert swaps == 0;
    assert address[..] == Compressed(a, pi, c);
  }

  /**
   * How one turn of the main loop ends: failure, the end of parsing, or the
   * position, pieceIndex and compress the next turn starts from.
   */
  datatype Turn = Failed | Finished(pieceIndex: nat) | Continue(pos: nat, pieceIndex: nat, compress: Option<nat>)

  /**
   * One turn of the main loop of url.cpp:127-246 at a group that starts at
   * position p: a group followed by '.' is re-read as an embedded IPv4 address,
   * which ends the loop; otherwise the group's value is stored at pieceIndex.
   */
  method ReadPiece(input: string, p: nat, address: array<int>, pieceIndex: nat, compress: Option<nat>)
    returns (e: Turn)
    requires p < |input| && input[p] != ':' && address.Length == 8 && pieceIndex < 8
    requires compress.Some? ==> 1 <= compress.value <= pieceIndex
    modifies address
    ensures e.Failed? ==> Scan(input[p..], old(address[..]), pieceIndex, compress) == None
    ensures e.Finished? ==>
      Scan(input[p..], old(address[..]), pieceIndex, compress) == Some(Scanned(address[..], e.pieceIndex, compress))
    ensures e.Continue? ==> p < e.pos <= |input| && e.pieceIndex == pieceIndex + 1 && e.compress == compress
    ensures e.Continue? ==>
      Scan(input[p..], old(address[..]), pieceIndex, compress) == Scan(input[e.pos..], address[..], e.pieceIndex, e.compress)
  {
    ghost var s := input[p..];
    ScanGroup(s, address[..], pieceIndex, compress);
    var value, length := ReadGroup(input, p);
    var pos := p + length;
    assert input[pos..] == s[length..];
    if pos < |input| && input[pos] == '.' {
      if length == 0 {
        return Failed;
      }
      pos := pos - length;
      if pieceIndex > 6 {
        return Failed;
      }
      var ok, pi := ReadEmbeddedIpv4(input, pos, address, pieceIndex);
      if !ok {
        return Failed;
      }
      return Finished(pi);
    } else if pos < |input| && input[pos] == ':' {
      pos := pos + 1;
      if pos == |input| {
        return Failed;
      }
      assert input[pos..] == s[length..][1..];
    } else if pos != |input| {
      return Failed;
    }
    address[pieceIndex] := value;
    return Continue(pos, pieceIndex + 1, compress);
  }

  /** One turn of the main loop of url.cpp:107-247 at position p: a ':' (url.cpp:114-125) or a group. */
  method ScanTurn(input: string, p: nat, address: array<int>, pieceIndex: nat, compress: Option<nat>)
    returns (t: Turn)
    requires p < |input| && address.Length == 8 && pieceIndex < 8
    requires compress.Some? ==> 1 <= compress.value <= pieceIndex
    modifies address
    ensures t.Failed? ==> Scan(input[p..], old(address[..]), pieceIndex, compress) == None
    ensures t.Finished? ==>
      Scan(input[p..], old(address[..]), pieceIndex, compress) == Some(Scanned(address[..], t.pieceIndex, compress))
    ensures t.Continue? ==> p < t.pos <= |input| && t.pieceIndex <= 8
    ensures t.Continue? && t.compress.Some? ==> 1 <= t.compress.value <= t.pieceIndex
    ensures t.Continue? ==>
      Scan(input[p..], old(address[..]), pieceIndex, compress) == Scan(input[t.pos..], address[..], t.pieceIndex, t.compress)
  {
    if input[p] == ':' {
      ScanColon(input[p..], address[..], pieceIndex, compress);
      if compress.Some? {
        return Failed;
      }
      assert input[p + 1..] == input[p..][1..];
      return Continue(p + 1, pieceIndex + 1, Some(pieceIndex + 1));
    }
    t := ReadPiece(input, p, address, pieceIndex, compress);
  }

  /**
   * The main loop of url.cpp:107-247 from position p of the input, writing into
   * address; it reports whether the loop ended without failure and the final
   * pieceIndex and compress.
   */
  method ScanPieces(input: string, p: nat, address: array<int>, pi: nat, c: Option<nat>)
    returns (ok: bool, pieceIndex: nat, compress: Option<nat>)
    requires p <= |input| && address.Length == 8 && pi <= 8 && (c.Some? ==> 1 <= c.value <= pi)
    modifies address
    ensures ok == Scan(input[p..], old(address[..]), pi, c).Some?
    ensures ok ==> Scan(input[p..], old(address[..]), pi, c).value == Scanned(address[..], pieceIndex, compress)
  {
    ghost var goal := Scan(input[p..], address[..], pi, c);
    var pos := p;
    pieceIndex, compress := pi, c;
    while pos != |input|
      invariant pos <= |input| && pieceIndex <= 8
      invariant compress.Some? ==> 1 <= compress.value <= pieceIndex
      invariant Scan(input[pos..], address[..], pieceIndex, compress) == goal
      decreases |input| - pos
    {
      if pieceIndex == 8 {
        return false, pieceIndex, compress;
      }
      var t := ScanTurn(input, pos, address, pieceIndex, compress);
      match t
      case Failed =>
        return false, pieceIndex, compress;
      case Finished(last) =>
        return true, last, compress;
      case Continue(next, nextIndex, nextCompress) =>
        pos, pieceIndex, compress := next, nextIndex, nextCompress;
    }
    return true, pieceIndex, compress;
  }

  /** url::parse_ipv6 without its write to the URL record: the eight pieces, or None. */
  method Ipv6Address(input: string) returns (r: Option<seq<int>>)
    ensures r == Ipv6Spec(input)
  {
    if |input| == 0 {
      return None;
    }
    var address := new int[8](_ => 0);
    assert address[..] == Zeros(8);
    var pieceIndex := 0;
    var compress: Option<nat> := None;
    var pos := 0;
    if input[0] == ':' {
      if |input| == 1 {
        return None;
      }
      pos := pos + 2;
      pieceIndex := pieceIndex + 1;
      compress := Some(pieceIndex);
    }
    assert Scan(input[pos..], address[..], pieceIndex, compress) == ScanInput(input);
    ScanZeroTail(input[pos..], address[..], pieceIndex, compress);
    var ok;
    ok, pieceIndex, compress := ScanPieces(input, pos, address, pieceIndex, compress);
    if !ok {
      return None;
    }
    if compress.Some? {
      ResolveCompression(address, pieceIndex, compress.value);
    } else if pieceIndex != 8 {
      return None;
    }
    return Some(address[..]);
  }
}
