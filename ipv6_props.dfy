/**
 * What parse_ipv6 accepts, stated over the texts of hexadecimal groups: eight
 * groups, groups around one "::", and groups ending in a dotted IPv4 address,
 * together with the ways each of those shapes fails.
 */
module Ipv6Properties {
  import opened Basics
  import opened Chars
  import opened Ipv6

  /** One to four hexadecimal digits, in either letter case. */
  predicate GroupText(g: string)
  {
    1 <= |g| <= 4 && AllHexDigits(g)
  }

  /** The piece a group denotes. */
  function Value(g: string): nat
    requires GroupText(g)
  {
    DigitsValue(g, 16)
  }

  /** What may follow a group without extending it: nothing, or a non-digit. */
  predicate EndsGroup(rest: string)
  {
    |rest| == 0 || !IsAsciiHexDigit(rest[0])
  }

  ghost predicate AllGroups(gs: seq<string>)
    decreases |gs|
  {
    |gs| == 0 || (GroupText(gs[0]) && AllGroups(gs[1..]))
  }

  function Values(gs: seq<string>): (r: seq<int>)
    requires AllGroups(gs)
    ensures |r| == |gs|
    decreases |gs|
  {
    if |gs| == 0 then [] else [Value(gs[0])] + Values(gs[1..])
  }

  /** The groups, each followed by ':', and then last. */
  function Colons(gs: seq<string>, last: string): string
  {
    if |gs| == 0 then last else gs[0] + (":" + Colons(gs[1..], last))
  }

  /** The pieces vs stored one after another from pi on, as the main loop stores them. */
  function Place(address: seq<int>, pi: nat, vs: seq<int>): (r: seq<int>)
    requires pi + |vs| <= |address|
    ensures |r| == |address|
    decreases |vs|
  {
    if |vs| == 0 then address else Place(address[pi := vs[0]], pi + 1, vs[1..])
  }

  /** Storing vs from pi on replaces exactly the pieces pi .. pi + |vs| - 1. */
  lemma {:induction false} PlaceShape(address: seq<int>, pi: nat, vs: seq<int>)
    requires pi + |vs| <= |address|
    ensures Place(address, pi, vs) == address[..pi] + vs + address[pi + |vs|..]
    decreases |vs|
  {
    if |vs| > 0 {
      var a' := address[pi := vs[0]];
      PlaceShape(a', pi + 1, vs[1..]);
      assert a'[..pi + 1] == address[..pi] + [vs[0]];
      assert a'[pi + 1 + |vs[1..]|..] == address[pi + |vs|..];
      assert [vs[0]] + vs[1..] == vs;
    }
  }

  /** A group followed by a non-digit is read in full: the main loop takes all its digits. */
  lemma {:induction false} HexRunAppend(g: string, rest: string, n: nat)
    requires GroupText(g) && EndsGroup(rest) && n <= |g|
    ensures HexRunFrom(g + rest, n) == |g|
    decreases |g| - n
  {
    var s := g + rest;
    if n < |g| {
      assert s[n] == g[n];
      HexRunAppend(g, rest, n + 1);
    } else if |rest| > 0 && n < 4 {
      assert s[n] == rest[0];
    }
  }

  lemma {:induction false} GroupAppend(g: string, rest: string)
    requires GroupText(g) && EndsGroup(rest)
    ensures GroupLength(g + rest) == |g| && GroupValue(g + rest) == Value(g)
    ensures (g + rest)[|g|..] == rest && (g + rest)[0] != ':'
  {
    HexRunAppend(g, rest, 0);
    assert (g + rest)[..|g|] == g;
    assert (g + rest)[0] == g[0];
  }

  /** Groups each followed by ':' are stored one piece after another. */
  lemma {:induction false} ScanColons(gs: seq<string>, rest: string, address: seq<int>, pi: nat, compress: Option<nat>)
    requires AllGroups(gs) && |rest| > 0 && |address| == 8 && pi + |gs| <= 8
    requires compress.Some? ==> 1 <= compress.value <= pi
    ensures Scan(Colons(gs, rest), address, pi, compress) ==
      Scan(rest, Place(address, pi, Values(gs)), pi + |gs|, compress)
  {
    ScanColonsTo(gs, rest, address, pi, compress, Place(address, pi, Values(gs)), pi + |gs|);
  }

  /** ScanColons, with the pieces and the index the main loop reaches given as placed and end. */
  lemma {:induction false} ScanColonsTo(gs: seq<string>, rest: string, address: seq<int>, pi: nat, compress: Option<nat>,
                                        placed: seq<int>, end: nat)
    requires AllGroups(gs) && |rest| > 0 && |address| == 8 && end == pi + |gs| <= 8
    requires compress.Some? ==> 1 <= compress.value <= pi
    requires placed == Place(address, pi, Values(gs))
    ensures Scan(Colons(gs, rest), address, pi, compress) == Scan(rest, placed, end, compress)
    decreases |gs|
  {
    if |gs| > 0 {
      ColonStep(gs, rest, address, pi, compress);
      PlaceCons(gs, address, pi);
      ScanColonsTo(gs[1..], rest, address[pi := Value(gs[0])], pi + 1, compress, placed, end);
    }
  }

  /** The first group and its ':' are one turn of the main loop. */
  lemma {:induction false} ColonStep(gs: seq<string>, rest: string, address: seq<int>, pi: nat, compress: Option<nat>)
    requires AllGroups(gs) && |gs| > 0 && |rest| > 0 && |address| == 8 && pi < 8
    requires compress.Some? ==> 1 <= compress.value <= pi
    ensures GroupText(gs[0]) && AllGroups(gs[1..])
    ensures Scan(Colons(gs, rest), address, pi, compress) ==
      Scan(Colons(gs[1..], rest), address[pi := Value(gs[0])], pi + 1, compress)
  {
    var tail := Colons(gs[1..], rest);
    assert |tail| > 0 by {
      ColonsLength(gs[1..], rest);
    }
    GroupAppend(gs[0], ":" + tail);
    assert Colons(gs, rest) == gs[0] + (":" + tail);
    ScanGroup(gs[0] + (":" + tail), address, pi, compress);
    assert (":" + tail)[1..] == tail;
  }

  /** Storing the pieces of gs is storing the first one and then the pieces of the rest. */
  lemma {:induction false} PlaceCons(gs: seq<string>, address: seq<int>, pi: nat)
    requires AllGroups(gs) && |gs| > 0 && |address| == 8 && pi + |gs| <= 8
    ensures AllGroups(gs[1..]) && GroupText(gs[0])
    ensures Place(address, pi, Values(gs)) == Place(address[pi := Value(gs[0])], pi + 1, Values(gs[1..]))
  {
    var vs := Values(gs);
    assert vs == [Value(gs[0])] + Values(gs[1..]);
    assert vs[0] == Value(gs[0]) && vs[1..] == Values(gs[1..]);
  }

  lemma {:induction false} ColonsLength(gs: seq<string>, last: string)
    ensures |Colons(gs, last)| >= |last|
    decreases |gs|
  {
    if |gs| > 0 {
      ColonsLength(gs[1..], last);
    }
  }

  /** A group that ends the input is stored and ends the main loop. */
  lemma {:induction false} ScanLastGroup(g: string, address: seq<int>, pi: nat, compress: Option<nat>)
    requires GroupText(g) && |address| == 8 && pi < 8
    requires compress.Some? ==> 1 <= compress.value <= pi
    ensures Scan(g, address, pi, compress) == Some(Scanned(address[pi := Value(g)], pi + 1, compress))
  {
    GroupAppend(g, "");
    assert g + "" == g;
    ScanGroup(g, address, pi, compress);
  }

  /** AllGroups says every element is a group. */
  lemma {:induction false} AllGroupsAt(gs: seq<string>)
    requires AllGroups(gs)
    ensures forall i :: 0 <= i < |gs| ==> GroupText(gs[i])
    decreases |gs|
  {
    if |gs| > 0 {
      AllGroupsAt(gs[1..]);
      assert forall i :: 1 <= i < |gs| ==> gs[i] == gs[1..][i - 1];
    }
  }

  lemma {:induction false} AllGroupsOf(gs: seq<string>)
    requires forall i :: 0 <= i < |gs| ==> GroupText(gs[i])
    ensures AllGroups(gs)
    decreases |gs|
  {
    if |gs| > 0 {
      assert forall i :: 0 <= i < |gs| - 1 ==> gs[1..][i] == gs[i + 1];
      AllGroupsOf(gs[1..]);
    }
  }

  lemma {:induction false} ValuesAt(gs: seq<string>)
    requires AllGroups(gs)
    ensures forall i :: 0 <= i < |gs| ==> GroupText(gs[i]) && Values(gs)[i] == Value(gs[i])
    decreases |gs|
  {
    AllGroupsAt(gs);
    if |gs| > 0 {
      ValuesAt(gs[1..]);
      assert forall i :: 1 <= i < |gs| ==> gs[i] == gs[1..][i - 1];
    }
  }

  /** Storing one more piece after vs extends the run. */
  lemma {:induction false} PlaceSnoc(address: seq<int>, pi: nat, vs: seq<int>, v: int)
    requires pi + |vs| < |address|
    ensures Place(address, pi, vs)[pi + |vs| := v] == Place(address, pi, vs + [v])
  {
    PlaceShape(address, pi, vs);
    PlaceShape(address, pi, vs + [v]);
    assert Place(address, pi, vs)[pi + |vs| := v] == address[..pi] + (vs + [v]) + address[pi + |vs| + 1..];
  }

  /** One zero piece in front of n more is n + 1 zero pieces. */
  lemma {:induction false} ZerosCons(n: nat, before: seq<int>, after: seq<int>)
    ensures before + [0] + Zeros(n) + after == before + Zeros(n + 1) + after
  {
    assert [0] + Zeros(n) == Zeros(n + 1);
    assert before + [0] + Zeros(n) == before + ([0] + Zeros(n));
  }

  /** The swap loop on pieces that hold vx, a zero, and then vy. */
  lemma {:induction false} CompressedShape(q: seq<int>, vx: seq<int>, vy: seq<int>)
    requires |q| == 8 && |vx| + |vy| <= 7
    requires q[..|vx| + 1] == vx + [0] && q[|vx| + 1..|vx| + 1 + |vy|] == vy
    ensures Compressed(q, |vx| + 1 + |vy|, |vx| + 1) == vx + Zeros(8 - |vx| - |vy|) + vy
  {
    var c := |vx| + 1;
    calc {
      Compressed(q, c + |vy|, c);
      q[..c] + Zeros(8 - c - |vy|) + q[c..c + |vy|];
      vx + [0] + Zeros(7 - |vx| - |vy|) + vy;
      { ZerosCons(7 - |vx| - |vy|, vx, vy); }
      vx + Zeros(8 - |vx| - |vy|) + vy;
    }
  }

  /** Groups stored from the first piece on, in an address of zeros. */
  lemma {:induction false} PlacedFirst(vx: seq<int>)
    requires |vx| <= 8
    ensures Place(Zeros(8), 0, vx) == vx + Zeros(8 - |vx|)
  {
    PlaceShape(Zeros(8), 0, vx);
  }

  /** Groups stored one piece after vx, in pieces that still hold zeros after vx. */
  lemma {:induction false} PlacedSecond(p: seq<int>, vx: seq<int>, vy: seq<int>)
    requires |vx| + |vy| <= 7 && p == vx + Zeros(8 - |vx|)
    ensures var q := Place(p, |vx| + 1, vy);
      q[..|vx| + 1] == vx + [0] && q[|vx| + 1..|vx| + 1 + |vy|] == vy
  {
    PlaceShape(p, |vx| + 1, vy);
  }

  /** The pieces of xs::ys after the swap loop, as sequences. */
  lemma {:induction false} CompressedPieces(vx: seq<int>, vy: seq<int>)
    requires |vx| + |vy| <= 7
    ensures var p := Place(Zeros(8), 0, vx);
      var c := |vx| + 1;
      Compressed(Place(p, c, vy), c + |vy|, c) == vx + Zeros(8 - |vx| - |vy|) + vy
  {
    var p := Place(Zeros(8), 0, vx);
    PlacedFirst(vx);
    PlacedSecond(p, vx, vy);
    CompressedShape(Place(p, |vx| + 1, vy), vx, vy);
  }

  /** AllGroups holds of both halves of a split. */
  lemma {:induction false} AllGroupsSlice(gs: seq<string>, k: nat)
    requires AllGroups(gs) && k <= |gs|
    ensures AllGroups(gs[..k]) && AllGroups(gs[k..])
  {
    AllGroupsAt(gs);
    assert forall i :: 0 <= i < k ==> gs[..k][i] == gs[i];
    assert forall i :: 0 <= i < |gs| - k ==> gs[k..][i] == gs[k + i];
    AllGroupsOf(gs[..k]);
    AllGroupsOf(gs[k..]);
  }

  lemma {:induction false} ColonsAppend(a: seq<string>, b: seq<string>, last: string)
    ensures Colons(a + b, last) == Colons(a, Colons(b, last))
    decreases |a|
  {
    if |a| == 0 {
      assert a + b == b;
    } else {
      assert (a + b)[0] == a[0] && (a + b)[1..] == a[1..] + b;
      ColonsAppend(a[1..], b, last);
    }
  }

  /** Groups separated by ':', or nothing: what may stand on either side of "::". */
  function Joined(gs: seq<string>): string
  {
    if |gs| == 0 then "" else Colons(gs[..|gs| - 1], gs[|gs| - 1])
  }

  lemma {:induction false} JoinedStart(gs: seq<string>)
    requires AllGroups(gs) && |gs| > 0
    ensures |Joined(gs)| > 0 && IsAsciiHexDigit(Joined(gs)[0])
  {
    var init := gs[..|gs| - 1];
    if |init| > 0 {
      assert init[0] == gs[0];
      assert Joined(gs)[0] == gs[0][0];
    }
  }

  /** Once eight pieces are stored, any further group fails. */
  lemma {:induction false} ScanPastEight(gs: seq<string>, rest: string, address: seq<int>, pi: nat, compress: Option<nat>)
    requires AllGroups(gs) && |rest| > 0 && |address| == 8 && pi <= 8 && 8 <= pi + |gs|
    requires compress.Some? ==> 1 <= compress.value <= pi
    ensures Scan(Colons(gs, rest), address, pi, compress) == None
  {
    var k := 8 - pi;
    AllGroupsSlice(gs, k);
    assert gs == gs[..k] + gs[k..];
    ColonsAppend(gs[..k], gs[k..], rest);
    var more := Colons(gs[k..], rest);
    assert |more| > 0 by {
      ColonsLength(gs[k..], rest);
    }
    ScanColons(gs[..k], more, address, pi, compress);
  }

  /**
   * Groups separated by ':' up to the end of the input are stored one after
   * another while they fit in the eight pieces, and fail once they do not.
   */
  lemma {:induction false} ScanJoined(gs: seq<string>, address: seq<int>, pi: nat, compress: Option<nat>)
    requires AllGroups(gs) && |gs| > 0 && |address| == 8 && pi <= 8
    requires compress.Some? ==> 1 <= compress.value <= pi
    ensures pi + |gs| <= 8 ==>
      Scan(Joined(gs), address, pi, compress) == Some(Scanned(Place(address, pi, Values(gs)), pi + |gs|, compress))
    ensures pi + |gs| > 8 ==> Scan(Joined(gs), address, pi, compress) == None
  {
    var k := |gs| - 1;
    AllGroupsSplit(gs);
    ScanColonsThenGroup(gs[..k], gs[k], Values(gs), address, pi, compress);
  }

  /** The main loop stops at the end of the input; nothing more is stored. */
  lemma {:induction false} ScanEnd(address: seq<int>, pi: nat, compress: Option<nat>)
    requires |address| == 8 && pi <= 8
    requires compress.Some? ==> 1 <= compress.value <= pi
    ensures Scan(Joined([]), address, pi, compress) == Some(Scanned(Place(address, pi, Values([])), pi, compress))
  {
  }

  /** Groups each followed by ':', and then a last group that ends the input, denoting vs. */
  lemma {:induction false} ScanColonsThenGroup(init: seq<string>, g: string, vs: seq<int>, address: seq<int>, pi: nat, compress: Option<nat>)
    requires AllGroups(init) && GroupText(g) && vs == Values(init) + [Value(g)]
    requires |address| == 8 && pi <= 8
    requires compress.Some? ==> 1 <= compress.value <= pi
    ensures pi + |vs| <= 8 ==>
      Scan(Colons(init, g), address, pi, compress) == Some(Scanned(Place(address, pi, vs), pi + |vs|, compress))
    ensures pi + |vs| > 8 ==> Scan(Colons(init, g), address, pi, compress) == None
  {
    if pi + |init| >= 8 {
      ScanPastEight(init, g, address, pi, compress);
    } else {
      var placed := Place(address, pi, Values(init));
      ScanColons(init, g, address, pi, compress);
      ScanLastGroup(g, placed, pi + |init|, compress);
      PlaceSnoc(address, pi, Values(init), Value(g));
    }
  }

  lemma {:induction false} AllGroupsSplit(gs: seq<string>)
    requires AllGroups(gs) && |gs| > 0
    ensures AllGroups(gs[..|gs| - 1]) && GroupText(gs[|gs| - 1])
    ensures Values(gs) == Values(gs[..|gs| - 1]) + [Value(gs[|gs| - 1])]
  {
    AllGroupsAt(gs);
    ValuesAt(gs);
    var init := gs[..|gs| - 1];
    AllGroupsOf(init);
    ValuesAt(init);
    assert forall i :: 0 <= i < |init| ==> init[i] == gs[i];
    assert Values(gs) == Values(init) + [Value(gs[|gs| - 1])];
  }

  /** Without "::", groups separated by ':' are the address exactly when there are eight of them. */
  lemma {:induction false} UncompressedForm(gs: seq<string>)
    requires AllGroups(gs) && |gs| > 0
    ensures Ipv6Spec(Joined(gs)) == if |gs| == 8 then Some(Values(gs)) else None
  {
    JoinedStart(gs);
    ScanJoined(gs, Zeros(8), 0, None);
    if |gs| <= 8 {
      PlacedFirst(Values(gs));
      assert Values(gs) + Zeros(8 - |gs|) == Values(gs) || |gs| < 8;
    }
  }

  /** xs::, followed by tail. */
  function CompressedPrefix(xs: seq<string>, tail: string): string
  {
    if |xs| == 0 then "::" + tail else Colons(xs, ":" + tail)
  }

  /** xs::ys, the text of a compressed address. */
  function CompressedText(xs: seq<string>, ys: seq<string>): string
  {
    CompressedPrefix(xs, Joined(ys))
  }

  /** Reading xs:: stores xs and sets compress just after it. */
  lemma {:induction false} CompressStart(xs: seq<string>, tail: string)
    requires AllGroups(xs) && |xs| <= 7
    ensures |CompressedPrefix(xs, tail)| > 0
    ensures ScanInput(CompressedPrefix(xs, tail)) ==
      Scan(tail, Place(Zeros(8), 0, Values(xs)), |xs| + 1, Some(|xs| + 1))
  {
    var input := CompressedPrefix(xs, tail);
    if |xs| == 0 {
      assert input[2..] == tail;
    } else {
      var p := Place(Zeros(8), 0, Values(xs));
      assert input[0] != ':' by {
        GroupAppend(xs[0], ":" + Colons(xs[1..], ":" + tail));
      }
      assert Scan(input, Zeros(8), 0, None) == Scan(":" + tail, p, |xs|, None) by {
        ScanColons(xs, ":" + tail, Zeros(8), 0, None);
      }
      assert (":" + tail)[1..] == tail;
      ScanColon(":" + tail, p, |xs|, None);
    }
  }

  /** Eight groups before "::" leave no piece for it. */
  lemma {:induction false} CompressStartTooLate(xs: seq<string>, tail: string)
    requires AllGroups(xs) && |xs| >= 8
    ensures Ipv6Spec(CompressedPrefix(xs, tail)) == None
  {
    var input := CompressedPrefix(xs, tail);
    assert input[0] != ':' by {
      GroupAppend(xs[0], ":" + Colons(xs[1..], ":" + tail));
    }
    ScanPastEight(xs, ":" + tail, Zeros(8), 0, None);
  }

  /** Once the main loop has stopped, the result is what the swap loop or the count check makes of it. */
  lemma {:induction false} SpecOfScan(input: string, sc: Scanned, r: seq<int>)
    requires |input| > 0 && ScanInput(input) == Some(sc) && Resolve(sc) == Some(r)
    ensures Ipv6Spec(input) == Some(r)
  {
  }

  /** The swap loop turns the pieces stored for xs::ys into the address they denote. */
  lemma {:induction false} ResolveCompressed(vx: seq<int>, vy: seq<int>)
    requires |vx| + |vy| <= 7
    ensures var c := |vx| + 1;
      Resolve(Scanned(Place(Place(Zeros(8), 0, vx), c, vy), c + |vy|, Some(c))) ==
        Some(vx + Zeros(8 - |vx| - |vy|) + vy)
  {
    CompressedPieces(vx, vy);
  }

  /**
   * xs::ys denotes the pieces of xs, then as many zeros as are missing, then
   * the pieces of ys, and fails when the groups leave no piece for "::".
   */
  lemma {:induction false} CompressedForm(xs: seq<string>, ys: seq<string>)
    requires AllGroups(xs) && AllGroups(ys)
    ensures Ipv6Spec(CompressedText(xs, ys)) ==
      if |xs| + |ys| <= 7 then Some(Values(xs) + Zeros(8 - |xs| - |ys|) + Values(ys)) else None
  {
    if |xs| >= 8 {
      CompressStartTooLate(xs, Joined(ys));
    } else if |xs| + |ys| <= 7 {
      CompressedFits(xs, ys);
    } else {
      CompressedOverflows(xs, ys);
    }
  }

  /** The case of CompressedForm where the groups leave room for "::". */
  lemma {:induction false} CompressedFits(xs: seq<string>, ys: seq<string>)
    requires AllGroups(xs) && AllGroups(ys) && |xs| + |ys| <= 7
    ensures Ipv6Spec(CompressedText(xs, ys)) == Some(Values(xs) + Zeros(8 - |xs| - |ys|) + Values(ys))
  {
    var vx, vy := Values(xs), Values(ys);
    var c := |vx| + 1;
    var sc := Scanned(Place(Place(Zeros(8), 0, vx), c, vy), c + |vy|, Some(c));
    var r := vx + Zeros(8 - |vx| - |vy|) + vy;
    CompressedScan(xs, ys);
    ResolveCompressed(vx, vy);
    assert ScanInput(CompressedText(xs, ys)) == Some(sc) && Resolve(sc) == Some(r);
    SpecOfScan(CompressedText(xs, ys), sc, r);
  }

  /** The main loop over xs::ys stores xs, then ys from just after compress. */
  lemma {:induction false} CompressedScan(xs: seq<string>, ys: seq<string>)
    requires AllGroups(xs) && AllGroups(ys) && |xs| + |ys| <= 7
    ensures var c := |xs| + 1;
      ScanInput(CompressedText(xs, ys)) == Some(Scanned(Place(Place(Zeros(8), 0, Values(xs)), c, Values(ys)), c + |ys|, Some(c)))
  {
    var c := |xs| + 1;
    var p := Place(Zeros(8), 0, Values(xs));
    CompressStart(xs, Joined(ys));
    assert ScanInput(CompressedText(xs, ys)) == Scan(Joined(ys), p, c, Some(c));
    if |ys| > 0 {
      ScanJoined(ys, p, c, Some(c));
    } else {
      ScanEnd(p, c, Some(c));
      assert ys == [];
    }
  }

  /** The case of CompressedForm where fewer than eight groups, and too many for "::" to stand for one, are given. */
  lemma {:induction false} CompressedOverflows(xs: seq<string>, ys: seq<string>)
    requires AllGroups(xs) && AllGroups(ys) && |xs| < 8 && |xs| + |ys| > 7
    ensures Ipv6Spec(CompressedText(xs, ys)) == None
  {
    var c := |xs| + 1;
    CompressStart(xs, Joined(ys));
    ScanJoined(ys, Place(Zeros(8), 0, Values(xs)), c, Some(c));
  }

  /** A second "::", or ":::", fails. */
  lemma {:induction false} TwoCompressions(xs: seq<string>, ys: seq<string>, rest: string)
    requires AllGroups(xs) && AllGroups(ys)
    ensures Ipv6Spec(CompressedPrefix(xs, Colons(ys, ":" + rest))) == None
  {
    if |xs| >= 8 {
      CompressStartTooLate(xs, Colons(ys, ":" + rest));
    } else {
      var c := |xs| + 1;
      var p := Place(Zeros(8), 0, Values(xs));
      CompressStart(xs, Colons(ys, ":" + rest));
      if c + |ys| >= 8 {
        ScanPastEight(ys, ":" + rest, p, c, Some(c));
      } else {
        ScanColons(ys, ":" + rest, p, c, Some(c));
        ScanColon(":" + rest, Place(p, c, Values(ys)), c + |ys|, Some(c));
      }
    }
  }

  /**
   * The leading-':' branch of url.cpp:93-105 skips two characters without
   * looking at the second one: any character may stand in for the second ':'.
   * A lone ':' fails here, where the source reads past the end of its input.
   */
  lemma {:induction false} LeadingColon(x: char, rest: string)
    ensures Ipv6Spec([':', x] + rest) == Ipv6Spec("::" + rest)
    ensures Ipv6Spec(":") == None
  {
    assert ([':', x] + rest)[2..] == rest;
    assert ("::" + rest)[2..] == rest;
  }

  /** Groups followed by a run of five hexadecimal digits fail: a group has at most four. */
  lemma {:induction false} GroupTooLong(gs: seq<string>, t: string)
    requires AllGroups(gs) && |t| >= 5 && forall i :: 0 <= i < 5 ==> IsAsciiHexDigit(t[i])
    ensures Ipv6Spec(Colons(gs, t)) == None
  {
    var input := Colons(gs, t);
    assert input[0] != ':' by {
      if |gs| > 0 {
        GroupAppend(gs[0], ":" + Colons(gs[1..], t));
      }
    }
    if |gs| >= 8 {
      ScanPastEight(gs, t, Zeros(8), 0, None);
    } else {
      ScanColons(gs, t, Zeros(8), 0, None);
      assert GroupLength(t) == 4;
      ScanGroup(t, Place(Zeros(8), 0, Values(gs)), |gs|, None);
    }
  }

  /** A group may be followed only by ':', '.' or the end of the input. */
  lemma {:induction false} AfterGroup(gs: seq<string>, g: string, rest: string)
    requires AllGroups(gs) && GroupText(g) && |rest| > 0
    requires rest[0] != ':' && rest[0] != '.' && !IsAsciiHexDigit(rest[0])
    ensures Ipv6Spec(Colons(gs, g + rest)) == None
  {
    StopAfterGroup(gs, g, rest);
  }

  /** A ':' that ends the input fails. */
  lemma {:induction false} TrailingColon(gs: seq<string>, g: string)
    requires AllGroups(gs) && GroupText(g)
    ensures Ipv6Spec(Colons(gs, g + ":")) == None
  {
    StopAfterGroup(gs, g, ":");
  }

  /** The common part of AfterGroup and TrailingColon: the main loop stops at the character after g. */
  lemma {:induction false} StopAfterGroup(gs: seq<string>, g: string, rest: string)
    requires AllGroups(gs) && GroupText(g) && |rest| > 0 && !IsAsciiHexDigit(rest[0])
    requires rest[0] != '.' && (rest[0] == ':' ==> |rest| == 1)
    ensures Ipv6Spec(Colons(gs, g + rest)) == None
  {
    var t := g + rest;
    var input := Colons(gs, t);
    GroupAppend(g, rest);
    assert input[0] != ':' by {
      if |gs| > 0 {
        GroupAppend(gs[0], ":" + Colons(gs[1..], t));
      }
    }
    if |gs| >= 8 {
      ScanPastEight(gs, t, Zeros(8), 0, None);
    } else {
      ScanColons(gs, t, Zeros(8), 0, None);
      ScanGroup(t, Place(Zeros(8), 0, Values(gs)), |gs|, None);
    }
  }

  /** "::1" is the loopback address and "::" the unspecified one. */
  lemma {:induction false} CompressedExamples()
    ensures Ipv6Spec("::1") == Some([0, 0, 0, 0, 0, 0, 0, 1])
    ensures Ipv6Spec("::") == Some([0, 0, 0, 0, 0, 0, 0, 0])
  {
    assert GroupText("1") && Value("1") == 1;
    AllGroupsOf([]);
    AllGroupsOf(["1"]);
    CompressedForm([], ["1"]);
    assert CompressedText([], ["1"]) == "::1";
    ValuesAt(["1"]);
    assert Values([]) + Zeros(7) + Values(["1"]) == [0, 0, 0, 0, 0, 0, 0, 1];
    CompressedForm([], []);
    assert CompressedText([], []) == "::";
    assert Values([]) + Zeros(8) + Values([]) == [0, 0, 0, 0, 0, 0, 0, 0];
  }
}
