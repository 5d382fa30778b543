/**
 * Host parsing as url.cpp writes it into the URL record: url::parse_host, the
 * dispatcher with its ASCII fast path, url::parse_opaque_host, the record-level
 * wrappers of url::parse_ipv4 and url::parse_ipv6, and url::to_string.
 *
 * Each routine is specified by a function from the input and the record's
 * old host and is_valid to an Outcome: the routine's return value and the two
 * fields it leaves behind. The methods of Url are proved to reach exactly that
 * outcome, and the lemmas state what the outcome functions promise.
 */
module Host {
  import opened Basics
  import opened Chars
  import opened External
  import Ipv4
  import Ipv6

  /** The return value of a parse routine and the host and is_valid it leaves. */
  datatype Outcome = Outcome(ok: bool, host: Option<string>, isValid: bool)

  /**
   * url::parse_opaque_host (url.cpp:11-19): a forbidden host code point fails
   * and leaves host alone; otherwise host becomes the C0-control percent-encoding
   * of the input.
   */
  function OpaqueHost(ext: Collaborators, input: string, host: Option<string>, isValid: bool): (r: Outcome)
    ensures r.ok <==> forall i :: 0 <= i < |input| ==> !ext.isForbiddenHostCodePoint(input[i])
    ensures !r.ok ==> r.host == host && !r.isValid
    ensures r.ok ==> r.host == Some(ext.percentEncodeC0(input)) && r.isValid == isValid
  {
    if AnyOf(input, ext.isForbiddenHostCodePoint) then Outcome(false, host, false)
    else Outcome(true, Some(ext.percentEncodeC0(input)), isValid)
  }

  /**
   * url::parse_ipv4 on the record (url.cpp:24-72): the serialized address, or
   * failure with host left alone.
   */
  function Ipv4Host(ext: Collaborators, input: string, host: Option<string>, isValid: bool): Outcome
    requires |input| > 0
  {
    match Ipv4.Ipv4Spec(input)
    case None => Outcome(false, host, false)
    case Some(address) => Outcome(true, Some(ext.serializeIpv4(address)), isValid)
  }

  /**
   * url::parse_ipv6 on the record (url.cpp:78-272): the serialized pieces, or
   * failure with host left alone.
   */
  function Ipv6Host(ext: Collaborators, input: string, host: Option<string>, isValid: bool): Outcome
  {
    match Ipv6.Ipv6Spec(input)
    case None => Outcome(false, host, false)
    case Some(pieces) => Outcome(true, Some(ext.serializeIpv6(pieces)), isValid)
  }

  /** The low eight bits of a character, which is the byte itself for a byte of the input. */
  function ByteOf(c: char): (b: bv8)
    ensures c as int < 256 ==> b as int == c as int
  {
    (c as int % 256) as bv8
  }

  /** Bit 7 of an OR is set exactly when it is set in one of the operands. */
  lemma {:induction false} RunnerOr(a: bv8, b: bv8)
    ensures (a | b) >= 0x80 <==> (a >= 0x80 || b >= 0x80)
  {
  }

  /** A byte with bit 7 set: part of a multi-byte UTF-8 sequence. */
  predicate HighByte(c: char)
  {
    ByteOf(c) >= 0x80
  }

  /**
   * The conditions under which the fast path of url.cpp:306-322 keeps its
   * buffer: no byte with bit 7 set, no forbidden domain code point, and no
   * "xn-" in the case-folded input.
   */
  predicate FastPathKeeps(ext: Collaborators, input: string)
  {
    (forall i :: 0 <= i < |input| ==> !HighByte(input[i])) &&
    !AnyOf(input, ext.isForbiddenDomainCodePoint) &&
    Find(FoldCaseAll(input), "xn-").None?
  }

  /**
   * check_for_ipv4 (url.cpp:328-333): a domain that ends in a number is
   * re-parsed as an IPv4 address; any other domain is the host.
   */
  function CheckIpv4(ext: Collaborators, domain: string, isValid: bool): Outcome
    requires ext.Wf()
  {
    if ext.endsInNumber(domain) then Ipv4Host(ext, domain, Some(domain), isValid)
    else Outcome(true, Some(domain), isValid)
  }

  /**
   * The slow fallback of url.cpp:323-326: to_ascii with strict mode off and the
   * position of the first '%'; it sets is_valid, and on failure whatever it left
   * in host stays there. The routine succeeds exactly when it leaves is_valid
   * set, and then host is the domain to_ascii produced or, when that domain ends
   * in a number, the IPv4 address it denotes, serialized.
   */
  function SlowPath(ext: Collaborators, input: string, host: Option<string>): (r: Outcome)
    requires ext.Wf()
    ensures r.isValid == r.ok
    ensures r.ok ==> ext.toAscii(host, input, false, Find(input, "%")).Converted?
    ensures r.ok ==> var domain := ext.toAscii(host, input, false, Find(input, "%")).domain;
      r.host == Some(domain) ||
      (|domain| > 0 && Ipv4.Ipv4Spec(domain).Some? && r.host == Some(ext.serializeIpv4(Ipv4.Ipv4Spec(domain).value)))
  {
    match ext.toAscii(host, input, false, Find(input, "%"))
    case Rejected(leftOver) => Outcome(false, leftOver, false)
    case Converted(domain) => CheckIpv4(ext, domain, true)
  }

  /** url::parse_host (url.cpp:278-334) for a record of the given scheme. */
  function HostSpec(ext: Collaborators, scheme: string, input: string, host: Option<string>, isValid: bool): (r: Outcome)
    requires ext.Wf()
    ensures !r.ok ==> !r.isValid
    ensures r.ok ==> r.host.Some?
  {
    if |input| == 0 then Outcome(false, host, false)
    else if input[0] == '[' then
      if input[|input| - 1] != ']' then Outcome(false, host, false)
      else Ipv6Host(ext, input[1..|input| - 1], host, isValid)
    else if !ext.isSpecial(scheme) then OpaqueHost(ext, input, host, isValid)
    else if ext.isForbiddenDomainCodePoint('%') && FastPathKeeps(ext, input) then CheckIpv4(ext, FoldCaseAll(input), isValid)
    else SlowPath(ext, input, host)
  }

  /** url.cpp:283: an empty host fails. */
  lemma {:induction false} EmptyHost(ext: Collaborators, scheme: string, host: Option<string>, isValid: bool)
    requires ext.Wf()
    ensures HostSpec(ext, scheme, "", host, isValid) == Outcome(false, host, false)
  {
  }

  /**
   * url.cpp:285-293: a host that starts with '[' fails unless it ends with ']',
   * and then is what the IPv6 parser makes of what lies between them,
   * whatever the scheme.
   */
  lemma {:induction false} BracketedHost(ext: Collaborators, scheme: string, input: string, host: Option<string>, isValid: bool)
    requires ext.Wf() && |input| > 0 && input[0] == '['
    ensures input[|input| - 1] != ']' ==> HostSpec(ext, scheme, input, host, isValid) == Outcome(false, host, false)
    ensures input[|input| - 1] == ']' ==>
      |input| >= 2 && HostSpec(ext, scheme, input, host, isValid) == Ipv6Host(ext, input[1..|input| - 1], host, isValid)
  {
  }

  /** "[]" fails: the IPv6 parser rejects an empty input (url.cpp:80). */
  lemma {:induction false} EmptyBrackets(ext: Collaborators, scheme: string, host: Option<string>, isValid: bool)
    requires ext.Wf()
    ensures HostSpec(ext, scheme, "[]", host, isValid) == Outcome(false, host, false)
  {
    assert "[]"[1..1] == "";
  }

  /** url.cpp:296-298: without brackets, a host of a non-special scheme is an opaque host. */
  lemma {:induction false} NotSpecialHost(ext: Collaborators, scheme: string, input: string, host: Option<string>, isValid: bool)
    requires ext.Wf() && |input| > 0 && input[0] != '[' && !ext.isSpecial(scheme)
    ensures HostSpec(ext, scheme, input, host, isValid) == OpaqueHost(ext, input, host, isValid)
  {
  }

  /**
   * When the fast path keeps its buffer, the host is the case-folded input, or
   * its IPv4 re-parse, and to_ascii is never consulted: replacing it changes
   * nothing.
   */
  lemma {:induction false} FastPathHost(ext: Collaborators, toAscii: (Option<string>, string, bool, Option<nat>) -> AsciiDomain,
                                        scheme: string, input: string, host: Option<string>, isValid: bool)
    requires ext.Wf() && |input| > 0 && input[0] != '[' && ext.isSpecial(scheme) && FastPathKeeps(ext, input)
    ensures ext.(toAscii := toAscii).Wf()
    ensures HostSpec(ext, scheme, input, host, isValid) == CheckIpv4(ext, FoldCaseAll(input), isValid)
    ensures HostSpec(ext.(toAscii := toAscii), scheme, input, host, isValid) == HostSpec(ext, scheme, input, host, isValid)
  {
    var other := ext.(toAscii := toAscii);
    assert AnyOf(input, other.isForbiddenDomainCodePoint) == AnyOf(input, ext.isForbiddenDomainCodePoint);
  }

  /**
   * A forbidden domain code point (among them '%'), a byte with bit 7 set or
   * an "xn-" in the case-folded host sends a special host without brackets to
   * to_ascii. With FastPathHost, these are exactly the hosts to_ascii sees.
   */
  lemma {:induction false} SlowPathHost(ext: Collaborators, scheme: string, input: string, host: Option<string>, isValid: bool)
    requires ext.Wf() && |input| > 0 && input[0] != '[' && ext.isSpecial(scheme)
    requires (exists i :: 0 <= i < |input| && (input[i] == '%' || ext.isForbiddenDomainCodePoint(input[i]) || HighByte(input[i]))) ||
             Find(FoldCaseAll(input), "xn-").Some?
    ensures !FastPathKeeps(ext, input)
    ensures HostSpec(ext, scheme, input, host, isValid) == SlowPath(ext, input, host)
  {
    if exists i :: 0 <= i < |input| && input[i] == '%' {
      var i :| 0 <= i < |input| && input[i] == '%';
      assert ext.isForbiddenDomainCodePoint(input[i]);
    }
  }

  /**
   * url.cpp:328-333: a domain the fast path or to_ascii produced is re-parsed
   * as IPv4 exactly when it ends in a number; otherwise it is the host as it is.
   */
  lemma {:induction false} Ipv4Reparse(ext: Collaborators, scheme: string, input: string, host: Option<string>, isValid: bool)
    requires ext.Wf() && |input| > 0 && input[0] != '[' && ext.isSpecial(scheme)
    ensures var domain := if FastPathKeeps(ext, input) then Some(FoldCaseAll(input))
                          else match ext.toAscii(host, input, false, Find(input, "%"))
                            case Converted(d) => Some(d)
                            case Rejected(_) => None;
      var valid := if FastPathKeeps(ext, input) then isValid else true;
      domain.Some? ==>
        if ext.endsInNumber(domain.value) then
          |domain.value| > 0 && HostSpec(ext, scheme, input, host, isValid) == Ipv4Host(ext, domain.value, domain, valid)
        else HostSpec(ext, scheme, input, host, isValid) == Outcome(true, domain, valid)
  {
  }

  /**
   * The std::transform loop of url.cpp:307-315: it builds the case-folded
   * buffer while OR-ing every forbidden-domain test into is_forbidden and every
   * byte into ascii_runner.
   */
  method FastPathScan(ext: Collaborators, input: string) returns (buffer: string, isForbidden: bool, asciiRunner: bv8)
    ensures buffer == FoldCaseAll(input)
    ensures isForbidden == AnyOf(input, ext.isForbiddenDomainCodePoint)
    ensures asciiRunner >= 0x80 <==> exists i :: 0 <= i < |input| && HighByte(input[i])
  {
    buffer := [];
    isForbidden := false;
    asciiRunner := 0;
    var i := 0;
    while i < |input|
      invariant i <= |input|
      invariant buffer == FoldCaseAll(input[..i])
      invariant isForbidden == AnyOf(input[..i], ext.isForbiddenDomainCodePoint)
      invariant (asciiRunner >= 0x80) == AnyOf(input[..i], HighByte)
    {
      var c := input[i];
      FoldPrefixStep(input, i);
      AnyPrefixStep(input, i, ext.isForbiddenDomainCodePoint);
      AnyPrefixStep(input, i, HighByte);
      isForbidden := isForbidden || ext.isForbiddenDomainCodePoint(c);
      RunnerOr(asciiRunner, ByteOf(c));
      asciiRunner := asciiRunner | ByteOf(c);
      buffer := buffer + [FoldCase(c)];
      i := i + 1;
    }
    assert input[..i] == input;
  }

  /** Extending the prefix scanned by one character extends the buffer by its fold. */
  lemma {:induction false} FoldPrefixStep(s: string, i: nat)
    requires i < |s|
    ensures FoldCaseAll(s[..i + 1]) == FoldCaseAll(s[..i]) + [FoldCase(s[i])]
  {
    assert forall j :: 0 <= j < i ==> s[..i + 1][j] == s[..i][j];
  }

  /** Extending the prefix scanned by one character ORs its test in. */
  lemma {:induction false} AnyPrefixStep(s: string, i: nat, p: char -> bool)
    requires i < |s|
    ensures AnyOf(s[..i + 1], p) == (AnyOf(s[..i], p) || p(s[i]))
  {
    assert forall j :: 0 <= j < i ==> s[..i + 1][j] == s[..i][j];
    assert s[..i + 1][i] == s[i];
  }

  /**
   * The fields of the URL record that host parsing and to_string touch. The
   * other header declarations of the record are not part of this model.
   */
  class Url {
    var scheme: string
    var username: string
    var password: string
    var host: Option<string>
    var port: Option<nat>
    var path: string
    var query: Option<string>
    var fragment: Option<string>
    var isValid: bool

    /** A valid record of the given scheme with every other field empty. */
    constructor (scheme: string)
      ensures this.scheme == scheme && username == "" && password == "" && host.None? && port.None?
      ensures path == "" && query.None? && fragment.None? && isValid
    {
      this.scheme := scheme;
      username := "";
      password := "";
      host := None;
      port := None;
      path := "";
      query := None;
      fragment := None;
      isValid := true;
    }

    /** url::parse_opaque_host (url.cpp:11-19). */
    method ParseOpaqueHost(ext: Collaborators, input: string) returns (ok: bool)
      modifies this`host, this`isValid
      ensures Outcome(ok, host, isValid) == OpaqueHost(ext, input, old(host), old(isValid))
    {
      if AnyOf(input, ext.isForbiddenHostCodePoint) {
        isValid := false;
        return false;
      }
      host := Some(ext.percentEncodeC0(input));
      return true;
    }

    /** url::parse_ipv4 (url.cpp:24-72). */
    method ParseIpv4(ext: Collaborators, input: string) returns (ok: bool)
      requires |input| > 0
      modifies this`host, this`isValid
      ensures Outcome(ok, host, isValid) == Ipv4Host(ext, input, old(host), old(isValid))
    {
      var address := Ipv4.Ipv4Address(input);
      if address.None? {
        isValid := false;
        return false;
      }
      host := Some(ext.serializeIpv4(address.value));
      return true;
    }

    /** url::parse_ipv6 (url.cpp:78-272). */
    method ParseIpv6(ext: Collaborators, input: string) returns (ok: bool)
      modifies this`host, this`isValid
      ensures Outcome(ok, host, isValid) == Ipv6Host(ext, input, old(host), old(isValid))
    {
      var pieces := Ipv6.Ipv6Address(input);
      if pieces.None? {
        isValid := false;
        return false;
      }
      host := Some(ext.serializeIpv6(pieces.value));
      return true;
    }

    /** url::parse_host (url.cpp:278-334). */
    method ParseHost(ext: Collaborators, input: string) returns (ok: bool)
      requires ext.Wf()
      modifies this`host, this`isValid
      ensures Outcome(ok, host, isValid) == HostSpec(ext, scheme, input, old(host), old(isValid))
    {
      if |input| == 0 {
        isValid := false;
        return false;
      }
      if input[0] == '[' {
        if input[|input| - 1] != ']' {
          isValid := false;
          return false;
        }
        ok := ParseIpv6(ext, input[1..|input| - 1]);
        return;
      }
      if !ext.isSpecial(scheme) {
        ok := ParseOpaqueHost(ext, input);
        return;
      }
      var fast := false;
      if ext.isForbiddenDomainCodePoint('%') {
        var buffer, isForbidden, asciiRunner := FastPathScan(ext, input);
        if asciiRunner < 0x80 && !isForbidden && Find(buffer, "xn-").None? {
          host := Some(buffer);
          fast := true;
        }
      }
      if !fast {
        match ext.toAscii(host, input, false, Find(input, "%"))
        case Rejected(leftOver) =>
          host := leftOver;
          isValid := false;
          return false;
        case Converted(domain) =>
          host := Some(domain);
          isValid := true;
      }
      var domain := host.value;
      if ext.endsInNumber(domain) {
        ok := ParseIpv4(ext, domain);
        return;
      }
      return true;
    }

    /**
     * url::to_string (url.cpp:336-353): "null" for an invalid record, otherwise
     * a flat object of the fields, without escaping, where host, port, query
     * and fragment appear only when set.
     */
    function ToString(): (r: string)
      reads this
      ensures !isValid ==> r == "null"
      ensures isValid ==> |r| > 12 && r[..11] == "{\"scheme\":\"" && r[|r| - 1] == '}'
    {
      if !isValid then "null"
      else
        "{\"scheme\":\"" + scheme + "\"" + ","
        + "\"username\":\"" + username + "\"" + "," + "\"password\":\"" + password + "\"" + ","
        + (if host.Some? then "\"host\":\"" + host.value + "\"" + "," else "")
        + (if port.Some? then "\"port\":" + Numeral(port.value, 10) + "," else "")
        + "\"path\":\"" + path + "\""
        + (if query.Some? then ",\"query\":\"" + query.value + "\"" + "," else "")
        + (if fragment.Some? then ",\"fragment\":\"" + fragment.value + "\"" + "," else "")
        + "}"
    }
  }
}
