/**
 * The collaborators that host parsing calls but whose code is not part of this
 * model: the forbidden code point tables, percent-encoding, the "ends in a
 * number" test, the IPv4/IPv6 serializers, domain to ASCII and the scheme's
 * specialness. They are passed in as function values, so every property proved
 * here holds for every choice of them that satisfies Wf().
 */
module External {
  import opened Basics

  /** What to_ascii reports: the converted domain, or failure together with
      whatever it left in its out-parameter. */
  datatype AsciiDomain = Converted(domain: string) | Rejected(leftOver: Option<string>)

  datatype Collaborators = Collaborators(
    /** unicode::is_forbidden_host_code_point */
    isForbiddenHostCodePoint: char -> bool,
    /** unicode::is_forbidden_domain_code_point */
    isForbiddenDomainCodePoint: char -> bool,
    /** unicode::percent_encode with the C0 control percent-encode set */
    percentEncodeC0: string -> string,
    /** checkers::is_ipv4, the "ends in a number" test */
    endsInNumber: string -> bool,
    /** parser::to_ascii(out, input, be_strict, first_percent), given the old value of out */
    toAscii: (Option<string>, string, bool, Option<nat>) -> AsciiDomain,
    /** serializers::ipv4 */
    serializeIpv4: nat -> string,
    /** serializers::ipv6 */
    serializeIpv6: seq<int> -> string,
    /** url::is_special, as a function of the scheme */
    isSpecial: string -> bool)
  {
    /**
     * '%' is a forbidden domain code point (the static_assert of url.cpp), and
     * the empty string does not end in a number.
     */
    predicate Wf()
    {
      isForbiddenDomainCodePoint('%') && !endsInNumber("")
    }
  }
}
