# Host parsing of the ada URL parser, in Dafny

This project models the host-parsing core of ada's `src/url.cpp`. That code follows section 3.5 (Host parsing) of the WHATWG URL Standard. It has four routines, and each reduces a host substring to a canonical host or clears the URL record's `is_valid` flag:

- `url::parse_host` dispatches. It rejects an empty host and sends `[...]` to the IPv6 parser. Hosts of non-special schemes go to the opaque-host parser. Any other host first tries an ASCII fast path that case-folds the host. When that path does not apply, the host goes to the external `to_ascii`. A domain that "ends in a number" is then re-parsed as IPv4.
- `url::parse_ipv4` reads one to four dot-separated parts. Each part is in decimal, octal or hexadecimal, and the parts are shifted into a 32-bit value.
- `url::parse_ipv6` is the standard's IPv6 parser, which walks a position through the input over an array of eight 16-bit pieces. It handles one `::` compression and an embedded dotted IPv4 tail, and resolves the compression with a swap loop.
- `url::parse_opaque_host` rejects forbidden host code points and percent-encodes the rest.

The model has the same form as the source.

- **Specification functions.** Every routine has its own function:
  - `Ipv4.Ipv4Spec` for `parse_ipv4`;
  - `Ipv6.Ipv6Spec` for `parse_ipv6`;
  - `Host.OpaqueHost` for `parse_opaque_host`;
  - `Host.HostSpec` for `parse_host`.

  They follow the source's branches over the remaining suffix of the input, and the end of the input plays the part of the EOF code point.
- **Imperative methods.** The loops of the source are methods with `while` loops over an `array<int>` of pieces, over an index into the input, or over the shrinking suffix of the input still to read:
  - `Ipv4.Ipv4Address`, whose loop variable is the suffix `rest`;
  - `Ipv6.Ipv6Address` with its turns and the swap loop;
  - `Host.FastPathScan`.

  Each is proved to compute its specification function.
- **The URL record.** It is the class `Host.Url`. Its methods `ParseHost`, `ParseIpv4`, `ParseIpv6` and `ParseOpaqueHost` change `host` and `isValid` and nothing else. Each is proved to leave exactly the outcome its specification function gives.
- **Lemmas.** The properties of the specification functions are proved as lemmas in `Ipv4Properties`, `Ipv4Numerals`, `Ipv6Properties` and `Ipv6Embedded`. They cover written numerals, dotted and compressed addresses, the embedded IPv4 tail, and the failure paths named in the table below.

The collaborators whose code is not part of this model are function values in `External.Collaborators`:

- the forbidden-code-point tables;
- `percent_encode`;
- `checkers::is_ipv4`;
- both serializers;
- `to_ascii`;
- `is_special`.

Every property holds for every choice of them that satisfies `Wf()`. `Wf()` requires two things:

- `'%'` is a forbidden domain code point. This is the static_assert at url.cpp:299.
- The empty string does not end in a number. `parse_ipv4` indexes `size()-1` and needs a non-empty input.

Characters of a host stand for the bytes of a C++ `std::string_view`.

## Behaviour modelled as written

- **Leading colon.** The leading-colon test of `parse_ipv6` (url.cpp:96) looks at `input[2]` only when the input has size 1. Otherwise the parser skips two characters without looking at the second one, where the standard requires `::`.
  - `Ipv6.ScanInput` models the skip as written, and `Ipv6Properties.LeadingColon` proves that `:x…` parses like `::…`.
  - For a lone `:`, the source reads `input[2]` past the end of its `string_view`, which is undefined behaviour. For example, the interior of the host of `http://[:]:80/` makes it read the port's `:`, and the loop then starts past the end of the input. The model makes this case a failure, as the standard does (see "## Left out").
- **The final IPv4 part.** The test at url.cpp:54 uses `>`, so a final part equal to 2^(32-8k) is accepted and OR-ed in. The standard rejects it.
  - `Ipv4.FinalPart` models this as written.
  - `Ipv4Properties.FinalPartAtBound` states the address that results.
- **Two trailing dots.** `parse_ipv4` strips one trailing `.` before it reads the parts. Four octets followed by `..` are therefore accepted (`Ipv4Properties.FourOctetsTwoDots`), where the standard finds an empty part.
- **`host` after a failure.** A failing routine does not always leave `host` untouched:
  - after the fast path, a failing IPv4 re-parse leaves the case-folded buffer in `host`;
  - a failing `to_ascii` leaves in `host` whatever it wrote there.

  `Host.HostSpec` models both, because the source does.
- **`is_valid` on the slow path.** `to_ascii` sets `is_valid` to true when it succeeds. Every other success leaves `is_valid` as it was.
- **Integer widths.**
  - IPv6 pieces and the group accumulator are `uint16_t`. The model reduces modulo 2^16 the group loop's update (url.cpp:134) and the embedded IPv4 loop's shift (url.cpp:208). `Ipv6.GroupDigit` and `Ipv6Embedded.ShiftOctet` show that neither reduction ever changes a value. A group's store (url.cpp:242) needs no reduction, because `Ipv6.GroupValue` is below 2^16.
  - `from_chars` into a `uint32_t` fails at 2^32 or above.
  - The IPv4 accumulator is a `uint64_t` that the model shows never leaves 32 bits (`Ipv4.PartsBound`).

## Model

| member | source | states |
|---|---|---|
| Chars.HexValue | src/url.cpp:134 | the value of a hexadecimal digit is below 16, and below 10 exactly for a decimal digit |
| Chars.FoldCase | src/url.cpp:314 | the fast path's fold adds 32 to exactly the ASCII upper-case letters and keeps every other character |
| Chars.FoldCaseAll | src/url.cpp:311-315 | the buffer has the input's length and holds the folded character at every position |
| Chars.FoldByte | src/url.cpp:314 | the byte test `(c\|0x20)-0x61 <= 25` holds exactly for ASCII letters, and OR-ing 0x20 lowers an upper-case one |
| Chars.AnyOf | src/url.cpp:12 | `std::any_of` holds exactly when some character satisfies the predicate |
| Chars.Find | src/url.cpp:318 | `find` returns the first position where the needle occurs, or none when it occurs nowhere |
| Chars.FindFrom | src/url.cpp:325 | the first occurrence at or after a position, and none before it |
| Chars.DigitRunMaximal | src/url.cpp:41-45 | the digit run std::from_chars reads is made of digits of the radix and stops at a non-digit |
| Chars.NumeralDigits | src/url.cpp:41-45 | a numeral is a non-empty run of digits of its radix, led by 0 only for zero |
| Chars.NumeralDenotes | src/url.cpp:41-45 | the digits of a numeral denote its number |
| Ipv4.FromChars | src/url.cpp:41-47 | from_chars reads a value below 2^32 and always consumes at least one character |
| Ipv4.Ipv4Number | src/url.cpp:32-48 | one part reads a value below 2^32 and always consumes input |
| Ipv4.FinalPart | src/url.cpp:50-57 | the final part fails exactly when it exceeds 2^(32-8k) |
| Ipv4.PartsBound | src/url.cpp:29-66 | the accumulator never leaves 32 bits, so every result is below 2^32 |
| Ipv4.PartsAdvance | src/url.cpp:61-64 | shifting left by 8 and OR-ing an octet is the next turn of the loop |
| Ipv4.OctetShift | src/url.cpp:62-63 | while the parts are octets, shift-and-OR appends a byte |
| Ipv4.FinalPartBound | src/url.cpp:54-56 | the final part's shift and OR stays below 2^32 |
| Ipv4.Ipv4Spec | src/url.cpp:24-72 | the address of parse_ipv4 after the single trailing dot is dropped, always below 2^32 |
| Ipv4.Ipv4Address | src/url.cpp:24-72 | the parts loop computes exactly the specification function |
| Ipv4Numerals.ReadNumeral | src/url.cpp:41-47 | from_chars reads back any numeral, failing exactly when it does not fit in 32 bits |
| Ipv4Numerals.ReadDecimal | src/url.cpp:44-45 | digits without a leading zero go to the decimal branch |
| Ipv4Numerals.ReadOctal | src/url.cpp:42-43 | 0 followed by any decimal digit goes to the octal branch from offset 1 |
| Ipv4Numerals.OctalRefusesNine | src/url.cpp:42-47 | 0 followed by 8 or 9 goes to the octal branch, which reads no digit, so the part fails |
| Ipv4Numerals.ReadHexadecimal | src/url.cpp:33-41 | 0x or 0X followed by hexadecimal digits goes to the hexadecimal branch from offset 2 |
| Ipv4Numerals.ReadWritten | src/url.cpp:32-48 | every decimal, octal or hexadecimal numeral, behind 0x or 0X, is read back as its value, or rejected when not below 2^32 |
| Ipv4Numerals.WrittenAddress | src/url.cpp:31-66 | up to three octets and a final part, each in any notation, give the final-part test of the packed octets |
| Ipv4Numerals.BareHexPrefix | src/url.cpp:34-37 | a bare 0x or 0X, alone or before a dot, is read as 0 |
| Ipv4Properties.FromCharsAppend | src/url.cpp:41-48 | from_chars reads the same whatever follows the dot after a part |
| Ipv4Properties.NumberAppend | src/url.cpp:32-48 | what follows a part's dot never changes how the part is read, and it is left over untouched |
| Ipv4Properties.StrippedDotted | src/url.cpp:25-27 | only the last part decides whether a trailing dot is dropped |
| Ipv4Properties.PartsOfDotted | src/url.cpp:58-65 | octets each followed by a dot are shifted in one byte at a time, most significant first |
| Ipv4Properties.SpecOfDotted | src/url.cpp:24-66 | after dotted octets, parsing goes on with what follows them |
| Ipv4Properties.TrailingDot | src/url.cpp:25-27 | one trailing dot after a final part changes nothing |
| Ipv4Properties.DottedAddress | src/url.cpp:24-72 | up to three octets and a final part read in full give the final-part test of the packed octets, with or without a trailing dot |
| Ipv4Properties.FinalPartBelow | src/url.cpp:54-56 | a final part below 2^(32-8k) fills the low bits under the octets |
| Ipv4Properties.FinalPartAtBound | src/url.cpp:54 | a final part equal to 2^(32-8k) is accepted and sets the lowest bit of the octets |
| Ipv4Properties.PackedLast | src/url.cpp:62-63 | the parity of the packed octets is the parity of the last one |
| Ipv4Properties.OctetTooLarge | src/url.cpp:61 | a part above 255 that is not the last fails |
| Ipv4Properties.UnreadablePart | src/url.cpp:47 | a part with no digits, or one not below 2^32, rejects the address |
| Ipv4Properties.EmptyPart | src/url.cpp:47 | a dot where a part should start fails, except the single trailing one |
| Ipv4Properties.TooManyParts | src/url.cpp:25-67 | anything but a single dot after four dotted octets fails, including further parts followed by a trailing dot |
| Ipv4Properties.NumberTruncate | src/url.cpp:32-48 | a part is read the same when the input after the character it stopped at is cut off |
| Ipv4Properties.BadSeparator | src/url.cpp:58-61 | a part after at most three octets that stops at anything but '.' fails, whatever comes after it |
| Ipv4Properties.FourOctetsTwoDots | src/url.cpp:25-67 | four octets followed by two dots are accepted, as the packed octets |
| Ipv6.Zeros | src/url.cpp:82 | an address of n zero pieces |
| Ipv6.HexRunFrom | src/url.cpp:130-137 | the hexadecimal loop reads at most four digits |
| Ipv6.HexRunDigits | src/url.cpp:130-137 | the run the loop reads is all hexadecimal digits, and it stops at a non-digit unless four are read |
| Ipv6.HexDigitsBound | src/url.cpp:130-137 | k hexadecimal digits denote a number below 16^k |
| Ipv6.GroupValue | src/url.cpp:128-137 | a group's value fits in 16 bits |
| Ipv6.OctetDigits | src/url.cpp:180-204 | the octet digit loop keeps the octet at most 255 and never grows the input |
| Ipv6.ReadOctet | src/url.cpp:174-204 | an octet starts with a digit, is at most 255, and consumes input |
| Ipv6.Embedded | src/url.cpp:154-222 | the embedded IPv4 loop yields eight pieces |
| Ipv6.EmbeddedFrame | src/url.cpp:206-216 | the embedded loop writes only the two pieces from its starting piece on |
| Ipv6.Scan | src/url.cpp:107-247 | the main loop keeps pieceIndex at most 8 and compress between 1 and pieceIndex |
| Ipv6.ScanGroupAt | src/url.cpp:127-246 | a group, its embedded IPv4 tail or its ':' keeps the same bounds |
| Ipv6.Compressed | src/url.cpp:249-264 | resolution keeps the pieces before compress, zeroes the gap, and moves the pieces after compress to the end in order |
| Ipv6.ScanInput | src/url.cpp:93-247 | the main loop after the leading-colon test keeps the same bounds |
| Ipv6.Resolve | src/url.cpp:249-268 | the resolved address has eight pieces |
| Ipv6.Ipv6Spec | src/url.cpp:78-272 | the address of parse_ipv6 has eight pieces |
| Ipv6.ScanZeroTail | src/url.cpp:107-247 | the pieces after the last one written are still 0 when the main loop stops |
| Ipv6.GroupDigit | src/url.cpp:132-136 | one more hexadecimal digit never carries the 16-bit value out of range |
| Ipv6.ReadGroup | src/url.cpp:130-137 | the hexadecimal loop computes the group's length and value |
| Ipv6.ReadIpv4Piece | src/url.cpp:174-204 | the decimal loop computes the octet and where it ends |
| Ipv6.PieceAdvance | src/url.cpp:211-216 | pieceIndex stays the starting piece plus numbersSeen / 2 |
| Ipv6.EmbeddedTurn | src/url.cpp:158-217 | one turn of the embedded loop is one step of its specification |
| Ipv6.ReadEmbeddedIpv4 | src/url.cpp:154-222 | the embedded loop writes exactly the specified pieces and advances pieceIndex by 2 |
| Ipv6.ResolveCompression | src/url.cpp:249-264 | the swap loop leaves exactly the compressed address |
| Ipv6.ReadPiece | src/url.cpp:127-246 | one turn at a group fails, finishes or continues exactly as the specification does |
| Ipv6.ScanTurn | src/url.cpp:107-246 | one turn of the main loop, at a ':' or a group, as the specification |
| Ipv6.ScanPieces | src/url.cpp:107-247 | the main loop over the array succeeds exactly when the specification does, with the same pieces, pieceIndex and compress |
| Ipv6.Ipv6Address | src/url.cpp:78-272 | parse_ipv6 computes exactly the specification |
| Ipv6Properties.PlaceShape | src/url.cpp:242-246 | storing groups one after another replaces exactly their pieces |
| Ipv6Properties.GroupAppend | src/url.cpp:130-137 | a group followed by a non-digit is read in full |
| Ipv6Properties.ScanColons | src/url.cpp:114-246 | groups each followed by ':' are stored one piece after another |
| Ipv6Properties.ScanLastGroup | src/url.cpp:237-246 | a group that ends the input is stored and ends the loop |
| Ipv6Properties.PlaceSnoc | src/url.cpp:242-246 | storing one more piece extends the stored run |
| Ipv6Properties.CompressedShape | src/url.cpp:249-264 | resolution turns xs, a zero and ys into xs, the missing zeros and ys |
| Ipv6Properties.PlacedFirst | src/url.cpp:242-246 | groups stored into the zero address from piece 0 are followed by zeros |
| Ipv6Properties.ScanPastEight | src/url.cpp:109-112 | a further group once eight pieces are stored fails |
| Ipv6Properties.ScanJoined | src/url.cpp:107-247 | groups up to the end are stored while they fit, and fail once they do not |
| Ipv6Properties.UncompressedForm | src/url.cpp:265-268 | without "::", groups separated by ':' are the address exactly when there are eight of them |
| Ipv6Properties.CompressStart | src/url.cpp:93-125 | reading xs:: stores xs and sets compress just after it |
| Ipv6Properties.CompressStartTooLate | src/url.cpp:109-112 | eight groups before "::" fail |
| Ipv6Properties.ResolveCompressed | src/url.cpp:249-264 | the swap loop turns the pieces stored for xs::ys into xs, zeros, ys |
| Ipv6Properties.CompressedForm | src/url.cpp:78-272 | xs::ys is xs, then the missing zeros, then ys, and fails when the groups leave no piece for "::" |
| Ipv6Properties.CompressedFits | src/url.cpp:78-272 | the case of CompressedForm with room for "::" |
| Ipv6Properties.CompressedScan | src/url.cpp:93-247 | the main loop over xs::ys stores xs, then ys from just after compress |
| Ipv6Properties.CompressedOverflows | src/url.cpp:109-112 | the case of CompressedForm with too many groups |
| Ipv6Properties.TwoCompressions | src/url.cpp:117-119 | a second "::", or ":::", fails |
| Ipv6Properties.LeadingColon | src/url.cpp:94-105 | a leading ':' and any character parse as "::", and a lone ':' fails |
| Ipv6Properties.GroupTooLong | src/url.cpp:130-240 | five hexadecimal digits in a row fail |
| Ipv6Properties.AfterGroup | src/url.cpp:237-240 | a group followed by anything but ':', '.' or the end fails |
| Ipv6Properties.TrailingColon | src/url.cpp:228-235 | a ':' that ends the input fails |
| Ipv6Properties.StopAfterGroup | src/url.cpp:227-240 | the main loop fails at the character after a group when it is not a digit, '.' or a ':' with input after it |
| Ipv6Properties.CompressedExamples | src/url.cpp:78-272 | "::1" is seven zeros and a one, and "::" is eight zeros |
| Ipv6Embedded.OctetEnd | src/url.cpp:180-204 | the digit loop ends at a non-digit with the octet read so far |
| Ipv6Embedded.OctetMore | src/url.cpp:180-204 | one more digit multiplies the octet by ten and adds it |
| Ipv6Embedded.ReadOctetText | src/url.cpp:174-204 | one to three digits without a leading zero, at most 255, are read as their value |
| Ipv6Embedded.LeadingZero | src/url.cpp:189-191 | a 0 followed by a digit fails |
| Ipv6Embedded.OctetOverflow | src/url.cpp:197-200 | three digits above 255, or any fourth digit, fail |
| Ipv6Embedded.ShiftOctet | src/url.cpp:208 | shifting an octet into a piece holding one octet needs no 16-bit reduction |
| Ipv6Embedded.DotStep | src/url.cpp:162-216 | an octet after its dot is shifted into the current piece |
| Ipv6Embedded.FirstStep | src/url.cpp:174-216 | the first octet is shifted into the first piece |
| Ipv6Embedded.Shifted | src/url.cpp:208 | shifting octets in keeps eight pieces |
| Ipv6Embedded.EmbeddedDots | src/url.cpp:158-217 | dotted octets are shifted in one after another |
| Ipv6Embedded.EmbeddedOctets | src/url.cpp:158-217 | a dotted run of one to four octets is shifted in, in order |
| Ipv6Embedded.ShiftedQuad | src/url.cpp:206-216 | four octets shifted into two zero pieces make them big-endian pairs |
| Ipv6Embedded.EmbeddedQuad | src/url.cpp:154-222 | four octets that end the input fill the two pieces, two per piece, most significant first |
| Ipv6Embedded.EmbeddedCount | src/url.cpp:163-222 | one to three octets followed by the end, by anything but '.', or by a '.' and no readable octet fail, and so does anything after the fourth |
| Ipv6Embedded.OctetsAsGroup | src/url.cpp:130-140 | the first octet, read as a group, stops at the dot after it |
| Ipv6Embedded.ScanQuad | src/url.cpp:139-225 | an embedded address fills the pieces at pieceIndex and the next when pieceIndex is at most 6, and fails otherwise |
| Ipv6Embedded.ScanOctetCount | src/url.cpp:139-225 | an embedded address whose octets stop before the fourth, at the end, at anything but '.', or at a '.' without a readable octet, fails, and so does anything after the fourth |
| Ipv6Embedded.Packed | src/url.cpp:208 | the two pieces four octets make are 16-bit, and their high and low bytes are the octets |
| Ipv6Embedded.EmbeddedForm | src/url.cpp:78-272 | groups and a dotted IPv4 tail without "::" need exactly six groups, and the octets make the last two pieces |
| Ipv6Embedded.EmbeddedOctetCount | src/url.cpp:139-225 | groups and a tail whose octets stop before the fourth, at the end, at anything but '.', or at a '.' without a readable octet, fail, and so does anything after the fourth |
| Ipv6Embedded.DotWithoutGroup | src/url.cpp:140-144 | a '.' with no digits before it fails |
| Ipv6Embedded.QuadAfter | src/url.cpp:139-225 | four octets after stored pieces are stored after them, when two pieces remain |
| Ipv6Embedded.CompressedEmbedded | src/url.cpp:78-272 | xs::ys and a dotted IPv4 tail is xs, the missing zeros, ys and the two tail pieces, and fails when fewer than one zero piece is left for "::" |
| Ipv6Embedded.CompressedQuad | src/url.cpp:78-272 | the case of CompressedEmbedded with room for the tail |
| Ipv6Embedded.CompressedQuadScan | src/url.cpp:93-247 | the main loop over xs::ys and four octets stores all of them |
| Ipv6Embedded.FirstOctetFails | src/url.cpp:139-204 | groups and then a group before a '.' fail when that group is not a readable first octet followed by '.' |
| Ipv6Embedded.TailLeadingZero | src/url.cpp:189-191 | groups and one to three octets, then a '.', a 0 and a digit, fail |
| Ipv6Embedded.TailOverflow | src/url.cpp:197-200 | groups and one to three octets, then a '.' and three digits above 255 or followed by a fourth digit, fail |
| Host.OpaqueHost | src/url.cpp:11-19 | fails, clearing is_valid and leaving host, exactly when some character is a forbidden host code point; otherwise host is the C0 percent-encoding |
| Host.ByteOf | src/url.cpp:313 | the low eight bits of a character are the byte itself |
| Host.SlowPath | src/url.cpp:323-333 | the slow path succeeds exactly when it leaves is_valid set, only after to_ascii converts, and then host is the domain or the serialization of the IPv4 address it denotes |
| Host.HostSpec | src/url.cpp:278-334 | every failure clears is_valid, and every success leaves a host |
| Host.EmptyHost | src/url.cpp:283 | an empty host fails |
| Host.BracketedHost | src/url.cpp:285-293 | a host starting with '[' fails unless it ends with ']', and is otherwise the IPv6 parse of the part between them |
| Host.EmptyBrackets | src/url.cpp:285-293 | "[]" fails |
| Host.NotSpecialHost | src/url.cpp:296-298 | an unbracketed host of a non-special scheme is an opaque host |
| Host.FastPathHost | src/url.cpp:306-333 | when the fast path keeps its buffer, the host is the case-folded input or its IPv4 re-parse, whatever to_ascii does |
| Host.SlowPathHost | src/url.cpp:306-326 | any forbidden domain code point (among them '%'), a byte with bit 7 set or an "xn-" sends a special host to to_ascii; with FastPathHost these are exactly the hosts it sees |
| Host.Ipv4Reparse | src/url.cpp:318-333 | a domain from the fast path or to_ascii is re-parsed as IPv4 exactly when it ends in a number |
| Host.FastPathScan | src/url.cpp:307-315 | the transform loop builds the folded buffer, ORs the forbidden test, and sets bit 7 of the runner exactly when some byte has it |
| Host.Url.ParseOpaqueHost | src/url.cpp:11-19 | the record's host and is_valid end as OpaqueHost gives, and its other fields are unchanged |
| Host.Url.ParseIpv4 | src/url.cpp:24-72 | the record's host and is_valid end as Ipv4Host gives, and its other fields are unchanged |
| Host.Url.ParseIpv6 | src/url.cpp:78-272 | the record's host and is_valid end as Ipv6Host gives, and its other fields are unchanged |
| Host.Url.ParseHost | src/url.cpp:278-334 | the record's host and is_valid end as HostSpec gives, and its other fields are unchanged |
| Host.Url.ToString | src/url.cpp:336-353 | an invalid record renders as "null", and a valid one as an object opening with its scheme |

## Left out

- Serializers: the bodies of `serializers::ipv4` and `serializers::ipv6` are not part of this model. They are opaque functions, and no property of the serialized text (such as the elision of the longest zero run) is claimed.
- `unicode::percent_encode`, `checkers::is_ipv4`, `unicode::is_forbidden_host_code_point`, `unicode::is_forbidden_domain_code_point` and `url::is_special`: their code is not part of this model. They are opaque functions, constrained only by `External.Collaborators.Wf`.
- `parser::to_ascii` (include/ada/parser.h): the IDNA and Punycode transform is an opaque, fallible function of the old host, the input, the strict flag and the position of the first '%'.
- Unicode: a character stands for one byte of the UTF-8 host, and `Host.HighByte` looks at its low eight bits. No decoding or normalisation is modelled.
- The remaining fields of the URL record, and their initial values, are declared in a header that is not part of this model. `Host.Url.constructor` chooses an empty valid record.
- Host.Url.ToString: the contract states only the "null" case and the object's opening and closing characters, not the full text. The text is the concatenation of url.cpp:341-352; its field values are not escaped, and a query or fragment adds a trailing comma.
- Ipv6.ScanInput: for a lone `:` the source reads `input[2]` out of bounds (url.cpp:96), and what it then does depends on the memory after the input. The model fails there instead, because no defined behaviour exists to follow.
- Host.Url.ParseHost: C++ UB is not modelled. Calling `host.value()` on an empty optional cannot happen, because `to_ascii`'s success is modelled as always giving a domain.
