# UriHelper: the component formatter of Mono's `System.Uri`

This project is a Dafny model of `UriHelper`, the internal class that Mono's
`System.Uri` uses to format one URI component (path, query, fragment, ...)
for output. For every character of the component it decides whether the
character is written percent-encoded, percent-decoded, passed through, or (for
a backslash in a path) replaced by a slash. The decision depends on:

- the character;
- whether it arrived literally or was decoded from a `%XY` triplet;
- the scheme;
- the component;
- the `UriKind`;
- the requested `UriFormat`;
- whether IRI parsing is on.

The model follows the class member by member.

- `text.dfy` (module `Text`): UTF-16 code units (`CodeUnit`, the value of a
  .NET `char`, surrogate halves included), bytes, and the punctuation the
  rules single out.
- `schemes.dfy` (module `Schemes`): the `UriSchemes` flags as a set of
  `Scheme` values, `GetScheme`, `SchemeContains` and both `SupportsQuery`
  overloads.
- `hex_codec.dfy` (module `HexCodec`): `HexEscapeMultiByte`.
  - It encodes one code unit as UTF-8 (RFC 3629).
  - It writes each byte as a `%XY` triplet with upper-case hex digits
    (section 2.1 of RFC 3986).
  - A UTF-8 decoder and a triplet reader serve as the reference for its
    round-trip lemmas.
- `char_policy.dfy` (module `CharPolicy`): the three first-match rule
  cascades `NeedToEscape`, `NeedToUnescape` and `FormatChar`. The
  `UriFormat` datatype includes the internal `ToStringUnescape` format.
  `-._~` with ALPHA and DIGIT is the unreserved set of section 2.3 of
  RFC 3986, and `$&+,;=@` are reserved characters of its section 2.2.
- `formatter.dfy` (module `Formatter`): `Format`, the left-to-right scan.
  - Each `%` goes to the triplet decoder.
  - Every character goes through `FormatChar`.
  - A decoded surrogate pair's low half is appended verbatim.
  - The scan loop (`Scan`) is written once for an arbitrary per-character
    formatter. `Format` instantiates it with `FormatChar` for the call's
    scheme, kind, component, format and IRI flag.
- `policy_properties.dfy` (module `PolicyProperties`) holds lemmas about the
  character rules. `format_properties.dfy` (module `FormatProperties`) holds
  lemmas about whole strings.

The IRI flag (`Uri.IriParsing`, a global in the source) is the explicit
parameter `iri`. The triplet decoder `Uri.HexUnescapeMultiByte` lives in
another class. It is the function parameter `decode`, assumed only to consume
at least the `%` and to stay inside the string (`DecoderAdvances`).

In these places the code does something a reader might not expect, and the
model follows the code:

- A literal `?` in the path of a scheme that supports a query is kept, not
  escaped (lines 262-267).
- A decoded backslash in an http or https path becomes `\` only with IRI on
  and the Unescaped format. With IRI off it becomes `/` in every format
  (lines 134-139). With IRI on and any other format it is re-escaped to
  `%5C`.
- A literal `#` in the path or query is kept unescaped in every format
  (lines 272-275), so it is written out as a fragment delimiter.
- Under UriEscaped every literal code unit at or above 0x7F is escaped
  whatever the IRI setting (lines 290-292).
- When the decoder reports a surrogate pair, the decoded high half goes
  through FormatChar and the low half is appended verbatim (lines 112-114).
  Under UriEscaped the high half is not decoded, so it is re-escaped. A lone
  surrogate cannot be encoded in UTF-8, so it is re-escaped as the
  replacement character `%EF%BF%BD` (line 76), and the raw low half follows
  it. This is why UriEscaped output is visible ASCII only when no surrogate
  pair is reported.

## Model

| member | source | states |
|---|---|---|
| Schemes.GetScheme | mcs/class/System/System/UriHelper.cs:33-65 | the empty name and only the empty name gives no flag (`None`), and no name gives more than one flag |
| Schemes.GetSchemeOfCanonicalName | mcs/class/System/System/UriHelper.cs:35-62 | each canonical scheme name maps to exactly its own flag, and a well-known flag comes from no other name (matching is exact and case-sensitive) |
| Schemes.GetSchemeOfOtherName | mcs/class/System/System/UriHelper.cs:35-64 | a name maps to `Custom` exactly when it is non-empty and none of the thirteen canonical names |
| Schemes.SchemeContains | mcs/class/System/System/UriHelper.cs:67-70 | `(keys & flag) != 0` as set intersection: some flag of `flag` is among `keys` (its meaning for GetScheme's results is stated by ContainsSingleFlag) |
| Schemes.ContainsSingleFlag | mcs/class/System/System/UriHelper.cs:67-70 | for a single flag, `(keys & flag) != 0` is membership of that flag in the mask |
| Schemes.SupportsQuery | mcs/class/System/System/UriHelper.cs:88-94 | a scheme containing `file` supports a query exactly in IRI mode; otherwise a scheme supports one unless it contains ftp, gopher, nntp or telnet (stated flag by flag by SupportsQueryOfFlag) |
| Schemes.SupportsQueryOfFlag | mcs/class/System/System/UriHelper.cs:88-94 | `None` supports a query; `file` supports one exactly in IRI mode; ftp, gopher, nntp and telnet never do; every other flag does |
| Schemes.SupportsQueryByName | mcs/class/System/System/UriHelper.cs:83-94 | for the name `file` the answer is the IRI flag; for any other name it is false exactly for ftp, gopher, nntp and telnet |
| HexCodec.Utf8Bytes | mcs/class/System/System/UriHelper.cs:76 | a code unit takes one UTF-8 byte exactly below 0x80, two exactly from 0x80 to 0x7FF, otherwise three |
| HexCodec.Utf8RoundTrip | mcs/class/System/System/UriHelper.cs:76 | decoding the UTF-8 bytes of a code unit gives the code unit back, or U+FFFD for a lone surrogate |
| HexCodec.HexDigitRoundTrip | mcs/class/System/System/UriHelper.cs:74 | every entry of the digit table `0123456789ABCDEF` reads back as its own index |
| HexCodec.EscapeBytes | mcs/class/System/System/UriHelper.cs:77-78 | the triplet text is three code units per byte, each `%` or a digit of the upper-case table |
| HexCodec.EscapeBytesSnoc | mcs/class/System/System/UriHelper.cs:77-78 | appending a byte appends exactly its triplet, as the loop body does |
| HexCodec.TripletDigits | mcs/class/System/System/UriHelper.cs:78 | a byte's triplet digits read back as its high and low nibble, which recombine to the byte |
| HexCodec.UnescapeTriplet | mcs/class/System/System/UriHelper.cs:78 | a leading triplet is read back as its byte, in front of whatever follows |
| HexCodec.EscapeBytesRoundTrip | mcs/class/System/System/UriHelper.cs:77-78 | reading the triplet text back gives exactly the bytes, in order |
| HexCodec.HexEscaped | mcs/class/System/System/UriHelper.cs:72-81 | the escaped form of a code unit is 3, 6 or 9 visible ASCII code units starting with `%`, and exactly 3 for ASCII |
| HexCodec.HexEscapedRoundTrip | mcs/class/System/System/UriHelper.cs:72-81 | the escaped form decodes (triplets, then UTF-8) back to the code unit, a lone surrogate to U+FFFD |
| HexCodec.AsciiEscape | mcs/class/System/System/UriHelper.cs:72-81 | an ASCII code unit escapes to exactly `%` followed by its high and low nibble as upper-case digits, which read back to it |
| HexCodec.HexEscapeMultiByte | mcs/class/System/System/UriHelper.cs:72-81 | the loop appends one `%XY` per UTF-8 byte and returns the escaped form, which decodes back to the character |
| CharPolicy.NeedToEscape | mcs/class/System/System/UriHelper.cs:253-309 | never under Unescaped; a `?` exactly when the format is not Unescaped, the scheme has no query and the component is not Fragment; a `#` exactly outside Path and Query with IRI off under UriEscaped; under ToStringUnescape only `?` or `%`; under UriEscaped every control, non-ASCII, space, `"%<>^`{}|` character, and brackets with IRI off |
| CharPolicy.NeedToUnescape | mcs/class/System/System/UriHelper.cs:151-251 | always under Unescaped; a decoded `#` only under Unescaped; a decoded `?` in the path of a query-supporting scheme only under Unescaped; under UriEscaped only `/`, `\`, unreserved marks and ASCII letters and digits; under SafeUnescaped every mark, letter, digit and non-ASCII character other than `/ \ ? #` |
| CharPolicy.FormatChar | mcs/class/System/System/UriHelper.cs:126-149 | the output is the escaped form of the character, the character itself, or a slash for a path backslash; under Unescaped it is one code unit |
| PolicyProperties.EscapedPunctuation | mcs/class/System/System/UriHelper.cs:72-81 | space, `?`, `#` and `\` escape to `%20`, `%3F`, `%23` and `%5C` |
| PolicyProperties.EscapesExactlyWhenRulesSay | mcs/class/System/System/UriHelper.cs:129-131 | FormatChar writes triplets exactly when the literal rule says escape or the decoded rule says do not unescape, and otherwise exactly one code unit |
| PolicyProperties.UnescapedYieldsOneCharacter | mcs/class/System/System/UriHelper.cs:129-149 | under Unescaped nothing is escaped and everything decoded is unescaped, so the output is the character, or a slash for a path backslash |
| PolicyProperties.QuestionMarkHandling | mcs/class/System/System/UriHelper.cs:178-191 | a literal `?` becomes `%3F` exactly when the format is not Unescaped, the scheme has no query and the component is not Fragment; a decoded `?` in the path of a query-supporting scheme is `%3F` unless the format is Unescaped |
| PolicyProperties.HashHandling | mcs/class/System/System/UriHelper.cs:193-199 | a decoded `#` is `%23` in every format except Unescaped; a literal `#` in Path or Query is kept; elsewhere a literal `#` is escaped exactly with IRI off under UriEscaped |
| PolicyProperties.UriEscapedLiterals | mcs/class/System/System/UriHelper.cs:290-305 | under UriEscaped controls, non-ASCII and space `"%<>^`{}|` are escaped; brackets exactly with IRI off; `\` unless in a path whose scheme is outside gopher, ldap, mailto, nntp and telnet |
| PolicyProperties.PathBackslashBecomesSlash | mcs/class/System/System/UriHelper.cs:133-146 | in a file, net.pipe or net.tcp path a backslash, literal or decoded, becomes `/` in every format, kind and IRI setting |
| PolicyProperties.HttpDecodedPathBackslash | mcs/class/System/System/UriHelper.cs:133-139 | a decoded backslash in an http or https path becomes `/` with IRI off; with IRI on it becomes `\` under Unescaped and `%5C` otherwise |
| PolicyProperties.EscapeAndUnescapeAgree | mcs/class/System/System/UriHelper.cs:151-309 | a character other than `\` that is escaped when literal is not unescaped when decoded, so its decoded form stays escaped |
| PolicyProperties.BackslashEscapedYetUnescaped | mcs/class/System/System/UriHelper.cs:164-176 | in a file query under UriEscaped with IRI off, a literal `\` is escaped to `%5C` while a decoded one is written as `\` |
| PolicyProperties.FormatCharPreservesCharacter | mcs/class/System/System/UriHelper.cs:126-149 | the output always stands for the input: triplets decode back to it (a lone surrogate to U+FFFD), otherwise it is the character or a slash for a path backslash |
| PolicyProperties.UriEscapedIsVisibleAscii | mcs/class/System/System/UriHelper.cs:126-149 | under UriEscaped every code unit FormatChar writes is visible ASCII |
| PolicyProperties.IriChangesBrackets | mcs/class/System/System/UriHelper.cs:297-298 | under UriEscaped a literal `[` or `]` is kept with IRI on and becomes `%5B` or `%5D` with IRI off |
| PolicyProperties.UnreservedLiteralIsKept | mcs/class/System/System/UriHelper.cs:253-309 | a literal unreserved character (letter, digit, `-._~`) is kept in every format, scheme, component, kind and IRI setting |
| PolicyProperties.SafeUnescapedEscapes | mcs/class/System/System/UriHelper.cs:258-288 | under SafeUnescaped a literal character is escaped exactly when it is a `?` that could open a query, a `%` of a non-relative URI, or a control character |
| PolicyProperties.ToStringUnescapeEscapes | mcs/class/System/System/UriHelper.cs:258-283 | under ToStringUnescape a literal character is escaped exactly when it is a `?` that could open a query or a `%` of a non-relative URI |
| PolicyProperties.DecodedSlashUnescaped | mcs/class/System/System/UriHelper.cs:159-176 | outside Unescaped a decoded `/` or `\` is decoded exactly for ToStringUnescape of an absolute URI with IRI off, for file outside the fragment (and outside the query in IRI mode), or for a decoding scheme (net.pipe, net.tcp, and http and https with IRI off) outside query and fragment |
| PolicyProperties.DecodedQuestionMarkUnescaped | mcs/class/System/System/UriHelper.cs:178-191 | outside Unescaped a decoded `?` is decoded exactly under ToStringUnescape with IRI off, in the query or fragment when the scheme supports a query and in the fragment when it does not |
| PolicyProperties.ToStringUnescapeLegacy | mcs/class/System/System/UriHelper.cs:201-210 | under ToStringUnescape with IRI off nothing but slashes and `?` is decoded for a relative URI, and `$&+,;=@` and the control characters are decoded exactly when the URI is not relative |
| PolicyProperties.SafeUnescapedUnescapes | mcs/class/System/System/UriHelper.cs:212-226 | under SafeUnescaped a decoded character other than `/ \ ? #` is decoded exactly when it is unreserved, non-ASCII, or (for a non-relative URI) one of `` !"'()*:<>[]^`{}|``; under ToStringUnescape those unsafe printables also follow the URI kind |
| PolicyProperties.UriEscapedUnescapes | mcs/class/System/System/UriHelper.cs:228-248 | under UriEscaped a decoded character other than `/ \ ? #` is decoded, with IRI off, exactly when it is a `.` in a place a slash would be decoded, and in IRI mode exactly when it is unreserved |
| PolicyProperties.LiteralPathBackslash | mcs/class/System/System/UriHelper.cs:133-148 | a literal path `\` is `%5C` for gopher, ldap, mailto, nntp and telnet under UriEscaped, `/` for http, https, ftp, custom, net.pipe, net.tcp and file, and `\` otherwise (news, uuid) |
| PolicyProperties.NoSchemePathBackslash | mcs/class/System/System/UriHelper.cs:133-148 | without a scheme a literal path `\` is kept, and a decoded one is kept under Unescaped or ToStringUnescape of an absolute URI with IRI off and is `%5C` otherwise |
| PolicyProperties.DecodedPathBackslash | mcs/class/System/System/UriHelper.cs:129-148 | the whole table for a decoded path `\` per scheme, format, kind and IRI flag: `%5C` where it is not decoded, `/` for http and https with IRI off (in every format) and for net.pipe, net.tcp and file, `\` for ftp, custom, http and https outside UriEscaped, `\` for the rest |
| PolicyProperties.UriEscapedEscapesExactly | mcs/class/System/System/UriHelper.cs:258-308 | under UriEscaped a literal character is escaped exactly for the `?` and `#` rules, the controls and code units from 0x7F, space and `"%<>^`{}|`, brackets with IRI off, and a backslash outside the path or for gopher, ldap, mailto, nntp and telnet; every other literal character (such as `$&'()*+,:;=@!`) is kept |
| PolicyProperties.ToStringUnescapeUnescapes | mcs/class/System/System/UriHelper.cs:201-225 | under ToStringUnescape a decoded character other than `/ \ ? #` is decoded exactly when it is `$&+,;=@` or a control with IRI off and a non-relative URI, or, unless IRI is off and the URI relative, unreserved, non-ASCII, or an unsafe printable of a non-relative URI; everything else stays escaped |
| PolicyProperties.UriEscapedDecodedSurrogate | mcs/class/System/System/UriHelper.cs:129-131 | under UriEscaped a decoded surrogate half is re-escaped as `%EF%BF%BD`, the escaped replacement character |
| Formatter.Scan | mcs/class/System/System/UriHelper.cs:104-121 | the loop appends, in input order, each literal character's formatted text and each decoded character's formatted text followed by its paired surrogate, resuming after the decoder's position |
| Formatter.Format | mcs/class/System/System/UriHelper.cs:96-124 | empty input gives empty output; otherwise the output is the scan of the input with FormatChar for the scheme that GetScheme gives for the name |
| FormatProperties.LiteralTextFormatsCharByChar | mcs/class/System/System/UriHelper.cs:106-121 | text without `%` never reaches the decoder and formats as the concatenation of FormatChar on each literal character, in order |
| FormatProperties.UnescapedFormatDecodes | mcs/class/System/System/UriHelper.cs:96-124 | outside Path, Unescaped output is exactly percent-decoding: each triplet sequence becomes its decoded character and surrogate, every other character stays |
| FormatProperties.VisibleFormatFrom | mcs/class/System/System/UriHelper.cs:106-121 | when every piece the per-character formatter writes is visible ASCII and the decoder reports no surrogate pair, the scan output is visible ASCII |
| FormatProperties.UriEscapedFormatIsVisibleAscii | mcs/class/System/System/UriHelper.cs:96-124 | unless the decoder reports a surrogate pair, UriEscaped output consists of visible ASCII only |
| FormatProperties.LastThreeLiterals | mcs/class/System/System/UriHelper.cs:106-121 | three trailing literal characters format as their three pieces in order |
| FormatProperties.HttpPathSpaceIsEscaped | mcs/class/System/System/UriHelper.cs:96-124 | an http path "a b" formats under UriEscaped as "a%20b" for every kind and IRI setting |
| FormatProperties.FtpPathQuestionMarkIsEscaped | mcs/class/System/System/UriHelper.cs:96-124 | an ftp path "a?b" formats under UriEscaped as "a%3Fb", since ftp has no query |
| FormatProperties.NetTcpPathBackslashIsSlash | mcs/class/System/System/UriHelper.cs:96-146 | a net.tcp path "x\y" formats as "x/y" in every format, kind and IRI setting |
| FormatProperties.FilePathDecodedSlash | mcs/class/System/System/UriHelper.cs:96-176 | a file path "%2Fetc" whose triplet decodes to `/` formats as "/etc" in every format, kind and IRI setting |

## Left out

- `Uri.HexUnescapeMultiByte` (line 110) is not part of this model. It is the
  parameter `decode`, which returns the decoded code unit, an optional low
  surrogate and the new position. Only `i < next <= |str|` is assumed of it.
  How it reads malformed triplets is not modelled.
- `Uri.IriParsing` (lines 9-11) is the explicit parameter `iri`. Its
  configuration and thread-safety are not modelled.
- `Encoding.UTF8.GetBytes` (line 76) is replaced by the model's own encoder
  for one code unit. A lone surrogate is encoded as EF BF BD (U+FFFD), the
  encoder's replacement fallback.
- `CultureInfo.InvariantCulture` conversions (lines 148, 154, 256): a
  character's string is the one-element sequence of that code unit, and
  `"...".Contains(cStr)` is membership in a set.
- `null` strings: a Dafny sequence cannot be null, so the `IsNullOrEmpty` test
  at line 99 is modelled by its empty-string half.
- The `[Flags]` bit arithmetic is modelled as set intersection. `All` (line 29)
  is never produced by `GetScheme` and is not modelled. The mask `& 0xf0 >> 4`
  and `& 0x0f` at line 78 are written as `/ 16` and `% 16` on a byte.
- The `Uri.UriScheme*` constants (lines 37-61) are written as their literal
  names ("http", ..., "net.pipe", "net.tcp", ..., "uuid").
- `UriComponents` values other than Path, Query and Fragment are one
  constructor, `OtherComponent`, since the class only compares against those
  three. Combined component masks are not modelled.
- Formatter.Scan: the `StringBuilder` is a sequence that the loop reassigns,
  and the source's `ref i` and `i--` are written as assigning the decoder's
  position less one before the increment.
