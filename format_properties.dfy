/** Properties of whole-string formatting: how the output of Format is put
    together from the per-character decisions, and what it looks like for
    the Unescaped and UriEscaped formats. */
module FormatProperties {
  import opened Text
  import opened Schemes
  import opened HexCodec
  import opened CharPolicy
  import opened Formatter
  import opened PolicyProperties

  /** The formatted text of characters that all arrived literally. */
  function FormatLiterals(s: seq<CodeUnit>, formatChar: CharFormatter): seq<CodeUnit> {
    if s == [] then [] else formatChar(s[0], false) + FormatLiterals(s[1..], formatChar)
  }

  /** Text without a `%` never reaches the decoder: it is formatted one
      literal character at a time, in order. */
  lemma {:induction false} LiteralTextFormatsCharByChar(str: seq<CodeUnit>, i: nat, formatChar: CharFormatter,
                                                         decode: Decoder)
    requires i <= |str| && DecoderAdvances(decode, str)
    requires forall k :: i <= k < |str| ==> str[k] != PERCENT
    ensures FormatFrom(str, i, formatChar, decode) == FormatLiterals(str[i..], formatChar)
    decreases |str| - i
  {
    if i < |str| {
      LiteralTextFormatsCharByChar(str, i + 1, formatChar, decode);
      assert str[i..][1..] == str[i + 1..];
    }
  }

  /** Plain percent-decoding of `str[i..]`: each triplet sequence becomes
      the decoder's code unit and paired surrogate, every other character
      stays. */
  function DecodedFrom(str: seq<CodeUnit>, i: nat, decode: Decoder): seq<CodeUnit>
    requires i <= |str| && DecoderAdvances(decode, str)
    decreases |str| - i
  {
    if i == |str| then []
    else if str[i] == PERCENT then
      var d := decode(str, i);
      [d.ch] + SurrogateText(d) + DecodedFrom(str, d.next, decode)
    else
      [str[i]] + DecodedFrom(str, i + 1, decode)
  }

  /** Outside the Path component the Unescaped format is exactly
      percent-decoding: nothing is escaped and no backslash is rewritten. */
  lemma {:induction false} UnescapedFormatDecodes(str: seq<CodeUnit>, i: nat, scheme: UriSchemes, uriKind: UriKind,
                                                  component: Component, iri: bool, decode: Decoder)
    requires i <= |str| && DecoderAdvances(decode, str)
    requires component != Path
    ensures FormatFrom(str, i, FormatCharWith(scheme, uriKind, component, Unescaped, iri), decode)
         == DecodedFrom(str, i, decode)
    decreases |str| - i
  {
    if i < |str| {
      var formatChar := FormatCharWith(scheme, uriKind, component, Unescaped, iri);
      if str[i] == PERCENT {
        var d := decode(str, i);
        UnescapedYieldsOneCharacter(d.ch, true, scheme, uriKind, component, iri);
        assert formatChar(d.ch, true) == [d.ch];
        UnescapedFormatDecodes(str, d.next, scheme, uriKind, component, iri, decode);
      } else {
        UnescapedYieldsOneCharacter(str[i], false, scheme, uriKind, component, iri);
        assert formatChar(str[i], false) == [str[i]];
        UnescapedFormatDecodes(str, i + 1, scheme, uriKind, component, iri, decode);
      }
    }
  }

  /** The decoder never reports a surrogate pair for this string. */
  predicate NoSurrogatePairs(decode: Decoder, str: seq<CodeUnit>) {
    forall i :: 0 <= i < |str| && str[i] == PERCENT ==> decode(str, i).surrogate.None?
  }

  predicate AllVisibleAscii(s: seq<CodeUnit>) {
    forall k :: 0 <= k < |s| ==> IsVisibleAscii(s[k])
  }

  /** A formatter whose every piece is visible ASCII yields visible ASCII
      output for a string without surrogate pairs. */
  lemma {:induction false} VisibleFormatFrom(str: seq<CodeUnit>, i: nat, formatChar: CharFormatter, decode: Decoder)
    requires i <= |str| && DecoderAdvances(decode, str) && NoSurrogatePairs(decode, str)
    requires forall x, isEscaped :: AllVisibleAscii(formatChar(x, isEscaped))
    ensures AllVisibleAscii(FormatFrom(str, i, formatChar, decode))
    decreases |str| - i
  {
    if i < |str| {
      if str[i] == PERCENT {
        var d := decode(str, i);
        VisibleFormatFrom(str, d.next, formatChar, decode);
        assert FormatFrom(str, i, formatChar, decode)
            == formatChar(d.ch, true) + FormatFrom(str, d.next, formatChar, decode);
      } else {
        VisibleFormatFrom(str, i + 1, formatChar, decode);
      }
    }
  }

  /** Unless the decoder hands back a surrogate pair, which is appended
      unformatted, UriEscaped output consists of visible ASCII only. */
  lemma UriEscapedFormatIsVisibleAscii(str: seq<CodeUnit>, scheme: UriSchemes, uriKind: UriKind,
                                       component: Component, iri: bool, decode: Decoder)
    requires DecoderAdvances(decode, str) && NoSurrogatePairs(decode, str)
    ensures AllVisibleAscii(FormatFrom(str, 0, FormatCharWith(scheme, uriKind, component, UriEscaped, iri), decode))
  {
    var formatChar := FormatCharWith(scheme, uriKind, component, UriEscaped, iri);
    forall x, isEscaped ensures AllVisibleAscii(formatChar(x, isEscaped)) {
      UriEscapedIsVisibleAscii(x, isEscaped, scheme, uriKind, component, iri);
    }
    VisibleFormatFrom(str, 0, formatChar, decode);
  }

  /** The last three characters, all literal, format as their three pieces
      in order. */
  lemma LastThreeLiterals(str: seq<CodeUnit>, i: nat, formatChar: CharFormatter, decode: Decoder)
    requires |str| == i + 3 && DecoderAdvances(decode, str)
    requires str[i] != PERCENT && str[i + 1] != PERCENT && str[i + 2] != PERCENT
    ensures FormatFrom(str, i, formatChar, decode)
         == formatChar(str[i], false) + formatChar(str[i + 1], false) + formatChar(str[i + 2], false)
  {
    assert FormatFrom(str, i + 2, formatChar, decode) == formatChar(str[i + 2], false);
    assert FormatFrom(str, i + 1, formatChar, decode)
        == formatChar(str[i + 1], false) + formatChar(str[i + 2], false);
  }

  /** A space in an http path is escaped under UriEscaped, whatever the URI
      kind and IRI setting: "a b" becomes "a%20b". */
  lemma HttpPathSpaceIsEscaped(decode: Decoder, uriKind: UriKind, iri: bool)
    ensures var str := ['a' as CodeUnit, SPACE, 'b' as CodeUnit];
      DecoderAdvances(decode, str) &&
      FormatFrom(str, 0, FormatCharWith(GetScheme("http"), uriKind, Path, UriEscaped, iri), decode)
      == ['a' as CodeUnit] + ESCAPED_SPACE + ['b' as CodeUnit]
  {
    var str := ['a' as CodeUnit, SPACE, 'b' as CodeUnit];
    GetSchemeOfCanonicalName("http", Http);
    var formatChar := FormatCharWith({Http}, uriKind, Path, UriEscaped, iri);
    assert DecoderAdvances(decode, str);
    LastThreeLiterals(str, 0, formatChar, decode);
    UnreservedLiteralIsKept(str[0], {Http}, uriKind, Path, UriEscaped, iri);
    UnreservedLiteralIsKept(str[2], {Http}, uriKind, Path, UriEscaped, iri);
    UriEscapedLiterals(SPACE, {Http}, uriKind, Path, iri);
    EscapesExactlyWhenRulesSay(SPACE, false, {Http}, uriKind, Path, UriEscaped, iri);
    EscapedPunctuation();
    assert formatChar(str[0], false) == [str[0]];
    assert formatChar(str[1], false) == ESCAPED_SPACE;
    assert formatChar(str[2], false) == [str[2]];
  }

  /** ftp does not support a query, so a literal `?` in its path is escaped:
      "a?b" becomes "a%3Fb". */
  lemma FtpPathQuestionMarkIsEscaped(decode: Decoder, uriKind: UriKind, iri: bool)
    ensures var str := ['a' as CodeUnit, QUESTION, 'b' as CodeUnit];
      DecoderAdvances(decode, str) &&
      FormatFrom(str, 0, FormatCharWith(GetScheme("ftp"), uriKind, Path, UriEscaped, iri), decode)
      == ['a' as CodeUnit] + ESCAPED_QUESTION + ['b' as CodeUnit]
  {
    var str := ['a' as CodeUnit, QUESTION, 'b' as CodeUnit];
    GetSchemeOfCanonicalName("ftp", Ftp);
    var formatChar := FormatCharWith({Ftp}, uriKind, Path, UriEscaped, iri);
    assert DecoderAdvances(decode, str);
    LastThreeLiterals(str, 0, formatChar, decode);
    UnreservedLiteralIsKept(str[0], {Ftp}, uriKind, Path, UriEscaped, iri);
    UnreservedLiteralIsKept(str[2], {Ftp}, uriKind, Path, UriEscaped, iri);
    ContainsSingleFlag(Ftp, {File});
    ContainsSingleFlag(Ftp, {Ftp, Gopher, Nntp, Telnet});
    QuestionMarkHandling(false, {Ftp}, uriKind, Path, UriEscaped, iri);
    assert formatChar(str[0], false) == [str[0]];
    assert formatChar(str[1], false) == ESCAPED_QUESTION;
    assert formatChar(str[2], false) == [str[2]];
  }

  /** In a net.tcp path a backslash becomes a slash whatever the format, URI
      kind and IRI setting: "x\\y" becomes "x/y". */
  lemma NetTcpPathBackslashIsSlash(decode: Decoder, uriKind: UriKind, uriFormat: UriFormat, iri: bool)
    ensures var str := ['x' as CodeUnit, BACKSLASH, 'y' as CodeUnit];
      DecoderAdvances(decode, str) &&
      FormatFrom(str, 0, FormatCharWith(GetScheme("net.tcp"), uriKind, Path, uriFormat, iri), decode)
      == ['x' as CodeUnit, SLASH, 'y' as CodeUnit]
  {
    var str := ['x' as CodeUnit, BACKSLASH, 'y' as CodeUnit];
    GetSchemeOfCanonicalName("net.tcp", NetTcp);
    var formatChar := FormatCharWith({NetTcp}, uriKind, Path, uriFormat, iri);
    assert DecoderAdvances(decode, str);
    LastThreeLiterals(str, 0, formatChar, decode);
    UnreservedLiteralIsKept(str[0], {NetTcp}, uriKind, Path, uriFormat, iri);
    UnreservedLiteralIsKept(str[2], {NetTcp}, uriKind, Path, uriFormat, iri);
    PathBackslashBecomesSlash(NetTcp, false, uriKind, uriFormat, iri);
    assert formatChar(str[0], false) == [str[0]];
    assert formatChar(str[1], false) == [SLASH];
    assert formatChar(str[2], false) == [str[2]];
  }

  /** A decoded slash in a file path stays decoded in every format: "%2Fetc",
      whose triplet decodes to `/`, becomes "/etc". */
  lemma FilePathDecodedSlash(decode: Decoder, uriKind: UriKind, uriFormat: UriFormat, iri: bool)
    requires decode([PERCENT, '2' as CodeUnit, 'F' as CodeUnit, 'e' as CodeUnit, 't' as CodeUnit,
                     'c' as CodeUnit], 0) == Decoded(SLASH, None, 3)
    ensures var str := [PERCENT, '2' as CodeUnit, 'F' as CodeUnit, 'e' as CodeUnit, 't' as CodeUnit,
                        'c' as CodeUnit];
      DecoderAdvances(decode, str) &&
      FormatFrom(str, 0, FormatCharWith(GetScheme("file"), uriKind, Path, uriFormat, iri), decode)
      == [SLASH, 'e' as CodeUnit, 't' as CodeUnit, 'c' as CodeUnit]
  {
    var str := [PERCENT, '2' as CodeUnit, 'F' as CodeUnit, 'e' as CodeUnit, 't' as CodeUnit,
                'c' as CodeUnit];
    GetSchemeOfCanonicalName("file", File);
    var formatChar := FormatCharWith({File}, uriKind, Path, uriFormat, iri);
    assert DecoderAdvances(decode, str) by {
      forall k | 0 <= k < |str| && str[k] == PERCENT ensures k < decode(str, k).next <= |str| {
        assert k == 0;
      }
    }
    LastThreeLiterals(str, 3, formatChar, decode);
    UnreservedLiteralIsKept(str[3], {File}, uriKind, Path, uriFormat, iri);
    UnreservedLiteralIsKept(str[4], {File}, uriKind, Path, uriFormat, iri);
    UnreservedLiteralIsKept(str[5], {File}, uriKind, Path, uriFormat, iri);
    ContainsSingleFlag(File, {File});
    assert formatChar(SLASH, true) == [SLASH];
    assert formatChar(str[3], false) == [str[3]];
    assert formatChar(str[4], false) == [str[4]];
    assert formatChar(str[5], false) == [str[5]];
  }
}
