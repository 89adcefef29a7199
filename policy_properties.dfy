/** What the character policy promises, stated over all the inputs it reads:
    the character, whether it arrived literal or decoded, the scheme flag,
    the component, the URI kind, the format and the IRI flag. */
module PolicyProperties {
  import opened Text
  import opened Schemes
  import opened HexCodec
  import opened CharPolicy

  /** `%3F`, the escaped question mark. */
  const ESCAPED_QUESTION: seq<CodeUnit> := [PERCENT, '3' as CodeUnit, 'F' as CodeUnit]
  /** `%23`, the escaped number sign. */
  const ESCAPED_HASH: seq<CodeUnit> := [PERCENT, '2' as CodeUnit, '3' as CodeUnit]
  /** `%5C`, the escaped backslash. */
  const ESCAPED_BACKSLASH: seq<CodeUnit> := [PERCENT, '5' as CodeUnit, 'C' as CodeUnit]

  /** `%20`, the escaped space. */
  const ESCAPED_SPACE: seq<CodeUnit> := [PERCENT, '2' as CodeUnit, '0' as CodeUnit]

  lemma EscapedPunctuation()
    ensures HexEscaped(SPACE) == ESCAPED_SPACE
    ensures HexEscaped(QUESTION) == ESCAPED_QUESTION
    ensures HexEscaped(HASH) == ESCAPED_HASH
    ensures HexEscaped(BACKSLASH) == ESCAPED_BACKSLASH
  {
    AsciiEscape(SPACE);
    AsciiEscape(QUESTION);
    AsciiEscape(HASH);
    AsciiEscape(BACKSLASH);
  }

  /** Exactly one outcome per character: FormatChar writes triplets (more
      than one code unit) exactly when the rule for a literal character says
      escape, or the rule for a decoded one says do not unescape; otherwise
      it writes one code unit. */
  lemma EscapesExactlyWhenRulesSay(c: CodeUnit, isEscaped: bool, scheme: UriSchemes, uriKind: UriKind,
                                   component: Component, uriFormat: UriFormat, iri: bool)
    ensures var r := FormatChar(c, isEscaped, scheme, uriKind, component, uriFormat, iri);
      (|r| > 1 <==>
        if isEscaped then !NeedToUnescape(c, scheme, component, uriKind, uriFormat, iri)
        else NeedToEscape(c, scheme, component, uriKind, uriFormat, iri)) &&
      (|r| > 1 ==> r == HexEscaped(c)) && (|r| <= 1 ==> |r| == 1)
  {
  }

  /** Under Unescaped nothing is escaped and everything decoded is kept, so
      every character yields one character: itself, or a slash or backslash
      in place of a path backslash. */
  lemma UnescapedYieldsOneCharacter(c: CodeUnit, isEscaped: bool, scheme: UriSchemes, uriKind: UriKind,
                                    component: Component, iri: bool)
    ensures !NeedToEscape(c, scheme, component, uriKind, Unescaped, iri)
    ensures NeedToUnescape(c, scheme, component, uriKind, Unescaped, iri)
    ensures var r := FormatChar(c, isEscaped, scheme, uriKind, component, Unescaped, iri);
      r == [c] || (c == BACKSLASH && component == Path && r == [SLASH])
  {
  }

  /** A literal `?` is escaped exactly when the format is not Unescaped, the
      scheme has no query and the component is not the fragment; a decoded
      `?` in the path of a scheme with a query is re-escaped unless the
      format is Unescaped. */
  lemma QuestionMarkHandling(isEscaped: bool, scheme: UriSchemes, uriKind: UriKind, component: Component,
                             uriFormat: UriFormat, iri: bool)
    ensures !isEscaped ==>
      FormatChar(QUESTION, isEscaped, scheme, uriKind, component, uriFormat, iri)
      == if uriFormat != Unescaped && !SupportsQuery(scheme, iri) && component != Fragment
         then ESCAPED_QUESTION else [QUESTION]
    ensures isEscaped && component == Path && SupportsQuery(scheme, iri) ==>
      FormatChar(QUESTION, isEscaped, scheme, uriKind, component, uriFormat, iri)
      == if uriFormat == Unescaped then [QUESTION] else ESCAPED_QUESTION
  {
    EscapedPunctuation();
  }

  /** A decoded `#` is re-escaped in every format but Unescaped; a literal
      `#` is kept in the path and the query, and elsewhere escaped only under
      UriEscaped with IRI off. */
  lemma HashHandling(isEscaped: bool, scheme: UriSchemes, uriKind: UriKind, component: Component,
                     uriFormat: UriFormat, iri: bool)
    ensures isEscaped ==>
      FormatChar(HASH, isEscaped, scheme, uriKind, component, uriFormat, iri)
      == if uriFormat == Unescaped then [HASH] else ESCAPED_HASH
    ensures !isEscaped && (component == Path || component == Query) ==>
      FormatChar(HASH, isEscaped, scheme, uriKind, component, uriFormat, iri) == [HASH]
    ensures !isEscaped && component != Path && component != Query ==>
      FormatChar(HASH, isEscaped, scheme, uriKind, component, uriFormat, iri)
      == if !iri && uriFormat == UriEscaped then ESCAPED_HASH else [HASH]
  {
    EscapedPunctuation();
  }

  /** The literal characters UriEscaped escapes: controls and everything from
      DEL up, space and `"%<>^`{}|`; `[` and `]` only with IRI off; a
      backslash unless it is in the path of a scheme other than gopher,
      ldap, mailto, nntp and telnet. */
  lemma UriEscapedLiterals(c: CodeUnit, scheme: UriSchemes, uriKind: UriKind, component: Component, iri: bool)
    ensures c < 0x20 || c >= 0x7F ==> NeedToEscape(c, scheme, component, uriKind, UriEscaped, iri)
    ensures c in URI_ESCAPED_SET ==> NeedToEscape(c, scheme, component, uriKind, UriEscaped, iri)
    ensures c in BRACKETS ==> (NeedToEscape(c, scheme, component, uriKind, UriEscaped, iri) <==> !iri)
    ensures c == BACKSLASH ==>
      (NeedToEscape(c, scheme, component, uriKind, UriEscaped, iri) <==>
       component != Path || SchemeContains(scheme, {Gopher, Ldap, Mailto, Nntp, Telnet}))
    ensures IsAsciiAlphaNumeric(c) || c in MARKS || c == SLASH ==>
      !NeedToEscape(c, scheme, component, uriKind, UriEscaped, iri)
  {
  }

  /** For file, net.pipe and net.tcp a path backslash, literal or decoded,
      always becomes a slash. */
  lemma PathBackslashBecomesSlash(s: Scheme, isEscaped: bool, uriKind: UriKind, uriFormat: UriFormat, iri: bool)
    requires s in {File, NetPipe, NetTcp}
    ensures FormatChar(BACKSLASH, isEscaped, {s}, uriKind, Path, uriFormat, iri) == [SLASH]
  {
    ContainsSingleFlag(s, {File});
    ContainsSingleFlag(s, {Http, Https});
    ContainsSingleFlag(s, {Http, Https, Ftp, Custom});
    ContainsSingleFlag(s, {NetPipe, NetTcp});
    ContainsSingleFlag(s, {Gopher, Ldap, Mailto, Nntp, Telnet});
    ContainsSingleFlag(s, Decoders(iri));
  }

  /** A decoded backslash in an http or https path: with IRI off it becomes
      a slash in every format; with IRI on it is kept only by Unescaped and
      re-escaped by the other formats. */
  lemma HttpDecodedPathBackslash(s: Scheme, uriKind: UriKind, uriFormat: UriFormat, iri: bool)
    requires s in {Http, Https}
    ensures FormatChar(BACKSLASH, true, {s}, uriKind, Path, uriFormat, iri)
      == if !iri then [SLASH]
         else if uriFormat == Unescaped then [BACKSLASH]
         else ESCAPED_BACKSLASH
  {
    EscapedPunctuation();
    ContainsSingleFlag(s, {File});
    ContainsSingleFlag(s, {Http, Https});
    ContainsSingleFlag(s, {Gopher, Ldap, Mailto, Nntp, Telnet});
    ContainsSingleFlag(s, Decoders(iri));
  }

  /** The escape and unescape rules agree for every character but the
      backslash: a character a format escapes when literal is not unescaped
      by it when it arrives decoded. */
  lemma EscapeAndUnescapeAgree(c: CodeUnit, scheme: UriSchemes, uriKind: UriKind, component: Component,
                               uriFormat: UriFormat, iri: bool)
    requires c != BACKSLASH
    requires NeedToEscape(c, scheme, component, uriKind, uriFormat, iri)
    ensures !NeedToUnescape(c, scheme, component, uriKind, uriFormat, iri)
  {
  }

  /** The backslash is the exception: in a file query under UriEscaped with
      IRI off a literal backslash is escaped, yet `%5C` is decoded to it. */
  lemma BackslashEscapedYetUnescaped(uriKind: UriKind)
    ensures NeedToEscape(BACKSLASH, {File}, Query, uriKind, UriEscaped, false)
    ensures NeedToUnescape(BACKSLASH, {File}, Query, uriKind, UriEscaped, false)
    ensures FormatChar(BACKSLASH, false, {File}, uriKind, Query, UriEscaped, false) == ESCAPED_BACKSLASH
    ensures FormatChar(BACKSLASH, true, {File}, uriKind, Query, UriEscaped, false) == [BACKSLASH]
  {
    EscapedPunctuation();
    ContainsSingleFlag(File, {File});
  }

  /** What FormatChar writes stands for the character it was given: triplets
      that decode back to it (a lone surrogate to U+FFFD), the character
      itself, or a slash for a path backslash. */
  lemma FormatCharPreservesCharacter(c: CodeUnit, isEscaped: bool, scheme: UriSchemes, uriKind: UriKind,
                                     component: Component, uriFormat: UriFormat, iri: bool)
    ensures var r := FormatChar(c, isEscaped, scheme, uriKind, component, uriFormat, iri);
      if |r| > 1 then DecodeEscaped(r) == Some(if IsSurrogate(c) then REPLACEMENT else c)
      else r == [c] || (c == BACKSLASH && component == Path && r == [SLASH])
  {
    HexEscapedRoundTrip(c);
  }

  /** Everything UriEscaped writes for one character is visible ASCII. */
  lemma UriEscapedIsVisibleAscii(c: CodeUnit, isEscaped: bool, scheme: UriSchemes, uriKind: UriKind,
                                 component: Component, iri: bool)
    ensures forall k :: 0 <= k < |FormatChar(c, isEscaped, scheme, uriKind, component, UriEscaped, iri)| ==>
      IsVisibleAscii(FormatChar(c, isEscaped, scheme, uriKind, component, UriEscaped, iri)[k])
  {
  }

  /** The IRI flag changes what UriEscaped does with brackets. */
  lemma IriChangesBrackets(scheme: UriSchemes, uriKind: UriKind, component: Component)
    ensures FormatChar('[' as CodeUnit, false, scheme, uriKind, component, UriEscaped, true) == ['[' as CodeUnit]
    ensures FormatChar('[' as CodeUnit, false, scheme, uriKind, component, UriEscaped, false)
      == [PERCENT, '5' as CodeUnit, 'B' as CodeUnit]
    ensures FormatChar(']' as CodeUnit, false, scheme, uriKind, component, UriEscaped, true) == [']' as CodeUnit]
    ensures FormatChar(']' as CodeUnit, false, scheme, uriKind, component, UriEscaped, false)
      == [PERCENT, '5' as CodeUnit, 'D' as CodeUnit]
  {
    AsciiEscape('[' as CodeUnit);
    AsciiEscape(']' as CodeUnit);
  }

  /** A literal unreserved character (section 2.3 of RFC 3986) is kept as it
      is by every format, scheme, component, URI kind and IRI setting. */
  lemma UnreservedLiteralIsKept(c: CodeUnit, scheme: UriSchemes, uriKind: UriKind, component: Component,
                                uriFormat: UriFormat, iri: bool)
    requires IsAsciiAlphaNumeric(c) || c in MARKS
    ensures FormatChar(c, false, scheme, uriKind, component, uriFormat, iri) == [c]
  {
  }

  // ---------------------------------------------------------------------------
  // The escape rule, one format at a time

  /** SafeUnescaped escapes a literal `?` that could open a query, a `%`
      unless the URI is relative, and the control characters. */
  lemma SafeUnescapedEscapes(c: CodeUnit, scheme: UriSchemes, component: Component, uriKind: UriKind, iri: bool)
    ensures NeedToEscape(c, scheme, component, uriKind, SafeUnescaped, iri) <==>
      (c == QUESTION && !SupportsQuery(scheme, iri) && component != Fragment) ||
      (c == PERCENT && uriKind != Relative) || IsControl(c)
  {
  }

  /** The internal ToStringUnescape format escapes only a literal `?` that
      could open a query and a `%` unless the URI is relative. */
  lemma ToStringUnescapeEscapes(c: CodeUnit, scheme: UriSchemes, component: Component, uriKind: UriKind, iri: bool)
    ensures NeedToEscape(c, scheme, component, uriKind, ToStringUnescape, iri) <==>
      (c == QUESTION && !SupportsQuery(scheme, iri) && component != Fragment) ||
      (c == PERCENT && uriKind != Relative)
  {
  }

  // ---------------------------------------------------------------------------
  // The unescape rule, one character class at a time

  /** A decoded `/` or `\` outside the Unescaped format: ToStringUnescape
      of an absolute URI with IRI off decodes it; otherwise file decodes it
      outside the fragment (and outside the query in IRI mode), and the
      decoding schemes (net.pipe, net.tcp, and http and https with IRI off)
      decode it in the path and other components. */
  lemma DecodedSlashUnescaped(c: CodeUnit, scheme: UriSchemes, component: Component, uriKind: UriKind,
                              uriFormat: UriFormat, iri: bool)
    requires c == SLASH || c == BACKSLASH
    requires uriFormat != Unescaped
    ensures NeedToUnescape(c, scheme, component, uriKind, uriFormat, iri) <==>
      (!iri && uriKind == Absolute && uriFormat == ToStringUnescape) ||
      (if SchemeContains(scheme, {File}) then component != Fragment && (component != Query || !iri)
       else component != Query && component != Fragment && SchemeContains(scheme, Decoders(iri)))
  {
  }

  /** A decoded `?` outside the Unescaped format is decoded only by
      ToStringUnescape with IRI off: in the query or fragment of a scheme
      with a query, except in its path, and in the fragment of any other
      scheme. */
  lemma DecodedQuestionMarkUnescaped(scheme: UriSchemes, component: Component, uriKind: UriKind,
                                     uriFormat: UriFormat, iri: bool)
    requires uriFormat != Unescaped
    ensures NeedToUnescape(QUESTION, scheme, component, uriKind, uriFormat, iri) <==>
      !iri && uriFormat == ToStringUnescape &&
      (if SupportsQuery(scheme, iri) then component == Query || component == Fragment
       else component == Fragment)
  {
  }

  /** ToStringUnescape with IRI off decodes nothing of a relative URI (apart
      from slashes and `?`), and decodes `$&+,;=@` and the control
      characters of any other URI. */
  lemma ToStringUnescapeLegacy(c: CodeUnit, scheme: UriSchemes, component: Component, uriKind: UriKind)
    requires c != SLASH && c != BACKSLASH && c != QUESTION && c != HASH
    ensures uriKind == Relative ==> !NeedToUnescape(c, scheme, component, uriKind, ToStringUnescape, false)
    ensures c in LEGACY_RESERVED || IsControl(c) ==>
      (NeedToUnescape(c, scheme, component, uriKind, ToStringUnescape, false) <==> uriKind != Relative)
  {
  }

  /** SafeUnescaped decodes exactly the unreserved characters, the non-ASCII
      ones, and (unless the URI is relative) the printable characters that
      are unsafe to carry literally. ToStringUnescape treats the unsafe
      printable ones the same way. */
  lemma SafeUnescapedUnescapes(c: CodeUnit, scheme: UriSchemes, component: Component, uriKind: UriKind, iri: bool)
    requires c != SLASH && c != BACKSLASH && c != QUESTION && c != HASH
    ensures NeedToUnescape(c, scheme, component, uriKind, SafeUnescaped, iri) <==>
      c in MARKS || IsAsciiAlphaNumeric(c) || c > 0x7F || (c in UNSAFE_PRINTABLE && uriKind != Relative)
    ensures c in UNSAFE_PRINTABLE ==>
      (NeedToUnescape(c, scheme, component, uriKind, ToStringUnescape, iri) <==> uriKind != Relative)
  {
  }

  /** UriEscaped with IRI off decodes (slashes aside) only a `.`, where a
      slash would be decoded; in IRI mode it decodes exactly the unreserved
      characters. */
  lemma UriEscapedUnescapes(c: CodeUnit, scheme: UriSchemes, component: Component, uriKind: UriKind, iri: bool)
    requires c != SLASH && c != BACKSLASH && c != QUESTION && c != HASH
    ensures NeedToUnescape(c, scheme, component, uriKind, UriEscaped, iri) <==>
      if !iri then
        c == DOT &&
        (if SchemeContains(scheme, {File}) then component != Fragment
         else component != Query && component != Fragment && SchemeContains(scheme, Decoders(iri)))
      else c in MARKS || IsAsciiAlphaNumeric(c)
  {
  }

  // ---------------------------------------------------------------------------
  // The path backslash, scheme by scheme

  /** A literal backslash in a path: gopher, ldap, mailto, nntp and telnet
      escape it under UriEscaped; http, https, ftp, custom schemes, net.pipe,
      net.tcp and file turn it into a slash; news, uuid and no scheme at all
      keep it. */
  lemma LiteralPathBackslash(s: Scheme, uriKind: UriKind, uriFormat: UriFormat, iri: bool)
    ensures FormatChar(BACKSLASH, false, {s}, uriKind, Path, uriFormat, iri)
      == if uriFormat == UriEscaped && s in {Gopher, Ldap, Mailto, Nntp, Telnet} then ESCAPED_BACKSLASH
         else if s in {Http, Https, Ftp, Custom, NetPipe, NetTcp, File} then [SLASH]
         else [BACKSLASH]
  {
    EscapedPunctuation();
    ContainsSingleFlag(s, {File});
    ContainsSingleFlag(s, {Http, Https});
    ContainsSingleFlag(s, {Http, Https, Ftp, Custom});
    ContainsSingleFlag(s, {NetPipe, NetTcp});
    ContainsSingleFlag(s, {Gopher, Ldap, Mailto, Nntp, Telnet});
  }

  /** Without a scheme a path backslash is never turned into a slash: a
      literal one is kept, and a decoded one is kept where it is decoded at
      all (Unescaped, and ToStringUnescape of an absolute URI with IRI off)
      and re-escaped elsewhere. */
  lemma NoSchemePathBackslash(uriKind: UriKind, uriFormat: UriFormat, iri: bool)
    ensures FormatChar(BACKSLASH, false, {}, uriKind, Path, uriFormat, iri) == [BACKSLASH]
    ensures FormatChar(BACKSLASH, true, {}, uriKind, Path, uriFormat, iri)
      == if uriFormat == Unescaped || (!iri && uriKind == Absolute && uriFormat == ToStringUnescape)
         then [BACKSLASH] else ESCAPED_BACKSLASH
  {
    EscapedPunctuation();
    assert {} * {Http, Https} == {} && {} * {Http, Https, Ftp, Custom} == {};
    assert {} * {NetPipe, NetTcp} == {} && {} * {File} == {};
    assert {} * {Gopher, Ldap, Mailto, Nntp, Telnet} == {} && {} * Decoders(iri) == {};
  }

  /** A decoded backslash in a path is re-escaped unless the format is
      Unescaped, ToStringUnescape of an absolute URI with IRI off, or the
      scheme decodes slashes (file, net.pipe, net.tcp, and http and https
      with IRI off). Decoded, it becomes a slash for http and https with IRI
      off outside UriEscaped, and for net.pipe, net.tcp and file; ftp, custom
      schemes and http and https otherwise keep it except under UriEscaped;
      the other schemes keep it. */
  lemma DecodedPathBackslash(s: Scheme, uriKind: UriKind, uriFormat: UriFormat, iri: bool)
    ensures FormatChar(BACKSLASH, true, {s}, uriKind, Path, uriFormat, iri)
      == if !(uriFormat == Unescaped || (!iri && uriKind == Absolute && uriFormat == ToStringUnescape) ||
              s in {File, NetPipe, NetTcp} || (!iri && s in {Http, Https}))
         then ESCAPED_BACKSLASH
         else if s in {Http, Https} && !iri && uriFormat != UriEscaped then [SLASH]
         else if s in {Http, Https, Ftp, Custom} then (if uriFormat != UriEscaped then [BACKSLASH] else [SLASH])
         else if s in {NetPipe, NetTcp, File} then [SLASH]
         else [BACKSLASH]
  {
    EscapedPunctuation();
    ContainsSingleFlag(s, {File});
    ContainsSingleFlag(s, {Http, Https});
    ContainsSingleFlag(s, {Http, Https, Ftp, Custom});
    ContainsSingleFlag(s, {NetPipe, NetTcp});
    ContainsSingleFlag(s, Decoders(iri));
  }

  /** UriEscaped escapes a literal character exactly for the `?` and `#`
      rules, the controls and non-ASCII code units, space and `"%<>^`{}|`,
      brackets with IRI off, and a backslash outside the path or for gopher,
      ldap, mailto, nntp and telnet; every other literal character is kept. */
  lemma UriEscapedEscapesExactly(c: CodeUnit, scheme: UriSchemes, component: Component, uriKind: UriKind, iri: bool)
    ensures NeedToEscape(c, scheme, component, uriKind, UriEscaped, iri) <==>
      (c == QUESTION && !SupportsQuery(scheme, iri) && component != Fragment) ||
      (c == HASH && component != Path && component != Query && !iri) ||
      c < 0x20 || c >= 0x7F || c in URI_ESCAPED_SET || (c in BRACKETS && !iri) ||
      (c == BACKSLASH && (component != Path || SchemeContains(scheme, {Gopher, Ldap, Mailto, Nntp, Telnet})))
  {
  }

  /** ToStringUnescape decodes (slashes, `?` and `#` aside) `$&+,;=@` and the
      controls only with IRI off for a non-relative URI, and the unreserved
      characters, non-ASCII code units and (for a non-relative URI) the unsafe
      printable characters unless IRI is off and the URI is relative;
      everything else stays escaped. */
  lemma ToStringUnescapeUnescapes(c: CodeUnit, scheme: UriSchemes, component: Component, uriKind: UriKind, iri: bool)
    requires c != SLASH && c != BACKSLASH && c != QUESTION && c != HASH
    ensures NeedToUnescape(c, scheme, component, uriKind, ToStringUnescape, iri) <==>
      (!iri && uriKind != Relative && (c in LEGACY_RESERVED || IsControl(c))) ||
      ((iri || uriKind != Relative) &&
       (c in MARKS || IsAsciiAlphaNumeric(c) || c > 0x7F || (c in UNSAFE_PRINTABLE && uriKind != Relative)))
  {
  }

  /** `%EF%BF%BD`, the escaped replacement character U+FFFD. */
  const ESCAPED_REPLACEMENT: seq<CodeUnit> :=
    [PERCENT, 'E' as CodeUnit, 'F' as CodeUnit, PERCENT, 'B' as CodeUnit, 'F' as CodeUnit,
     PERCENT, 'B' as CodeUnit, 'D' as CodeUnit]

  /** A decoded surrogate half (the high half the decoder returns for a code
      point above U+FFFF) is never decoded under UriEscaped: it is re-escaped,
      and since it cannot be encoded on its own, as the escaped replacement
      character. */
  lemma UriEscapedDecodedSurrogate(c: CodeUnit, scheme: UriSchemes, uriKind: UriKind, component: Component,
                                   iri: bool)
    requires IsSurrogate(c)
    ensures FormatChar(c, true, scheme, uriKind, component, UriEscaped, iri) == ESCAPED_REPLACEMENT
  {
    assert Utf8Bytes(c) == [0xEF, 0xBF, 0xBD];
    assert EscapeBytes([0xBD]) == Triplet(0xBD);
    assert EscapeBytes([0xBF, 0xBD]) == Triplet(0xBF) + Triplet(0xBD);
  }
}
