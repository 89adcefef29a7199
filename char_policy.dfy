/** The per-character policy (UriHelper.NeedToEscape, NeedToUnescape and
    FormatChar): first-match-wins rule cascades that decide, for one code
    unit, whether it is written as percent-encoded triplets, written
    literally, or replaced by a path separator. */
module CharPolicy {
  import opened Text
  import opened Schemes
  import opened HexCodec

  /** The part of a URI a character belongs to; the rules only single out
      the path, the query and the fragment. */
  datatype Component = Path | Query | Fragment | OtherComponent

  datatype UriKind = RelativeOrAbsolute | Absolute | Relative

  /** The three public formats and the internal `ToStringUnescape` (0x7FFF)
      used when a URI is rendered for display. */
  datatype UriFormat = UriEscaped | Unescaped | SafeUnescaped | ToStringUnescape

  // ---------------------------------------------------------------------------
  // Character sets of the rules

  /** Written as triplets by UriEscaped: space and `"%<>^`{}|`. */
  const URI_ESCAPED_SET: set<CodeUnit> :=
    {' ' as CodeUnit, '"' as CodeUnit, '%' as CodeUnit, '<' as CodeUnit, '>' as CodeUnit,
     '^' as CodeUnit, '`' as CodeUnit, '{' as CodeUnit, '}' as CodeUnit, '|' as CodeUnit}

  const BRACKETS: set<CodeUnit> := {'[' as CodeUnit, ']' as CodeUnit}

  /** The RFC 2396 reserved characters `$&+,;=@` (a subset of the sub-delims
      and gen-delims of section 2.2 of RFC 3986). */
  const LEGACY_RESERVED: set<CodeUnit> :=
    {'$' as CodeUnit, '&' as CodeUnit, '+' as CodeUnit, ',' as CodeUnit,
     ';' as CodeUnit, '=' as CodeUnit, '@' as CodeUnit}

  /** The punctuation of the unreserved set, section 2.3 of RFC 3986. */
  const MARKS: set<CodeUnit> := {'-' as CodeUnit, '.' as CodeUnit, '_' as CodeUnit, '~' as CodeUnit}

  /** Printable characters a display string may show although a URI may not
      carry them literally: ` !"'()*:<>[]^`{}|`. */
  const UNSAFE_PRINTABLE: set<CodeUnit> :=
    {' ' as CodeUnit, '!' as CodeUnit, '"' as CodeUnit, '\'' as CodeUnit, '(' as CodeUnit,
     ')' as CodeUnit, '*' as CodeUnit, ':' as CodeUnit, '<' as CodeUnit, '>' as CodeUnit,
     '[' as CodeUnit, ']' as CodeUnit, '^' as CodeUnit, '`' as CodeUnit, '{' as CodeUnit,
     '}' as CodeUnit, '|' as CodeUnit}

  predicate IsControl(c: CodeUnit) {
    c < 0x20 || c == 0x7F
  }

  /** Schemes whose encoded slashes and dots are decoded. */
  function Decoders(iri: bool): UriSchemes {
    if iri then {NetPipe, NetTcp} else {NetPipe, NetTcp, Http, Https}
  }

  // ---------------------------------------------------------------------------
  // The three rules

  /** Whether a literal character must be written percent-encoded. */
  function NeedToEscape(c: CodeUnit, scheme: UriSchemes, component: Component, uriKind: UriKind,
                        uriFormat: UriFormat, iri: bool): (r: bool)
    ensures uriFormat == Unescaped ==> !r
    ensures c == QUESTION ==>
      (r <==> uriFormat != Unescaped && !SupportsQuery(scheme, iri) && component != Fragment)
    ensures c == HASH ==>
      (r <==> component != Path && component != Query && !iri && uriFormat == UriEscaped)
    ensures uriFormat == ToStringUnescape ==> (r ==> c == QUESTION || c == PERCENT)
    ensures uriFormat == UriEscaped && c != QUESTION && c != HASH ==>
      (c < 0x20 || c >= 0x7F || c in URI_ESCAPED_SET || (c in BRACKETS && !iri) ==> r)
  {
    if c == QUESTION then
      if uriFormat == Unescaped then false
      else if !SupportsQuery(scheme, iri) then component != Fragment
      // a literal `?` in the path is kept: it may start the query
      else if component == Path then false
      else false
    else if c == HASH then
      // a literal `#` in the path or query is kept: it may start the fragment
      if component == Path || component == Query then false
      else !iri && uriFormat == UriEscaped
    else if (uriFormat == SafeUnescaped || uriFormat == ToStringUnescape) && c == PERCENT then
      uriKind != Relative
    else if uriFormat == SafeUnescaped && IsControl(c) then
      true
    else if uriFormat == UriEscaped then
      if c < 0x20 || c >= 0x7F then true
      else if c in URI_ESCAPED_SET then true
      else if c in BRACKETS then !iri
      else if c == BACKSLASH then
        component != Path || SchemeContains(scheme, {Gopher, Ldap, Mailto, Nntp, Telnet})
      else false
    else
      false
  }

  /** Whether a character decoded from a triplet is written literally rather
      than as triplets again. */
  function NeedToUnescape(c: CodeUnit, scheme: UriSchemes, component: Component, uriKind: UriKind,
                          uriFormat: UriFormat, iri: bool): (r: bool)
    ensures uriFormat == Unescaped ==> r
    ensures c == HASH ==> (r <==> uriFormat == Unescaped)
    ensures c == QUESTION && component == Path && SupportsQuery(scheme, iri) ==> (r <==> uriFormat == Unescaped)
    ensures uriFormat == UriEscaped && r ==>
      c == SLASH || c == BACKSLASH || c in MARKS || IsAsciiAlphaNumeric(c)
    ensures uriFormat == SafeUnescaped && c != SLASH && c != BACKSLASH && c != QUESTION && c != HASH ==>
      (c in MARKS || IsAsciiAlphaNumeric(c) || c > 0x7F ==> r)
  {
    if uriFormat == Unescaped then true
    else if c == SLASH || c == BACKSLASH then
      if !iri && uriKind == Absolute && uriFormat != UriEscaped && uriFormat != SafeUnescaped then true
      else if SchemeContains(scheme, {File}) then
        component != Fragment && (component != Query || !iri)
      else
        component != Query && component != Fragment && SchemeContains(scheme, Decoders(iri))
    else if c == QUESTION then
      // a decoded `?` in the path would start a query
      if SupportsQuery(scheme, iri) && component == Path then false
      else if !iri && uriFormat == ToStringUnescape then
        if SupportsQuery(scheme, iri) then component == Query || component == Fragment
        else component == Fragment
      else false
    else if c == HASH then
      // a decoded `#` would start a fragment
      if component == Path || component == Query then false
      else false
    else if uriFormat == ToStringUnescape && !iri && uriKind == Relative then
      false
    else if uriFormat == ToStringUnescape && !iri && (c in LEGACY_RESERVED || IsControl(c)) then
      true
    else if uriFormat == SafeUnescaped || uriFormat == ToStringUnescape then
      if c in MARKS then true
      else if c in UNSAFE_PRINTABLE then uriKind != Relative
      else if IsAsciiAlphaNumeric(c) then true
      else c > 0x7F
    else if uriFormat == UriEscaped then
      if !iri then
        if c == DOT then
          if SchemeContains(scheme, {File}) then component != Fragment
          else component != Query && component != Fragment && SchemeContains(scheme, Decoders(iri))
        else false
      else
        c in MARKS || IsAsciiAlphaNumeric(c)
    else
      false
  }

  /** What one character becomes: its triplets when it must be (re-)escaped,
      otherwise the character itself, except that a backslash in the path
      may become a slash. */
  function FormatChar(c: CodeUnit, isEscaped: bool, scheme: UriSchemes, uriKind: UriKind,
                      component: Component, uriFormat: UriFormat, iri: bool): (r: seq<CodeUnit>)
    ensures r == HexEscaped(c) || r == [c] || (c == BACKSLASH && component == Path && r == [SLASH])
    ensures uriFormat == Unescaped ==> |r| == 1
  {
    if (!isEscaped && NeedToEscape(c, scheme, component, uriKind, uriFormat, iri)) ||
       (isEscaped && !NeedToUnescape(c, scheme, component, uriKind, uriFormat, iri)) then
      HexEscaped(c)
    else if c == BACKSLASH && component == Path then
      if !iri && uriFormat != UriEscaped && SchemeContains(scheme, {Http, Https}) then [SLASH]
      else if SchemeContains(scheme, {Http, Https, Ftp, Custom}) then
        if isEscaped && uriFormat != UriEscaped then [BACKSLASH] else [SLASH]
      else if SchemeContains(scheme, {NetPipe, NetTcp}) then [SLASH]
      else if SchemeContains(scheme, {File}) then [SLASH]
      else [c]
    else
      [c]
  }
}
