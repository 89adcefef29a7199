/** Percent-encoding of one UTF-16 code unit (UriHelper.HexEscapeMultiByte):
    the code unit is encoded as UTF-8 (RFC 3629) and every byte is written as
    a `%XY` triplet with upper-case hex digits (section 2.1 of RFC 3986).
    The decoders below are the reference the encoders are proved against. */
module HexCodec {
  import opened Text

  // ---------------------------------------------------------------------------
  // UTF-8 for a single code unit

  predicate IsContinuation(b: Byte) {
    0x80 <= b < 0xC0
  }

  /** The UTF-8 bytes of one code unit. A lone surrogate cannot be encoded on
      its own and is replaced by U+FFFD (EF BF BD), as the .NET encoder's
      replacement fallback does. */
  function Utf8Bytes(c: CodeUnit): (bs: seq<Byte>)
    ensures 1 <= |bs| <= 3
    ensures |bs| == 1 <==> c < 0x80
    ensures |bs| == 2 <==> 0x80 <= c < 0x800
  {
    if c < 0x80 then
      [c as int as Byte]
    else if c < 0x800 then
      [(0xC0 + c as int / 64) as Byte, (0x80 + c as int % 64) as Byte]
    else if IsSurrogate(c) then
      [0xEF, 0xBF, 0xBD]
    else
      [(0xE0 + c as int / 4096) as Byte, (0x80 + (c as int / 64) % 64) as Byte, (0x80 + c as int % 64) as Byte]
  }

  /** Decodes one well-formed UTF-8 sequence of one to three bytes into the
      code unit it stands for, rejecting overlong forms and surrogates. */
  function Utf8Decode(bs: seq<Byte>): Option<CodeUnit> {
    if |bs| == 1 && bs[0] < 0x80 then
      Some(bs[0] as int as CodeUnit)
    else if |bs| == 2 && 0xC0 <= bs[0] < 0xE0 && IsContinuation(bs[1]) then
      var v := (bs[0] as int - 0xC0) * 64 + (bs[1] as int - 0x80);
      if v < 0x80 then None else Some(v as CodeUnit)
    else if |bs| == 3 && 0xE0 <= bs[0] < 0xF0 && IsContinuation(bs[1]) && IsContinuation(bs[2]) then
      var v := (bs[0] as int - 0xE0) * 4096 + (bs[1] as int - 0x80) * 64 + (bs[2] as int - 0x80);
      if v < 0x800 || IsSurrogate(v as CodeUnit) then None else Some(v as CodeUnit)
    else
      None
  }

  /** UTF-8 round trip: decoding the bytes gives back the code unit, or U+FFFD
      for a lone surrogate. */
  lemma Utf8RoundTrip(c: CodeUnit)
    ensures Utf8Decode(Utf8Bytes(c)) == Some(if IsSurrogate(c) then REPLACEMENT else c)
  {
    var n := c as int;
    if 0x80 <= n < 0x800 {
      assert (n / 64) * 64 + n % 64 == n;
    } else if 0x800 <= n && !IsSurrogate(c) {
      assert (n / 4096) * 4096 + ((n / 64) % 64) * 64 + n % 64 == n;
    }
  }

  // ---------------------------------------------------------------------------
  // Hex triplets

  /** The digit table `0123456789ABCDEF`. */
  const HEX_UPPER: seq<CodeUnit> :=
    ['0' as CodeUnit, '1' as CodeUnit, '2' as CodeUnit, '3' as CodeUnit,
     '4' as CodeUnit, '5' as CodeUnit, '6' as CodeUnit, '7' as CodeUnit,
     '8' as CodeUnit, '9' as CodeUnit, 'A' as CodeUnit, 'B' as CodeUnit,
     'C' as CodeUnit, 'D' as CodeUnit, 'E' as CodeUnit, 'F' as CodeUnit]

  /** The value of a hex digit of either case. */
  function HexDigitValue(d: CodeUnit): Option<nat> {
    if '0' as CodeUnit <= d <= '9' as CodeUnit then Some(d as int - '0' as int)
    else if 'A' as CodeUnit <= d <= 'F' as CodeUnit then Some(d as int - 'A' as int + 10)
    else if 'a' as CodeUnit <= d <= 'f' as CodeUnit then Some(d as int - 'a' as int + 10)
    else None
  }

  /** Every entry of the digit table reads back as its own index. */
  lemma HexDigitRoundTrip(n: nat)
    requires n < 16
    ensures HexDigitValue(HEX_UPPER[n]) == Some(n)
  {
  }

  /** `%` followed by the high and the low nibble of `b`; for a byte,
      `b / 16` and `b % 16` are the source's `(b & 0xf0) >> 4` and `b & 0x0f`. */
  function Triplet(b: Byte): seq<CodeUnit> {
    [PERCENT, HEX_UPPER[b as int / 16], HEX_UPPER[b as int % 16]]
  }

  /** The triplets of a byte sequence, in byte order. */
  function EscapeBytes(bs: seq<Byte>): (r: seq<CodeUnit>)
    ensures |r| == 3 * |bs|
    ensures forall k :: 0 <= k < |r| ==> r[k] == PERCENT || r[k] in HEX_UPPER
  {
    if bs == [] then [] else Triplet(bs[0]) + EscapeBytes(bs[1..])
  }

  /** Appending a byte appends its triplet. */
  lemma {:induction false} EscapeBytesSnoc(bs: seq<Byte>, b: Byte)
    ensures EscapeBytes(bs + [b]) == EscapeBytes(bs) + Triplet(b)
  {
    if bs == [] {
      assert bs + [b] == [b];
    } else {
      assert (bs + [b])[1..] == bs[1..] + [b];
      EscapeBytesSnoc(bs[1..], b);
    }
  }

  /** Reads a sequence made only of `%XY` triplets back into its bytes. */
  function UnescapeBytes(s: seq<CodeUnit>): Option<seq<Byte>>
    decreases |s|
  {
    if s == [] then Some([])
    else if |s| >= 3 && s[0] == PERCENT && HexDigitValue(s[1]).Some? && HexDigitValue(s[2]).Some? then
      var hi, lo := HexDigitValue(s[1]).value, HexDigitValue(s[2]).value;
      match UnescapeBytes(s[3..])
      case Some(rest) => Some([(hi * 16 + lo) as Byte] + rest)
      case None => None
    else None
  }

  /** The two digits of a byte's triplet read back as the byte. */
  lemma TripletDigits(b: Byte)
    ensures HexDigitValue(Triplet(b)[1]) == Some(b as int / 16)
    ensures HexDigitValue(Triplet(b)[2]) == Some(b as int % 16)
    ensures (b as int / 16) * 16 + b as int % 16 == b as int
  {
    HexDigitRoundTrip(b as int / 16);
    HexDigitRoundTrip(b as int % 16);
  }

  /** A leading `%` and the two digits of a byte's nibbles are read as that
      byte, in front of whatever follows. */
  lemma UnescapeLeading(s: seq<CodeUnit>, b: Byte, rest: seq<CodeUnit>)
    requires |s| >= 3 && s[0] == PERCENT && s[3..] == rest && UnescapeBytes(rest).Some?
    requires HexDigitValue(s[1]) == Some(b as int / 16) && HexDigitValue(s[2]) == Some(b as int % 16)
    ensures UnescapeBytes(s) == Some([b] + UnescapeBytes(rest).value)
  {
    assert (b as int / 16) * 16 + b as int % 16 == b as int;
  }

  /** A leading triplet is read back as its byte. */
  lemma UnescapeTriplet(b: Byte, rest: seq<CodeUnit>)
    requires UnescapeBytes(rest).Some?
    ensures UnescapeBytes(Triplet(b) + rest) == Some([b] + UnescapeBytes(rest).value)
  {
    var s := Triplet(b) + rest;
    TripletDigits(b);
    assert s[1] == Triplet(b)[1] && s[2] == Triplet(b)[2];
    assert s[3..] == rest;
    UnescapeLeading(s, b, rest);
  }

  /** Triplet round trip: reading the triplets back gives the bytes. */
  lemma {:induction false} EscapeBytesRoundTrip(bs: seq<Byte>)
    ensures UnescapeBytes(EscapeBytes(bs)) == Some(bs)
  {
    if bs != [] {
      EscapeBytesRoundTrip(bs[1..]);
      UnescapeTriplet(bs[0], EscapeBytes(bs[1..]));
      assert [bs[0]] + bs[1..] == bs;
    }
  }

  /** The percent-encoded form of one code unit. */
  function HexEscaped(c: CodeUnit): (r: seq<CodeUnit>)
    ensures 3 <= |r| <= 9 && |r| % 3 == 0
    ensures r[0] == PERCENT
    ensures |r| == 3 <==> c < 0x80
    ensures forall k :: 0 <= k < |r| ==> IsVisibleAscii(r[k])
  {
    EscapeBytes(Utf8Bytes(c))
  }

  /** Reads an escaped form back: the triplets' bytes, decoded as UTF-8. */
  function DecodeEscaped(s: seq<CodeUnit>): Option<CodeUnit> {
    match UnescapeBytes(s)
    case Some(bs) => Utf8Decode(bs)
    case None => None
  }

  /** Percent-encoding round trip: the escaped form of a code unit decodes
      back to it (a lone surrogate to U+FFFD). */
  lemma HexEscapedRoundTrip(c: CodeUnit)
    ensures DecodeEscaped(HexEscaped(c)) == Some(if IsSurrogate(c) then REPLACEMENT else c)
  {
    EscapeBytesRoundTrip(Utf8Bytes(c));
    Utf8RoundTrip(c);
  }

  /** An ASCII code unit escapes to exactly `%XY`, upper-case hex digits
      with X the high nibble and Y the low nibble of `c`. */
  lemma AsciiEscape(c: CodeUnit)
    requires c < 0x80
    ensures HexEscaped(c) == [PERCENT, HEX_UPPER[c as int / 16], HEX_UPPER[c as int % 16]]
    ensures HexDigitValue(HexEscaped(c)[1]).Some? && HexDigitValue(HexEscaped(c)[2]).Some?
    ensures HexDigitValue(HexEscaped(c)[1]).value * 16 + HexDigitValue(HexEscaped(c)[2]).value == c as int
  {
    HexDigitRoundTrip(c as int / 16);
    HexDigitRoundTrip(c as int % 16);
  }

  /** The source's loop: one triplet appended per UTF-8 byte. */
  method HexEscapeMultiByte(character: CodeUnit) returns (ret: seq<CodeUnit>)
    ensures ret == HexEscaped(character)
    ensures DecodeEscaped(ret) == Some(if IsSurrogate(character) then REPLACEMENT else character)
  {
    var bytes := Utf8Bytes(character);
    ret := [];
    for i := 0 to |bytes|
      invariant ret == EscapeBytes(bytes[..i])
    {
      var b := bytes[i];
      ret := ret + [PERCENT] + [HEX_UPPER[b as int / 16]] + [HEX_UPPER[b as int % 16]];
      assert ret == EscapeBytes(bytes[..i]) + Triplet(b);
      EscapeBytesSnoc(bytes[..i], b);
      assert bytes[..i + 1] == bytes[..i] + [b];
    }
    assert bytes[..|bytes|] == bytes;
    HexEscapedRoundTrip(character);
  }
}
