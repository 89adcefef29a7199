/** The string-level driver (UriHelper.Format): scans a component left to
    right, hands every `%` to the triplet decoder, runs every character
    through FormatChar and concatenates the results in order. */
module Formatter {
  import opened Text
  import opened Schemes
  import opened HexCodec
  import opened CharPolicy

  /** What the triplet decoder `Uri.HexUnescapeMultiByte` gives back for the
      `%` at some position: the decoded code unit, the low half of a
      surrogate pair when the triplets encoded a code point above U+FFFF
      (the source signals "none" with `char.MinValue`), and the position
      just past the triplets it consumed. */
  datatype Decoded = Decoded(ch: CodeUnit, surrogate: Option<CodeUnit>, next: nat)

  /** The triplet decoder, which is not part of this model: it is a
      parameter, called with the string and the position of a `%`. */
  type Decoder = (seq<CodeUnit>, nat) -> Decoded

  /** The decoder consumes at least the `%` and never runs past the end of
      the string; this is what makes the scan terminate. */
  predicate DecoderAdvances(decode: Decoder, str: seq<CodeUnit>) {
    forall i :: 0 <= i < |str| && str[i] == PERCENT ==> i < decode(str, i).next <= |str|
  }

  /** FormatChar with the scheme, URI kind, component, format and IRI flag of
      one Format call fixed: what the scan applies to every character,
      passing whether it came from a triplet. */
  type CharFormatter = (CodeUnit, bool) -> seq<CodeUnit>

  function FormatCharWith(scheme: UriSchemes, uriKind: UriKind, component: Component,
                          uriFormat: UriFormat, iri: bool): CharFormatter {
    (c: CodeUnit, isEscaped: bool) => FormatChar(c, isEscaped, scheme, uriKind, component, uriFormat, iri)
  }

  function SurrogateText(d: Decoded): seq<CodeUnit> {
    match d.surrogate
    case Some(s) => [s]
    case None => []
  }

  /** The output for `str[i..]`: each decoded character's formatted text
      followed, verbatim, by its paired surrogate; each other character's
      formatted text. */
  function FormatFrom(str: seq<CodeUnit>, i: nat, formatChar: CharFormatter, decode: Decoder): seq<CodeUnit>
    requires i <= |str| && DecoderAdvances(decode, str)
    decreases |str| - i
  {
    if i == |str| then []
    else if str[i] == PERCENT then
      var d := decode(str, i);
      formatChar(d.ch, true) + SurrogateText(d) + FormatFrom(str, d.next, formatChar, decode)
    else
      formatChar(str[i], false) + FormatFrom(str, i + 1, formatChar, decode)
  }

  lemma AppendAssoc(a: seq<CodeUnit>, b: seq<CodeUnit>, c: seq<CodeUnit>)
    ensures (a + b) + c == a + (b + c)
  {
  }

  /** The scan loop of Format, appending to a builder. The decoder moves the
      position past the triplets it reads, and the loop's own increment is
      undone first. */
  method Scan(str: seq<CodeUnit>, formatChar: CharFormatter, decode: Decoder) returns (r: seq<CodeUnit>)
    requires DecoderAdvances(decode, str)
    ensures r == FormatFrom(str, 0, formatChar, decode)
  {
    var s: seq<CodeUnit> := [];
    var len := |str|;
    var i := 0;
    while i < len
      invariant 0 <= i <= len
      invariant s + FormatFrom(str, i, formatChar, decode) == FormatFrom(str, 0, formatChar, decode)
      decreases len - i
    {
      ghost var s0 := s;
      var c := str[i];
      if c == PERCENT {
        var d := decode(str, i);
        var x := d.ch;
        if d.surrogate.Some? {
          s := s + formatChar(x, true);
          s := s + [d.surrogate.value];
        } else {
          s := s + formatChar(x, true);
        }
        AppendAssoc(s0, formatChar(x, true) + SurrogateText(d), FormatFrom(str, d.next, formatChar, decode));
        i := d.next - 1;
      } else {
        s := s + formatChar(c, false);
        AppendAssoc(s0, formatChar(c, false), FormatFrom(str, i + 1, formatChar, decode));
      }
      i := i + 1;
    }
    r := s;
  }

  /** Formats one component: empty input gives empty output; otherwise the
      scheme is classified once and the component is scanned. */
  method Format(str: seq<CodeUnit>, schemeName: string, uriKind: UriKind, component: Component,
                uriFormat: UriFormat, iri: bool, decode: Decoder) returns (r: seq<CodeUnit>)
    requires DecoderAdvances(decode, str)
    ensures str == [] ==> r == []
    ensures r == FormatFrom(str, 0, FormatCharWith(GetScheme(schemeName), uriKind, component, uriFormat, iri), decode)
  {
    if |str| == 0 {
      return [];
    }
    var scheme := GetScheme(schemeName);
    r := Scan(str, FormatCharWith(scheme, uriKind, component, uriFormat, iri), decode);
  }
}
