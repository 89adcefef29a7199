/** Classification of a scheme name into one of the well-known scheme flags
    (UriHelper.GetScheme) and the tests built on it (SchemeContains,
    SupportsQuery). */
module Schemes {

  /** The flags of the `UriSchemes` enumeration. `None` is the empty set and
      `All` the set of every flag; neither is a flag of its own. */
  datatype Scheme =
    | Http | Https | File | Ftp | Gopher | Ldap | Mailto
    | NetPipe | NetTcp | News | Nntp | Telnet | Uuid | Custom

  /** A `UriSchemes` value: a combination of flags. */
  type UriSchemes = set<Scheme>

  const ALL_SCHEMES: UriSchemes :=
    {Http, Https, File, Ftp, Gopher, Ldap, Mailto, NetPipe, NetTcp, News, Nntp, Telnet, Uuid, Custom}

  /** The canonical name of each well-known scheme (the `Uri.UriScheme*` constants). */
  function SchemeName(f: Scheme): (name: string)
    requires f != Custom
    ensures name != ""
  {
    match f
    case Http => "http"
    case Https => "https"
    case File => "file"
    case Ftp => "ftp"
    case Gopher => "gopher"
    case Ldap => "ldap"
    case Mailto => "mailto"
    case NetPipe => "net.pipe"
    case NetTcp => "net.tcp"
    case News => "news"
    case Nntp => "nntp"
    case Telnet => "telnet"
    case Uuid => "uuid"
  }

  const KNOWN_NAMES: set<string> :=
    {"http", "https", "file", "ftp", "gopher", "ldap", "mailto",
     "net.pipe", "net.tcp", "news", "nntp", "telnet", "uuid"}

  /** Exact, case-sensitive classification of a scheme name: the empty name
      gives no flag, a canonical name its own flag, anything else `Custom`. */
  function GetScheme(schemeName: string): (r: UriSchemes)
    ensures r == {} <==> schemeName == ""
    ensures |r| <= 1
  {
    if schemeName == "" then {}
    else if schemeName == "http" then {Http}
    else if schemeName == "https" then {Https}
    else if schemeName == "file" then {File}
    else if schemeName == "ftp" then {Ftp}
    else if schemeName == "gopher" then {Gopher}
    else if schemeName == "ldap" then {Ldap}
    else if schemeName == "mailto" then {Mailto}
    else if schemeName == "net.pipe" then {NetPipe}
    else if schemeName == "net.tcp" then {NetTcp}
    else if schemeName == "news" then {News}
    else if schemeName == "nntp" then {Nntp}
    else if schemeName == "telnet" then {Telnet}
    else if schemeName == "uuid" then {Uuid}
    else {Custom}
  }

  /** `(keys & flag) != 0`: some flag of `flag` is among `keys`. */
  predicate SchemeContains(keys: UriSchemes, flag: UriSchemes) {
    keys * flag != {}
  }

  /** Each canonical name maps to exactly its own flag, and a flag other than
      `Custom` comes only from its canonical name. */
  lemma GetSchemeOfCanonicalName(schemeName: string, f: Scheme)
    requires f != Custom
    ensures GetScheme(SchemeName(f)) == {f}
    ensures GetScheme(schemeName) == {f} <==> schemeName == SchemeName(f)
  {
  }

  /** Every other non-empty name is a custom scheme. */
  lemma GetSchemeOfOtherName(schemeName: string)
    ensures GetScheme(schemeName) == {Custom} <==> schemeName != "" && schemeName !in KNOWN_NAMES
  {
  }

  /** For the single flag GetScheme returns, SchemeContains is membership. */
  lemma ContainsSingleFlag(f: Scheme, flag: UriSchemes)
    ensures SchemeContains({f}, flag) <==> f in flag
  {
    if f in flag {
      assert f in {f} * flag;
    } else {
      assert {f} * flag == {};
    }
  }

  /** Whether a scheme has a query component; `file` has one only in IRI mode. */
  predicate SupportsQuery(scheme: UriSchemes, iri: bool) {
    if SchemeContains(scheme, {File}) then iri
    else !SchemeContains(scheme, {Ftp, Gopher, Nntp, Telnet})
  }

  /** On what GetScheme returns: no flag supports a query, `file` does only
      in IRI mode, ftp, gopher, nntp and telnet never do, every other flag
      does. */
  lemma SupportsQueryOfFlag(f: Scheme, iri: bool)
    ensures SupportsQuery({}, iri)
    ensures SupportsQuery({f}, iri) <==> if f == File then iri else f !in {Ftp, Gopher, Nntp, Telnet}
  {
    ContainsSingleFlag(f, {File});
    ContainsSingleFlag(f, {Ftp, Gopher, Nntp, Telnet});
    assert {} * {File} == {};
    assert {} * {Ftp, Gopher, Nntp, Telnet} == {};
  }

  /** SupportsQuery on a scheme name: `file` follows the IRI flag; ftp,
      gopher, nntp and telnet have no query; every other name has one. */
  function SupportsQueryByName(scheme: string, iri: bool): (r: bool)
    ensures scheme == "file" ==> r == iri
    ensures scheme != "file" ==> (!r <==> scheme in {"ftp", "gopher", "nntp", "telnet"})
  {
    SupportsQuery(GetScheme(scheme), iri)
  }
}
