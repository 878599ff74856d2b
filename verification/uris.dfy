/**
 * The part of System.Uri and System.UriBuilder the UPnP code relies on, for
 * "http://host[:port]/path" texts only: host, port (80 when omitted) and the
 * path, the authority prefix GetLeftPart(UriPartial.Authority) and the text of
 * a built URI.
 */
module Uris {
  import opened Wrappers
  import opened Exceptions
  import opened Numbers
  import opened Text

  datatype Uri = Uri(host: string, port: int, path: string)

  const Scheme: string := "http://"
  const DefaultPort: int := 80

  predicate HostChar(c: char)
  {
    c != ':' && c != '/'
  }

  predicate ValidHost(h: string)
  {
    |h| > 0 && forall i :: 0 <= i < |h| ==> HostChar(h[i])
  }

  /** The URIs this model can write and read back. */
  predicate Canonical(u: Uri)
  {
    ValidHost(u.host) && 0 <= u.port <= MaxUInt16 && |u.path| > 0 && u.path[0] == '/'
  }

  /** The port text of an authority: nothing for the default port. */
  function PortSuffix(port: int): string
  {
    if port == DefaultPort then "" else ":" + IntToString(port)
  }

  /** GetLeftPart(UriPartial.Authority): scheme, host and a non-default port. */
  function LeftPart(u: Uri): string
  {
    Scheme + u.host + PortSuffix(u.port)
  }

  /** Uri.ToString() / AbsoluteUri. */
  function ToText(u: Uri): (r: string)
    ensures |LeftPart(u)| <= |r| && r[..|LeftPart(u)|] == LeftPart(u) && r[|LeftPart(u)|..] == u.path
  {
    var r := LeftPart(u) + u.path;
    assert r[..|LeftPart(u)|] == LeftPart(u);
    r
  }

  /** The authority and the path of the text after the scheme: the path
      starts at the first '/' and is "/" when there is none. */
  function SplitAuthority(rest: string): (r: (string, string))
    ensures |r.1| > 0 && r.1[0] == '/'
  {
    var slash := IndexOf(rest, "/", 0);
    if slash == -1 then (rest, "/")
    else
      assert MatchAt(rest, "/", slash);
      (rest[..slash], rest[slash..])
  }

  /** Host and port of an authority: the port is 80 when there is no ':'. */
  function SplitHostPort(authority: string): (r: Fallible<(string, int)>)
    ensures r.Ok? ==> ValidHost(r.value.0) && 0 <= r.value.1 <= MaxUInt16
    ensures r.Err? ==> r.error == UriFormat
  {
    var colon := IndexOf(authority, ":", 0);
    var host := if colon == -1 then authority else authority[..colon];
    if !ValidHost(host) then Err(UriFormat)
    else if colon == -1 then Ok((host, DefaultPort))
    else
      match ParseInt32(authority[colon + 1..])
      case Some(port) =>
        if 0 <= port <= MaxUInt16 then Ok((host, port as int)) else Err(UriFormat)
      case None => Err(UriFormat)
  }

  /** new Uri(text): Ok for an http URI with a non-empty host and, when
      given, a decimal port in 0..65535; UriFormatException otherwise. */
  function Parse(text: string): (r: Fallible<Uri>)
    ensures r.Ok? ==> Canonical(r.value)
    ensures r.Err? ==> r.error == UriFormat
  {
    if |text| < |Scheme| || text[..|Scheme|] != Scheme then Err(UriFormat)
    else
      var (authority, path) := SplitAuthority(text[|Scheme|..]);
      var (host, port) :- SplitHostPort(authority);
      Ok(Uri(host, port, path))
  }

  /** Uri.IsWellFormedUriString(text, UriKind.Absolute). */
  predicate IsWellFormed(text: string)
  {
    Parse(text).Ok?
  }

  /** new UriBuilder("http", host, port, path).Uri: the path gains a leading
      '/' when it has none. */
  function Build(host: string, port: int, path: string): (r: Uri)
    ensures r.host == host && r.port == port
    ensures |r.path| > 0 && r.path[0] == '/'
    ensures |path| > 0 && path[0] == '/' ==> r.path == path
    ensures !(|path| > 0 && path[0] == '/') ==> r.path == "/" + path
  {
    Uri(host, port, if |path| > 0 && path[0] == '/' then path else "/" + path)
  }

  lemma SplitAuthorityOf(authority: string, path: string)
    requires forall i :: 0 <= i < |authority| ==> authority[i] != '/'
    requires |path| > 0 && path[0] == '/'
    ensures SplitAuthority(authority + path) == (authority, path)
  {
    var rest := authority + path;
    FirstCharMatch(rest, '/', |authority|);
    assert rest[..|authority|] == authority;
    assert rest[|authority|..] == path;
  }

  lemma SplitHostPortOf(u: Uri)
    requires Canonical(u)
    ensures SplitHostPort(u.host + PortSuffix(u.port)) == Ok((u.host, u.port))
  {
    var authority := u.host + PortSuffix(u.port);
    if u.port == DefaultPort {
      assert authority == u.host;
      NoCharNoMatch(authority, ':');
    } else {
      var digits := IntToString(u.port);
      assert authority == u.host + ":" + digits;
      FirstCharMatch(authority, ':', |u.host|);
      assert authority[..|u.host|] == u.host;
      assert authority[|u.host| + 1..] == digits;
      IntToStringRoundTrip(u.port);
    }
  }

  lemma AuthorityHasNoSlash(u: Uri)
    requires Canonical(u)
    ensures forall i :: 0 <= i < |u.host + PortSuffix(u.port)| ==> (u.host + PortSuffix(u.port))[i] != '/'
  {
    var digits := IntToString(u.port);
    assert digits == NatToDigits(u.port);
    var authority := u.host + PortSuffix(u.port);
    forall i | 0 <= i < |authority| ensures authority[i] != '/' {
      if i > |u.host| { assert authority[i] == digits[i - |u.host| - 1]; }
    }
  }

  /** Reading back the text of a canonical URI gives the same URI. */
  lemma ParseToText(u: Uri)
    requires Canonical(u)
    ensures Parse(ToText(u)) == Ok(u)
  {
    var authority := u.host + PortSuffix(u.port);
    var rest := authority + u.path;
    assert ToText(u) == Scheme + rest;
    AuthorityHasNoSlash(u);
    SplitAuthorityOf(authority, u.path);
    SplitHostPortOf(u);
    ParseAfterScheme(rest, authority, u);
  }

  lemma ParseAfterScheme(rest: string, authority: string, u: Uri)
    requires SplitAuthority(rest) == (authority, u.path)
    requires SplitHostPort(authority) == Ok((u.host, u.port))
    ensures Parse(Scheme + rest) == Ok(u)
  {
    assert (Scheme + rest)[..|Scheme|] == Scheme;
    assert (Scheme + rest)[|Scheme|..] == rest;
  }

  /** Distinct canonical URIs have distinct texts. */
  lemma ToTextInjective(u: Uri, v: Uri)
    requires Canonical(u) && Canonical(v)
    requires ToText(u) == ToText(v)
    ensures u == v
  {
    ParseToText(u);
    ParseToText(v);
  }
}
