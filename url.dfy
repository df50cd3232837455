/**
 * The part of `java.net.URL` that the pipeline relies on: `new URL(s)`
 * either fails with MalformedURLException or yields a protocol, a host and
 * a path (`getHost()`, `getPath()`).
 */
module JavaUrl {
  import opened Wrappers
  import opened JString

  datatype Url = Url(protocol: string, host: string, port: string, path: string)

  /** Protocols with a handler in a standard JDK. */
  predicate KnownProtocol(p: string) {
    p == "http" || p == "https" || p == "ftp" || p == "file" || p == "jar"
  }

  /** Length of the longest prefix of `s` holding no character of `stops`. */
  function Span(s: string, stops: set<char>): (n: nat)
    ensures n <= |s|
    ensures forall i :: 0 <= i < n ==> s[i] !in stops
    ensures n < |s| ==> s[n] in stops
  {
    if s == [] || s[0] in stops then 0 else 1 + Span(s[1..], stops)
  }

  /** The characters that end the authority: the start of the path, the query or the fragment. */
  const AuthorityEnd: set<char> := {'/', '?', '#'}

  /** The characters that end the path: the start of the query or the fragment. */
  const PathEnd: set<char> := {'?', '#'}

  /** The host and port of an authority: the user information up to `@` is
      dropped, and a `:` starts the port, which must be all digits. */
  function HostPort(authority: string): (r: Option<(string, string)>)
    ensures r.Some? ==> ':' !in r.value.0 && (r.value.1 == [] || AllDigits(r.value.1))
    ensures '@' !in authority && ':' !in authority ==> r == Some((authority, ""))
  {
    var at := IndexOf(authority, '@');
    var hp := authority[at + 1..];
    var colon := IndexOf(hp, ':');
    if colon < 0 then
      assert at < 0 ==> hp == authority;
      Some((hp, ""))
    else
      var port := hp[colon + 1..];
      if port == [] || AllDigits(port) then Some((hp[..colon], port)) else None
  }

  /** The path: what precedes the query or the fragment. */
  function PathPart(s: string): (r: string)
    ensures StartsWith(s, r)
    ensures forall i :: 0 <= i < |r| ==> r[i] !in PathEnd
    ensures PathEnd !! (set i | 0 <= i < |s| :: s[i]) ==> r == s
  {
    s[..Span(s, PathEnd)]
  }

  /** What follows `protocol:`: `//`, an authority and a path, or a bare path. */
  function Remainder(protocol: string, rest: string): (r: Option<Url>)
    ensures r.Some? ==> r.value.protocol == protocol
    ensures r.Some? ==> forall i :: 0 <= i < |r.value.path| ==> r.value.path[i] !in PathEnd
  {
    if StartsWith(rest, "//") then
      var tail := rest[2..];
      var a := Span(tail, AuthorityEnd);
      var hp := HostPort(tail[..a]);
      if hp.None? then None
      else Some(Url(protocol, hp.value.0, hp.value.1, PathPart(tail[a..])))
    else
      Some(Url(protocol, "", "", PathPart(rest)))
  }

  /** `new URL(s)`: after trimming, a known protocol before the first `:`
      (with no `/` before it), then the remainder. None stands for
      MalformedURLException. */
  function ParseUrl(s: string): (r: Option<Url>)
    ensures r.Some? ==> KnownProtocol(r.value.protocol)
    ensures r.Some? ==> forall i :: 0 <= i < |r.value.path| ==> r.value.path[i] !in PathEnd
  {
    var t := Trim(s);
    var k := Span(t, {'/', ':'});
    if k == |t| || t[k] != ':' then None
    else
      var protocol := Lower(t[..k]);
      if KnownProtocol(protocol) then Remainder(protocol, t[k + 1..]) else None
  }

  lemma SpanAt(a: string, b: string, stops: set<char>)
    requires forall i :: 0 <= i < |a| ==> a[i] !in stops
    requires b != [] && b[0] in stops
    ensures Span(a + b, stops) == |a|
  {
    assert (a + b)[|a|] == b[0];
  }

  lemma SpanNone(a: string, stops: set<char>)
    requires forall i :: 0 <= i < |a| ==> a[i] !in stops
    ensures Span(a, stops) == |a|
  {
  }

  /** A URL that starts `https:` and ends with a character `trim()` keeps
      goes to the https remainder parser. */
  lemma ParseHttpsScheme(rest: string)
    requires rest != [] && !IsTrimmable(rest[|rest| - 1])
    ensures ParseUrl("https:" + rest) == Remainder("https", rest)
  {
    var s := "https:" + rest;
    assert s == "https" + (":" + rest);
    assert IsTrimmed(s) by {
      assert s[0] == 'h' && s[|s| - 1] == rest[|rest| - 1];
    }
    TrimOfTrimmed(s);
    SpanAt("https", ":" + rest, {'/', ':'});
    assert s[..5] == "https" && s[5] == ':' && s[6..] == rest;
    assert Lower("https") == "https";
  }

  /** `//`, a plain host and a path free of query and fragment: exactly that
      host and path. */
  lemma RemainderAuthority(protocol: string, host: string, path: string)
    requires forall i :: 0 <= i < |host| ==> host[i] !in AuthorityEnd && host[i] != '@' && host[i] != ':'
    requires path != [] && path[0] == '/'
    requires forall i :: 0 <= i < |path| ==> path[i] !in PathEnd
    ensures Remainder(protocol, "//" + host + path) == Some(Url(protocol, host, "", path))
  {
    var rest := "//" + host + path;
    assert StartsWith(rest, "//");
    var tail := rest[2..];
    assert tail == host + path;
    SpanAt(host, path, AuthorityEnd);
    assert tail[..|host|] == host && tail[|host|..] == path;
    assert HostPort(host) == Some((host, ""));
    SpanNone(path, PathEnd);
    assert path[..|path|] == path;
  }

  /** An https URL with a plain host and a path free of query and fragment
      parses into exactly that host and path. */
  lemma ParseHttps(host: string, path: string)
    requires forall i :: 0 <= i < |host| ==> host[i] !in AuthorityEnd && host[i] != '@' && host[i] != ':'
    requires path != [] && path[0] == '/' && !IsTrimmable(path[|path| - 1])
    requires forall i :: 0 <= i < |path| ==> path[i] !in PathEnd
    ensures ParseUrl("https://" + host + path) == Some(Url("https", host, "", path))
  {
    var rest := "//" + host + path;
    assert "https://" + host + path == "https:" + rest;
    assert rest[|rest| - 1] == path[|path| - 1];
    ParseHttpsScheme(rest);
    RemainderAuthority("https", host, path);
  }
}
