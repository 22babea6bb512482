/**
 * The release-source check of firmware/main/ota_manifest.c: a URL it accepts stays below the source prefix
 * when dot segments are removed (section 5.2.4 of RFC 3986).
 */
module SourceUrl {
  import opened Options

  const SCHEME := "https://"
  const URL_MAX := 511
  const PREFIX_MAX := 383
  const HOST_SIZE := 128

  // ----------------------------------------------------------- specification

  predicate Begins(s: string, p: string) { |p| <= |s| && s[..|p|] == p }

  predicate Ends(s: string, p: string) { |p| <= |s| && s[|s| - |p|..] == p }

  predicate Contains(s: string, p: string) {
    exists i :: 0 <= i <= |s| - |p| && Begins(s[i..], p)
  }

  predicate HostChar(c: char) {
    'a' <= c <= 'z' || 'A' <= c <= 'Z' || '0' <= c <= '9' || c == '.' || c == '-'
  }

  predicate PathChar(c: char) { '!' <= c <= '~' && c != '\\' && c != '#' }

  /** Index of the first slash, or the length. */
  function FirstSlash(s: string): (n: nat)
    ensures n <= |s| && (forall i :: 0 <= i < n ==> s[i] != '/') && (n < |s| ==> s[n] == '/')
  {
    if s == "" || s[0] == '/' then 0 else 1 + FirstSlash(s[1..])
  }

  /** The host of an https URL that has a path, if all of it is plain and the host fits. */
  function HttpsHost(url: string, capacity: nat): Option<string> {
    if !Begins(url, SCHEME) then None
    else
      var p := url[|SCHEME|..];
      var n := FirstSlash(p);
      if n == |p| || n == 0 || n >= capacity then None
      else if (forall i :: 0 <= i < n ==> HostChar(p[i])) && (forall i :: n <= i < |p| ==> PathChar(p[i])) then
        Some(p[..n])
      else None
  }

  predicate UrlInSource(url: string, prefix: string) {
    && |url| <= URL_MAX && |prefix| <= PREFIX_MAX
    && HttpsHost(url, HOST_SIZE).Some? && HttpsHost(prefix, HOST_SIZE).Some?
    && Ends(prefix, "/") && Begins(url, prefix)
    && '%' !in url && '?' !in url
    && !Contains(url[|SCHEME|..], "/../") && !Contains(url[|SCHEME|..], "/./")
    && !Ends(url, "/..")
  }

  /** remove_dot_segments: input buffer and output buffer, steps A to E. */
  function RemoveDotSegments(input: string, output: string): string
    decreases |input|
  {
    if input == "" then output
    else if Begins(input, "../") then RemoveDotSegments(input[3..], output)
    else if Begins(input, "./") then RemoveDotSegments(input[2..], output)
    else if Begins(input, "/./") then RemoveDotSegments(input[2..], output)
    else if input == "/." then RemoveDotSegments("/", output)
    else if Begins(input, "/../") then RemoveDotSegments(input[3..], WithoutLast(output))
    else if input == "/.." then RemoveDotSegments("/", WithoutLast(output))
    else if input == "." || input == ".." then output
    else
      var n := 1 + FirstSlash(input[1..]);
      RemoveDotSegments(input[n..], output + input[..n])
  }

  /** The output buffer without its last segment and the slash before it. */
  function WithoutLast(output: string): string {
    if output == "" then ""
    else if output[|output| - 1] == '/' then output[..|output| - 1]
    else WithoutLast(output[..|output| - 1])
  }

  /** Where the path of an https URL starts. */
  function PathStart(url: string): (k: nat)
    requires Begins(url, SCHEME)
    ensures |SCHEME| <= k <= |url|
  {
    |SCHEME| + FirstSlash(url[|SCHEME|..])
  }

  /** The URL a client requests: the path with its dot segments removed. */
  function Resolved(url: string): string
    requires Begins(url, SCHEME)
  {
    url[..PathStart(url)] + RemoveDotSegments(url[PathStart(url)..], "")
  }

  // -------------------------------------------------------------- containment

  predicate NoDotSegments(s: string) {
    !Contains(s, "/../") && !Contains(s, "/./") && !Ends(s, "/..")
  }

  lemma ContainsInRest(s: string, n: nat, p: string)
    requires n <= |s|
    ensures Contains(s[n..], p) ==> Contains(s, p)
    ensures Ends(s[n..], p) ==> Ends(s, p)
    ensures Ends(s, p) && |p| <= |s| - n ==> Ends(s[n..], p)
  {
    var t := s[n..];
    if Contains(t, p) {
      var i :| 0 <= i <= |t| - |p| && Begins(t[i..], p);
      assert s[n + i..] == t[i..];
    }
    if |p| <= |t| {
      assert s[|s| - |p|..] == t[|t| - |p|..];
    }
  }

  lemma NoDotsInRest(s: string, n: nat)
    requires NoDotSegments(s) && n <= |s|
    ensures NoDotSegments(s[n..])
  {
    hide Contains, Ends;
    ContainsInRest(s, n, "/../");
    ContainsInRest(s, n, "/./");
    ContainsInRest(s, n, "/..");
  }

  lemma NoDotsAtFront(s: string)
    requires NoDotSegments(s)
    ensures !Begins(s, "/../") && !Begins(s, "/./") && s != "/.."
  {
    assert s[0..] == s;
  }

  /** Step E: one segment moves to the output. */
  lemma SegmentMoves(input: string, output: string)
    requires input != "" && input[0] == '/' && input != "/." && input != "/.."
    requires !Begins(input, "/../") && !Begins(input, "/./")
    ensures var n := 1 + FirstSlash(input[1..]);
      RemoveDotSegments(input, output) == RemoveDotSegments(input[n..], output + input[..n])
  {
    hide Begins;
    BeginsFirst(input, "../");
    BeginsFirst(input, "./");
  }

  lemma BeginsFirst(s: string, p: string)
    requires p != ""
    ensures Begins(s, p) ==> s[0] == p[0]
  {}

  /** Without dot segments only a final "/." is rewritten, to "/". */
  lemma {:induction false} NothingRemoved(input: string, output: string)
    requires NoDotSegments(input) && (input != "" ==> input[0] == '/')
    ensures RemoveDotSegments(input, output) == output + WithoutFinalDot(input)
    decreases |input|
  {
    hide NoDotSegments, Begins, Ends, RemoveDotSegments, WithoutFinalDot, Contains;
    LastSlash(output);
    if input != "/." && input != "" {
      NoDotsAtFront(input);
      SegmentMoves(input, output);
      var n := 1 + FirstSlash(input[1..]);
      var rest := input[n..];
      assert rest != "" ==> rest[0] == '/';
      NoDotsInRest(input, n);
      NothingRemoved(rest, output + input[..n]);
      FinalDotInRest(input, n);
      var kept := WithoutFinalDot(rest);
      assert output + input[..n] + kept == output + (input[..n] + kept);
    }
  }

  function WithoutFinalDot(s: string): string { if Ends(s, "/.") then s[..|s| - 1] else s }

  lemma LastSlash(output: string)
    ensures RemoveDotSegments("/.", output) == output + "/" && WithoutFinalDot("/.") == "/"
    ensures RemoveDotSegments("", output) == output && WithoutFinalDot("") == ""
  {
    var n := 1 + FirstSlash("/"[1..]);
    assert "/"[n..] == "" && "/"[..n] == "/";
    assert RemoveDotSegments("/"[n..], output + "/") == output + "/";
    assert RemoveDotSegments("/", output) == output + "/";
    assert Begins("/.", "/.") && "/."[..1] == "/";
    assert RemoveDotSegments("/.", output) == RemoveDotSegments("/", output);
  }

  /** A last "/." belongs to the last segment. */
  lemma FinalDotInRest(input: string, n: nat)
    requires input != "" && input != "/." && n == 1 + FirstSlash(input[1..]) && input[0] == '/'
    ensures WithoutFinalDot(input) == input[..n] + WithoutFinalDot(input[n..])
  {
    assert input == input[..n] + input[n..];
    ContainsInRest(input, n, "/.");
    if Ends(input, "/.") {
      assert |input| > 2 && input[|input| - 2] == '/' && input[1..][|input| - 3] == '/';
      assert n <= |input| - 2;
    }
  }

  lemma FirstSlashIs(s: string, n: nat)
    requires n < |s| && s[n] == '/' && forall i :: 0 <= i < n ==> s[i] != '/'
    ensures FirstSlash(s) == n
  {}

  /** The prefix and the URL have the same host and the prefix's path begins the URL's. */
  lemma SamePathStart(url: string, prefix: string)
    requires Begins(url, SCHEME) && Begins(prefix, SCHEME) && Begins(url, prefix) && PathStart(prefix) < |prefix|
    ensures PathStart(url) == PathStart(prefix)
  {
    var u, p := url[8..], prefix[8..];
    assert forall i :: 0 <= i < |p| ==> u[i] == p[i];
    FirstSlashIs(u, FirstSlash(p));
  }

  lemma AcceptedPath(url: string, prefix: string)
    requires UrlInSource(url, prefix)
    ensures Begins(url, SCHEME) && NoDotSegments(url[PathStart(url)..])
    ensures PathStart(url) < |prefix| <= |url| && url[PathStart(url)] == '/'
    ensures Begins(url, prefix) && prefix[|prefix| - 1] == '/'
    ensures Resolved(url) == url[..PathStart(url)] + WithoutFinalDot(url[PathStart(url)..])
  {
    assert prefix[|prefix| - 1] == '/' by {
      assert Ends(prefix, "/");
    }
    hide Contains, Ends;
    SamePathStart(url, prefix);
    ContainsInRest(url, 8, "/..");
    NoDotsInRest(url[8..], PathStart(url) - 8);
    assert url[PathStart(url)..] == url[8..][PathStart(url) - 8..];
    ResolvedPath(url);
  }

  lemma ResolvedPath(url: string)
    requires Begins(url, SCHEME) && PathStart(url) < |url| && url[PathStart(url)] == '/'
    requires NoDotSegments(url[PathStart(url)..])
    ensures Resolved(url) == url[..PathStart(url)] + WithoutFinalDot(url[PathStart(url)..])
  {
    hide RemoveDotSegments, NoDotSegments, WithoutFinalDot;
    NothingRemoved(url[PathStart(url)..], "");
  }

  /** Every URL the check accepts still begins with the source prefix once dot segments are removed. */
  lemma Contained(url: string, prefix: string)
    requires UrlInSource(url, prefix)
    ensures Begins(url, SCHEME) && Begins(Resolved(url), prefix)
  {
    hide UrlInSource, Resolved, PathStart, Begins, WithoutFinalDot;
    AcceptedPath(url, prefix);
    KeepsPrefix(url, prefix, PathStart(url));
  }

  lemma KeepsPrefix(url: string, prefix: string, k: nat)
    requires Begins(url, prefix) && k < |prefix| && prefix[|prefix| - 1] == '/'
    ensures Begins(url[..k] + WithoutFinalDot(url[k..]), prefix)
  {
    assert url[|prefix| - 1] == url[..|prefix|][|prefix| - 1] == '/';
    var path := url[k..];
    if Ends(path, "/.") {
      assert url[|url| - 1] == path[|path| - 1] == '.';
      assert url[..k] + path[..|path| - 1] == url[..|url| - 1];
    } else {
      assert url[..k] + path == url;
    }
  }

  /** Exactly a final "/." is dropped: the request URL of an accepted URL is otherwise the URL itself. */
  lemma AcceptedIsResolved(url: string, prefix: string)
    requires UrlInSource(url, prefix)
    ensures Begins(url, SCHEME) && Resolved(url) == WithoutFinalDot(url)
  {
    hide UrlInSource, Resolved, PathStart, Begins, NoDotSegments;
    AcceptedPath(url, prefix);
    var k := PathStart(url);
    var path := url[k..];
    assert url == url[..k] + path;
    ContainsInRest(url, k, "/.");
    if Ends(url, "/.") {
      assert url[|url| - 1] == url[|url| - 2..][1] == '.';
    }
  }

  // ------------------------------------------------------------- the scanning code

  /** rw_ota_https_host: scans the host, then the rest, and copies the host out. */
  method ScanHost(url: string, host: array<char>) returns (ok: bool)
    modifies host
    ensures ok <==> HttpsHost(url, host.Length).Some?
    ensures ok ==>
      var h := HttpsHost(url, host.Length).value;
      |h| < host.Length && host[..|h|] == h && host[|h|] == '\0'
    ensures !ok ==> host[..] == old(host[..])
  {
    if !Begins(url, SCHEME) {
      return false;
    }
    ghost var p := url[8..];
    var end := 8;
    while end < |url| && url[end] != '/'
      invariant 8 <= end <= |url| && forall i :: 8 <= i < end ==> url[i] != '/'
    {
      end := end + 1;
    }
    if end < |url| {
      FirstSlashIs(p, end - 8);
    }
    if end == |url| || end == 8 || end - 8 >= host.Length {
      return false;
    }
    for s := 8 to end
      invariant forall i :: 8 <= i < s ==> HostChar(url[i])
    {
      if !HostChar(url[s]) {
        assert !HostChar(p[s - 8]);
        return false;
      }
    }
    for s := end to |url|
      invariant forall i :: end <= i < s ==> PathChar(url[i])
    {
      if !PathChar(url[s]) {
        assert !PathChar(p[s - 8]);
        return false;
      }
    }
    var n := end - 8;
    assert forall i :: 0 <= i < |p| ==> p[i] == url[i + 8];
    for i := 0 to n
      invariant host[..i] == p[..i]
    {
      host[i] := url[8 + i];
    }
    host[n] := '\0';
    return true;
  }

  /** rw_ota_url_in_source */
  method CheckSource(url: string, prefix: string) returns (ok: bool)
    ensures ok <==> UrlInSource(url, prefix)
    ensures ok ==> Begins(url, SCHEME) && Begins(Resolved(url), prefix)
  {
    hide Ends, Contains;
    var host := new char[HOST_SIZE](_ => '\0');
    if |url| > URL_MAX || |prefix| > PREFIX_MAX {
      return false;
    }
    ok := ScanHost(url, host);
    if ok {
      ok := ScanHost(prefix, host);
    }
    if !ok {
      return false;
    }
    assert Begins(url, SCHEME) && |url| >= 8 by {
      assert HttpsHost(url, HOST_SIZE).Some?;
    }
    ok := Ends(prefix, "/") && Begins(url, prefix) && '%' !in url && '?' !in url
       && !Contains(url[8..], "/../") && !Contains(url[8..], "/./") && !Ends(url, "/..");
    if ok {
      Contained(url, prefix);
    }
  }

  // ------------------------------------------------------- escapes and queries

  function HexValue(c: char): int {
    if '0' <= c <= '9' then c as int - '0' as int
    else if 'a' <= c <= 'f' then c as int - 'a' as int + 10
    else if 'A' <= c <= 'F' then c as int - 'A' as int + 10
    else -1
  }

  /** Percent-encoded characters decoded, as section 2.1 of RFC 3986 has it: %2e is a dot. */
  function Decoded(s: string): string {
    if s == "" then ""
    else if s[0] == '%' && |s| > 2 && HexValue(s[1]) >= 0 && HexValue(s[2]) >= 0 then
      [(16 * HexValue(s[1]) + HexValue(s[2])) as char] + Decoded(s[3..])
    else [s[0]] + Decoded(s[1..])
  }

  function FirstQuery(s: string): (n: nat)
    ensures n <= |s|
  {
    if s == "" || s[0] == '?' then 0 else 1 + FirstQuery(s[1..])
  }

  /** What a server that decodes the path before it removes dot segments makes of a URL; a query is left alone. */
  function Served(url: string): string {
    var d := Decoded(url[..FirstQuery(url)]);
    if Begins(d, SCHEME) then Resolved(d) + url[FirstQuery(url)..] else url
  }

  lemma {:induction false} NothingDecoded(s: string)
    ensures '%' !in s ==> Decoded(s) == s
    ensures '?' !in s ==> FirstQuery(s) == |s|
  {
    if s != "" {
      NothingDecoded(s[1..]);
    }
  }

  /** Decoding finds nothing to decode, so an accepted URL stays below the prefix on such a server too. */
  lemma ContainedWhenServed(url: string, prefix: string)
    requires UrlInSource(url, prefix)
    ensures Begins(url, SCHEME) && Served(url) == Resolved(url) && Begins(Served(url), prefix)
  {
    hide Resolved, Begins;
    NothingDecoded(url);
    Contained(url, prefix);
    assert url[..|url|] == url && Resolved(url) + "" == Resolved(url);
  }

  /** An escaped parent segment is one: without the rule on escapes a URL could leave the prefix. */
  lemma EscapedParent()
    ensures Decoded("%2e%2E/") == "../"
  {
    assert "%2e%2E/"[3..] == "%2E/" && "%2E/"[3..] == "/" && "/"[1..] == "";
    assert Decoded("/") == "/";
    assert Decoded("%2E/") == "./";
  }
}
