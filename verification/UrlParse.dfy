/** The URL routines of src/http_client.cpp: splitting a URL, parsing it, printing the Host
    header of a parsed one, and resolving the Location of a redirect. */
module UrlParse {
  import opened Basics
  import opened Digits
  import opened RoutePaths
  import UrlPath

  // ---------------------------------------------------------------------------
  // Searching in strings
  // ---------------------------------------------------------------------------

  /** find of a character; the length stands for npos. */
  function FirstOf(s: string, c: char): (k: nat)
    ensures k <= |s| && (k < |s| ==> s[k] == c)
    ensures forall i :: 0 <= i < k ==> s[i] != c
  {
    if s == "" || s[0] == c then 0
    else
      var k := 1 + FirstOf(s[1..], c);
      assert forall i :: 0 < i < k ==> s[i] == s[1..][i - 1];
      k
  }

  /** rfind of a character. */
  function LastOf(s: string, c: char): (r: Option<nat>)
    ensures r.Some? ==> r.value < |s| && s[r.value] == c && forall i :: r.value < i < |s| ==> s[i] != c
    ensures r.None? ==> c !in s
  {
    if s == "" then None
    else if s[|s| - 1] == c then Some(|s| - 1)
    else
      assert s == s[..|s| - 1] + [s[|s| - 1]];
      LastOf(s[..|s| - 1], c)
  }

  const MARK := "://"

  predicate MarkAt(s: string, i: nat) {
    i + 3 <= |s| && s[i] == ':' && s[i + 1] == '/' && s[i + 2] == '/'
  }

  /** find of "://". */
  function FindMark(s: string): (r: Option<nat>)
    ensures r.Some? ==> MarkAt(s, r.value) && forall i :: 0 <= i < r.value ==> !MarkAt(s, i)
    ensures r.None? ==> forall i :: 0 <= i < |s| ==> !MarkAt(s, i)
  {
    if s == "" then None
    else if MarkAt(s, 0) then Some(0)
    else
      assert forall i :: 0 < i < |s| ==> (MarkAt(s, i) <==> MarkAt(s[1..], i - 1));
      match FindMark(s[1..])
      case None => None
      case Some(i) => Some(i + 1)
  }

  // ---------------------------------------------------------------------------
  // Ports
  // ---------------------------------------------------------------------------

  /** What std::from_chars leaves behind for an int: how far it read and the value, no number
      at all, or one that no int holds. */
  datatype FromCharsResult = Read(end: nat, value: int) | Invalid | OutOfRange(end: nat)

  const INT_MAX := 0x7fff_ffff

  function FromChars(s: string): FromCharsResult {
    var sign: nat := if s != "" && s[0] == '-' then 1 else 0;
    var k := DigitRun(s[sign..]);
    if k == 0 then Invalid
    else
      var v: int := Value(s[sign..][..k]);
      if sign == 0 && v <= INT_MAX then Read(k, v)
      else if sign == 1 && v <= INT_MAX + 1 then Read(k + 1, -v)
      else OutOfRange(sign + k)
  }

  /** The port test that parseUrl writes twice. */
  function ParsePort(s: string): Option<nat> {
    match FromChars(s)
    case Read(end, p) => if end != |s| || p <= 0 || p > 65535 then None else Some(p)
    case _ => None
  }

  /** A port is digits only, with a value in range. */
  predicate IsPort(s: string) {
    s != "" && AllDigits(s) && 1 <= Value(s) <= 65535
  }

  lemma ParsePortIs(s: string)
    ensures ParsePort(s) == if IsPort(s) then Some(Value(s)) else None
  {
    var k := DigitRun(s);
    assert s[0..] == s;
    if s != "" && s[0] == '-' {
      assert !IsDigit(s[0]);
    } else if k == |s| {
      assert s[..k] == s;
    } else {
      assert !AllDigits(s);
    }
  }

  lemma PrintedPortParses(port: nat)
    requires 1 <= port <= 65535
    ensures ParsePort(Decimal(port)) == Some(port)
  {
    DecimalReadsBack(port);
    ParsePortIs(Decimal(port));
  }

  // ---------------------------------------------------------------------------
  // Parsing and printing
  // ---------------------------------------------------------------------------

  datatype ParsedUrl = ParsedUrl(scheme: string, host: string, port: nat, path: string)

  predicate KnownScheme(s: string) {
    s == "http" || s == "https"
  }

  function DefaultPort(scheme: string): nat {
    if scheme == "https" then 443 else 80
  }

  /** The middle of parseUrl: host and port of what stands between "://" and the path. */
  function ParseHostPort(hostPort: string, port: nat): Option<(string, nat)> {
    var found :=
      if StartsWith(hostPort, "[") then
        var cb := FirstOf(hostPort, ']');
        if cb == |hostPort| then None
        else if cb + 1 == |hostPort| then Some((hostPort[1..cb], port))
        else if hostPort[cb + 1] != ':' then None
        else WithPort(hostPort[1..cb], ParsePort(hostPort[cb + 2..]))
      else
        match LastOf(hostPort, ':')
        case Some(colon) => WithPort(hostPort[..colon], ParsePort(hostPort[colon + 1..]))
        case None => Some((hostPort, port));
    if found.Some? && found.value.0 == "" then None else found
  }

  function WithPort(host: string, port: Option<nat>): Option<(string, nat)> {
    match port
    case None => None
    case Some(p) => Some((host, p))
  }

  function ParseUrl(url: string): Option<ParsedUrl> {
    match FindMark(url)
    case None => None
    case Some(schemeEnd) =>
      var scheme := url[..schemeEnd];
      var rest := url[schemeEnd + 3..];
      if !KnownScheme(scheme) || rest == "" then None
      else
        var pathStart := FirstSlash(rest);
        var path := if pathStart == |rest| then "/" else rest[pathStart..];
        match ParseHostPort(rest[..pathStart], DefaultPort(scheme))
        case None => None
        case Some(hp) => Some(ParsedUrl(scheme, hp.0, hp.1, path))
  }

  function BuildHostHeader(u: ParsedUrl): string {
    var hostHeader := if ':' in u.host then "[" + u.host + "]" else u.host;
    if u.port == DefaultPort(u.scheme) then hostHeader else hostHeader + ":" + Decimal(u.port)
  }

  /** A URL printed from its parts. */
  function Printed(u: ParsedUrl): string {
    u.scheme + MARK + BuildHostHeader(u) + u.path
  }

  // ---------------------------------------------------------------------------
  // What parseUrl accepts
  // ---------------------------------------------------------------------------

  predicate NoSlashIn(s: string) {
    forall i :: 0 <= i < |s| ==> s[i] != '/'
  }

  /** What every parsed URL is. */
  predicate WellFormed(u: ParsedUrl) {
    && KnownScheme(u.scheme)
    && u.host != "" && NoSlashIn(u.host)
    && 1 <= u.port <= 65535
    && StartsWith(u.path, "/")
  }

  lemma HostPortParts(hostPort: string, port: nat)
    requires NoSlashIn(hostPort) && 1 <= port <= 65535
    ensures var r := ParseHostPort(hostPort, port);
            r.Some? ==> r.value.0 != "" && NoSlashIn(r.value.0) && 1 <= r.value.1 <= 65535
  {
    hide Value, FromChars, AllDigits;
    if StartsWith(hostPort, "[") {
      var cb := FirstOf(hostPort, ']');
      if cb + 1 < |hostPort| { ParsePortIs(hostPort[cb + 2..]); }
    } else if LastOf(hostPort, ':').Some? {
      ParsePortIs(hostPort[LastOf(hostPort, ':').value + 1..]);
    }
  }

  lemma ParsedIsWellFormed(url: string)
    ensures ParseUrl(url).Some? ==>
              && WellFormed(ParseUrl(url).value)
              && (ParseUrl(url).value.scheme == "http" || ParseUrl(url).value.scheme == "https")
  {
    hide ParseHostPort;
    if ParseUrl(url).Some? {
      var schemeEnd := FindMark(url).value;
      var rest := url[schemeEnd + 3..];
      HostPortParts(rest[..FirstSlash(rest)], DefaultPort(url[..schemeEnd]));
    }
  }

  /** A scheme, a host with its port and a path are found again. */
  lemma ParseOfParts(scheme: string, hostPort: string, path: string)
    requires KnownScheme(scheme) && NoSlashIn(hostPort)
    requires StartsWith(path, "/") || (path == "" && hostPort != "")
    ensures FindMark(scheme + MARK + hostPort + path) == Some(|scheme|)
    ensures ParseUrl(scheme + MARK + hostPort + path) ==
            match ParseHostPort(hostPort, DefaultPort(scheme))
            case None => None
            case Some(hp) => Some(ParsedUrl(scheme, hp.0, hp.1, if path == "" then "/" else path))
  {
    hide ParseHostPort;
    var url := scheme + MARK + hostPort + path;
    SchemeIsFound(scheme, hostPort + path);
    assert scheme + MARK + (hostPort + path) == url;
    assert url[..|scheme|] == scheme;
    var rest := url[|scheme| + 3..];
    assert rest == hostPort + path;
    SlashIsAt(hostPort, path);
    assert rest[..|hostPort|] == hostPort && rest[|hostPort|..] == path;
  }

  /** Without a port in the text it is 80 for http and 443 for https. */
  lemma NoPortMeans(host: string, path: string)
    requires host != "" && ':' !in host && host[0] != '[' && NoSlashIn(host)
    requires path == "" || StartsWith(path, "/")
    ensures var p := if path == "" then "/" else path;
            && ParseUrl("http://" + host + path) == Some(ParsedUrl("http", host, 80, p))
            && ParseUrl("https://" + host + path) == Some(ParsedUrl("https", host, 443, p))
  {
    assert "http" + MARK == "http://" && "https" + MARK == "https://";
    assert ParseHostPort(host, 80) == Some((host, 80)) && ParseHostPort(host, 443) == Some((host, 443));
    hide ParseUrl, ParseHostPort;
    ParseOfParts("http", host, path);
    ParseOfParts("https", host, path);
  }

  lemma SlashIsAt(hostPort: string, path: string)
    requires NoSlashIn(hostPort) && (path == "" || StartsWith(path, "/"))
    ensures FirstSlash(hostPort + path) == |hostPort|
  {
    var s := hostPort + path;
    assert forall i :: 0 <= i < |hostPort| ==> s[i] == hostPort[i];
    if path == "" {
      NoSlash(s);
    } else {
      assert s[|hostPort|] == path[0];
      SlashIsFirst(s, |hostPort|);
    }
  }

  lemma MarkFound(a: string, rest: string)
    requires ':' !in a
    ensures FindMark(a + MARK + rest) == Some(|a|) && (a + MARK + rest)[..|a|] == a
  {
    var s := a + MARK + rest;
    assert MarkAt(s, |a|);
    forall i | 0 <= i < |a| ensures !MarkAt(s, i) { assert s[i] == a[i]; }
  }

  lemma SchemeIsFound(scheme: string, rest: string)
    requires KnownScheme(scheme)
    ensures FindMark(scheme + MARK + rest) == Some(|scheme|)
  {
    MarkFound(scheme, rest);
  }

  // ---------------------------------------------------------------------------
  // Printing and parsing again
  // ---------------------------------------------------------------------------

  /** The Host header: brackets around a host with a colon, and the port unless it is the one
      of the scheme. */
  lemma HostHeaderMeans(u: ParsedUrl)
    requires u.scheme == "http" || u.scheme == "https"
    ensures var host := if ':' in u.host then "[" + u.host + "]" else u.host;
            BuildHostHeader(u) ==
            if (u.scheme == "http" && u.port == 80) || (u.scheme == "https" && u.port == 443) then host
            else host + ":" + Decimal(u.port)
  {
  }

  /** The hosts that come back. */
  predicate Printable(host: string) {
    if ':' in host then ']' !in host else !StartsWith(host, "[")
  }

  lemma FirstOfAt(s: string, c: char, k: nat)
    requires k < |s| && s[k] == c && forall i :: 0 <= i < k ==> s[i] != c
    ensures FirstOf(s, c) == k
  {
  }

  lemma LastOfAt(s: string, c: char, k: nat)
    requires k < |s| && s[k] == c && forall i :: k < i < |s| ==> s[i] != c
    ensures LastOf(s, c) == Some(k)
  {
  }

  /** A host in brackets comes back exactly when it holds no closing one. */
  lemma BracketsParse(host: string, dflt: nat)
    requires host != ""
    ensures ParseHostPort("[" + host + "]", dflt) == if ']' in host then None else Some((host, dflt))
  {
    hide FromChars, Value, AllDigits;
    var s := "[" + host + "]";
    Bracketed(host, "");
    assert s + "" == s;
    if ']' in host {
      ClosedEarly(host, "");
    }
  }

  lemma BracketsPortParse(host: string, port: nat, dflt: nat)
    requires host != "" && 1 <= port <= 65535
    ensures ParseHostPort("[" + host + "]" + ":" + Decimal(port), dflt) ==
            if ']' in host then None else Some((host, port))
  {
    hide FromChars, Value, AllDigits, Decimal;
    Bracketed(host, ":" + Decimal(port));
    assert "[" + host + "]" + (":" + Decimal(port)) == "[" + host + "]" + ":" + Decimal(port);
    if ']' in host {
      ClosedEarly(host, ":" + Decimal(port));
    } else {
      var s := "[" + host + "]" + ":" + Decimal(port);
      assert s[|host| + 3..] == Decimal(port);
      PrintedPortParses(port);
    }
  }

  lemma Bracketed(host: string, tail: string)
    ensures var s := "[" + host + "]" + tail;
            && StartsWith(s, "[")
            && (']' !in host ==> FirstOf(s, ']') == |host| + 1 && s[1..|host| + 1] == host && s[|host| + 2..] == tail)
  {
    var s := "[" + host + "]" + tail;
    assert s[0] == '[';
    if ']' !in host {
      forall i | 0 <= i < |host| + 1 ensures s[i] != ']' {
        if i > 0 { assert s[i] == host[i - 1]; }
      }
      FirstOfAt(s, ']', |host| + 1);
    }
  }

  /** A closing bracket inside the host leaves one that is no part of a port. */
  lemma ClosedEarly(host: string, tail: string)
    requires ']' in host
    ensures var s := "[" + host + "]" + tail; var cb := FirstOf(s, ']');
            && cb + 1 < |s|
            && (s[cb + 1] == ':' ==> ParsePort(s[cb + 2..]) == None)
  {
    var s := "[" + host + "]" + tail;
    var j :| 0 <= j < |host| && host[j] == ']';
    assert s[j + 1] == ']' && s[|host| + 1] == ']';
    var cb := FirstOf(s, ']');
    assert cb <= j + 1;
    if s[cb + 1] == ':' {
      ParsePortIs(s[cb + 2..]);
      assert s[cb + 2..][|host| - 1 - cb] == s[|host| + 1];
      assert !AllDigits(s[cb + 2..]);
    }
  }

  lemma PlainParses(host: string, dflt: nat)
    requires host != "" && ':' !in host
    ensures ParseHostPort(host, dflt) == Some((host, dflt)) <==> !StartsWith(host, "[")
  {
    hide FromChars, Value, AllDigits;
    if StartsWith(host, "[") {
      var cb := FirstOf(host, ']');
      if cb < |host| { assert |host[1..cb]| < |host|; }
    }
  }

  lemma Shifted(s: string, host: string, end: nat)
    requires host != "" && |host| < |s| && 1 <= end <= |s|
    ensures s[1..end] == host ==> s[|host|] in host
  {
    if s[1..end] == host { assert host[|host| - 1] == s[|host|]; }
  }

  lemma PlainPortParses(host: string, port: nat, dflt: nat)
    requires host != "" && ':' !in host && 1 <= port <= 65535
    ensures ParseHostPort(host + ":" + Decimal(port), dflt) == Some((host, port)) <==> !StartsWith(host, "[")
  {
    hide FromChars, Value, Decimal;
    var s := host + ":" + Decimal(port);
    assert s[0] == host[0];
    if StartsWith(host, "[") {
      assert StartsWith(s, "[");
      var cb := FirstOf(s, ']');
      if cb < |s| { Shifted(s, host, cb); }
    } else {
      forall i | |host| < i < |s| ensures s[i] != ':' { assert s[i] == Decimal(port)[i - |host| - 1]; }
      LastOfAt(s, ':', |host|);
      assert s[..|host|] == host && s[|host| + 1..] == Decimal(port);
      PrintedPortParses(port);
    }
  }

  lemma HostHeaderParses(u: ParsedUrl)
    requires WellFormed(u)
    ensures ParseHostPort(BuildHostHeader(u), DefaultPort(u.scheme)) == Some((u.host, u.port)) <==> Printable(u.host)
    ensures NoSlashIn(BuildHostHeader(u)) && BuildHostHeader(u) != ""
  {
    hide ParseHostPort, Decimal;
    var dflt := DefaultPort(u.scheme);
    assert forall i :: 0 <= i < |Decimal(u.port)| ==> IsDigit(Decimal(u.port)[i]);
    if ':' in u.host {
      BracketsParse(u.host, dflt);
      BracketsPortParse(u.host, u.port, dflt);
    } else {
      PlainParses(u.host, dflt);
      PlainPortParses(u.host, u.port, dflt);
    }
  }

  /** A URL printed from its parts parses to the same parts, exactly when its host is
      printable: no bracket in front, and no closing bracket beside a colon. */
  lemma PrintedUrlParses(u: ParsedUrl)
    requires WellFormed(u)
    ensures ParseUrl(Printed(u)) == Some(u) <==> Printable(u.host)
  {
    hide ParseHostPort, BuildHostHeader, ParseUrl;
    HostHeaderParses(u);
    ParseOfParts(u.scheme, BuildHostHeader(u), u.path);
  }

  lemma NoBrackets(host: string)
    ensures '[' !in host && ']' !in host ==> Printable(host)
  {
    if StartsWith(host, "[") { assert host[0] == "["[0]; }
  }

  /** So every accepted URL whose host has no square brackets comes back. */
  lemma AcceptedUrlComesBack(url: string)
    requires ParseUrl(url).Some?
    ensures var u := ParseUrl(url).value;
            && WellFormed(u)
            && (ParseUrl(Printed(u)) == Some(u) <==> Printable(u.host))
            && ('[' !in u.host && ']' !in u.host ==> ParseUrl(Printed(u)) == Some(u))
  {
    hide ParseUrl;
    ParsedIsWellFormed(url);
    PrintedUrlParses(ParseUrl(url).value);
    NoBrackets(ParseUrl(url).value.host);
  }

  /** The record, and the parts of its URL. */
  lemma BracketHost(u: ParsedUrl)
    requires u == ParsedUrl("http", "a]:b", 80, "/")
    ensures WellFormed(u) && !Printable(u.host) && u.host[0] != '[' && DefaultPort("http") == 80
    ensures StartsWith("/", "/") && NoSlashIn("a]:b:80") && KnownScheme("http")
  {
    var host := u.host;
    assert host[1] == ']' && host[2] == ':';
  }

  lemma BracketUrl()
    ensures "a]:b" + ":" + Decimal(80) == "a]:b:80"
    ensures "http" + MARK + "a]:b:80" + "/" == "http://a]:b:80/"
  {
    assert Decimal(80) == "80";
  }

  /** An accepted URL that does not come back: its host is a]:b. */
  lemma BracketHostBreaks()
    ensures var u := ParsedUrl("http", "a]:b", 80, "/");
            ParseUrl("http://a]:b:80/") == Some(u) && ParseUrl(Printed(u)) != Some(u)
  {
    hide *;
    var u := ParsedUrl("http", "a]:b", 80, "/");
    BracketHost(u);
    BracketUrl();
    LastColonParses("a]:b", 80, 80);
    ParseOfParts("http", "a]:b:80", "/");
    PrintedUrlParses(u);
  }

  /** Without a bracket in front, the port stands behind the last colon. */
  lemma LastColonParses(host: string, port: nat, dflt: nat)
    requires host != "" && host[0] != '[' && 1 <= port <= 65535
    ensures ParseHostPort(host + ":" + Decimal(port), dflt) == Some((host, port))
  {
    hide FromChars, Value, Decimal;
    var s := host + ":" + Decimal(port);
    assert s[0] == host[0];
    assert s[|host| + 1..] == Decimal(port) && s[..|host|] == host;
    forall i | |host| < i < |s| ensures s[i] != ':' { assert s[i] == Decimal(port)[i - |host| - 1]; }
    LastOfAt(s, ':', |host|);
    PrintedPortParses(port);
  }

  // ---------------------------------------------------------------------------
  // Redirects
  // ---------------------------------------------------------------------------

  function SplitUrl(url: string): (string, string) {
    match FindMark(url)
    case None => (url, "/")
    case Some(schemeEnd) =>
      var pathStart := schemeEnd + 3 + FirstSlash(url[schemeEnd + 3..]);
      if pathStart == |url| then (url, "/") else (url[..pathStart], url[pathStart..])
  }

  /** A Location without its fragment. */
  function Bare(location: string): string {
    location[..FirstOf(location, '#')]
  }

  function ResolveRedirectUrl(originalUrl: string, location: string): string {
    var loc := Bare(location);
    if loc == "" then originalUrl
    else if FindMark(loc).Some? then loc
    else if StartsWith(loc, "//") then
      match FindMark(originalUrl)
      case Some(schemeEnd) => originalUrl[..schemeEnd] + ":" + loc
      case None => loc
    else
      var (base, path) := SplitUrl(originalUrl);
      if StartsWith(loc, "/") then base + loc
      else
        var basePath := match LastOf(path, '/')
                        case Some(slashPos) => if slashPos > 0 then path[..slashPos + 1] else "/"
                        case None => "/";
        base + UrlPath.Normal(basePath + loc)
  }

  /** Not a URL of its own, and no other host. */
  predicate StaysOnHost(location: string) {
    FindMark(Bare(location)).None? && !StartsWith(Bare(location), "//")
  }

  lemma Cut<T>(s: seq<T>, i: nat, j: nat)
    requires i <= j <= |s|
    ensures s == s[..i] + s[i..j] + s[j..]
    ensures forall k: nat :: k <= |s| - j ==> s[..j + k] == s[..i] + s[i..j] + s[j..][..k] && s[j + k..] == s[j..][k..]
  {
  }

  lemma CutAgain<T>(a: seq<T>, b: seq<T>, k: nat)
    requires k <= |b|
    ensures a + b == a + b[..k] + b[k..]
  {
  }

  lemma MarkIs(s: string, i: nat)
    requires MarkAt(s, i)
    ensures s[i..i + 3] == MARK
  {
  }

  lemma MarkThere(url: string)
    requires FindMark(url).Some?
    ensures var i := FindMark(url).value; i + 3 <= |url| && url[i..i + 3] == MARK
  {
    hide FindMark;
    var i := FindMark(url).value;
    MarkIs(url, i);
  }

  lemma EmptyHostFails(port: nat)
    ensures ParseHostPort("", port) == None
  {
  }

  ghost predicate PartsOf(url: string, u: ParsedUrl, hostPort: string, path: string) {
    && KnownScheme(u.scheme) && NoSlashIn(hostPort) && hostPort != ""
    && (path == "" || StartsWith(path, "/"))
    && ParseHostPort(hostPort, DefaultPort(u.scheme)) == Some((u.host, u.port))
    && u.path == (if path == "" then "/" else path)
  }

  /** The parts of an accepted URL. */
  lemma AcceptedParts(url: string) returns (hostPort: string, path: string)
    requires ParseUrl(url).Some?
    ensures var u := ParseUrl(url).value;
            && PartsOf(url, u, hostPort, path)
            && url == u.scheme + MARK + hostPort + path
            && SplitUrl(url) == (u.scheme + MARK + hostPort, u.path)
  {
    hide *;
    SchemeOf(url);
    MarkThere(url);
    var schemeEnd := FindMark(url).value;
    var rest := url[schemeEnd + 3..];
    var k := FirstSlash(rest);
    hostPort, path := rest[..k], rest[k..];
    AcceptedPartsOf(url, schemeEnd, rest, k);
    Cut(url, schemeEnd, schemeEnd + 3);
    CutAgain(url[..schemeEnd] + MARK, rest, k);
    SplitUrlIs(url, schemeEnd, rest, k);
    PathOf(url, ParseUrl(url).value, hostPort, path);
  }

  lemma SplitUrlIs(url: string, schemeEnd: nat, rest: string, k: nat)
    requires FindMark(url) == Some(schemeEnd) && schemeEnd + 3 <= |url| && rest == url[schemeEnd + 3..]
             && k == FirstSlash(rest)
    ensures schemeEnd + 3 + k <= |url|
    ensures SplitUrl(url) == (if k == |rest| then url else url[..schemeEnd + 3 + k],
                              if k == |rest| then "/" else url[schemeEnd + 3 + k..])
    ensures k == |rest| ==> url == url[..schemeEnd + 3 + k] && rest[k..] == ""
    ensures k < |rest| ==> rest[k..] != ""
  {
    hide *;
    SplitUnfolds(url, schemeEnd);
    TailEnds(url, schemeEnd + 3);
    TailEnds(rest, k);
  }

  lemma {:induction false} SplitUnfolds(url: string, schemeEnd: nat)
    requires FindMark(url) == Some(schemeEnd) && schemeEnd + 3 <= |url|
    ensures var pathStart := schemeEnd + 3 + FirstSlash(url[schemeEnd + 3..]);
            && pathStart <= |url|
            && SplitUrl(url) == if pathStart == |url| then (url, "/") else (url[..pathStart], url[pathStart..])
  {
    hide FindMark, FirstSlash;
  }

  lemma TailEnds<T>(s: seq<T>, i: nat)
    requires i <= |s|
    ensures |s[i..]| == |s| - i && s[..|s|] == s
    ensures i == |s| ==> s[i..] == []
    ensures i < |s| ==> s[i..] != []
  {
  }

  lemma PathOf(url: string, u: ParsedUrl, hostPort: string, path: string)
    requires PartsOf(url, u, hostPort, path)
    ensures u.path == if path == "" then "/" else path
  {
    hide ParseHostPort, KnownScheme;
  }

  lemma CutBeforeSlash(rest: string, k: nat)
    requires k == FirstSlash(rest)
    ensures k <= |rest| && NoSlashIn(rest[..k]) && (rest[k..] == "" || StartsWith(rest[k..], "/"))
    ensures rest[k..] == "" <==> k == |rest|
  {
  }

  lemma {:induction false} AcceptedPartsOf(url: string, schemeEnd: nat, rest: string, k: nat)
    requires ParseUrl(url).Some? && FindMark(url) == Some(schemeEnd) && rest == url[schemeEnd + 3..]
             && k == FirstSlash(rest)
    ensures PartsOf(url, ParseUrl(url).value, rest[..k], rest[k..])
    ensures ParseUrl(url).value.scheme == url[..schemeEnd]
  {
    hide ParseHostPort, FindMark, KnownScheme, FirstSlash, DefaultPort, NoSlashIn, StartsWith;
    CutBeforeSlash(rest, k);
    EmptyHostFails(DefaultPort(url[..schemeEnd]));
  }

  lemma NormalStarts(path: string)
    ensures StartsWith(UrlPath.Normal(path), "/")
  {
    UrlPath.NormalForm(path);
  }

  /** The path that a Location names, from a path with a slash in front. */
  function Target(path: string, loc: string): string
    requires StartsWith(path, "/")
  {
    assert path[0] == '/';
    if loc == "" then path
    else if StartsWith(loc, "/") then loc
    else UrlPath.Normal(path[..LastOf(path, '/').value + 1] + loc)
  }

  lemma TargetStarts(path: string, loc: string)
    requires StartsWith(path, "/")
    ensures StartsWith(Target(path, loc), "/")
  {
    hide UrlPath.Normal;
    assert path[0] == '/';
    if loc != "" && !StartsWith(loc, "/") {
      NormalStarts(path[..LastOf(path, '/').value + 1] + loc);
    }
  }

  lemma ResolveIs(url: string, location: string, base: string, path: string)
    requires SplitUrl(url) == (base, path) && StartsWith(path, "/") && StaysOnHost(location) && Bare(location) != ""
    ensures ResolveRedirectUrl(url, location) == base + Target(path, Bare(location))
  {
    hide UrlPath.Normal, SplitUrl, FindMark, Bare;
    assert path[0] == '/';
    var slash := LastOf(path, '/').value;
    if slash == 0 { assert path[..1] == "/"; }
  }

  lemma FirstParts(url: string, u: ParsedUrl, hostPort: string, path: string)
    requires PartsOf(url, u, hostPort, path)
    ensures KnownScheme(u.scheme) && NoSlashIn(hostPort) && StartsWith(u.path, "/")
    ensures ParseHostPort(hostPort, DefaultPort(u.scheme)) == Some((u.host, u.port))
  {
    hide ParseHostPort, KnownScheme;
  }

  /** Such a redirect keeps scheme, host and port, and leads to the path that the Location
      names. */
  lemma RedirectKeepsOrigin(url: string, location: string)
    requires ParseUrl(url).Some? && StaysOnHost(location)
    ensures WellFormed(ParseUrl(url).value)
    ensures var u := ParseUrl(url).value;
            ParseUrl(ResolveRedirectUrl(url, location)) == Some(u.(path := Target(u.path, Bare(location))))
  {
    ParsedIsWellFormed(url);
    var u, loc := ParseUrl(url).value, Bare(location);
    if loc != "" {
      hide ParseUrl, ParseHostPort, FindMark, Target, ResolveRedirectUrl, StaysOnHost, SplitUrl;
      var hostPort, path := AcceptedParts(url);
      FirstParts(url, u, hostPort, path);
      ResolveIs(url, location, u.scheme + MARK + hostPort, u.path);
      TargetStarts(u.path, loc);
      ParseOfParts(u.scheme, hostPort, Target(u.path, loc));
    }
  }

  /** The fragment of a Location does not count, and without anything else it leads to the
      same URL. */
  lemma FragmentDropped(url: string, location: string, fragment: string)
    requires '#' !in location
    ensures ResolveRedirectUrl(url, location + "#" + fragment) == ResolveRedirectUrl(url, location)
    ensures ResolveRedirectUrl(url, "#" + fragment) == url && ResolveRedirectUrl(url, "") == url
  {
    BareIs(location, fragment);
    BareIs("", fragment);
    NoHash("");
    assert "" + "#" + fragment == "#" + fragment;
    hide Bare, SplitUrl, UrlPath.Normal, FindMark;
  }

  lemma BareIs(location: string, fragment: string)
    requires '#' !in location
    ensures Bare(location + "#" + fragment) == location && Bare(location) == location
  {
    var s := location + "#" + fragment;
    assert s[|location|] == '#';
    forall i | 0 <= i < |location| ensures s[i] != '#' { assert s[i] == location[i]; }
  }

  lemma ResolveOtherHost(url: string, location: string)
    requires FindMark(url).Some? && FindMark(Bare(location)).None? && StartsWith(Bare(location), "//")
    ensures |Bare(location)| >= 2
    ensures ResolveRedirectUrl(url, location) == url[..FindMark(url).value] + ":" + Bare(location)
  {
    hide FindMark, Bare, SplitUrl, UrlPath.Normal;
  }

  /** What stands in front of "://", if it is there at all, is no scheme. */
  predicate NamesNoScheme(s: string) {
    FindMark(s).Some? ==> !KnownScheme(s[..FindMark(s).value])
  }

  /** A Location that names neither scheme nor host, a relative one too, leads to the same
      origin if and only if it holds no "://", in a query for example: with one it is returned
      as it is, and is no URL. */
  lemma RedirectExactly(url: string, location: string)
    requires ParseUrl(url).Some? && NamesNoScheme(Bare(location)) && !StartsWith(Bare(location), "//")
    ensures WellFormed(ParseUrl(url).value)
    ensures var u, r := ParseUrl(url).value, ParseUrl(ResolveRedirectUrl(url, location));
            && (FindMark(Bare(location)).None? <==> r.Some?)
            && (r.Some? ==> r.value == u.(path := Target(u.path, Bare(location))))
  {
    var loc := Bare(location);
    ParsedIsWellFormed(url);
    hide Target;
    if FindMark(loc).None? {
      RedirectKeepsOrigin(url, location);
    } else {
      ReturnedAsIs(url, location);
    }
  }

  /** So a Location with exactly one slash in front. */
  lemma PathRedirectExactly(url: string, location: string)
    requires ParseUrl(url).Some? && StartsWith(Bare(location), "/") && !StartsWith(Bare(location), "//")
    ensures var u, r := ParseUrl(url).value, ParseUrl(ResolveRedirectUrl(url, location));
            && (FindMark(Bare(location)).None? <==> r.Some?)
            && (r.Some? ==> r.value == u.(path := Bare(location)))
  {
    SlashNoScheme(Bare(location));
    RedirectExactly(url, location);
  }

  lemma {:induction false} NotTwoSlashes(a: string, rest: string)
    requires a != "" && !StartsWith(a, "//")
    ensures !StartsWith(a + MARK + rest, "//")
  {
    var s := a + MARK + rest;
    assert s[0] == a[0] && s[1] == if |a| > 1 then a[1] else ':';
  }

  lemma {:induction false} NoScheme(a: string, rest: string)
    requires ':' !in a && !KnownScheme(a)
    ensures NamesNoScheme(a + MARK + rest) && FindMark(a + MARK + rest).Some?
  {
    hide FindMark, KnownScheme;
    MarkFound(a, rest);
  }

  lemma {:induction false} NoHashInside(a: string, rest: string)
    requires '#' !in a && '#' !in rest
    ensures '#' !in a + MARK + rest
  {
  }

  lemma {:induction false} MarkBreaks(url: string, a: string, rest: string)
    requires ParseUrl(url).Some? && a != "" && ':' !in a && '#' !in a && '#' !in rest
    requires !KnownScheme(a) && !StartsWith(a, "//")
    ensures ParseUrl(ResolveRedirectUrl(url, a + MARK + rest)) == None
  {
    hide *;
    NoScheme(a, rest);
    NotTwoSlashes(a, rest);
    NoHashInside(a, rest);
    NoHash(a + MARK + rest);
    RedirectExactly(url, a + MARK + rest);
  }

  lemma NoHash(s: string)
    requires '#' !in s
    ensures Bare(s) == s
  {
  }

  /** For example, from any URL. */
  lemma MarkInQuery(url: string)
    requires ParseUrl(url).Some?
    ensures ParseUrl(ResolveRedirectUrl(url, "/login?next=http://x")) == None
    ensures ParseUrl(ResolveRedirectUrl(url, "login?next=http://x")) == None
  {
    hide ParseUrl, ResolveRedirectUrl, FindMark;
    assert "/login?next=http" + MARK + "x" == "/login?next=http://x";
    assert "login?next=http" + MARK + "x" == "login?next=http://x";
    assert "/login?next=http"[1] != '/';
    MarkBreaks(url, "/login?next=http", "x");
    MarkBreaks(url, "login?next=http", "x");
  }

  lemma ReturnedAsIs(url: string, location: string)
    requires Bare(location) != "" && FindMark(Bare(location)).Some?
    ensures ResolveRedirectUrl(url, location) == Bare(location)
  {
    hide FindMark, Bare, SplitUrl, UrlPath.Normal;
  }

  lemma SlashNoScheme(s: string)
    requires StartsWith(s, "/")
    ensures NamesNoScheme(s)
  {
    assert s[0] == '/';
    if FindMark(s).Some? {
      var k := FindMark(s).value;
      if k > 0 { assert s[..k][0] == '/'; }
    }
  }

  /** A Location with "//" in front keeps the scheme and names another host. */
  lemma RedirectKeepsScheme(url: string, location: string)
    requires ParseUrl(url).Some? && FindMark(Bare(location)).None? && StartsWith(Bare(location), "//")
    ensures |Bare(location)| >= 2
    ensures var u := ParseUrl(url).value; var rest := Bare(location)[2..];
            && ResolveRedirectUrl(url, location) == u.scheme + MARK + rest
            && FindMark(ResolveRedirectUrl(url, location)) == Some(|u.scheme|)
            && (ParseUrl(ResolveRedirectUrl(url, location)).Some? ==>
                  ParseUrl(ResolveRedirectUrl(url, location)).value.scheme == u.scheme)
  {
    hide *;
    SchemeOf(url);
    ResolveOtherHost(url, location);
    var u, rest := ParseUrl(url).value, Bare(location)[2..];
    TwoSlashes(Bare(location));
    MarkSpelled();
    JoinsFour(u.scheme, ":", "//", rest);
    SchemeIsFound(u.scheme, rest);
    var to := u.scheme + MARK + rest;
    Joins(u.scheme, MARK, rest);
    FrontOf(u.scheme, MARK + rest);
    if ParseUrl(to).Some? { SchemeOf(to); }
  }

  lemma MarkSpelled()
    ensures ":" + "//" == MARK
  {
  }

  lemma TwoSlashes(s: string)
    requires StartsWith(s, "//")
    ensures s == "//" + s[2..]
  {
  }

  lemma FrontOf<T>(a: seq<T>, b: seq<T>)
    ensures (a + b)[..|a|] == a
  {
  }

  lemma SchemeOf(url: string)
    requires ParseUrl(url).Some?
    ensures FindMark(url).Some? && ParseUrl(url).value.scheme == url[..FindMark(url).value]
    ensures KnownScheme(ParseUrl(url).value.scheme)
  {
    hide ParseHostPort, FindMark, KnownScheme;
  }

  /** The directory of a path with a slash in front. */
  function Directory(path: string): string
    requires StartsWith(path, "/")
  {
    assert path[0] == '/';
    path[..LastOf(path, '/').value]
  }

  lemma RelativeTarget(path: string, loc: string)
    requires StartsWith(path, "/") && loc != "" && !StartsWith(loc, "/")
    ensures Target(path, loc) == UrlPath.Normal(Directory(path) + "/" + loc)
  {
    hide UrlPath.Normal;
    assert path[0] == '/';
    var slash := LastOf(path, '/').value;
    assert path[..slash + 1] == path[..slash] + "/";
  }

  /** A relative Location lands in a path without dots, at the place it leads to from the
      directory of the old path. */
  lemma RelativeRedirectWalks(url: string, location: string)
    requires ParseUrl(url).Some? && StaysOnHost(location)
    requires Bare(location) != "" && !StartsWith(Bare(location), "/")
    ensures StartsWith(ParseUrl(url).value.path, "/")
    ensures var dir := Directory(ParseUrl(url).value.path);
            var r := ParseUrl(ResolveRedirectUrl(url, location));
            && r.Some?
            && r.value.path == UrlPath.Normal(dir + "/" + Bare(location))
            && Segments(r.value.path) == UrlPath.Walk(UrlPath.Walk([], Segments(dir)), Segments(Bare(location)))
            && UrlPath.NoDots(Segments(r.value.path))
  {
    hide ParseUrl, ResolveRedirectUrl, StaysOnHost, Bare, KnownScheme, Directory, StartsWith, Target, UrlPath.Normal;
    RedirectKeepsOrigin(url, location);
    var u, loc := ParseUrl(url).value, Bare(location);
    RelativeTarget(u.path, loc);
    var dir := Directory(u.path);
    SegmentsSplit(dir, loc);
    UrlPath.WalkSplit([], Segments(dir), Segments(loc));
    UrlPath.NormalForm(dir + "/" + loc);
  }

  /** The directory ends in front of the last slash, which may stand inside a query. */
  lemma DirectoryEnds(a: string, b: string)
    requires StartsWith(a + "/" + b, "/") && '/' !in b
    ensures Directory(a + "/" + b) == a
  {
    var path := a + "/" + b;
    forall i | |a| < i < |path| ensures path[i] != '/' { assert path[i] == b[i - |a| - 1]; }
    LastOfAt(path, '/', |a|);
  }

  lemma SlashInQuery()
    ensures Directory("/a?from=/b/c") == "/a?from=/b"
  {
    assert "/a?from=/b" + "/" + "c" == "/a?from=/b/c";
    DirectoryEnds("/a?from=/b", "c");
  }
}
