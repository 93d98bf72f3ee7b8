/** Which texts parseUrl of src/http_client.cpp accepts, and as what. */
module UrlGrammar {
  import opened Basics
  import opened Digits
  import opened UrlParse

  /** Digits for a port in range. */
  ghost predicate PortText(t: string, port: nat) {
    t != "" && AllDigits(t) && Value(t) == port && 1 <= port <= 65535
  }

  /** A host in brackets, without a closing one inside. */
  ghost predicate InBrackets(s: string, dflt: nat, host: string, port: nat) {
    && ']' !in host
    && ((s == "[" + host + "]" && port == dflt) || exists t :: s == "[" + host + "]:" + t && PortText(t, port))
  }

  /** A host without brackets: a port stands behind the last colon, if there is one. */
  ghost predicate WithoutBrackets(s: string, dflt: nat, host: string, port: nat) {
    && !StartsWith(s, "[")
    && ((s == host && ':' !in s && port == dflt) || exists t :: s == host + ":" + t && ':' !in t && PortText(t, port))
  }

  /** What stands for a host, and a port that is not the default one of the scheme. */
  ghost predicate IsAuthority(s: string, dflt: nat, host: string, port: nat) {
    host != "" && (InBrackets(s, dflt, host, port) || WithoutBrackets(s, dflt, host, port))
  }

  lemma PortIs(t: string, port: nat)
    ensures ParsePort(t) == Some(port) <==> PortText(t, port)
  {
    ParsePortIs(t);
  }

  /** What is made of a host in brackets and what stands behind. */
  lemma BracketsParsed(host: string, tail: string, dflt: nat)
    requires ']' !in host && host != ""
    ensures ParseHostPort("[" + (host + ("]" + tail)), dflt) ==
            if tail == "" then Some((host, dflt))
            else if tail[0] != ':' then None
            else match ParsePort(tail[1..]) case Some(p) => Some((host, p)) case None => None
  {
    hide FromChars, Value, AllDigits, ParsePort, FirstOf, LastOf;
    CloseIs(host, tail);
    var s := "[" + (host + ("]" + tail));
    assert StartsWith(s, "[");
    if tail != "" { assert s[|host| + 2] == tail[0] && s[|host| + 3..] == tail[1..]; }
  }

  /** A text with a bracket in front is a host in brackets with something behind, or not closed. */
  lemma OpenBracket(s: string) returns (host: string, tail: string)
    requires StartsWith(s, "[") && ']' in s
    ensures s == "[" + (host + ("]" + tail)) && ']' !in host
  {
    var cb := FirstOf(s, ']');
    assert s[0] == '[';
    host, tail := s[1..cb], s[cb + 1..];
    CutAt(s, cb);
    forall i | 0 <= i < |host| ensures host[i] != ']' { assert host[i] == s[1 + i]; }
    Joins("[" + host, "]", tail);
    Joins("[", host, "]" + tail);
  }

  lemma NotClosed(s: string, dflt: nat)
    requires StartsWith(s, "[") && ']' !in s
    ensures ParseHostPort(s, dflt) == None
  {
    hide ParsePort, LastOf;
  }

  lemma BracketsEmpty(tail: string, dflt: nat, host: string, port: nat)
    requires host != ""
    ensures ParseHostPort("[" + ("" + ("]" + tail)), dflt) != Some((host, port))
  {
    hide FromChars, Value, AllDigits, ParsePort, FirstOf, LastOf;
    CloseIs("", tail);
    assert StartsWith("[" + ("" + ("]" + tail)), "[");
  }

  lemma BracketsExactly(s: string, dflt: nat, host: string, port: nat)
    requires StartsWith(s, "[") && host != ""
    ensures ParseHostPort(s, dflt) == Some((host, port)) <==> InBrackets(s, dflt, host, port)
  {
    hide ParseHostPort, ParsePort, PortText;
    if ']' !in s {
      NotClosed(s, dflt);
      ClosedInside(s, dflt, host, port);
    } else {
      var h, tail := OpenBracket(s);
      BracketsAre(h, tail, dflt, host, port);
      if h == "" {
        BracketsEmpty(tail, dflt, host, port);
      } else {
        BracketsParsed(h, tail, dflt);
        if tail != "" { PortIs(tail[1..], port); }
      }
    }
  }

  lemma ClosedInside(s: string, dflt: nat, host: string, port: nat)
    requires ']' !in s
    ensures !InBrackets(s, dflt, host, port)
  {
    assert s != "[" + host + "]" by { assert ("[" + host + "]")[|host| + 1] == ']'; }
    forall t: string ensures s != "[" + host + "]:" + t { assert ("[" + host + "]:" + t)[|host| + 1] == ']'; }
  }

  /** The first closing bracket ends the host. */
  lemma SameHost(h: string, tail: string, host: string, more: string)
    requires ']' !in h && ']' !in host && "[" + (h + ("]" + tail)) == "[" + (host + ("]" + more))
    ensures h == host && tail == more
  {
    CloseIs(h, tail);
    CloseIs(host, more);
    assert tail == ("[" + (h + ("]" + tail)))[|h| + 2..] && more == ("[" + (host + ("]" + more)))[|host| + 2..];
  }

  lemma BracketsAre(h: string, tail: string, dflt: nat, host: string, port: nat)
    requires ']' !in h
    ensures InBrackets("[" + (h + ("]" + tail)), dflt, host, port) <==>
            h == host && ((tail == "" && port == dflt) || (tail != "" && tail[0] == ':' && PortText(tail[1..], port)))
  {
    hide PortText, FirstOf;
    var s := "[" + (h + ("]" + tail));
    if InBrackets(s, dflt, host, port) {
      if s == "[" + host + "]" && port == dflt {
        assert "[" + host + "]" == "[" + (host + ("]" + ""));
        SameHost(h, tail, host, "");
      } else {
        var t :| s == "[" + host + "]:" + t && PortText(t, port);
        assert "[" + host + "]:" + t == "[" + (host + ("]" + (":" + t)));
        SameHost(h, tail, host, ":" + t);
        assert tail[1..] == t;
      }
    }
    if tail == "" { assert s == "[" + h + "]"; }
    if tail != "" && tail[0] == ':' {
      assert tail == ":" + tail[1..];
      assert s == "[" + h + "]:" + tail[1..];
    }
  }

  lemma CutAt(s: string, cb: nat)
    requires 0 < cb < |s| && s[0] == '[' && s[cb] == ']'
    ensures s == "[" + s[1..cb] + "]" + s[cb + 1..]
    ensures cb + 1 == |s| ==> s == "[" + s[1..cb] + "]"
  {
  }

  lemma CloseIs(host: string, tail: string)
    requires ']' !in host
    ensures var s := "[" + (host + ("]" + tail));
            FirstOf(s, ']') == |host| + 1 && s[1..|host| + 1] == host && |s| == |host| + 2 + |tail|
  {
    var s := "[" + (host + ("]" + tail));
    assert s[|host| + 1] == ']';
    forall i | 0 <= i < |host| + 1 ensures s[i] != ']' {
      if i > 0 { assert s[i] == host[i - 1]; }
    }
    FirstOfAt(s, ']', |host| + 1);
  }

  lemma BareExactly(s: string, dflt: nat, host: string, port: nat)
    requires !StartsWith(s, "[") && host != ""
    ensures ParseHostPort(s, dflt) == Some((host, port)) <==> WithoutBrackets(s, dflt, host, port)
  {
    hide FromChars, Value, AllDigits, ParsePort, PortText, FirstOf;
    if t :| s == host + ":" + t && ':' !in t && PortText(t, port) {
      assert s[|host|] == ':' && s[..|host|] == host && s[|host| + 1..] == t;
      forall i | |host| < i < |s| ensures s[i] != ':' { assert s[i] == t[i - |host| - 1]; }
      LastOfAt(s, ':', |host|);
      PortIs(t, port);
    }
    if ParseHostPort(s, dflt) == Some((host, port)) && LastOf(s, ':').Some? {
      var colon := LastOf(s, ':').value;
      assert s == s[..colon] + ":" + s[colon + 1..];
      PortIs(s[colon + 1..], port);
      assert ':' !in s[colon + 1..];
    }
  }

  lemma AuthorityExactly(s: string, dflt: nat, host: string, port: nat)
    ensures ParseHostPort(s, dflt) == Some((host, port)) <==> IsAuthority(s, dflt, host, port)
  {
    hide ParseHostPort;
    if host == "" {
      NoEmptyHost(s, dflt, port);
    } else if StartsWith(s, "[") {
      BracketsExactly(s, dflt, host, port);
      assert !WithoutBrackets(s, dflt, host, port);
    } else {
      BareExactly(s, dflt, host, port);
      NotInBrackets(s, dflt, host, port);
    }
  }

  lemma NoEmptyHost(s: string, dflt: nat, port: nat)
    ensures ParseHostPort(s, dflt) != Some(("", port))
  {
    hide FromChars, ParsePort;
  }

  lemma NotInBrackets(s: string, dflt: nat, host: string, port: nat)
    requires !StartsWith(s, "[")
    ensures !InBrackets(s, dflt, host, port)
  {
  }

  /** A URL: scheme, "://", authority, and a path that is empty or begins with a slash. */
  ghost predicate IsUrl(url: string, u: ParsedUrl, authority: string, path: string) {
    && (u.scheme == "http" || u.scheme == "https")
    && url == u.scheme + "://" + authority + path
    && (forall i :: 0 <= i < |authority| ==> authority[i] != '/')
    && (path == "" || StartsWith(path, "/")) && u.path == (if path == "" then "/" else path)
    && IsAuthority(authority, if u.scheme == "https" then 443 else 80, u.host, u.port)
  }

  /** What is accepted, and as what: exactly the texts of this form. */
  lemma AcceptedExactly(url: string, u: ParsedUrl)
    ensures ParseUrl(url) == Some(u) <==> exists authority, path :: IsUrl(url, u, authority, path)
  {
    if ParseUrl(url) == Some(u) {
      hide ParseUrl, ParseHostPort, SplitUrl, IsAuthority;
      var authority, path := AcceptedParts(url);
      AuthorityExactly(authority, DefaultPort(u.scheme), u.host, u.port);
      assert IsUrl(url, u, authority, path);
    }
    if authority, path :| IsUrl(url, u, authority, path) {
      IsAccepted(url, u, authority, path);
    }
  }

  lemma IsAccepted(url: string, u: ParsedUrl, authority: string, path: string)
    requires IsUrl(url, u, authority, path)
    ensures ParseUrl(url) == Some(u)
  {
    AuthorityExactly(authority, DefaultPort(u.scheme), u.host, u.port);
    AuthorityThere(authority, DefaultPort(u.scheme), u.host, u.port);
    hide ParseUrl, ParseHostPort, IsAuthority;
    ParseOfParts(u.scheme, authority, path);
  }

  lemma AuthorityThere(s: string, dflt: nat, host: string, port: nat)
    requires IsAuthority(s, dflt, host, port)
    ensures s != ""
  {
  }
}
