/**
 * A deliberately simplified model of Go's `url.Parse`, reduced to the two
 * fields the middleware looks at: the scheme and the host. Errors Parse reports
 * inside the authority, the path or the fragment (bad ports, bad percent
 * escapes, bad user info, bad IPv6 literals) are not modelled.
 */
module GoUrl {
  import opened GoStrings
  import GoNet

  predicate IsLetter(c: char) { 'a' <= c <= 'z' || 'A' <= c <= 'Z' }

  /** What url.Parse refuses outright: an ASCII control byte. */
  predicate IsCTL(c: char) { c < ' ' || c == '\U{007F}' }

  predicate SchemeChar(c: char) {
    IsLetter(c) || GoNet.IsDigit(c) || c == '+' || c == '-' || c == '.'
  }

  /** The three outcomes of url's getScheme. */
  datatype SchemeSplit =
    | NoScheme                               // no scheme: the whole text is a path
    | MissingScheme                          // a ':' in first position: Parse fails
    | HasScheme(scheme: string, rest: string)

  /** getScheme: scan letters (then letters, digits, '+', '-', '.') up to the first ':'. */
  function GetScheme(s: string): (r: SchemeSplit)
    ensures r.HasScheme? ==> s == r.scheme + ":" + r.rest
    ensures r.HasScheme? ==> |r.scheme| >= 1 && IsLetter(r.scheme[0])
    ensures r.HasScheme? ==> forall k :: 0 <= k < |r.scheme| ==> SchemeChar(r.scheme[k])
  {
    SchemeFrom(s, 0)
  }

  function SchemeFrom(s: string, i: nat): (r: SchemeSplit)
    requires i <= |s|
    requires i > 0 ==> IsLetter(s[0])
    requires forall k :: 0 <= k < i ==> SchemeChar(s[k])
    ensures r.HasScheme? ==> s == r.scheme + ":" + r.rest
    ensures r.HasScheme? ==> |r.scheme| >= 1 && IsLetter(r.scheme[0])
    ensures r.HasScheme? ==> forall k :: 0 <= k < |r.scheme| ==> SchemeChar(r.scheme[k])
    decreases |s| - i
  {
    if i == |s| then NoScheme
    else
      var c := s[i];
      if IsLetter(c) then SchemeFrom(s, i + 1)
      else if GoNet.IsDigit(c) || c == '+' || c == '-' || c == '.' then
        if i == 0 then NoScheme else SchemeFrom(s, i + 1)
      else if c == ':' then
        if i == 0 then MissingScheme
        else
          assert s == s[..i] + ":" + s[i + 1..];
          HasScheme(s[..i], s[i + 1..])
      else NoScheme
  }

  /** The host url.Parse reports: the authority after "//", up to the next '/', without user info. */
  function AuthorityHost(afterSlashes: string): string {
    var authority := afterSlashes[..IndexOf(afterSlashes, '/')];
    authority[GoNet.LastIndex(authority, '@') + 1..]
  }

  /**
   * Whether url.Parse(s) succeeds with a non-empty scheme and a non-empty host
   * (the middleware's isURL). The fragment is cut at the first '#', then the
   * query at the first '?'; the host follows a leading "//".
   */
  predicate HasSchemeAndHost(s: string) {
    WithoutFragment(s[..IndexOf(s, '#')])
  }

  /** The same test on the text before the fragment. */
  predicate WithoutFragment(u: string) {
    (forall k :: 0 <= k < |u| ==> !IsCTL(u[k])) &&
    match GetScheme(u)
    case HasScheme(_, rest) =>
      var r := rest[..IndexOf(rest, '?')];
      |r| >= 2 && r[..2] == "//" && AuthorityHost(r[2..]) != ""
    case _ => false
  }

  /** Every URL in this sense begins with a scheme and "://". */
  lemma URLShape(s: string) returns (i: nat)
    requires HasSchemeAndHost(s)
    ensures 0 < i && i + 3 <= |s| && s[i..i + 3] == "://"
    ensures IsLetter(s[0]) && forall k :: 0 <= k < i ==> SchemeChar(s[k])
  {
    var u := s[..IndexOf(s, '#')];
    i := SchemeShape(u);
    assert forall k :: 0 <= k < |u| ==> s[k] == u[k];
    assert s[i..i + 3] == u[i..i + 3];
  }

  /** The same shape for the text before the fragment. */
  lemma SchemeShape(u: string) returns (i: nat)
    requires WithoutFragment(u)
    ensures 0 < i && i + 3 <= |u| && u[i..i + 3] == "://"
    ensures IsLetter(u[0]) && forall k :: 0 <= k < i ==> SchemeChar(u[k])
  {
    var sch := GetScheme(u);
    var scheme, rest := sch.scheme, sch.rest;
    i := |scheme|;
    var r := rest[..IndexOf(rest, '?')];
    assert rest[..2] == r[..2];
    assert u == scheme + ":" + rest;
    assert u[i + 1..i + 3] == rest[..2];
    assert forall k :: 0 <= k < i ==> u[k] == scheme[k];
  }

  /** Text that starts with '/' or '.' (an absolute or relative file path) is not a URL. */
  lemma PathsAreNotURLs(s: string)
    requires s == [] || s[0] == '/' || s[0] == '.'
    ensures !HasSchemeAndHost(s)
  {
    if HasSchemeAndHost(s) {
      var i := URLShape(s);
    }
  }

  /** Text without a ':' is not a URL. */
  lemma ColonlessIsNotURL(s: string)
    requires ':' !in s
    ensures !HasSchemeAndHost(s)
  {
    if HasSchemeAndHost(s) {
      var i := URLShape(s);
      SeparatorHasColon(s, i);
      assert false;
    }
  }

  lemma SeparatorHasColon(s: string, i: nat)
    requires i + 3 <= |s| && s[i..i + 3] == "://"
    ensures ':' in s
  {
    assert s[i] == s[i..i + 3][0];
  }

  /** getScheme stops at the first ':' after a run of scheme characters. */
  lemma {:induction false} SchemeFromColon(s: string, i: nat, n: nat)
    requires 0 < n < |s| && s[n] == ':' && i <= n
    requires IsLetter(s[0])
    requires forall k :: 0 <= k < n ==> SchemeChar(s[k])
    ensures SchemeFrom(s, i) == HasScheme(s[..n], s[n + 1..])
    decreases n - i
  {
    if i < n {
      SchemeFromColon(s, i + 1, n);
    }
  }

  /** The host of an authority without '/' or '@', followed by nothing or a path. */
  lemma HostBeforePath(host: string, path: string)
    requires '/' !in host && '@' !in host
    requires path == [] || path[0] == '/'
    ensures AuthorityHost(host + path) == host
  {
    IndexOfSkip(host, path, '/');
    assert (host + path)[..|host|] == host;
  }

  /** Cutting at the first `c` after a prefix that lacks `c` keeps the prefix. */
  lemma CutAfter(a: string, b: string, c: char)
    requires c !in a
    ensures (a + b)[..IndexOf(a + b, c)] == a + b[..IndexOf(b, c)]
  {
    IndexOfSkip(a, b, c);
  }

  /** getScheme splits "scheme:rest" at the ':' that ends a well-formed scheme. */
  lemma GetSchemeOf(scheme: string, rest: string)
    requires |scheme| >= 1 && IsLetter(scheme[0])
    requires forall k :: 0 <= k < |scheme| ==> SchemeChar(scheme[k])
    ensures GetScheme(scheme + ":" + rest) == HasScheme(scheme, rest)
  {
    var u := scheme + ":" + rest;
    SchemeFromColon(u, 0, |scheme|);
    assert u[..|scheme|] == scheme && u[|scheme| + 1..] == rest;
  }

  /** After "//", the query cut leaves the host, and the host is what AuthorityHost finds. */
  lemma AuthorityOf(host: string, t1: string)
    requires |host| >= 1 && '/' !in host && '@' !in host && '?' !in host
    requires t1 == [] || t1[0] == '/' || t1[0] == '?'
    ensures var rest := "//" + host + t1;
            var r := rest[..IndexOf(rest, '?')];
            |r| >= 2 && r[..2] == "//" && AuthorityHost(r[2..]) == host
  {
    var t2 := QueryCut(host, t1);
    var r := "//" + host + t2;
    HostBeforePath(host, t2);
    assert r[2..] == host + t2;
    assert r[..2] == "//";
  }

  /** Cutting "//host" + t1 at its first '?' leaves "//host" and a path. */
  lemma QueryCut(host: string, t1: string) returns (t2: string)
    requires '?' !in host
    requires t1 == [] || t1[0] == '/' || t1[0] == '?'
    ensures var rest := "//" + host + t1;
            rest[..IndexOf(rest, '?')] == "//" + host + t2
    ensures t2 == [] || t2[0] == '/'
  {
    assert '?' !in "//" + host by {
      forall k | 0 <= k < |host| + 2 ensures ("//" + host)[k] != '?' {
        if k >= 2 { assert ("//" + host)[k] == host[k - 2]; }
      }
    }
    CutAfter("//" + host, t1, '?');
    t2 := t1[..IndexOf(t1, '?')];
    assert t2 == [] || t2[0] == '/' by {
      if t2 != [] { assert t2[0] == t1[0]; }
    }
  }

  /** The part of BuiltURL after the fragment is cut. */
  lemma BuiltWithoutFragment(scheme: string, host: string, t1: string)
    requires |scheme| >= 1 && IsLetter(scheme[0])
    requires forall k :: 0 <= k < |scheme| ==> SchemeChar(scheme[k])
    requires |host| >= 1 && '/' !in host && '@' !in host && '?' !in host
    requires t1 == [] || t1[0] == '/' || t1[0] == '?'
    requires forall k :: 0 <= k < |scheme + "://" + host + t1| ==> !IsCTL((scheme + "://" + host + t1)[k])
    ensures WithoutFragment(scheme + "://" + host + t1)
  {
    var rest := "//" + host + t1;
    assert scheme + "://" + host + t1 == scheme + ":" + rest;
    GetSchemeOf(scheme, rest);
    AuthorityOf(host, t1);
  }

  /**
   * "scheme://host" followed by a path, query or fragment is a URL, for a host
   * holding none of '/', '?', '#', '@'.
   */
  lemma BuiltURL(scheme: string, host: string, tail: string)
    requires |scheme| >= 1 && IsLetter(scheme[0])
    requires forall k :: 0 <= k < |scheme| ==> SchemeChar(scheme[k])
    requires |host| >= 1
    requires forall k :: 0 <= k < |host| ==> host[k] !in "/?#@" && !IsCTL(host[k])
    requires forall k :: 0 <= k < |tail| ==> !IsCTL(tail[k])
    requires tail == [] || tail[0] == '/' || tail[0] == '?' || tail[0] == '#'
    ensures HasSchemeAndHost(scheme + "://" + host + tail)
  {
    var prefix := scheme + "://" + host;
    var s := prefix + tail;
    assert '#' !in prefix by {
      forall k | 0 <= k < |prefix| ensures prefix[k] != '#' {
        if k < |scheme| { assert SchemeChar(scheme[k]); }
        else if k >= |scheme| + 3 { assert prefix[k] == host[k - |scheme| - 3]; }
      }
    }
    CutAfter(prefix, tail, '#');
    var t1 := tail[..IndexOf(tail, '#')];
    var u := prefix + t1;
    assert s[..IndexOf(s, '#')] == u;
    assert forall k :: 0 <= k < |u| ==> !IsCTL(u[k]) by {
      forall k | 0 <= k < |u| ensures !IsCTL(u[k]) {
        if k < |scheme| { assert SchemeChar(scheme[k]); }
        else if |scheme| + 3 <= k < |prefix| { assert u[k] == host[k - |scheme| - 3]; }
        else if k >= |prefix| { assert u[k] == tail[k - |prefix|]; }
      }
    }
    assert t1 == [] || t1[0] == '/' || t1[0] == '?' by {
      if t1 != [] { assert t1[0] == tail[0]; }
    }
    assert '/' !in host && '@' !in host && '?' !in host by {
      forall k | 0 <= k < |host| ensures host[k] != '/' && host[k] != '@' && host[k] != '?' {
        assert host[k] !in "/?#@";
      }
    }
    BuiltWithoutFragment(scheme, host, t1);
  }
}
