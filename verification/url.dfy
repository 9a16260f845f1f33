/** The part of Python's `urllib.parse.urlparse` the CSV parser uses: the
    network location (`netloc`) of a URL. Only the scheme split, the `//`
    authority and the bracket check that raises `ValueError` are modelled. */
module Url {
  import opened Wrappers

  /** The index of the first character of `s` that is in `stops`, or `|s|`
      when there is none. */
  function FindAny(s: string, stops: set<char>): (i: nat)
    ensures i <= |s|
    ensures i < |s| ==> s[i] in stops
    ensures forall k :: 0 <= k < i ==> s[k] !in stops
    decreases |s|
  {
    if |s| == 0 then 0
    else if s[0] in stops then 0
    else 1 + FindAny(s[1..], stops)
  }

  /** `FindAny` stops at the first character of `b` when `a` holds no stop
      character and `b` is empty or starts with one. */
  lemma {:induction false} FindAnyAfter(a: string, b: string, stops: set<char>)
    requires forall k :: 0 <= k < |a| ==> a[k] !in stops
    requires b == [] || b[0] in stops
    ensures FindAny(a + b, stops) == |a|
    decreases |a|
  {
    if |a| > 0 {
      assert (a + b)[1..] == a[1..] + b;
      FindAnyAfter(a[1..], b, stops);
    }
  }

  /** An ASCII letter, the only character that may start a scheme. */
  predicate IsAsciiLetter(c: char) {
    ('a' <= c && c <= 'z') || ('A' <= c && c <= 'Z')
  }

  /** A character allowed in a URL scheme (letters, digits, `+`, `-`, `.`). */
  predicate IsSchemeChar(c: char) {
    IsAsciiLetter(c) || ('0' <= c && c <= '9') || c == '+' || c == '-' || c == '.'
  }

  /** `s` is a well-formed scheme: an ASCII letter followed by scheme characters. */
  predicate IsScheme(s: string) {
    |s| > 0 && IsAsciiLetter(s[0]) && forall k :: 0 <= k < |s| ==> IsSchemeChar(s[k])
  }

  /** What `urlsplit` parses after the scheme: the text following the first
      `:` when everything before it is a well-formed scheme, otherwise the
      whole URL. */
  function AfterScheme(url: string): (rest: string)
    ensures |rest| <= |url| && rest == url[|url| - |rest|..]
  {
    var i := FindAny(url, {':'});
    if i < |url| && IsScheme(url[..i]) then url[i + 1..] else url
  }

  /** `urlsplit(url).netloc`: the text between a leading `//` (after the
      scheme) and the next `/`, `?` or `#`; empty when there is no `//`.
      `None` stands for the `ValueError` raised when the authority holds only
      one of `[` and `]`. */
  function Netloc(url: string): (host: Option<string>)
    ensures host.Some? ==> forall k :: 0 <= k < |host.value| ==> host.value[k] !in {'/', '?', '#'}
    ensures host.Some? ==> ('[' in host.value <==> ']' in host.value)
  {
    var rest := AfterScheme(url);
    if |rest| >= 2 && rest[..2] == "//" then
      var authority := rest[2..];
      var n := authority[..FindAny(authority, {'/', '?', '#'})];
      if ('[' in n) != (']' in n) then None else Some(n)
    else
      Some([])
  }

  /** A URL assembled from a scheme, a host and a path that starts with a
      delimiter yields back exactly that host. */
  lemma NetlocOfUrl(scheme: string, host: string, path: string)
    requires IsScheme(scheme)
    requires forall k :: 0 <= k < |host| ==> host[k] !in {'/', '?', '#'}
    requires '[' in host <==> ']' in host
    requires path == [] || path[0] in {'/', '?', '#'}
    ensures Netloc(scheme + "://" + host + path) == Some(host)
  {
    var url := scheme + "://" + host + path;
    var rest := "//" + host + path;
    assert url == scheme + ":" + rest;
    AfterWellFormedScheme(scheme, rest);
    NetlocOfAuthority(rest, host, path);
  }

  /** A URL assembled the same way but whose host holds only one of `[` and
      `]` has no network location: `urlsplit` raises `ValueError`. */
  lemma NetlocUnbalanced(scheme: string, host: string, path: string)
    requires IsScheme(scheme)
    requires forall k :: 0 <= k < |host| ==> host[k] !in {'/', '?', '#'}
    requires ('[' in host) != (']' in host)
    requires path == [] || path[0] in {'/', '?', '#'}
    ensures Netloc(scheme + "://" + host + path) == None
  {
    var url := scheme + "://" + host + path;
    var rest := "//" + host + path;
    assert url == scheme + ":" + rest;
    AfterWellFormedScheme(scheme, rest);
    assert AfterScheme(url) == rest;
    NetlocOfAuthority(rest, host, path);
  }

  /** Host extraction fails only on a URL that contains a `[` or `]`. */
  lemma NetlocFailsOnlyOnBrackets(url: string)
    ensures Netloc(url).None? ==> '[' in url || ']' in url
  {
    var rest := AfterScheme(url);
    if |rest| >= 2 && rest[..2] == "//" {
      var authority := rest[2..];
      var n := authority[..FindAny(authority, {'/', '?', '#'})];
      if ('[' in n) != (']' in n) {
        var k :| 0 <= k < |n| && n[k] in {'[', ']'};
        assert url[|url| - |rest| + 2 + k] == n[k];
      }
    }
  }

  /** The text after a well-formed scheme and its `:` is what `urlsplit`
      goes on to parse. */
  lemma AfterWellFormedScheme(scheme: string, rest: string)
    requires IsScheme(scheme)
    ensures AfterScheme(scheme + ":" + rest) == rest
  {
    var url := scheme + ":" + rest;
    assert url[..|scheme|] == scheme;
    assert url == scheme + (":" + rest);
    FindAnyAfter(scheme, ":" + rest, {':'});
    assert url[|scheme| + 1..] == rest;
  }

  /** The authority part of `rest == "//" + host + path`. */
  lemma NetlocOfAuthority(rest: string, host: string, path: string)
    requires rest == "//" + host + path
    requires forall k :: 0 <= k < |host| ==> host[k] !in {'/', '?', '#'}
    requires path == [] || path[0] in {'/', '?', '#'}
    ensures |rest| >= 2 && rest[..2] == "//"
    ensures rest[2..][..FindAny(rest[2..], {'/', '?', '#'})] == host
  {
    assert rest[2..] == host + path;
    FindAnyAfter(host, path, {'/', '?', '#'});
    assert (host + path)[..|host|] == host;
  }

  /** A URL with no `:` and no leading `//`, such as a bare host name, has no
      network location at all: `urlparse` reads it as a path. */
  lemma NetlocOfBareName(url: string)
    requires ':' !in url
    requires !("//" <= url)
    ensures Netloc(url) == Some([])
  {
    assert FindAny(url, {':'}) == |url|;
    assert |url| >= 2 ==> url[..2] != "//";
  }
}
