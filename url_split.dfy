/**
 * The part of Python's `urllib.parse.urlsplit` that `urlparse` applies to an
 * ordinary absolute or relative URL: an optional scheme, an optional network
 * location after `//`, the fragment after the first `#`, and the query after
 * the first `?` of what remains. The path is neither decoded nor normalised.
 */
module UrlSplit {
  import opened Wrappers
  import opened Strings

  datatype UrlParts = UrlParts(scheme: string, netloc: string, path: string, query: string, fragment: string)

  predicate IsAsciiLetter(c: char) { 'a' <= c <= 'z' || 'A' <= c <= 'Z' }

  predicate IsSchemeChar(c: char) { IsAsciiLetter(c) || IsDigit(c) || c == '+' || c == '-' || c == '.' }

  /**
   * The scheme is everything before the first `:` when that is non-empty,
   * starts with an ASCII letter and holds only scheme characters; it is
   * lower-cased. Otherwise there is no scheme and the URL is left whole.
   */
  function SplitScheme(url: string): (r: (string, string))
    ensures r.0 == "" ==> r.1 == url
    ensures |r.1| <= |url|
  {
    match IndexOf(url, ':')
    case None => ("", url)
    case Some(i) =>
      if i > 0 && IsAsciiLetter(url[0]) && forall j :: 0 <= j < i ==> IsSchemeChar(url[j])
      then (Lower(url[..i]), url[i + 1..])
      else ("", url)
  }

  const NetlocEnd: set<char> := {'/', '?', '#'}

  /** After a leading `//`, the network location runs up to the first `/`, `?` or `#`. */
  function SplitNetloc(rest: string): (r: (string, string))
    requires |rest| >= 2
    ensures forall k :: 0 <= k < |r.0| ==> r.0[k] !in NetlocEnd
    ensures rest == rest[..2] + r.0 + r.1
    ensures r.1 == "" || r.1[0] in NetlocEnd
  {
    var tail := rest[2..];
    match IndexOfAny(tail, NetlocEnd)
    case None =>
      assert rest == rest[..2] + tail + "";
      (tail, "")
    case Some(i) =>
      assert rest == rest[..2] + tail[..i] + tail[i..];
      (tail[..i], tail[i..])
  }

  /** Cuts `s` at the first `c`: the text before it and the text after it ("" when absent). */
  function CutAt(s: string, c: char): (r: (string, string))
    ensures c !in r.0
    ensures c in s ==> s == r.0 + [c] + r.1
    ensures c !in s ==> r == (s, "")
  {
    match IndexOf(s, c)
    case None => (s, "")
    case Some(i) =>
      assert s == s[..i] + [c] + s[i + 1..];
      assert c !in s[..i] by {
        forall k | 0 <= k < i ensures s[..i][k] != c { }
      }
      (s[..i], s[i + 1..])
  }

  /** `urlsplit(url)`. */
  function SplitUrl(url: string): (r: UrlParts)
    ensures '?' !in r.path && '#' !in r.path
    ensures '#' !in r.query
  {
    var schemeAndRest := SplitScheme(url);
    var rest := schemeAndRest.1;
    var netlocAndRest := if |rest| >= 2 && rest[..2] == "//" then SplitNetloc(rest) else ("", rest);
    SplitLocal(schemeAndRest.0, netlocAndRest.0, netlocAndRest.1)
  }

  /** Splits what follows the network location into path, query and fragment. */
  function SplitLocal(scheme: string, netloc: string, rest: string): (r: UrlParts)
    ensures r.scheme == scheme && r.netloc == netloc
    ensures '?' !in r.path && '#' !in r.path
    ensures '#' !in r.query
  {
    var (rest1, fragment) := CutAt(rest, '#');
    var (path, query) := CutAt(rest1, '?');
    assert '#' !in path && '#' !in query by {
      if '?' in rest1 {
        assert rest1 == path + ['?'] + query;
        assert forall k :: 0 <= k < |query| ==> query[k] == rest1[|path| + 1 + k];
      }
    }
    UrlParts(scheme, netloc, path, query, fragment)
  }

  /** A scheme that `SplitScheme` recognises and returns unchanged. */
  predicate IsLowerScheme(s: string)
  {
    |s| > 0 && 'a' <= s[0] <= 'z' &&
    forall k :: 0 <= k < |s| ==> IsSchemeChar(s[k]) && !('A' <= s[k] <= 'Z')
  }

  /** Parts that an absolute URL of the form `scheme://netloc/path?query#fragment` can carry. */
  predicate WellFormed(p: UrlParts)
  {
    && IsLowerScheme(p.scheme)
    && (forall k :: 0 <= k < |p.netloc| ==> p.netloc[k] !in NetlocEnd)
    && (p.path == "" || p.path[0] == '/')
    && '?' !in p.path && '#' !in p.path
    && '#' !in p.query
  }

  /** Writes the parts back as a URL; an empty query or fragment is written without its delimiter. */
  function Compose(p: UrlParts): string
  {
    p.scheme + "://" + p.netloc + p.path
    + (if p.query == "" then "" else "?" + p.query)
    + (if p.fragment == "" then "" else "#" + p.fragment)
  }

  lemma SplitSchemeOf(scheme: string, rest: string)
    requires IsLowerScheme(scheme)
    ensures SplitScheme(scheme + ":" + rest) == (scheme, rest)
  {
    var url := scheme + ":" + rest;
    assert url == scheme + (":" + rest);
    IndexOfAnyAfter(scheme, ":" + rest, {':'});
    assert url[..|scheme|] == scheme;
    assert url[|scheme| + 1..] == rest;
    assert Lower(scheme) == scheme;
  }

  lemma SplitNetlocOf(netloc: string, tail: string)
    requires forall k :: 0 <= k < |netloc| ==> netloc[k] !in NetlocEnd
    requires tail == "" || tail[0] in NetlocEnd
    ensures SplitNetloc("//" + netloc + tail) == (netloc, tail)
  {
    var rest := "//" + netloc + tail;
    assert rest[2..] == netloc + tail;
    IndexOfAnyAfter(netloc, tail, NetlocEnd);
    if tail == "" {
      assert netloc + tail == netloc;
    } else {
      assert IndexOfAny(tail, NetlocEnd) == Some(0);
      assert (netloc + tail)[..|netloc|] == netloc;
      assert (netloc + tail)[|netloc|..] == tail;
    }
  }

  lemma CutAtOf(a: string, c: char, b: string)
    requires c !in a
    ensures CutAt(a + [c] + b, c) == (a, b)
  {
    var s := a + [c] + b;
    assert s == a + ([c] + b);
    assert forall k :: 0 <= k < |a| ==> a[k] !in {c};
    IndexOfAnyAfter(a, [c] + b, {c});
    assert s[..|a|] == a;
    assert s[|a| + 1..] == b;
  }

  /** Splitting a composed URL recovers every part. */
  lemma ComposeSplit(p: UrlParts)
    requires WellFormed(p)
    ensures SplitUrl(Compose(p)) == p
  {
    var q := if p.query == "" then "" else "?" + p.query;
    var f := if p.fragment == "" then "" else "#" + p.fragment;
    var beforeHash := p.path + q;
    var tail := beforeHash + f;
    var afterScheme := "//" + p.netloc + tail;
    ComposeShape(p, beforeHash, tail, afterScheme);
    SplitSchemeOf(p.scheme, afterScheme);
    SplitNetlocOf(p.netloc, tail);
    SplitUrlOf(Compose(p), p.scheme, afterScheme, p.netloc, tail);
    SplitLocalOf(p, beforeHash, tail);
  }

  /** How a composed URL is laid out around the scheme, netloc and path. */
  lemma ComposeShape(p: UrlParts, beforeHash: string, tail: string, afterScheme: string)
    requires WellFormed(p)
    requires beforeHash == p.path + (if p.query == "" then "" else "?" + p.query)
    requires tail == beforeHash + (if p.fragment == "" then "" else "#" + p.fragment)
    requires afterScheme == "//" + p.netloc + tail
    ensures Compose(p) == p.scheme + ":" + afterScheme
    ensures |afterScheme| >= 2 && afterScheme[..2] == "//"
    ensures tail == "" || tail[0] in NetlocEnd
  {
    if p.path != "" {
      assert tail[0] == p.path[0];
    } else if p.query != "" {
      assert tail[0] == '?';
    } else if p.fragment != "" {
      assert tail[0] == '#';
    }
  }

  lemma SplitUrlOf(url: string, scheme: string, afterScheme: string, netloc: string, tail: string)
    requires SplitScheme(url) == (scheme, afterScheme)
    requires |afterScheme| >= 2 && afterScheme[..2] == "//"
    requires SplitNetloc(afterScheme) == (netloc, tail)
    ensures SplitUrl(url) == SplitLocal(scheme, netloc, tail)
  {
  }

  lemma SplitLocalOf(p: UrlParts, beforeHash: string, tail: string)
    requires WellFormed(p)
    requires beforeHash == p.path + (if p.query == "" then "" else "?" + p.query)
    requires tail == beforeHash + (if p.fragment == "" then "" else "#" + p.fragment)
    ensures SplitLocal(p.scheme, p.netloc, tail) == p
  {
    assert '#' !in beforeHash;
    CutAtOptional(beforeHash, '#', p.fragment);
    CutAtOptional(p.path, '?', p.query);
  }

  /** Cutting at `c` undoes appending `c` and `b`, or nothing when `b` is empty. */
  lemma CutAtOptional(a: string, c: char, b: string)
    requires c !in a
    ensures CutAt(a + (if b == "" then "" else [c] + b), c) == (a, b)
  {
    if b == "" {
      assert a + "" == a;
    } else {
      assert a + ([c] + b) == a + [c] + b;
      CutAtOf(a, c, b);
    }
  }
}
