/**
 * `cleanup_url` (substack2md.py:171-176) and the two standard-library routines it
 * rests on, `urllib.parse.urlsplit` and `urllib.parse.urlunsplit` (CPython 3.12.13),
 * with `allow_fragments` true and no default scheme, as the program calls them.
 *
 * A URL is split into the generic components of section 3 of RFC 3986: scheme,
 * authority (Python's "netloc"), path, query and fragment.
 */
module Urls {
  import opened Wrappers
  import opened Text
  import Seqs
  import IpAddress

  datatype Parts = Parts(scheme: string, netloc: string, path: string, query: string, fragment: string)

  /**
   * The `ValueError`s `urlsplit` raises on a netloc: "Invalid IPv6 URL" (one bracket without the
   * other, text before `[`, or something other than a port after `]`), "IPvFuture address is
   * invalid", "An IPv4 address cannot be in brackets", and `ipaddress.ip_address`'s "does not
   * appear to be an IPv4 or IPv6 address".
   */
  datatype UrlError = InvalidIPv6 | InvalidIPvFuture | BracketedIPv4 | NotAnAddress

  /** The characters `urlsplit` strips from the front of a URL: C0 controls and space. */
  predicate IsC0OrSpace(c: char) { c <= ' ' }

  /** The characters `urlsplit` deletes wherever they occur. */
  predicate IsUnsafe(c: char) { c == '\t' || c == '\r' || c == '\n' }

  predicate IsSafe(c: char) { !IsUnsafe(c) }

  /** `urllib.parse.scheme_chars`. */
  predicate IsSchemeChar(c: char) { IsAlnum(c) || c == '+' || c == '-' || c == '.' }

  /** A character that ends the netloc: one of `/?#`. */
  predicate IsDelim(c: char) { c == '/' || c == '?' || c == '#' }

  predicate IsNetlocChar(c: char) { !IsDelim(c) }

  /** Schemes listed in `urllib.parse.uses_netloc` (the empty entry never applies: the scheme must be non-empty). */
  predicate UsesNetloc(scheme: string) {
    scheme in ["ftp", "http", "gopher", "nntp", "telnet", "imap", "wais", "file", "mms",
               "https", "shttp", "snews", "prospero", "rtsp", "rtsps", "rtspu", "rsync",
               "svn", "svn+ssh", "sftp", "nfs", "git", "git+ssh", "ws", "wss", "itms-services"]
  }

  /** The URL after the leading strip of C0 controls and space and the removal of tab, CR and LF. */
  function Prepare(url: string): (r: string)
    ensures forall i :: 0 <= i < |r| ==> IsSafe(r[i])
    ensures r != [] ==> !IsC0OrSpace(r[0])
  {
    var s := DropWhile(url, IsC0OrSpace);
    assert s != [] ==> IsSafe(s[0]);
    Seqs.Filter(IsSafe, s)
  }

  /** The scheme test of `urlsplit`: a `:` after a non-empty run of scheme characters that starts with an ASCII letter. */
  predicate HasScheme(u: string) {
    var i := FindChar(u, ':');
    && 0 < i < |u|
    && IsLetter(u[0])
    && forall k :: 0 <= k < i ==> IsSchemeChar(u[k])
  }

  /** The lower-cased scheme and the rest of the URL after its `:`, or no scheme. */
  function TakeScheme(u: string): (string, string) {
    if HasScheme(u) then
      var i := FindChar(u, ':');
      (Lower(u[..i]), u[i + 1..])
    else
      ("", u)
  }

  /** `_splitnetloc(url, 2)` when the URL starts with `//`: the netloc runs up to the first of `/?#`. */
  function TakeNetloc(u: string): (string, string) {
    if |u| >= 2 && u[..2] == "//" then
      var d := 2 + LeadCount(u[2..], IsNetlocChar);
      (u[2..d], u[d..])
    else
      ("", u)
  }

  /** The check that raises "Invalid IPv6 URL". */
  predicate Unbalanced(netloc: string) {
    ('[' in netloc && ']' !in netloc) || (']' in netloc && '[' !in netloc)
  }

  /** `url.split(c, 1)` when `c in url`, else `(url, "")`; also `url.partition(c)` without the separator. */
  function SplitAt(u: string, c: char): (string, string) {
    var i := FindChar(u, c);
    if i < |u| then (u[..i], u[i + 1..]) else (u, "")
  }

  /** `s.rpartition(c)[2]`: the text after the last `c`, or all of `s` when there is none. */
  function AfterLast(s: string, c: char): (r: string)
    ensures c !in r
    ensures |r| <= |s| && r == s[|s| - |r|..]
    ensures |r| < |s| ==> s[|s| - |r| - 1] == c
    decreases |s|
  {
    if s == [] then []
    else if s[|s| - 1] == c then []
    else
      var r := AfterLast(s[..|s| - 1], c);
      assert s[..|s| - 1][|s| - 1 - |r|..] + [s[|s| - 1]] == s[|s| - 1 - |r|..];
      r + [s[|s| - 1]]
  }

  /** `re.match(r"\Av[a-fA-F0-9]+\..+\Z", h)`: `v`, hex digits, a dot, then at least one character other than a newline. */
  predicate IsIPvFuture(h: string) {
    && h != [] && h[0] == 'v'
    && var n := 1 + LeadCount(h[1..], IpAddress.IsHexDigit);
       && n > 1 && n + 1 < |h| && h[n] == '.'
       && '\n' !in h[n + 1..]
  }

  /** `_check_bracketed_host(h)`: the error it raises, if any. */
  function HostError(h: string): Option<UrlError> {
    if h != [] && h[0] == 'v' then
      if IsIPvFuture(h) then None else Some(InvalidIPvFuture)
    else if IpAddress.IsIPv4(h) then Some(BracketedIPv4)
    else if IpAddress.IsIPv6(h) then None
    else Some(NotAnAddress)
  }

  /**
   * `_check_bracketed_netloc(netloc)`: after the last `@`, a `[` must come first and be followed,
   * after its `]`, by nothing or by a `:` port; the host in the brackets (or, with no `[` there,
   * the text before the first `:`) must pass `_check_bracketed_host`.
   */
  function BracketError(netloc: string): Option<UrlError> {
    var hp := AfterLast(netloc, '@');
    var i := FindChar(hp, '[');
    if i < |hp| then
      if i > 0 then Some(InvalidIPv6)
      else
        var (host, port) := SplitAt(hp[1..], ']');
        if port != [] && port[0] != ':' then Some(InvalidIPv6)
        else HostError(host)
    else
      HostError(SplitAt(hp, ':').0)
  }

  /** A netloc `urlsplit` lets through: brackets balanced, and checked when both are present. */
  predicate NetlocAccepted(netloc: string) {
    && !Unbalanced(netloc)
    && ('[' in netloc && ']' in netloc ==> BracketError(netloc) == None)
  }

  /** The netloc `urlsplit` finds in a URL, before any check. */
  function NetlocOf(url: string): string {
    TakeNetloc(TakeScheme(Prepare(url)).1).0
  }

  /** `urllib.parse.urlsplit(url)`. */
  function Split(url: string): (r: Result<Parts, UrlError>)
    ensures r.Failure? <==> !NetlocAccepted(NetlocOf(url))
    ensures Unbalanced(NetlocOf(url)) ==> r == Failure(InvalidIPv6)
    ensures !Unbalanced(NetlocOf(url)) && r.Failure? ==> Some(r.error) == BracketError(NetlocOf(url))
    ensures r.Success? ==> r.value.netloc == NetlocOf(url)
  {
    var u := Prepare(url);
    var (scheme, afterScheme) := TakeScheme(u);
    var (netloc, afterNetloc) := TakeNetloc(afterScheme);
    if Unbalanced(netloc) then Failure(InvalidIPv6)
    else if '[' in netloc && ']' in netloc && BracketError(netloc).Some? then Failure(BracketError(netloc).value)
    else
      var (beforeFragment, fragment) := SplitAt(afterNetloc, '#');
      var (path, query) := SplitAt(beforeFragment, '?');
      Success(Parts(scheme, netloc, path, query, fragment))
  }

  /** The part of `urlunsplit` that places the netloc and the path. */
  function Hier(scheme: string, netloc: string, path: string): string {
    if netloc != [] then
      "//" + netloc + (if path != [] && path[0] != '/' then "/" + path else path)
    else if |path| >= 2 && path[..2] == "//" then
      "//" + path
    else if scheme != [] && UsesNetloc(scheme) && (path == [] || path[0] == '/') then
      "//" + path
    else
      path
  }

  function SchemePrefix(scheme: string): string {
    if scheme != [] then scheme + ":" else []
  }

  function QuerySuffix(query: string): string {
    if query != [] then "?" + query else []
  }

  function FragmentSuffix(fragment: string): string {
    if fragment != [] then "#" + fragment else []
  }

  /**
   * `urllib.parse.urlunsplit(parts)`: every component's characters appear, the scheme and
   * `:` lead and `#` and the fragment close the URL.
   */
  function Unsplit(p: Parts): (r: string)
    ensures |r| >= |SchemePrefix(p.scheme)| + |p.netloc| + |p.path| + |p.query| + |FragmentSuffix(p.fragment)|
    ensures p.scheme != [] ==> r[..|p.scheme| + 1] == p.scheme + ":"
    ensures p.fragment != [] ==> r[|r| - |p.fragment| - 1..] == "#" + p.fragment
  {
    var head := SchemePrefix(p.scheme);
    var tail := Hier(p.scheme, p.netloc, p.path) + QuerySuffix(p.query) + FragmentSuffix(p.fragment);
    assert head + tail == head + Hier(p.scheme, p.netloc, p.path) + QuerySuffix(p.query) + FragmentSuffix(p.fragment);
    assert (head + tail)[..|head|] == head;
    var front := head + Hier(p.scheme, p.netloc, p.path) + QuerySuffix(p.query);
    assert (front + FragmentSuffix(p.fragment))[|front|..] == FragmentSuffix(p.fragment);
    front + FragmentSuffix(p.fragment)
  }

  /** `cleanup_url(url)`: an empty URL is returned as it is; any other loses its query and fragment. */
  function Cleanup(url: string): (r: Result<string, UrlError>)
    ensures url == [] ==> r == Success(url)
    ensures url != [] ==> (r.Failure? <==> Split(url).Failure?)
  {
    if url == [] then Success(url)
    else
      match Split(url)
      case Failure(e) => Failure(e)
      case Success(p) => Success(Unsplit(Parts(p.scheme, p.netloc, p.path, "", "")))
  }

  predicate NoneIn(s: string, f: char -> bool) {
    forall i :: 0 <= i < |s| ==> !f(s[i])
  }

  /** A scheme as `urlsplit` returns it: empty, or an ASCII letter followed by lower-case scheme characters. */
  predicate ValidScheme(s: string) {
    s == [] || (IsLetter(s[0]) && forall i :: 0 <= i < |s| ==> IsSchemeChar(s[i]) && !IsUpper(s[i]))
  }

  /** The shape of every result of `urlsplit`, and the parts `urlunsplit` composes losslessly. */
  predicate WellFormed(p: Parts) {
    && ValidScheme(p.scheme)
    && NoneIn(p.netloc, IsDelim) && NoneIn(p.netloc, IsUnsafe) && NetlocAccepted(p.netloc)
    && NoneIn(p.path, IsQueryOrFragmentMark) && NoneIn(p.path, IsUnsafe)
    && '#' !in p.query && NoneIn(p.query, IsUnsafe)
    && NoneIn(p.fragment, IsUnsafe)
    && (p.netloc != [] ==> p.path == [] || p.path[0] == '/')
    && (p.scheme == [] && p.netloc == [] ==> !HasScheme(p.path) && (p.path == [] || !IsC0OrSpace(p.path[0])))
  }

  predicate IsQueryOrFragmentMark(c: char) { c == '?' || c == '#' }

  /** A URL with nothing to strip or delete comes through `Prepare` as it is. */
  lemma PrepareFixed(u: string)
    requires NoneIn(u, IsUnsafe)
    requires u == [] || !IsC0OrSpace(u[0])
    ensures Prepare(u) == u
  {
    assert LeadCount(u, IsC0OrSpace) == 0;
    assert DropWhile(u, IsC0OrSpace) == u;
    Seqs.FilterAll(IsSafe, u);
  }

  /** A scheme written before `:` is recognised and comes back lower-cased. */
  lemma TakeSchemeOf(s: string, x: string)
    requires s != [] && IsLetter(s[0])
    requires forall i :: 0 <= i < |s| ==> IsSchemeChar(s[i])
    ensures TakeScheme(s + ":" + x) == (Lower(s), x)
  {
    var u := s + ":" + x;
    assert u == s + (":" + x);
    FindAbsent(s, ':');
    FindConcat(s, ":" + x, ':');
    assert FindChar(u, ':') == |s|;
    assert u[..|s|] == s;
    assert u[|s| + 1..] == x;
  }

  /** Text without a scheme keeps having none when a query or fragment follows it. */
  lemma NoSchemeAppend(path: string, rest: string)
    requires !HasScheme(path)
    requires NoneIn(path, IsQueryOrFragmentMark)
    requires rest == [] || IsQueryOrFragmentMark(rest[0])
    ensures !HasScheme(path + rest)
  {
    var u := path + rest;
    FindConcat(path, rest, ':');
    if FindChar(path, ':') < |path| {
      assert forall k :: 0 <= k < |path| ==> u[k] == path[k];
    } else if rest != [] {
      assert u[|path|] == rest[0];
    } else {
      assert u == path;
    }
  }

  /** A netloc free of `/?#` followed by a delimiter (or nothing) is taken whole. */
  lemma TakeNetlocOf(n: string, x: string)
    requires NoneIn(n, IsDelim)
    requires x == [] || IsDelim(x[0])
    ensures TakeNetloc("//" + n + x) == (n, x)
  {
    var u := "//" + n + x;
    assert u[..2] == "//";
    assert u[2..] == n + x;
    assert forall i :: 0 <= i < |n| ==> (n + x)[i] == n[i];
    assert x != [] ==> (n + x)[|n|] == x[0];
    assert LeadCount(n + x, IsNetlocChar) == |n|;
    assert u[2..2 + |n|] == n;
    assert u[2 + |n|..] == x;
  }

  /** Splitting at `c` undoes appending `c` and a suffix (when the suffix is non-empty). */
  lemma SplitAtOf(x: string, c: char, f: string)
    requires c !in x
    ensures SplitAt(x + (if f != [] then [c] + f else []), c) == (x, f)
  {
    if f != [] {
      assert x + ([c] + f) == x + [c] + f;
      FindAfterPrefix(x, f, c);
      assert (x + [c] + f)[..|x|] == x;
      assert (x + [c] + f)[|x| + 1..] == f;
    } else {
      assert x + [] == x;
      FindAbsent(x, c);
    }
  }

  /** The path, query and fragment as `urlunsplit` writes them after the netloc. */
  function Tail(p: Parts): string {
    p.path + QuerySuffix(p.query) + FragmentSuffix(p.fragment)
  }

  lemma TailStep(p: Parts)
    requires WellFormed(p)
    ensures SplitAt(Tail(p), '#') == (p.path + QuerySuffix(p.query), p.fragment)
    ensures SplitAt(p.path + QuerySuffix(p.query), '?') == (p.path, p.query)
  {
    var pq := p.path + QuerySuffix(p.query);
    assert '#' !in pq by {
      assert forall i :: 0 <= i < |p.path| ==> pq[i] == p.path[i];
      assert forall i :: |p.path| <= i < |pq| ==> pq[i] == QuerySuffix(p.query)[i - |p.path|];
    }
    SplitAtOf(pq, '#', p.fragment);
    assert '?' !in p.path by {
      assert forall i :: 0 <= i < |p.path| ==> !IsQueryOrFragmentMark(p.path[i]);
    }
    SplitAtOf(p.path, '?', p.query);
  }

  /** What follows the scheme in `urlunsplit`'s output. */
  function AfterScheme(p: Parts): string {
    Hier(p.scheme, p.netloc, p.path) + QuerySuffix(p.query) + FragmentSuffix(p.fragment)
  }

  lemma TailStartsWithDelim(p: Parts)
    requires WellFormed(p)
    requires p.path == [] || p.path[0] == '/'
    ensures Tail(p) == [] || IsDelim(Tail(p)[0])
  {
  }

  /** The query and fragment, as `urlunsplit` appends them, start with `?` or `#`. */
  lemma SuffixStart(query: string, fragment: string)
    ensures var q := QuerySuffix(query) + FragmentSuffix(fragment);
      q == [] || IsQueryOrFragmentMark(q[0])
  {
  }

  /** The netloc step of `urlsplit` recovers the netloc and leaves path, query and fragment. */
  lemma NetlocStep(p: Parts)
    requires WellFormed(p)
    ensures TakeNetloc(AfterScheme(p)) == (p.netloc, Tail(p))
  {
    if p.netloc != [] {
      NetlocWritten(p);
    } else if Hier(p.scheme, p.netloc, p.path) == "//" + p.path {
      EmptyNetlocWritten(p);
    } else {
      assert AfterScheme(p) == Tail(p);
      PlainTail(p);
    }
  }

  /** A non-empty netloc is written after `//` and ends at the delimiter that starts the tail. */
  lemma NetlocWritten(p: Parts)
    requires WellFormed(p) && p.netloc != []
    ensures TakeNetloc(AfterScheme(p)) == (p.netloc, Tail(p))
  {
    TailStartsWithDelim(p);
    assert AfterScheme(p) == "//" + p.netloc + Tail(p);
    TakeNetlocOf(p.netloc, Tail(p));
  }

  /** An empty netloc written as `//` (before a `//` path, or for a netloc scheme) is read back as empty. */
  lemma EmptyNetlocWritten(p: Parts)
    requires WellFormed(p) && p.netloc == [] && Hier(p.scheme, p.netloc, p.path) == "//" + p.path
    ensures TakeNetloc(AfterScheme(p)) == (p.netloc, Tail(p))
  {
    var t := Tail(p);
    if !(|p.path| >= 2 && p.path[..2] == "//") {
      TailStartsWithDelim(p);
    }
    var q := QuerySuffix(p.query);
    var f := FragmentSuffix(p.fragment);
    assert AfterScheme(p) == ("//" + p.path) + q + f;
    Seqs.ConcatAssoc("//", p.path, q);
    Seqs.ConcatAssoc("//", p.path + q, f);
    assert "//" + [] + t == "//" + t;
    TakeNetlocOf([], t);
  }

  /** A tail whose path does not start with `//` does not start with `//`. */
  lemma PlainTail(p: Parts)
    requires !(|p.path| >= 2 && p.path[..2] == "//")
    ensures !(|Tail(p)| >= 2 && Tail(p)[..2] == "//")
  {
    var t := Tail(p);
    var q := QuerySuffix(p.query) + FragmentSuffix(p.fragment);
    assert t == p.path + q;
    if |p.path| >= 2 {
      assert t[..2] == p.path[..2];
    } else {
      SuffixStart(p.query, p.fragment);
      if p.path == [] {
        assert t == q;
      } else if |t| >= 2 {
        assert t[1] == q[0];
      }
    }
  }

  lemma NoneInConcat(a: string, b: string, f: char -> bool)
    requires NoneIn(a, f) && NoneIn(b, f)
    ensures NoneIn(a + b, f)
  {
  }

  lemma UnsplitAtScheme(p: Parts)
    ensures Unsplit(p) == SchemePrefix(p.scheme) + AfterScheme(p)
  {
  }

  /** Without a scheme, what `urlunsplit` writes has none either and starts with a visible character. */
  lemma NoSchemeAfter(p: Parts)
    requires WellFormed(p) && p.scheme == []
    ensures !HasScheme(AfterScheme(p))
    ensures AfterScheme(p) == [] || !IsC0OrSpace(AfterScheme(p)[0])
  {
    var r := AfterScheme(p);
    var q := QuerySuffix(p.query) + FragmentSuffix(p.fragment);
    if p.netloc == [] && !(|p.path| >= 2 && p.path[..2] == "//") {
      assert r == p.path + q;
      NoSchemeAppend(p.path, q);
      if p.path == [] {
        assert r == q;
      }
    } else {
      assert r[0] == '/';
    }
  }

  lemma UnsafeFree(p: Parts)
    requires WellFormed(p)
    ensures NoneIn(Unsplit(p), IsUnsafe)
  {
    var a, h := SchemePrefix(p.scheme), Hier(p.scheme, p.netloc, p.path);
    var q, f := QuerySuffix(p.query), FragmentSuffix(p.fragment);
    assert NoneIn(a, IsUnsafe);
    HierUnsafeFree(p);
    NoneInConcat("?", p.query, IsUnsafe);
    NoneInConcat("#", p.fragment, IsUnsafe);
    NoneInConcat(a, h, IsUnsafe);
    NoneInConcat(a + h, q, IsUnsafe);
    NoneInConcat(a + h + q, f, IsUnsafe);
    UnsplitPieces(p);
  }

  /** The netloc and path part of a well-formed URL holds no tab or line break. */
  lemma HierUnsafeFree(p: Parts)
    requires WellFormed(p)
    ensures NoneIn(Hier(p.scheme, p.netloc, p.path), IsUnsafe)
  {
    HierPiecesUnsafeFree(p.scheme, p.netloc, p.path);
  }

  lemma HierPiecesUnsafeFree(scheme: string, netloc: string, path: string)
    requires NoneIn(netloc, IsUnsafe) && NoneIn(path, IsUnsafe)
    requires netloc != [] ==> path == [] || path[0] == '/'
    ensures NoneIn(Hier(scheme, netloc, path), IsUnsafe)
  {
    var h := Hier(scheme, netloc, path);
    if netloc != [] {
      assert h == "//" + netloc + path;
      NoneInConcat("//", netloc, IsUnsafe);
      NoneInConcat("//" + netloc, path, IsUnsafe);
    } else if h != path {
      assert h == "//" + path;
      NoneInConcat("//", path, IsUnsafe);
    }
  }

  /** The four pieces `urlunsplit` concatenates. */
  lemma UnsplitPieces(p: Parts)
    ensures Unsplit(p) == SchemePrefix(p.scheme) + Hier(p.scheme, p.netloc, p.path) + QuerySuffix(p.query) + FragmentSuffix(p.fragment)
  {
  }

  /** The scheme step of `urlsplit` recovers the scheme. */
  lemma SchemeStep(p: Parts)
    requires WellFormed(p)
    ensures TakeScheme(Unsplit(p)) == (p.scheme, AfterScheme(p))
  {
    UnsplitAtScheme(p);
    if p.scheme != [] {
      assert Unsplit(p) == p.scheme + ":" + AfterScheme(p);
      TakeSchemeOf(p.scheme, AfterScheme(p));
      LowerFixed(p.scheme);
    } else {
      assert Unsplit(p) == AfterScheme(p);
      NoSchemeAfter(p);
    }
  }

  /** `urlunsplit`'s output needs no preparation. */
  lemma PrepareStep(p: Parts)
    requires WellFormed(p)
    ensures Prepare(Unsplit(p)) == Unsplit(p)
  {
    UnsplitAtScheme(p);
    UnsafeFree(p);
    if p.scheme == [] {
      NoSchemeAfter(p);
    }
    PrepareFixed(Unsplit(p));
  }

  /** `urlsplit(urlunsplit(p)) == p` for every well-formed `p`. */
  lemma SplitUnsplit(p: Parts)
    requires WellFormed(p)
    ensures Split(Unsplit(p)) == Success(p)
  {
    PrepareStep(p);
    SchemeStep(p);
    NetlocStep(p);
    TailStep(p);
  }

  /** A scheme found at the front of a URL is still found when more text follows. */
  lemma HasSchemeAppend(a: string, b: string)
    ensures HasScheme(a) ==> HasScheme(a + b)
  {
    FindConcat(a, b, ':');
    assert forall k :: 0 <= k < |a| ==> (a + b)[k] == a[k];
  }

  /** The scheme step returns a valid scheme, and no scheme only when there is none to take. */
  lemma SchemeShape(u: string)
    requires NoneIn(u, IsUnsafe)
    ensures ValidScheme(TakeScheme(u).0)
    ensures NoneIn(TakeScheme(u).1, IsUnsafe)
    ensures TakeScheme(u).0 == [] ==> !HasScheme(u) && TakeScheme(u).1 == u
  {
    if HasScheme(u) {
      var i := FindChar(u, ':');
      var sc := Lower(u[..i]);
      assert forall k :: 0 <= k < i ==> sc[k] == LowerChar(u[k]);
      assert forall k :: 0 <= k < i ==> IsSchemeChar(sc[k]);
    }
  }

  /** The netloc step: the netloc holds no delimiter, and what follows starts with one. */
  lemma NetlocShape(r: string)
    ensures NoneIn(TakeNetloc(r).0, IsDelim)
    ensures NoneIn(r, IsUnsafe) ==> NoneIn(TakeNetloc(r).0, IsUnsafe) && NoneIn(TakeNetloc(r).1, IsUnsafe)
    ensures |r| >= 2 && r[..2] == "//" ==> TakeNetloc(r).1 == [] || IsDelim(TakeNetloc(r).1[0])
    ensures !(|r| >= 2 && r[..2] == "//") ==> TakeNetloc(r) == ("", r)
  {
    if |r| >= 2 && r[..2] == "//" {
      var k := LeadCount(r[2..], IsNetlocChar);
      assert forall i :: 0 <= i < k ==> r[2 + i] == r[2..][i];
      if 2 + k < |r| {
        assert r[2 + k] == r[2..][k];
      }
    }
  }

  /** `url.split(c, 1)` read backwards: the two pieces joined by `c` give the text back. */
  lemma SplitAtJoin(u: string, c: char)
    ensures u == SplitAt(u, c).0 + (if c in u then [c] + SplitAt(u, c).1 else [])
  {
    var i := FindChar(u, c);
    if i < |u| {
      var a, b := u[..i], u[i + 1..];
      assert u[i] == c;
      assert u == a + ([c] + b);
    } else {
      assert u[..i] == u;
      assert u + [] == u;
    }
  }

  /** Both pieces of `url.split(c, 1)` lie within `u`: the first is a prefix without `c`, and what `u` lacks they lack. */
  lemma SplitAtPieces(u: string, c: char, d: char, f: char -> bool)
    ensures var (a, b) := SplitAt(u, c);
      && c !in a && |a| <= |u| && a == u[..|a|]
      && (d !in u ==> d !in a && d !in b)
      && (NoneIn(u, f) ==> NoneIn(a, f) && NoneIn(b, f))
  {
    var i := FindChar(u, c);
    if i < |u| {
      var b := u[i + 1..];
      assert forall k :: 0 <= k < |b| ==> b[k] == u[i + 1 + k];
    } else {
      assert u[..i] == u;
    }
  }

  /** The last two steps: the path holds neither `?` nor `#`, the query no `#`, and the path starts the text. */
  lemma TailShape(r: string)
    ensures var bf := SplitAt(r, '#').0;
      var path := SplitAt(bf, '?').0;
      && NoneIn(path, IsQueryOrFragmentMark) && '#' !in SplitAt(bf, '?').1
      && |path| <= |r| && path == r[..|path|]
      && (NoneIn(r, IsUnsafe) ==>
            NoneIn(path, IsUnsafe) && NoneIn(SplitAt(bf, '?').1, IsUnsafe) && NoneIn(SplitAt(r, '#').1, IsUnsafe))
  {
    var bf := SplitAt(r, '#').0;
    var path := SplitAt(bf, '?').0;
    SplitAtPieces(r, '#', '#', IsUnsafe);
    SplitAtPieces(bf, '?', '#', IsUnsafe);
    NoMarks(path);
    PrefixOfPrefix(r, bf, path);
  }

  /** Text with neither `?` nor `#` holds no query or fragment mark. */
  lemma NoMarks(s: string)
    requires '?' !in s && '#' !in s
    ensures NoneIn(s, IsQueryOrFragmentMark)
  {
    assert forall i :: 0 <= i < |s| ==> s[i] in s;
  }

  lemma PrefixOfPrefix(r: string, a: string, b: string)
    requires |a| <= |r| && a == r[..|a|] && |b| <= |a| && b == a[..|b|]
    ensures |b| <= |r| && b == r[..|b|]
  {
  }

  /** Every successful result of `urlsplit` is well formed. */
  lemma SplitWellFormed(url: string)
    requires Split(url).Success?
    ensures WellFormed(Split(url).value)
  {
    var u := Prepare(url);
    var r1 := TakeScheme(u).1;
    var r2 := TakeNetloc(r1).1;
    var bf := SplitAt(r2, '#').0;
    var p := Parts(TakeScheme(u).0, TakeNetloc(r1).0, SplitAt(bf, '?').0, SplitAt(bf, '?').1, SplitAt(r2, '#').1);
    assert Split(url).value == p;
    SchemeShape(u);
    NetlocShape(r1);
    TailShape(r2);
    if p.netloc != [] {
      PathAfterNetloc(r1, p.path);
    } else if p.scheme == [] {
      PathWithoutScheme(u, r1, p.path);
    }
  }

  /** After a netloc, the path is empty or starts with `/`. */
  lemma PathAfterNetloc(r1: string, path: string)
    requires var r2 := TakeNetloc(r1).1; |path| <= |r2| && path == r2[..|path|] && NoneIn(path, IsQueryOrFragmentMark)
    requires TakeNetloc(r1).0 != []
    ensures path == [] || path[0] == '/'
  {
    NetlocShape(r1);
    if path != [] {
      assert path[0] == TakeNetloc(r1).1[0];
    }
  }

  /** With neither scheme nor netloc, the path is a prefix of the prepared URL, which had no scheme. */
  lemma PathWithoutScheme(u: string, r1: string, path: string)
    requires r1 == TakeScheme(u).1 && TakeScheme(u).0 == [] && TakeNetloc(r1).0 == []
    requires NoneIn(u, IsUnsafe) && (u == [] || !IsC0OrSpace(u[0]))
    requires var r2 := TakeNetloc(r1).1; |path| <= |r2| && path == r2[..|path|] && NoneIn(path, IsQueryOrFragmentMark)
    ensures !HasScheme(path) && (path == [] || !IsC0OrSpace(path[0]))
  {
    SchemeShape(u);
    NetlocShape(r1);
    if |r1| >= 2 && r1[..2] == "//" {
      if path != [] {
        assert path[0] == TakeNetloc(r1).1[0];
      }
    } else {
      assert TakeNetloc(r1).1 == u;
      assert path + u[|path|..] == u;
      HasSchemeAppend(path, u[|path|..]);
    }
  }

  /** A text without `c` is its own `rpartition(c)[2]`. */
  lemma {:induction false} AfterLastAbsent(s: string, c: char)
    requires c !in s
    ensures AfterLast(s, c) == s
    decreases |s|
  {
    if s != [] {
      assert s[|s| - 1] in s;
      AfterLastAbsent(s[..|s| - 1], c);
      assert s[..|s| - 1] + [s[|s| - 1]] == s;
    }
  }

  /** `x + [c]` partitioned at `c`, when `x` has none: `x` and nothing after. */
  lemma SplitAtEnd(x: string, c: char)
    requires c !in x
    ensures SplitAt(x + [c], c) == (x, [])
  {
    FindAfterPrefix(x, [], c);
    assert x + [c] + [] == x + [c];
    assert (x + [c])[..|x|] == x;
  }

  /** A netloc that is a whole bracketed host, with no `@` and no other bracket, has exactly that host checked. */
  lemma BracketedHost(a: string)
    requires '@' !in a && '[' !in a && ']' !in a
    ensures var n := "[" + a + "]"; !Unbalanced(n) && '[' in n && ']' in n
    ensures BracketError("[" + a + "]") == HostError(a)
  {
    var n := "[" + a + "]";
    assert n[0] == '[' && n[|n| - 1] == ']';
    assert '@' !in n by {
      assert forall k :: 1 <= k < |n| - 1 ==> n[k] == a[k - 1];
    }
    AfterLastAbsent(n, '@');
    assert n[1..] == a + "]";
    SplitAtEnd(a, ']');
  }

  /** A bracketed IPv6 address in its full eight-group form passes the netloc checks of `urlsplit`. */
  lemma BracketedIPv6Accepted(h: seq<string>)
    requires |h| == 8
    requires forall i :: 0 <= i < 8 ==> IpAddress.IsHextet(h[i])
    ensures NetlocAccepted("[" + JoinWith(h, ':') + "]")
  {
    var a := JoinWith(h, ':');
    HexHost(h);
    BracketedHost(a);
  }

  /** The full eight-group form is a host `_check_bracketed_host` accepts. */
  lemma HexHost(h: seq<string>)
    requires |h| == 8
    requires forall i :: 0 <= i < 8 ==> IpAddress.IsHextet(h[i])
    ensures var a := JoinWith(h, ':'); '@' !in a && '[' !in a && ']' !in a && HostError(a) == None
  {
    var a := JoinWith(h, ':');
    HexHostChars(h);
    IpAddress.IPv6Full(h);
    FindAbsent(a, '.');
    assert SplitOn(a, '.') == [a];
  }

  /** The full eight-group form starts with a hex digit and holds no `@`, bracket or dot. */
  lemma HexHostChars(h: seq<string>)
    requires |h| == 8
    requires forall i :: 0 <= i < 8 ==> IpAddress.IsHextet(h[i])
    ensures var a := JoinWith(h, ':'); '@' !in a && '[' !in a && ']' !in a && '.' !in a
    ensures var a := JoinWith(h, ':'); a != [] && IpAddress.IsHexDigit(a[0])
  {
    forall i, c | 0 <= i < 8 && c in "@[]."
      ensures c !in h[i]
    {
      assert forall j :: 0 <= j < |h[i]| ==> IpAddress.IsHexDigit(h[i][j]);
    }
    IpAddress.JoinWithChars(h, ':', '@');
    IpAddress.JoinWithChars(h, ':', '[');
    IpAddress.JoinWithChars(h, ':', ']');
    IpAddress.JoinWithChars(h, ':', '.');
    assert JoinWith(h, ':')[0] == h[0][0];
  }

  /** A bracketed name that is no address (no dot, no colon, not starting with `v`) is refused as such. */
  lemma BracketedNameRejected(name: string)
    requires name != [] && name[0] != 'v'
    requires '@' !in name && '[' !in name && ']' !in name && ':' !in name && '.' !in name
    ensures BracketError("[" + name + "]") == Some(NotAnAddress)
  {
    BracketedHost(name);
    IpAddress.NameIsNoAddress(name);
  }

  /** The netloc `urlsplit` finds after a scheme and `//`: everything up to the next delimiter. */
  lemma NetlocAfterScheme(scheme: string, n: string, x: string)
    requires scheme != [] && IsLetter(scheme[0])
    requires forall i :: 0 <= i < |scheme| ==> IsSchemeChar(scheme[i])
    requires NoneIn(n, IsDelim) && NoneIn(n, IsUnsafe) && NoneIn(x, IsUnsafe)
    requires x == [] || IsDelim(x[0])
    ensures NetlocOf(scheme + "://" + n + x) == n
  {
    var rest := "//" + n + x;
    var u := scheme + "://" + n + x;
    assert u == scheme + ":" + rest;
    SchemeSafe(scheme);
    NoneInConcat("//", n, IsUnsafe);
    NoneInConcat("//" + n, x, IsUnsafe);
    NoneInConcat(scheme + ":", rest, IsUnsafe);
    PrepareFixed(u);
    TakeSchemeOf(scheme, rest);
    TakeNetlocOf(n, x);
  }

  /** Brackets add neither a delimiter nor a tab or newline. */
  lemma BracketedChars(name: string)
    requires NoneIn(name, IsDelim) && NoneIn(name, IsUnsafe)
    ensures NoneIn("[" + name + "]", IsDelim) && NoneIn("[" + name + "]", IsUnsafe)
  {
    NoneInConcat("[", name, IsDelim);
    NoneInConcat("[" + name, "]", IsDelim);
    NoneInConcat("[", name, IsUnsafe);
    NoneInConcat("[" + name, "]", IsUnsafe);
  }

  /** `urlsplit` raises on a URL whose host is a bracketed name, as in `http://[foo]/`: it is neither an IPv4 nor an IPv6 address. */
  lemma BracketedNameUrlRejected(scheme: string, name: string, x: string)
    requires scheme != [] && IsLetter(scheme[0])
    requires forall i :: 0 <= i < |scheme| ==> IsSchemeChar(scheme[i])
    requires name != [] && name[0] != 'v'
    requires '@' !in name && '[' !in name && ']' !in name && ':' !in name && '.' !in name
    requires NoneIn(name, IsDelim) && NoneIn(name, IsUnsafe)
    requires NoneIn(x, IsUnsafe) && (x == [] || IsDelim(x[0]))
    ensures Split(scheme + "://[" + name + "]" + x) == Failure(NotAnAddress)
  {
    var n := "[" + name + "]";
    assert scheme + "://[" + name + "]" + x == scheme + "://" + n + x;
    BracketedChars(name);
    NetlocAfterScheme(scheme, n, x);
    BracketedNameRejected(name);
  }

  /** The URL `http://[foo]/` is refused: `foo` is not an address. */
  lemma FooHostRejected()
    ensures Split("http://[foo]/") == Failure(NotAnAddress)
  {
    assert "http://[foo]/" == "http" + "://[" + "foo" + "]" + "/";
    BracketedNameUrlRejected("http", "foo", "/");
  }

  /** Text before the `[` of the host part is refused with "Invalid IPv6 URL". */
  lemma TextBeforeBracketRejected(before: string, rest: string)
    requires before != [] && '@' !in before && '[' !in before && '@' !in rest
    ensures BracketError(before + "[" + rest) == Some(InvalidIPv6)
  {
    var n := before + "[" + rest;
    assert n == before + ['['] + rest;
    assert '@' !in n;
    AfterLastAbsent(n, '@');
    FindAfterPrefix(before, rest, '[');
  }

  /** The parts `cleanup_url` keeps. */
  function Stripped(p: Parts): Parts {
    Parts(p.scheme, p.netloc, p.path, "", "")
  }

  /** `cleanup_url` keeps scheme, netloc and path and clears query and fragment: splitting its result gives exactly that. */
  lemma CleanupKeepsComponents(url: string)
    requires url != [] && Split(url).Success?
    ensures Cleanup(url).Success?
    ensures Split(Cleanup(url).value) == Success(Stripped(Split(url).value))
  {
    var p := Split(url).value;
    SplitWellFormed(url);
    SplitUnsplit(Stripped(p));
  }

  /** `cleanup_url(cleanup_url(u)) == cleanup_url(u)`. */
  lemma CleanupIdempotent(url: string)
    requires Cleanup(url).Success?
    ensures Cleanup(Cleanup(url).value) == Cleanup(url)
  {
    if url != [] {
      var c := Cleanup(url).value;
      CleanupKeepsComponents(url);
      if c != [] {
        assert Stripped(Stripped(Split(url).value)) == Stripped(Split(url).value);
      }
    }
  }

  /** What `urlunsplit` writes for well-formed parts without query or fragment is its own cleanup. */
  lemma CleanupFixedPoint(p: Parts)
    requires WellFormed(p) && p.query == [] && p.fragment == []
    ensures Cleanup(Unsplit(p)) == Success(Unsplit(p))
  {
    SplitUnsplit(p);
    assert Stripped(p) == p;
  }

  /** The scheme is lower-cased, so a URL without query or fragment can still change: an upper-case scheme letter does. */
  lemma CleanupLowersScheme(scheme: string, rest: string, k: nat)
    requires scheme != [] && IsLetter(scheme[0])
    requires forall i :: 0 <= i < |scheme| ==> IsSchemeChar(scheme[i])
    requires k < |scheme| && IsUpper(scheme[k])
    requires NoneIn(rest, IsUnsafe)
    requires Split(scheme + ":" + rest).Success?
    ensures Cleanup(scheme + ":" + rest).Success?
    ensures var c := Cleanup(scheme + ":" + rest).value;
      |c| > |scheme| && c[..|scheme| + 1] == Lower(scheme) + ":" && c != scheme + ":" + rest
  {
    var u := scheme + ":" + rest;
    CleanupWithScheme(scheme, rest);
    var a := AfterScheme(Stripped(Split(u).value));
    var c := Lower(scheme) + ":" + a;
    assert c[..|scheme| + 1] == Lower(scheme) + ":";
    assert c[k] == LowerChar(scheme[k]) != u[k];
  }

  /** Scheme characters and `:` are none of the characters `urlsplit` strips. */
  lemma SchemeSafe(scheme: string)
    requires forall i :: 0 <= i < |scheme| ==> IsSchemeChar(scheme[i])
    ensures NoneIn(scheme + ":", IsUnsafe)
  {
    var t := scheme + ":";
    forall i | 0 <= i < |t|
      ensures !IsUnsafe(t[i])
    {
      if i < |scheme| {
        assert t[i] == scheme[i];
      }
    }
  }

  /** With a recognised scheme, what `cleanup_url` writes starts with the lower-cased scheme and `:`. */
  lemma CleanupWithScheme(scheme: string, rest: string)
    requires scheme != [] && IsLetter(scheme[0])
    requires forall i :: 0 <= i < |scheme| ==> IsSchemeChar(scheme[i])
    requires NoneIn(rest, IsUnsafe)
    requires Split(scheme + ":" + rest).Success?
    ensures Cleanup(scheme + ":" + rest).Success?
    ensures Cleanup(scheme + ":" + rest).value == Lower(scheme) + ":" + AfterScheme(Stripped(Split(scheme + ":" + rest).value))
  {
    var u := scheme + ":" + rest;
    SchemeSafe(scheme);
    NoneInConcat(scheme + ":", rest, IsUnsafe);
    PrepareFixed(u);
    TakeSchemeOf(scheme, rest);
    var p := Split(u).value;
    assert p.scheme == Lower(scheme);
    UnsplitAtScheme(Stripped(p));
  }
}
