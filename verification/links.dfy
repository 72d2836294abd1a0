/**
 * `rewrite_internal_links` (substack2md.py:537-553): every markdown link
 * `[text](http…)` found by `LINK_RE` is rewritten, either to a wiki link
 * `[[stem]]` when its cleaned URL is a known note, or to the same link with the
 * cleaned URL. The body is modelled as the sequence of segments `LINK_RE.sub`
 * sees: stretches of text it copies and the links it replaces.
 */
module Links {
  import opened Wrappers
  import opened Text
  import Urls

  /** A piece of a markdown body: plain text, a `[text](url)` link, or a `[[stem]]` wiki link. */
  datatype Segment = Plain(t: string) | Link(text: string, url: string) | Wiki(stem: string)

  function RenderSegment(g: Segment): string {
    match g
    case Plain(t) => t
    case Link(text, url) => "[" + text + "](" + url + ")"
    case Wiki(stem) => "[[" + stem + "]]"
  }

  function Render(segs: seq<Segment>): string
    decreases |segs|
  {
    if segs == [] then [] else RenderSegment(segs[0]) + Render(segs[1..])
  }

  predicate NotCloseBracket(c: char) { c != ']' }

  predicate NotCloseParen(c: char) { c != ')' }

  /** What `([^\]]+)` accepts. */
  predicate IsLinkText(text: string) {
    text != [] && forall i :: 0 <= i < |text| ==> NotCloseBracket(text[i])
  }

  /** `https://` when the character after `http` is an `s`, `http://` otherwise. */
  function SchemeFor(u: string): string {
    if |u| > 4 && u[4] == 's' then "https://" else "http://"
  }

  /** What `(https?://[^\)]+)` accepts. */
  predicate IsLinkUrl(url: string) {
    var p := SchemeFor(url);
    && |url| > |p| && url[..|p|] == p
    && forall i :: 0 <= i < |url| ==> NotCloseParen(url[i])
  }

  datatype LinkMatch = LinkMatch(text: string, url: string, len: nat)

  /** The length of `https?://` at the start of `u`, if it is there. */
  function SchemeLen(u: string): (r: Option<nat>)
    ensures r.Some? ==> r.value <= |u| && u[..r.value] == SchemeFor(u)
  {
    var p := SchemeFor(u);
    if |u| >= |p| && u[..|p|] == p then Some(|p|) else None
  }

  /** The length of the URL group `https?://[^\)]+` at the start of `u`, when `)` follows it. */
  function MatchUrl(u: string): (r: Option<nat>)
    ensures r.Some? ==> r.value < |u| && u[r.value] == ')' && IsLinkUrl(u[..r.value])
  {
    match SchemeLen(u)
    case None => None
    case Some(k) =>
      var m := LeadCount(u[k..], NotCloseParen);
      if m == 0 || k + m >= |u| then None
      else
        UrlOf(u, k, m);
        assert u[k + m] == u[k..][m];
        Some(k + m)
  }

  /**
   * `LINK_RE.match(s)`. Each part of the pattern can stop in one place only: `[^\]]+`
   * right before the first `]`, `s?` where `://` follows, `[^\)]+` right before the first `)`.
   */
  function MatchLink(s: string): (r: Option<LinkMatch>)
    ensures r.Some? ==> 0 < r.value.len <= |s|
  {
    if s == [] || s[0] != '[' then None else MatchAfterBracket(s[1..])
  }

  /** The rest of `LINK_RE` after the opening `[`; the length counts that `[` too. */
  function MatchAfterBracket(t: string): (r: Option<LinkMatch>)
    ensures r.Some? ==> 0 < r.value.len <= |t| + 1
  {
    var j := LeadCount(t, NotCloseBracket);
    if j == 0 || j + 1 >= |t| || t[j + 1] != '(' then None
    else
      match MatchUrl(t[j + 2..])
      case None => None
      case Some(e) => Some(LinkMatch(t[..j], t[j + 2..][..e], j + e + 4))
  }

  /** A match is exactly a rendered link, with text and URL the pattern accepts. */
  lemma MatchLinkSound(s: string)
    requires MatchLink(s).Some?
    ensures var m := MatchLink(s).value;
      IsLinkText(m.text) && IsLinkUrl(m.url) && s[..m.len] == RenderSegment(Link(m.text, m.url))
  {
    var t := s[1..];
    var j, e := MatchParts(t);
    TextOf(t, j);
    LinkFrame(s, j, e);
  }

  /** Where the text and the URL group of a match lie. */
  lemma MatchParts(t: string) returns (j: nat, e: nat)
    requires MatchAfterBracket(t).Some?
    ensures 0 < j == LeadCount(t, NotCloseBracket) && j + 1 < |t| && t[j] == ']' && t[j + 1] == '('
    ensures MatchUrl(t[j + 2..]) == Some(e)
    ensures var m := MatchAfterBracket(t).value;
      m.text == t[..j] && m.url == t[j + 2..][..e] && m.len == j + e + 4
  {
    j := LeadCount(t, NotCloseBracket);
    e := MatchUrl(t[j + 2..]).value;
  }

  /** The text group: a non-empty run of characters other than `]`. */
  lemma TextOf(t: string, j: nat)
    requires 0 < j == LeadCount(t, NotCloseBracket)
    ensures IsLinkText(t[..j])
  {
    assert forall i :: 0 <= i < j ==> t[..j][i] == t[i];
  }

  /** The URL group: the scheme prefix and a run of characters other than `)`. */
  lemma UrlOf(u: string, k: nat, n: nat)
    requires SchemeLen(u) == Some(k) && 0 < n && k + n <= |u|
    requires n == LeadCount(u[k..], NotCloseParen)
    ensures IsLinkUrl(u[..k + n])
  {
    var url := u[..k + n];
    var p := SchemeFor(u);
    assert url[..k] == u[..k] == p;
    assert SchemeFor(url) == p by {
      assert |url| > 4 && url[4] == u[4];
    }
    forall i | 0 <= i < |url|
      ensures NotCloseParen(url[i])
    {
      if i < k {
        assert url[i] == p[i];
      } else {
        assert url[i] == u[k..][i - k];
      }
    }
  }

  /** The text of a match is `[`, the text group, `](`, the URL group and `)`. */
  lemma LinkFrame(s: string, j: nat, e: nat)
    requires s != [] && s[0] == '['
    requires var t := s[1..];
      j + 2 + e < |t| && t[j] == ']' && t[j + 1] == '(' && t[j + 2..][e] == ')'
    ensures s[..j + e + 4] == RenderSegment(Link(s[1..][..j], s[1..][j + 2..][..e]))
  {
    var t := s[1..];
    assert s[1 + j] == t[j] && s[2 + j] == t[j + 1] && s[j + 3 + e] == t[j + 2..][e];
    assert t[..j] == s[1..j + 1];
    assert t[j + 2..][..e] == s[j + 3..j + 3 + e];
    FlatFrame(s, j, e);
  }

  /** The same frame at flat positions of `s`. */
  lemma FlatFrame(s: string, j: nat, e: nat)
    requires j + e + 4 <= |s| && s[0] == '[' && s[j + 1] == ']' && s[j + 2] == '(' && s[j + 3 + e] == ')'
    ensures s[..j + e + 4] == "[" + s[1..j + 1] + "](" + s[j + 3..j + 3 + e] + ")"
  {
    assert s[..j + e + 4] == s[..1] + s[1..j + 1] + s[j + 1..j + 3] + s[j + 3..j + 3 + e] + s[j + 3 + e..j + e + 4];
  }

  /** A rendered link whose text and URL the pattern accepts is matched as exactly that link. */
  lemma MatchLinkComplete(text: string, url: string, rest: string)
    requires IsLinkText(text) && IsLinkUrl(url)
    ensures MatchLink(RenderSegment(Link(text, url)) + rest) == Some(LinkMatch(text, url, |text| + |url| + 4))
  {
    var s := RenderSegment(Link(text, url)) + rest;
    var tail := "](" + url + ")" + rest;
    assert s[1..] == text + tail;
    AfterBracketComplete(text, url, rest, tail);
  }

  /** After `[`, an accepted text, `](`, an accepted URL and `)` are matched as that link. */
  lemma AfterBracketComplete(text: string, url: string, rest: string, tail: string)
    requires IsLinkText(text) && IsLinkUrl(url) && tail == "](" + url + ")" + rest
    ensures MatchAfterBracket(text + tail) == Some(LinkMatch(text, url, |text| + |url| + 4))
  {
    var t := text + tail;
    LeadCountConcat(text, tail, NotCloseBracket);
    var j := |text|;
    assert t[..j] == text && t[j + 1] == '(';
    var u := t[j + 2..];
    assert u == url + (")" + rest);
    UrlMatch(url, ")" + rest);
    assert u[..|url|] == url;
  }

  /** A URL the pattern accepts, followed by `)`, is the URL group and nothing more. */
  lemma UrlMatch(url: string, rest: string)
    requires IsLinkUrl(url) && rest != [] && rest[0] == ')'
    ensures MatchUrl(url + rest) == Some(|url|)
  {
    var u := url + rest;
    var p := SchemeFor(url);
    var k := |p|;
    assert u[4] == url[4];
    assert u[..k] == url[..k];
    assert u[k..] == url[k..] + rest;
    LeadCountConcat(url[k..], rest, NotCloseParen);
  }

  /** Add one character of copied text in front of the segments. */
  function Prepend(c: char, segs: seq<Segment>): (r: seq<Segment>)
    ensures Render(r) == [c] + Render(segs)
    ensures (forall i :: 0 <= i < |segs| ==> !segs[i].Wiki?) ==> forall i :: 0 <= i < |r| ==> !r[i].Wiki?
  {
    if segs != [] && segs[0].Plain? then
      assert Render(segs) == segs[0].t + Render(segs[1..]);
      RenderCons(Plain([c] + segs[0].t), segs[1..]);
      [Plain([c] + segs[0].t)] + segs[1..]
    else
      RenderCons(Plain([c]), segs);
      [Plain([c])] + segs
  }

  /** Rendering a segment in front renders it first. */
  lemma RenderCons(g: Segment, segs: seq<Segment>)
    ensures Render([g] + segs) == RenderSegment(g) + Render(segs)
  {
    assert ([g] + segs)[1..] == segs;
  }

  /**
   * The segments `LINK_RE.sub` walks through: at each position a match is tried,
   * a match is replaced as a whole and the scan resumes after it, and otherwise one
   * character is copied.
   */
  function Scan(s: string): (r: seq<Segment>)
    ensures Render(r) == s
    ensures forall i :: 0 <= i < |r| ==> !r[i].Wiki?
    decreases |s|
  {
    if s == [] then []
    else
      match MatchLink(s)
      case Some(m) =>
        MatchLinkSound(s);
        assert s == s[..m.len] + s[m.len..];
        RenderCons(Link(m.text, m.url), Scan(s[m.len..]));
        [Link(m.text, m.url)] + Scan(s[m.len..])
      case None =>
        assert s == [s[0]] + s[1..];
        Prepend(s[0], Scan(s[1..]))
  }

  /** A link the scan finds has text and a URL the pattern accepts. */
  lemma {:induction false} ScanLinks(s: string)
    ensures forall i :: 0 <= i < |Scan(s)| && Scan(s)[i].Link? ==>
      IsLinkText(Scan(s)[i].text) && IsLinkUrl(Scan(s)[i].url)
    decreases |s|
  {
    if s != [] {
      match MatchLink(s)
      case Some(m) =>
        MatchLinkSound(s);
        ScanLinks(s[m.len..]);
      case None =>
        ScanLinks(s[1..]);
    }
  }

  /** Position `p` of the rendered segments lies inside a plain segment: text `LINK_RE.sub` copies. */
  predicate InPlain(segs: seq<Segment>, p: nat)
    decreases |segs|
  {
    && segs != []
    && var w := |RenderSegment(segs[0])|;
       if p < w then segs[0].Plain? else InPlain(segs[1..], p - w)
  }

  /** A copied character put in front shifts the plain positions after it by one. */
  lemma PrependPlain(c: char, segs: seq<Segment>, p: nat)
    requires InPlain(Prepend(c, segs), p) && p > 0
    ensures InPlain(segs, p - 1)
  {
    var r := Prepend(c, segs);
    assert r[1..] == segs[1..] || r[1..] == segs;
  }

  /**
   * No match of `LINK_RE` starts at a position the scan copies: with ScanLinks and
   * MatchLinkComplete, the link segments are exactly `re.sub`'s leftmost non-overlapping matches.
   */
  lemma {:induction false} ScanComplete(s: string)
    ensures forall p :: 0 <= p < |s| && InPlain(Scan(s), p) ==> MatchLink(s[p..]).None?
    decreases |s|
  {
    if s != [] {
      match MatchLink(s)
      case Some(m) =>
        var rest := s[m.len..];
        ScanComplete(rest);
        MatchLinkSound(s);
        assert Scan(s) == [Link(m.text, m.url)] + Scan(rest);
        assert ([Link(m.text, m.url)] + Scan(rest))[1..] == Scan(rest);
        forall p | 0 <= p < |s| && InPlain(Scan(s), p)
          ensures MatchLink(s[p..]).None?
        {
          assert p >= m.len;
          assert rest[p - m.len..] == s[p..];
        }
      case None =>
        var rest := s[1..];
        ScanComplete(rest);
        forall p | 0 <= p < |s| && InPlain(Scan(s), p)
          ensures MatchLink(s[p..]).None?
        {
          if p > 0 {
            PrependPlain(s[0], Scan(rest), p);
            assert rest[p - 1..] == s[p..];
          }
        }
    }
  }

  /** The result of the rewrite: the new segments and the two counters. */
  datatype Rewritten = Rewritten(segs: seq<Segment>, internal: nat, external: nat)

  function CountLinks(segs: seq<Segment>): nat
    decreases |segs|
  {
    if segs == [] then 0 else (if segs[0].Link? then 1 else 0) + CountLinks(segs[1..])
  }

  function CountWikis(segs: seq<Segment>): nat
    decreases |segs|
  {
    if segs == [] then 0 else (if segs[0].Wiki? then 1 else 0) + CountWikis(segs[1..])
  }

  /** What `repl` makes of one link, given its cleaned URL. */
  function Replace(text: string, cleaned: string, index: map<string, string>): Segment {
    if cleaned in index then Wiki(index[cleaned]) else Link(text, cleaned)
  }

  /** A URL `cleanup_url` raises on; `re.sub` passes the exception on. */
  predicate BadUrl(g: Segment) {
    g.Link? && Urls.Cleanup(g.url).Failure?
  }

  /** Some link of `segs` has a URL `cleanup_url` raises on. */
  predicate AnyBadUrl(segs: seq<Segment>) {
    exists i :: 0 <= i < |segs| && BadUrl(segs[i])
  }

  /**
   * `LINK_RE.sub(repl, md)` over the scanned segments: plain text is copied and each
   * link is replaced by `repl`, which counts it as internal or external.
   */
  function Rewrite(segs: seq<Segment>, index: map<string, string>): (r: Result<Rewritten, Urls.UrlError>)
    requires forall i :: 0 <= i < |segs| ==> !segs[i].Wiki?
    ensures r.Failure? <==> AnyBadUrl(segs)
    ensures r.Success? ==>
      && |r.value.segs| == |segs|
      && r.value.internal + r.value.external == CountLinks(segs)
      && r.value.internal == CountWikis(r.value.segs)
      && r.value.external == CountLinks(r.value.segs)
    ensures r.Success? ==> forall i :: 0 <= i < |segs| ==>
      && (segs[i].Plain? ==> r.value.segs[i] == segs[i])
      && (segs[i].Link? ==> r.value.segs[i] == Replace(segs[i].text, Urls.Cleanup(segs[i].url).value, index))
    decreases |segs|
  {
    if segs == [] then Success(Rewritten([], 0, 0))
    else
      var g := segs[0];
      assert forall i :: 1 <= i < |segs| ==> segs[1..][i - 1] == segs[i];
      if g.Plain? then
        match Rewrite(segs[1..], index)
        case Failure(e) => Failure(e)
        case Success(rest) => Success(Rewritten([g] + rest.segs, rest.internal, rest.external))
      else
        match Urls.Cleanup(g.url)
        case Failure(e) => Failure(e)
        case Success(c) =>
          match Rewrite(segs[1..], index)
          case Failure(e) => Failure(e)
          case Success(rest) =>
            if c in index then Success(Rewritten([Wiki(index[c])] + rest.segs, rest.internal + 1, rest.external))
            else Success(Rewritten([Link(g.text, c)] + rest.segs, rest.internal, rest.external + 1))
  }

  /** The link at `i` is the first whose URL `cleanup_url` raises on. */
  predicate FirstBadAt(segs: seq<Segment>, i: nat) {
    i < |segs| && BadUrl(segs[i]) && forall j :: 0 <= j < i ==> !BadUrl(segs[j])
  }

  /**
   * `re.sub` calls `repl` on the matches from left to right, so the exception that escapes is
   * the one `cleanup_url` raises on the first bad link.
   */
  lemma {:induction false} RewriteFirstError(segs: seq<Segment>, index: map<string, string>, i: nat)
    requires forall k :: 0 <= k < |segs| ==> !segs[k].Wiki?
    requires FirstBadAt(segs, i)
    ensures Rewrite(segs, index) == Failure(Urls.Cleanup(segs[i].url).error)
    decreases i
  {
    if i == 0 {
      RewriteBadHead(segs, index);
    } else {
      assert FirstBadAt(segs[1..], i - 1) by {
        assert forall j :: 0 <= j < i - 1 ==> segs[1..][j] == segs[j + 1];
      }
      assert forall k :: 0 <= k < |segs| - 1 ==> !segs[1..][k].Wiki? by {
        assert forall k :: 0 <= k < |segs| - 1 ==> segs[1..][k] == segs[k + 1];
      }
      RewriteFirstError(segs[1..], index, i - 1);
      RewriteGoodHead(segs, index);
    }
  }

  /** A bad first link raises before anything after it is looked at. */
  lemma RewriteBadHead(segs: seq<Segment>, index: map<string, string>)
    requires forall k :: 0 <= k < |segs| ==> !segs[k].Wiki?
    requires segs != [] && BadUrl(segs[0])
    ensures Rewrite(segs, index) == Failure(Urls.Cleanup(segs[0].url).error)
  {
  }

  /** After a segment that does not raise, the rest of the rewrite decides the error. */
  lemma RewriteGoodHead(segs: seq<Segment>, index: map<string, string>)
    requires forall k :: 0 <= k < |segs| ==> !segs[k].Wiki?
    requires segs != [] && !BadUrl(segs[0]) && Rewrite(segs[1..], index).Failure?
    ensures Rewrite(segs, index) == Failure(Rewrite(segs[1..], index).error)
  {
  }

  /** `rewrite_internal_links(md, url_map)`: the new body, the internal count and the external count. */
  function RewriteInternalLinks(md: string, index: map<string, string>): (r: Result<(string, nat, nat), Urls.UrlError>)
    ensures r.Failure? <==> AnyBadUrl(Scan(md))
    ensures r.Success? ==> r.value.1 + r.value.2 == CountLinks(Scan(md))
  {
    match Rewrite(Scan(md), index)
    case Failure(e) => Failure(e)
    case Success(w) => Success((Render(w.segs), w.internal, w.external))
  }

  /** `rewrite_internal_links` raises the error of the first link in the body whose URL is bad. */
  lemma RewriteInternalFirstError(md: string, index: map<string, string>, i: nat)
    requires FirstBadAt(Scan(md), i)
    ensures RewriteInternalLinks(md, index) == Failure(Urls.Cleanup(Scan(md)[i].url).error)
  {
    RewriteFirstError(Scan(md), index, i);
  }

  /** With no known notes and only clean URLs, the rewrite hands the body back unchanged. */
  lemma {:induction false} RewriteNothing(segs: seq<Segment>)
    requires forall i :: 0 <= i < |segs| ==> !segs[i].Wiki?
    requires forall i :: 0 <= i < |segs| && segs[i].Link? ==> Urls.Cleanup(segs[i].url) == Success(segs[i].url)
    ensures Rewrite(segs, map[]) == Success(Rewritten(segs, 0, CountLinks(segs)))
    decreases |segs|
  {
    if segs != [] {
      RewriteNothing(segs[1..]);
      assert segs == [segs[0]] + segs[1..];
    }
  }

  lemma RewriteUnchanged(md: string)
    requires forall i :: 0 <= i < |Scan(md)| && Scan(md)[i].Link? ==>
      Urls.Cleanup(Scan(md)[i].url) == Success(Scan(md)[i].url)
    ensures RewriteInternalLinks(md, map[]) == Success((md, 0, CountLinks(Scan(md))))
  {
    RewriteNothing(Scan(md));
  }
}
