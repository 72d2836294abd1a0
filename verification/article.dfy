/**
 * The small derivations of `extract_article_fields` that do not depend on HTML:
 * the publication label taken from the URL's host (substack2md.py:280-281), the
 * note slug taken from the URL's last path segment or the title (substack2md.py:319),
 * and the directory name of a publication, `get_publication_name`
 * (substack2md.py:127-141).
 */
module Article {
  import opened Wrappers
  import opened Text
  import Urls
  import Slug

  /** The label used when a URL has no host. */
  const DefaultPublication := "substack"

  /** `netloc.split(".")[0] if netloc else "substack"`. */
  function PublicationOf(netloc: string): (r: string)
  {
    if netloc == [] then DefaultPublication else SplitOn(netloc, '.')[0]
  }

  /** The publication is the host up to its first dot, or the whole host when it has none. */
  lemma PublicationIsFirstLabel(netloc: string)
    requires netloc != []
    ensures var r := PublicationOf(netloc);
      && '.' !in r
      && (r == netloc || (|r| < |netloc| && netloc[..|r| + 1] == r + "."))
  {
    var i := FindChar(netloc, '.');
    assert netloc[..|netloc|] == netloc;
    assert PublicationOf(netloc) == netloc[..i];
  }

  /** A host `host.rest` is filed under `host`. */
  lemma PublicationOfLabel(host: string, rest: string)
    requires '.' !in host
    ensures PublicationOf(host + "." + rest) == host
  {
    FindAfterPrefix(host, rest, '.');
    assert (host + "." + rest)[..|host|] == host;
  }

  /** The publication label of a URL; `urlsplit` raising passes through. */
  function Publication(url: string): (r: Result<string, Urls.UrlError>)
    ensures r.Failure? <==> Urls.Split(url).Failure?
  {
    match Urls.Split(url)
    case Failure(e) => Failure(e)
    case Success(p) => Success(PublicationOf(p.netloc))
  }

  /** A URL composed from well-formed parts whose host is `host.rest` is filed under `host`. */
  lemma PublicationOfUrl(p: Urls.Parts, host: string, rest: string)
    requires Urls.WellFormed(p) && p.netloc == host + "." + rest && '.' !in host
    ensures Publication(Urls.Unsplit(p)) == Success(host)
  {
    Urls.SplitUnsplit(p);
    PublicationOfLabel(host, rest);
  }

  predicate NotSlash(c: char) { c != '/' }

  /** `path.split("/")[-1]`: the pieces are cut off at each `/` in turn until none is left. */
  function LastSegment(path: string): string
    decreases |path|
  {
    var i := FindChar(path, '/');
    if i == |path| then path else LastSegment(path[i + 1..])
  }

  /** The last segment is what follows the last `/`, or the whole path when there is none. */
  lemma {:induction false} LastSegmentIsTail(path: string)
    ensures var r := LastSegment(path);
      && '/' !in r && |r| <= |path| && path[|path| - |r|..] == r
      && (|r| < |path| ==> path[|path| - |r| - 1] == '/')
    decreases |path|
  {
    var i := FindChar(path, '/');
    if i < |path| {
      var tail := path[i + 1..];
      LastSegmentIsTail(tail);
      TailAfter(path, i, LastSegment(tail));
    } else {
      assert path[..i] == path;
    }
  }

  /** A tail of `path[i + 1..]` preceded by `/` there is preceded by `/` in `path`. */
  lemma TailAfter(path: string, i: nat, r: string)
    requires i < |path| && path[i] == '/'
    requires var tail := path[i + 1..];
      |r| <= |tail| && tail[|tail| - |r|..] == r && (|r| < |tail| ==> tail[|tail| - |r| - 1] == '/')
    ensures |r| < |path| && path[|path| - |r|..] == r && path[|path| - |r| - 1] == '/'
  {
    var tail := path[i + 1..];
    assert path[|path| - |r|..] == tail[|tail| - |r|..];
    assert path[|path| - |r| - 1] == if |r| == |tail| then path[i] else tail[|tail| - |r| - 1];
  }

  /** `slugify(path.split("/")[-1] or title)`. */
  function SlugFor(path: string, title: string): (r: string)
    ensures Slug.IsSlug(r)
  {
    var last := LastSegment(path);
    Slug.Slugify(if last != [] then last else title)
  }

  /** The slug of a URL; `urlsplit` raising passes through. */
  function ArticleSlug(url: string, title: string): (r: Result<string, Urls.UrlError>)
    ensures r.Failure? <==> Urls.Split(url).Failure?
    ensures r.Success? ==> Slug.IsSlug(r.value)
  {
    match Urls.Split(url)
    case Failure(e) => Failure(e)
    case Success(p) => Success(SlugFor(p.path, title))
  }

  /** The slug falls back to the title exactly when the path is empty or ends in `/`. */
  lemma {:induction false} LastSegmentEmpty(path: string)
    ensures LastSegment(path) == [] <==> path == [] || path[|path| - 1] == '/'
  {
    LastSegmentIsTail(path);
  }

  // ---------------------------------------------------------------------------
  // get_publication_name

  /**
   * `s.title()` from a state that says whether the character before `s` was a
   * letter: a letter after a letter is lowered, any other letter raised.
   */
  function TitleFrom(afterLetter: bool, s: string): (r: string)
    ensures |r| == |s|
    decreases |s|
  {
    if s == [] then []
    else
      var c := s[0];
      var d := if !IsLetter(c) then c else if afterLetter then LowerChar(c) else UpperChar(c);
      [d] + TitleFrom(IsLetter(c), s[1..])
  }

  function Title(s: string): string {
    TitleFrom(false, s)
  }

  /** Whether position `i` of `s` follows a letter. */
  predicate FollowsLetter(s: string, i: nat)
    requires i < |s|
  {
    i > 0 && IsLetter(s[i - 1])
  }

  /** Reference: each letter is raised at the start of a word and lowered inside one. */
  function TitleChar(s: string, i: nat): char
    requires i < |s|
  {
    if !IsLetter(s[i]) then s[i]
    else if FollowsLetter(s, i) then LowerChar(s[i])
    else UpperChar(s[i])
  }

  lemma {:induction false} TitleFromSpec(afterLetter: bool, s: string)
    ensures forall i :: 0 <= i < |s| ==>
      TitleFrom(afterLetter, s)[i] == (if i == 0 && afterLetter && IsLetter(s[0]) then LowerChar(s[0]) else TitleChar(s, i))
    decreases |s|
  {
    if s != [] {
      TitleFromSpec(IsLetter(s[0]), s[1..]);
      forall i | 1 <= i < |s|
        ensures TitleFrom(afterLetter, s)[i] == TitleChar(s, i)
      {
        assert TitleFrom(afterLetter, s)[i] == TitleFrom(IsLetter(s[0]), s[1..])[i - 1];
        assert s[1..][i - 1] == s[i];
        if i > 1 {
          assert s[1..][i - 2] == s[i - 1];
        }
      }
    }
  }

  /** `s.title()` agrees with the reference character by character. */
  lemma TitleSpec(s: string)
    ensures |Title(s)| == |s|
    ensures forall i :: 0 <= i < |s| ==> Title(s)[i] == TitleChar(s, i)
  {
    TitleFromSpec(false, s);
  }

  /** Title-casing changes the case of letters only. */
  lemma TitleKeepsLetters(s: string)
    ensures Lower(Title(s)) == Lower(s)
  {
    TitleSpec(s);
    forall i | 0 <= i < |s|
      ensures LowerChar(Title(s)[i]) == LowerChar(s[i])
    {
    }
  }

  lemma TitleIdempotent(s: string)
    ensures Title(Title(s)) == Title(s)
  {
    var t := Title(s);
    TitleSpec(s);
    TitleSpec(t);
    forall i | 0 <= i < |s|
      ensures TitleChar(t, i) == t[i]
    {
      assert IsLetter(t[i]) <==> IsLetter(s[i]);
      if i > 0 {
        assert IsLetter(t[i - 1]) <==> IsLetter(s[i - 1]);
      }
    }
  }

  /** `s.replace(" ", "_")`. */
  function SpacesToUnderscores(s: string): (r: string)
    ensures |r| == |s|
    ensures forall i :: 0 <= i < |s| ==> r[i] == (if s[i] == ' ' then '_' else s[i])
  {
    if s == [] then [] else [if s[0] == ' ' then '_' else s[0]] + SpacesToUnderscores(s[1..])
  }

  /** `get_publication_name(publication_slug, mappings)`. */
  function GetPublicationName(slug: string, mappings: map<string, string>): (r: string)
    ensures slug in mappings ==> r == mappings[slug]
    ensures slug !in mappings ==> |r| == |slug| && ' ' !in r
  {
    if slug in mappings then mappings[slug]
    else
      TitleSpec(slug);
      SpacesToUnderscores(Title(slug))
  }

  /** Without a mapping, the name is the slug with words capitalised and spaces turned into underscores. */
  lemma PublicationNameDefault(slug: string, mappings: map<string, string>)
    requires slug !in mappings
    ensures var r := GetPublicationName(slug, mappings);
      forall i :: 0 <= i < |slug| ==> r[i] == (if slug[i] == ' ' then '_' else TitleChar(slug, i))
  {
    TitleSpec(slug);
  }
}
