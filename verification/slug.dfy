/**
 * `slugify` (substack2md.py:147-152): strip, lower-case, delete everything but word
 * characters, whitespace and hyphens, collapse separator runs to one hyphen, and trim
 * hyphens from both ends.
 */
module Slug {
  import opened Text
  import Seqs

  /** Characters that survive `re.sub(r"[^\w\s-]", "", text)`. */
  predicate Allowed(c: char) { IsWordChar(c) || IsSpace(c) || c == '-' }

  /** The class `[\s_-]`. */
  predicate IsSep(c: char) { IsSpace(c) || c == '_' || c == '-' }

  predicate IsHyphen(c: char) { c == '-' }

  /**
   * `re.sub(r"^-+|-+$", "", s)` for text without a final newline (`$` also matches just
   * before one), which is all `slugify` hands it: `s` is a hyphen run, then `r`, then
   * another hyphen run, and `r` neither starts nor ends with a hyphen.
   */
  function TrimHyphens(s: string): (r: string)
    ensures r == [] || (r[0] != '-' && r[|r| - 1] != '-')
    ensures r == [] ==> forall i :: 0 <= i < |s| ==> s[i] == '-'
    ensures r != [] ==> var k := LeadCount(s, IsHyphen);
      && (forall i :: 0 <= i < k ==> s[i] == '-')
      && k + |r| <= |s| && s[k..k + |r|] == r
      && (forall i :: k + |r| <= i < |s| ==> s[i] == '-')
  {
    var k := LeadCount(s, IsHyphen);
    var m := TrailStart(s[k..], IsHyphen);
    TrimPieces(s, k, m);
    s[k..][..m]
  }

  /** The two hyphen runs TrimHyphens cuts off, and what lies between them. */
  lemma TrimPieces(s: string, k: nat, m: nat)
    requires k == LeadCount(s, IsHyphen) && m == TrailStart(s[k..], IsHyphen)
    ensures var r := s[k..][..m];
      && (r == [] || (r[0] != '-' && r[|r| - 1] != '-'))
      && (r == [] ==> forall i :: 0 <= i < |s| ==> s[i] == '-')
      && k + |r| <= |s| && s[k..k + |r|] == r
      && (forall i :: k + |r| <= i < |s| ==> s[i] == '-')
  {
    var d := s[k..];
    assert forall i :: k <= i < |s| ==> s[i] == d[i - k];
    assert d[..m] == s[k..k + m];
  }

  predicate SlugChar(c: char) { IsLower(c) || IsDigit(c) || c == '-' }

  predicate SepOrSlugChar(c: char) { IsSep(c) || SlugChar(c) }

  /** The shape every slug has: lower-case letters, digits and single inner hyphens. */
  predicate IsSlug(r: string) {
    && (forall i :: 0 <= i < |r| ==> SlugChar(r[i]))
    && (forall i :: 0 <= i < |r| - 1 ==> !(r[i] == '-' && r[i + 1] == '-'))
    && (r == [] || (r[0] != '-' && r[|r| - 1] != '-'))
  }

  function Slugify(text: string): (r: string)
    ensures IsSlug(r)
    ensures Seqs.Filter(IsAlnum, r) == Lower(Seqs.Filter(IsAlnum, text))
  {
    var stripped := Lower(Strip(text));
    var kept := Seqs.Filter(Allowed, stripped);
    var collapsed := ReplaceRuns(kept, IsSep, '-');
    var r := TrimHyphens(collapsed);
    SlugShape(stripped, kept, collapsed, r);
    SlugContent(text, stripped, kept, collapsed, r);
    r
  }

  lemma SlugShape(stripped: string, kept: string, collapsed: string, r: string)
    requires forall i :: 0 <= i < |stripped| ==> !IsUpper(stripped[i])
    requires kept == Seqs.Filter(Allowed, stripped)
    requires collapsed == ReplaceRuns(kept, IsSep, '-')
    requires r == TrimHyphens(collapsed)
    ensures IsSlug(r)
  {
    forall i | 0 <= i < |stripped| && Allowed(stripped[i])
      ensures SepOrSlugChar(stripped[i])
    {
      assert !IsUpper(stripped[i]);
    }
    Seqs.FilterKeeps(Allowed, SepOrSlugChar, stripped);
    ReplaceRunsKeeps(kept, IsSep, '-', SlugChar);
    TrimShape(collapsed, r);
  }

  /** Trimming the hyphens off slug characters without doubled hyphens gives a slug. */
  lemma TrimShape(collapsed: string, r: string)
    requires forall i :: 0 <= i < |collapsed| ==> SlugChar(collapsed[i])
    requires forall i :: 0 <= i < |collapsed| - 1 ==> !(collapsed[i] == '-' && collapsed[i + 1] == '-')
    requires r == TrimHyphens(collapsed)
    ensures IsSlug(r)
  {
    var a := LeadCount(collapsed, IsHyphen);
    var d := collapsed[a..];
    var m := TrailStart(d, IsHyphen);
    assert r == d[..m];
    assert forall i :: 0 <= i < |r| ==> r[i] == collapsed[a + i];
  }

  lemma TrimKeepsAlnum(s: string)
    ensures Seqs.Filter(IsAlnum, TrimHyphens(s)) == Seqs.Filter(IsAlnum, s)
  {
    FilterDropWhile(IsAlnum, s, IsHyphen);
    FilterDropWhileEnd(IsAlnum, DropWhile(s, IsHyphen), IsHyphen);
  }

  lemma CollapseKeepsAlnum(kept: string)
    ensures Seqs.Filter(IsAlnum, ReplaceRuns(kept, IsSep, '-')) == Seqs.Filter(IsAlnum, kept)
  {
    var q := c => !IsSep(c) && c != '-';
    Seqs.FilterFilter(IsAlnum, q, ReplaceRuns(kept, IsSep, '-'));
    ReplaceRunsContent(kept, IsSep, '-', q);
    Seqs.FilterFilter(IsAlnum, q, kept);
  }

  lemma SlugContent(text: string, stripped: string, kept: string, collapsed: string, r: string)
    requires stripped == Lower(Strip(text))
    requires kept == Seqs.Filter(Allowed, stripped)
    requires collapsed == ReplaceRuns(kept, IsSep, '-')
    requires r == TrimHyphens(collapsed)
    ensures Seqs.Filter(IsAlnum, r) == Lower(Seqs.Filter(IsAlnum, text))
  {
    TrimKeepsAlnum(collapsed);
    CollapseKeepsAlnum(kept);
    Seqs.FilterFilter(IsAlnum, Allowed, stripped);
    FilterAlnumLower(Strip(text));
    StripKeepsAlnum(text);
  }

  /** A slug is its own slug. */
  lemma SlugFixed(s: string)
    requires IsSlug(s)
    ensures Slugify(s) == s
  {
    assert forall i :: 0 <= i < |s| ==> !IsSpace(s[i]) && !IsUpper(s[i]) && Allowed(s[i]) by {
      forall i | 0 <= i < |s|
        ensures !IsSpace(s[i]) && !IsUpper(s[i]) && Allowed(s[i])
      {
        assert SlugChar(s[i]);
      }
    }
    StripNoSpace(s);
    LowerFixed(s);
    Seqs.FilterAll(Allowed, s);
    ReplaceRunsFixed(s, IsSep, '-');
    TrimFixed(s);
  }

  lemma TrimFixed(s: string)
    requires s == [] || (s[0] != '-' && s[|s| - 1] != '-')
    ensures TrimHyphens(s) == s
  {
    assert LeadCount(s, IsHyphen) == 0;
    assert TrailStart(s, IsHyphen) == |s|;
  }

  /** A character `slugify` keeps as it is before collapsing separators. */
  predicate Settled(c: char) { !IsUpper(c) && Allowed(c) }

  /** Two slugs with a run of separators between them become the two slugs joined by one hyphen. */
  lemma SlugifySeparated(a: string, sep: string, b: string)
    requires IsSlug(a) && IsSlug(b) && a != [] && b != []
    requires sep != [] && forall i :: 0 <= i < |sep| ==> IsSep(sep[i])
    ensures Slugify(a + sep + b) == a + "-" + b
  {
    var s := a + sep + b;
    SeparatedSettled(a, sep, b);
    StripLowerFixed(s);
    Seqs.FilterAll(Allowed, s);
    SeparatedCollapse(a, sep, b);
    TrimFixed(a + "-" + b);
  }

  /** The text `a + sep + b` passes stripping, lowering and the character filter unchanged. */
  lemma SeparatedSettled(a: string, sep: string, b: string)
    requires IsSlug(a) && IsSlug(b) && a != [] && b != []
    requires sep != [] && forall i :: 0 <= i < |sep| ==> IsSep(sep[i])
    ensures var s := a + sep + b;
      && s[0] == a[0] && s[|s| - 1] == b[|b| - 1]
      && (forall i :: 0 <= i < |s| ==> !IsUpper(s[i]) && Allowed(s[i]))
  {
    assert forall i :: 0 <= i < |a| ==> SlugChar(a[i]);
    assert forall i :: 0 <= i < |b| ==> SlugChar(b[i]);
    AllOfJoin(a, sep, b, Settled);
  }

  /** The separator run between two slugs collapses to one hyphen. */
  lemma SeparatedCollapse(a: string, sep: string, b: string)
    requires IsSlug(a) && IsSlug(b) && a != [] && b != []
    requires sep != [] && forall i :: 0 <= i < |sep| ==> IsSep(sep[i])
    ensures ReplaceRuns(a + sep + b, IsSep, '-') == a + "-" + b
  {
    assert SlugChar(a[|a| - 1]) && SlugChar(b[0]);
    ReplaceRunsRun(a, sep, b, IsSep, '-');
    SlugRunsFixed(a);
    SlugRunsFixed(b);
  }

  /** A slug has no separator run to replace. */
  lemma SlugRunsFixed(a: string)
    requires IsSlug(a)
    ensures ReplaceRuns(a, IsSep, '-') == a
  {
    forall i | 0 <= i < |a|
      ensures IsSep(a[i]) ==> a[i] == '-'
    {
      assert SlugChar(a[i]);
    }
    forall i | 0 <= i < |a| - 1 && a[i] == '-'
      ensures !IsSep(a[i + 1])
    {
      assert SlugChar(a[i + 1]);
    }
    ReplaceRunsFixed(a, IsSep, '-');
  }

  /** `slugify(slugify(s)) == slugify(s)`. */
  lemma SlugifyIdempotent(s: string)
    ensures Slugify(Slugify(s)) == Slugify(s)
  {
    SlugFixed(Slugify(s));
  }
}
