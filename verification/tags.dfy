/**
 * `normalize_tags` (substack2md.py:160-169) and the keyword splitting of
 * `extract_article_fields` (substack2md.py:330-335).
 */
module Tags {
  import opened Text
  import Seqs

  /** The tag every article carries. */
  const Sentinel: string := "substack"

  /** A character a normalised tag may hold. */
  predicate TagChar(c: char) { !IsSpace(c) && !IsUpper(c) }

  /** The shape of a normalised tag: no whitespace, no upper-case letter. */
  predicate IsTag(t: string) {
    forall i :: 0 <= i < |t| ==> TagChar(t[i])
  }

  /** A character that is neither whitespace nor the hyphen whitespace runs become. */
  predicate Visible(c: char) { !IsSpace(c) && c != '-' }

  /**
   * One tag as the loop rewrites it: `re.sub(r"\s+", "-", t.strip().lower())`. The visible
   * characters are those of the stripped, lowered input, in order; NormalizeTagWords shows
   * that each inner whitespace run becomes one hyphen.
   */
  function NormalizeTag(t: string): (r: string)
    ensures IsTag(r)
    ensures r == [] <==> Strip(t) == []
    ensures Seqs.Filter(Visible, r) == Seqs.Filter(Visible, Lower(Strip(t)))
  {
    var s := Lower(Strip(t));
    ReplaceRunsKeeps(s, IsSpace, '-', TagChar);
    ReplaceRunsContent(s, IsSpace, '-', Visible);
    ReplaceRuns(s, IsSpace, '-')
  }

  /** Two normal tags with whitespace between them become the two tags joined by one hyphen. */
  lemma NormalizeTagWords(a: string, sp: string, b: string)
    requires IsTag(a) && IsTag(b) && a != [] && b != []
    requires sp != [] && AllSpace(sp)
    ensures NormalizeTag(a + sp + b) == a + "-" + b
  {
    var s := a + sp + b;
    assert forall i :: 0 <= i < |sp| ==> NotUpper(sp[i]);
    assert forall i :: 0 <= i < |a| ==> NotUpper(a[i]);
    assert forall i :: 0 <= i < |b| ==> NotUpper(b[i]);
    AllOfJoin(a, sp, b, NotUpper);
    assert s[0] == a[0] && s[|s| - 1] == b[|b| - 1];
    StripLowerFixed(s);
    ReplaceRunsRun(a, sp, b, IsSpace, '-');
    ReplaceRunsFixed(a, IsSpace, '-');
    ReplaceRunsFixed(b, IsSpace, '-');
  }

  predicate NotUpper(c: char) { !IsUpper(c) }

  /** A normalised tag normalises to itself. */
  lemma NormalizeTagFixed(t: string)
    requires IsTag(t)
    ensures NormalizeTag(t) == t
  {
    StripNoSpace(t);
    LowerFixed(t);
    ReplaceRunsFixed(t, IsSpace, '-');
  }

  /** Every input tag, normalised. */
  function Norms(tags: seq<string>): seq<string> {
    Seqs.Map(NormalizeTag, tags)
  }

  /**
   * The list `out` after the loop of `normalize_tags` has consumed the
   * already-normalised tags `ns`: each non-empty tag not yet in `out` is
   * appended.
   */
  function Dedup(ns: seq<string>): (out: seq<string>)
    ensures |out| <= |ns|
    decreases |ns|
  {
    if ns == [] then []
    else
      var out := Dedup(ns[..|ns| - 1]);
      var t := ns[|ns| - 1];
      if t != [] && t !in out then out + [t] else out
  }

  /** A tag is kept exactly when it is non-empty and occurs in the input. */
  lemma {:induction false} DedupMembers(ns: seq<string>, x: string)
    ensures x in Dedup(ns) <==> x != [] && x in ns
    decreases |ns|
  {
    if ns != [] {
      var init := ns[..|ns| - 1];
      DedupMembers(init, x);
      assert ns == init + [ns[|ns| - 1]];
    }
  }

  /** The loop never appends a tag twice and never appends an empty one. */
  lemma {:induction false} DedupShape(ns: seq<string>)
    ensures Seqs.NoDup(Dedup(ns))
    ensures forall i :: 0 <= i < |Dedup(ns)| ==> Dedup(ns)[i] != [] && Dedup(ns)[i] in ns
    decreases |ns|
  {
    if ns != [] {
      var init := ns[..|ns| - 1];
      DedupShape(init);
      var out := Dedup(init);
      forall i | 0 <= i < |Dedup(ns)|
        ensures Dedup(ns)[i] in ns
      {
        if i < |out| {
          assert out[i] in init;
        } else {
          assert Dedup(ns)[i] == ns[|ns| - 1];
        }
      }
    }
  }

  /** `normalize_tags(tags)`. */
  function NormalizeTags(tags: seq<string>): (r: seq<string>)
    ensures Seqs.NoDup(r)
    ensures Sentinel in r
    ensures forall i :: 0 <= i < |r| ==> r[i] != [] && IsTag(r[i])
    ensures Sentinel in Norms(tags) ==> r == Dedup(Norms(tags))
    ensures Sentinel !in Norms(tags) ==> r == [Sentinel] + Dedup(Norms(tags))
  {
    var out := Dedup(Norms(tags));
    DedupNormsShape(tags);
    var r := if Sentinel in out then out else [Sentinel] + out;
    WithSentinel(Norms(tags), out, r);
    r
  }

  /** The sentinel goes in front exactly when the input did not already supply it. */
  lemma WithSentinel(ns: seq<string>, out: seq<string>, r: seq<string>)
    requires Seqs.NoDup(out) && forall i :: 0 <= i < |out| ==> out[i] != [] && IsTag(out[i])
    requires Sentinel in out <==> Sentinel in ns
    requires r == if Sentinel in out then out else [Sentinel] + out
    ensures Seqs.NoDup(r) && Sentinel in r
    ensures forall i :: 0 <= i < |r| ==> r[i] != [] && IsTag(r[i])
    ensures Sentinel in ns ==> r == out
    ensures Sentinel !in ns ==> r == [Sentinel] + out
  {
    if Sentinel !in out {
      PrependTag(Sentinel, out);
    }
  }

  /** Putting a new non-empty tag in front of distinct, non-empty tags keeps them so. */
  lemma PrependTag(t: string, out: seq<string>)
    requires t != [] && IsTag(t) && t !in out
    requires Seqs.NoDup(out) && forall i :: 0 <= i < |out| ==> out[i] != [] && IsTag(out[i])
    ensures Seqs.NoDup([t] + out) && forall i :: 0 <= i < |[t] + out| ==> ([t] + out)[i] != [] && IsTag(([t] + out)[i])
  {
    var r := [t] + out;
    assert forall i :: 1 <= i < |r| ==> r[i] == out[i - 1];
  }

  /** Every normalised tag has the tag shape. */
  lemma NormsAreTags(tags: seq<string>)
    ensures forall i :: 0 <= i < |Norms(tags)| ==> IsTag(Norms(tags)[i])
  {
  }

  /** The loop only ever appends tags it was given. */
  lemma {:induction false} DedupTags(ns: seq<string>)
    requires forall i :: 0 <= i < |ns| ==> IsTag(ns[i])
    ensures forall i :: 0 <= i < |Dedup(ns)| ==> IsTag(Dedup(ns)[i])
    decreases |ns|
  {
    if ns != [] {
      DedupTags(ns[..|ns| - 1]);
    }
  }

  /** What the loop leaves in `out`: distinct, non-empty, normalised tags. */
  lemma DedupNormsShape(tags: seq<string>)
    ensures Seqs.NoDup(Dedup(Norms(tags)))
    ensures forall i :: 0 <= i < |Dedup(Norms(tags))| ==> Dedup(Norms(tags))[i] != [] && IsTag(Dedup(Norms(tags))[i])
    ensures Sentinel in Dedup(Norms(tags)) <==> Sentinel in Norms(tags)
  {
    var ns := Norms(tags);
    DedupMembers(ns, Sentinel);
    DedupShape(ns);
    NormsAreTags(tags);
    DedupTags(ns);
  }

  /** The tags of the result: the sentinel and every non-empty normalised input tag. */
  lemma NormalizeTagsMembers(tags: seq<string>, x: string)
    ensures x in NormalizeTags(tags) <==> x == Sentinel || (x != [] && x in Norms(tags))
  {
    DedupMembers(Norms(tags), x);
  }

  /** The loop's output after a prefix of the input is a prefix of its final output. */
  lemma {:induction false} DedupPrefix(ns: seq<string>, k: nat)
    requires k <= |ns|
    ensures Dedup(ns[..k]) <= Dedup(ns)
    decreases |ns| - k
  {
    if k < |ns| {
      var n := |ns|;
      DedupPrefix(ns[..n - 1], k);
      assert ns[..n - 1][..k] == ns[..k];
    } else {
      assert ns[..k] == ns;
    }
  }

  /** Distinct tags keep the order in which they were first seen. */
  lemma FirstSeenOrder(ns: seq<string>, i: nat, j: nat)
    requires i < j < |ns|
    requires ns[i] != [] && ns[j] != []
    requires forall k :: 0 <= k < j ==> ns[k] != ns[j]
    ensures ns[i] in Dedup(ns) && ns[j] in Dedup(ns)
    ensures Seqs.IndexOf(Dedup(ns), ns[i]) < Seqs.IndexOf(Dedup(ns), ns[j])
  {
    FirstSeenPrefix(ns, i, j);
    DedupPrefix(ns, j + 1);
    OrderInDedup(ns, Dedup(ns[..j + 1]), Dedup(ns[..j]), ns[i], ns[j]);
  }

  /** Up to the first occurrence of `ns[j]`, the kept list is the one before it plus `ns[j]`, and holds `ns[i]`. */
  lemma FirstSeenPrefix(ns: seq<string>, i: nat, j: nat)
    requires i < j < |ns|
    requires ns[i] != [] && ns[j] != []
    requires forall k :: 0 <= k < j ==> ns[k] != ns[j]
    ensures ns[i] in Dedup(ns[..j])
    ensures Dedup(ns[..j + 1]) == Dedup(ns[..j]) + [ns[j]]
  {
    var a := ns[i];
    var b := ns[j];
    assert a in Dedup(ns[..j]) by {
      assert ns[..j][i] == a;
      DedupMembers(ns[..j], a);
    }
    assert Dedup(ns[..j + 1]) == Dedup(ns[..j]) + [b] by {
      assert ns[..j + 1][..j] == ns[..j];
      assert ns[..j + 1][j] == b;
      DedupMembers(ns[..j], b);
      assert b !in ns[..j];
    }
  }

  /** In the kept list, an element of `before` comes before `b` when `before + [b]` starts the list. */
  lemma OrderInDedup(ns: seq<string>, pre: seq<string>, before: seq<string>, a: string, b: string)
    requires pre <= Dedup(ns) && pre == before + [b] && a in before
    ensures a in Dedup(ns) && b in Dedup(ns)
    ensures Seqs.IndexOf(Dedup(ns), a) < Seqs.IndexOf(Dedup(ns), b)
  {
    DedupShape(ns);
    OrderInExtension(Dedup(ns), pre, before, a, b);
  }

  /** In a duplicate-free list that extends `pre == before + [b]`, an element of `before` comes before `b`. */
  lemma OrderInExtension(all: seq<string>, pre: seq<string>, before: seq<string>, a: string, b: string)
    requires Seqs.NoDup(all) && pre <= all && pre == before + [b] && a in before
    ensures a in all && b in all
    ensures Seqs.IndexOf(all, a) < Seqs.IndexOf(all, b)
  {
    var ia := Seqs.IndexOf(before, a);
    assert (before + [b])[ia] == a && (before + [b])[|before|] == b;
    assert all[ia] == a && all[|before|] == b;
    PrefixIndex(all, a, ia);
    PrefixIndex(all, b, |before|);
  }

  lemma PrefixIndex(s: seq<string>, x: string, k: nat)
    requires Seqs.NoDup(s) && k < |s| && s[k] == x
    ensures x in s && Seqs.IndexOf(s, x) == k
  {
  }

  /** A duplicate-free list of non-empty tags is its own deduplication. */
  lemma {:induction false} DedupFixed(ns: seq<string>)
    requires Seqs.NoDup(ns)
    requires forall i :: 0 <= i < |ns| ==> ns[i] != []
    ensures Dedup(ns) == ns
    decreases |ns|
  {
    if ns != [] {
      var n := |ns|;
      var init := ns[..n - 1];
      DedupFixed(init);
      assert ns[n - 1] !in init;
      assert ns == init + [ns[n - 1]];
    }
  }

  /** Normalising already-normalised tags changes none of them. */
  lemma {:induction false} NormsFixed(tags: seq<string>)
    requires forall i :: 0 <= i < |tags| ==> IsTag(tags[i])
    ensures Norms(tags) == tags
  {
    forall i | 0 <= i < |tags| ensures Norms(tags)[i] == tags[i] {
      NormalizeTagFixed(tags[i]);
    }
  }

  /** `normalize_tags(normalize_tags(t)) == normalize_tags(t)`. */
  lemma NormalizeTagsIdempotent(tags: seq<string>)
    ensures NormalizeTags(NormalizeTags(tags)) == NormalizeTags(tags)
  {
    var r := NormalizeTags(tags);
    NormsFixed(r);
    DedupFixed(r);
  }

  /** A comma-separated piece that `if x.strip()` keeps. */
  predicate NonBlank(p: string) { Strip(p) != [] }

  predicate CommaFree(p: string) { ',' !in p }

  predicate Keepable(p: string) { NonBlank(p) && CommaFree(p) }

  /** A keyword as the list comprehension yields it. */
  predicate IsKeyword(k: string) { Keepable(k) && Strip(k) == k }

  /** `[x.strip() for x in kw.split(",") if x.strip()]`. */
  function SplitKeywords(kw: string): (r: seq<string>)
    ensures forall i :: 0 <= i < |r| ==> IsKeyword(r[i])
    ensures var kept := Seqs.Filter(NonBlank, SplitOn(kw, ','));
      |r| == |kept| && forall i :: 0 <= i < |r| ==> r[i] == Strip(kept[i])
  {
    var pieces := SplitOn(kw, ',');
    var kept := Seqs.Filter(NonBlank, pieces);
    Seqs.FilterKeeps(NonBlank, Keepable, pieces);
    var r := Seqs.Map(Strip, kept);
    assert forall i :: 0 <= i < |r| ==> IsKeyword(r[i]) by {
      forall i | 0 <= i < |r| ensures IsKeyword(r[i]) {
        StripKeyword(kept[i]);
      }
    }
    r
  }

  /** Stripping a kept piece gives a keyword. */
  lemma StripKeyword(p: string)
    requires Keepable(p)
    ensures IsKeyword(Strip(p))
  {
    var l := LeadCount(p, IsSpace);
    var t := TrailStart(LStrip(p), IsSpace);
    assert Strip(p) == p[l..][..t];
    assert forall i :: 0 <= i < |Strip(p)| ==> Strip(p)[i] == p[l + i];
    assert !IsSpace(Strip(p)[0]) && !IsSpace(Strip(p)[|Strip(p)| - 1]);
    assert LeadCount(Strip(p), IsSpace) == 0;
    assert TrailStart(Strip(p), IsSpace) == |Strip(p)|;
  }

  /** Joining keywords with commas and splitting again gives them back. */
  lemma SplitKeywordsJoin(keywords: seq<string>)
    requires keywords != []
    requires forall i :: 0 <= i < |keywords| ==> IsKeyword(keywords[i])
    ensures SplitKeywords(JoinWith(keywords, ',')) == keywords
  {
    SplitJoin(keywords, ',');
    Seqs.FilterAll(NonBlank, keywords);
  }

  /** Any comma-free pieces joined with commas split into their stripped non-blank pieces, in order. */
  lemma SplitKeywordsPieces(pieces: seq<string>)
    requires pieces != []
    requires forall i :: 0 <= i < |pieces| ==> CommaFree(pieces[i])
    ensures SplitKeywords(JoinWith(pieces, ',')) == Seqs.Map(Strip, Seqs.Filter(NonBlank, pieces))
  {
    SplitJoin(pieces, ',');
  }

  /** A keyword is non-empty and neither starts nor ends with whitespace. */
  lemma KeywordEnds(k: string)
    requires IsKeyword(k)
    ensures k != [] && !IsSpace(k[0]) && !IsSpace(k[|k| - 1])
  {
    var l := LeadCount(k, IsSpace);
    assert |LStrip(k)| == |k| - l;
    assert |Strip(k)| == TrailStart(LStrip(k), IsSpace);
    assert l == 0;
    assert LStrip(k) == k;
  }

  /** Each keyword padded with whitespace on either side. */
  function Padded(ks: seq<string>, pre: seq<string>, post: seq<string>): (r: seq<string>)
    requires |pre| == |ks| && |post| == |ks|
    ensures |r| == |ks|
    ensures forall i :: 0 <= i < |r| ==> r[i] == pre[i] + ks[i] + post[i]
  {
    seq(|ks|, i requires 0 <= i < |ks| => pre[i] + ks[i] + post[i])
  }

  /** `"a , b"` and `" a,b "` give the same keywords as `"a,b"`: whitespace around each keyword is dropped. */
  lemma SplitKeywordsPadded(ks: seq<string>, pre: seq<string>, post: seq<string>)
    requires ks != [] && |pre| == |ks| && |post| == |ks|
    requires forall i :: 0 <= i < |ks| ==> IsKeyword(ks[i])
    requires forall i :: 0 <= i < |ks| ==> AllSpace(pre[i]) && CommaFree(pre[i])
    requires forall i :: 0 <= i < |ks| ==> AllSpace(post[i]) && CommaFree(post[i])
    ensures SplitKeywords(JoinWith(Padded(ks, pre, post), ',')) == ks
  {
    var ps := Padded(ks, pre, post);
    forall i | 0 <= i < |ps| ensures CommaFree(ps[i]) && Strip(ps[i]) == ks[i] {
      KeywordEnds(ks[i]);
      StripFrame(pre[i], ks[i], post[i]);
    }
    SplitKeywordsPieces(ps);
    Seqs.FilterAll(NonBlank, ps);
  }

  /** A blank piece between two commas (`"a,,b"`, `"a, ,b"`) adds no keyword. */
  lemma SplitKeywordsBlankPiece(before: seq<string>, blank: string, after: seq<string>)
    requires before + after != []
    requires forall i :: 0 <= i < |before| ==> CommaFree(before[i])
    requires forall i :: 0 <= i < |after| ==> CommaFree(after[i])
    requires AllSpace(blank) && CommaFree(blank)
    ensures SplitKeywords(JoinWith(before + [blank] + after, ','))
         == SplitKeywords(JoinWith(before + after, ','))
  {
    CommaFreeAppend(before, [blank]);
    CommaFreeAppend(before + [blank], after);
    CommaFreeAppend(before, after);
    SplitKeywordsPieces(before + [blank] + after);
    SplitKeywordsPieces(before + after);
    BlankDropped(before, blank, after);
  }

  lemma CommaFreeAppend(a: seq<string>, b: seq<string>)
    requires forall i :: 0 <= i < |a| ==> CommaFree(a[i])
    requires forall i :: 0 <= i < |b| ==> CommaFree(b[i])
    ensures forall i :: 0 <= i < |a + b| ==> CommaFree((a + b)[i])
  {
    forall i | 0 <= i < |a + b| ensures CommaFree((a + b)[i]) {
      if i < |a| { assert (a + b)[i] == a[i]; } else { assert (a + b)[i] == b[i - |a|]; }
    }
  }

  lemma BlankDropped(before: seq<string>, blank: string, after: seq<string>)
    requires AllSpace(blank)
    ensures Seqs.Filter(NonBlank, before + [blank] + after) == Seqs.Filter(NonBlank, before + after)
  {
    BlankIsAllSpace(blank);
    assert Seqs.Filter(NonBlank, [blank]) == [];
    Seqs.FilterAppend(NonBlank, before + [blank], after);
    Seqs.FilterAppend(NonBlank, before, [blank]);
    Seqs.FilterAppend(NonBlank, before, after);
  }
}
