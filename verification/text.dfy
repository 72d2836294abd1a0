/**
 * Character classes and string primitives with the meaning Python gives them.
 *
 * Whitespace is exactly the set for which Python's `str.isspace()` holds (which is
 * also what the regular-expression class `\s` matches on `str` patterns). Letters,
 * digits, `\w` and case mapping follow their ASCII meaning only.
 */
module Text {
  import Seqs

  /** Python's `str.isspace()` / regex `\s`, character by character. */
  predicate IsSpace(c: char) {
    || c == ' '
    || ('\t' <= c <= '\r')
    || ('\U{1c}' <= c <= '\U{1f}')
    || c == '\U{85}' || c == '\U{a0}' || c == '\U{1680}'
    || ('\U{2000}' <= c <= '\U{200a}')
    || c == '\U{2028}' || c == '\U{2029}' || c == '\U{202f}' || c == '\U{205f}' || c == '\U{3000}'
  }

  predicate IsDigit(c: char) { '0' <= c <= '9' }
  predicate IsUpper(c: char) { 'A' <= c <= 'Z' }
  predicate IsLower(c: char) { 'a' <= c <= 'z' }
  predicate IsLetter(c: char) { IsUpper(c) || IsLower(c) }
  predicate IsAlnum(c: char) { IsLetter(c) || IsDigit(c) }

  /** The regex class `\w` (ASCII): letters, digits and the underscore. */
  predicate IsWordChar(c: char) { IsAlnum(c) || c == '_' }

  function LowerChar(c: char): (d: char)
    ensures !IsUpper(d)
    ensures IsAlnum(c) <==> IsAlnum(d)
    ensures IsSpace(c) <==> IsSpace(d)
    ensures !IsUpper(c) ==> d == c
  {
    if IsUpper(c) then (c as int + 32) as char else c
  }

  function UpperChar(c: char): (d: char)
    ensures !IsLower(d)
    ensures IsLetter(c) <==> IsLetter(d)
    ensures !IsLower(c) ==> d == c
  {
    if IsLower(c) then (c as int - 32) as char else c
  }

  /** Python's `s.lower()` on ASCII letters; other characters are left alone. */
  function Lower(s: string): (r: string)
    ensures |r| == |s|
    ensures forall i :: 0 <= i < |s| ==> r[i] == LowerChar(s[i])
  {
    Seqs.Map(LowerChar, s)
  }

  /** Lowering a string without upper-case letters changes nothing. */
  lemma LowerFixed(s: string)
    requires forall i :: 0 <= i < |s| ==> !IsUpper(s[i])
    ensures Lower(s) == s
  {
  }

  predicate AllSpace(s: string) {
    forall i :: 0 <= i < |s| ==> IsSpace(s[i])
  }

  /** Index of the first `c` in `s`, or `|s|` when there is none (Python's `str.find`, with `|s|` for -1). */
  function FindChar(s: string, c: char): (i: nat)
    ensures i <= |s|
    ensures c !in s[..i]
    ensures i < |s| ==> s[i] == c
    decreases |s|
  {
    if s == [] then 0 else if s[0] == c then 0 else 1 + FindChar(s[1..], c)
  }

  /** Python's `sep.join(parts)` for a one-character separator. */
  function JoinWith(parts: seq<string>, sep: char): string
    decreases |parts|
  {
    if parts == [] then []
    else if |parts| == 1 then parts[0]
    else parts[0] + [sep] + JoinWith(parts[1..], sep)
  }

  /** Python's `s.split(sep)` for a one-character separator. */
  function SplitOn(s: string, sep: char): (r: seq<string>)
    ensures |r| >= 1
    ensures forall i :: 0 <= i < |r| ==> sep !in r[i]
    ensures JoinWith(r, sep) == s
    decreases |s|
  {
    var i := FindChar(s, sep);
    if i == |s| then
      assert s[..i] == s;
      [s]
    else
      var rest := SplitOn(s[i + 1..], sep);
      assert s == s[..i] + [sep] + s[i + 1..];
      [s[..i]] + rest
  }

  /** Joining and splitting again gives back the parts. */
  lemma {:induction false} SplitJoin(parts: seq<string>, sep: char)
    requires parts != []
    requires forall i :: 0 <= i < |parts| ==> sep !in parts[i]
    ensures SplitOn(JoinWith(parts, sep), sep) == parts
    decreases |parts|
  {
    var p := parts[0];
    if |parts| == 1 {
      FindAbsent(p, sep);
    } else {
      var s := JoinWith(parts, sep);
      var tail := JoinWith(parts[1..], sep);
      assert s == p + [sep] + tail;
      FindAfterPrefix(p, tail, sep);
      assert s[..|p|] == p;
      assert s[|p| + 1..] == tail;
      SplitJoin(parts[1..], sep);
    }
  }

  lemma {:induction false} FindAbsent(s: string, c: char)
    requires c !in s
    ensures FindChar(s, c) == |s|
    decreases |s|
  {
    if s != [] {
      FindAbsent(s[1..], c);
    }
  }

  lemma {:induction false} FindAfterPrefix(p: string, tail: string, c: char)
    requires c !in p
    ensures FindChar(p + [c] + tail, c) == |p|
    decreases |p|
  {
    if p != [] {
      assert (p + [c] + tail)[1..] == p[1..] + [c] + tail;
      FindAfterPrefix(p[1..], tail, c);
    }
  }

  /** Searching a concatenation: the hit in the first part, else the hit in the second shifted past it. */
  lemma {:induction false} FindConcat(p: string, t: string, c: char)
    ensures FindChar(p + t, c) == if FindChar(p, c) < |p| then FindChar(p, c) else |p| + FindChar(t, c)
    decreases |p|
  {
    if p != [] {
      assert (p + t)[1..] == p[1..] + t;
      FindConcat(p[1..], t, c);
    } else {
      assert p + t == t;
    }
  }

  /** Length of the longest prefix of `s` whose characters satisfy `p`. */
  function LeadCount(s: string, p: char -> bool): (n: nat)
    ensures n <= |s|
    ensures forall i :: 0 <= i < n ==> p(s[i])
    ensures n < |s| ==> !p(s[n])
    decreases |s|
  {
    if s != [] && p(s[0]) then 1 + LeadCount(s[1..], p) else 0
  }

  /** Start of the longest suffix of `s` whose characters satisfy `p`. */
  function TrailStart(s: string, p: char -> bool): (n: nat)
    ensures n <= |s|
    ensures forall i :: n <= i < |s| ==> p(s[i])
    ensures 0 < n ==> !p(s[n - 1])
    decreases |s|
  {
    if s != [] && p(s[|s| - 1]) then TrailStart(s[..|s| - 1], p) else |s|
  }

  /** The run counted by `LeadCount` ends where the class ends. */
  lemma LeadCountConcat(a: string, b: string, p: char -> bool)
    requires forall i :: 0 <= i < |a| ==> p(a[i])
    requires b == [] || !p(b[0])
    ensures LeadCount(a + b, p) == |a|
  {
    var n := LeadCount(a + b, p);
    assert forall i :: 0 <= i < |a| ==> (a + b)[i] == a[i];
    if b != [] {
      assert (a + b)[|a|] == b[0];
    }
  }

  /** The run found by `TrailStart` starts where the class starts. */
  lemma TrailStartConcat(a: string, b: string, p: char -> bool)
    requires forall i :: 0 <= i < |b| ==> p(b[i])
    requires a == [] || !p(a[|a| - 1])
    ensures TrailStart(a + b, p) == |a|
  {
    assert forall i :: 0 <= i < |b| ==> (a + b)[|a| + i] == b[i];
    if a != [] {
      assert (a + b)[|a| - 1] == a[|a| - 1];
    }
  }

  /** `s` without its longest prefix of characters satisfying `p`. */
  function DropWhile(s: string, p: char -> bool): string {
    s[LeadCount(s, p)..]
  }

  /** `s` without its longest suffix of characters satisfying `p`. */
  function DropWhileEnd(s: string, p: char -> bool): string {
    s[..TrailStart(s, p)]
  }

  /** Python's `s.lstrip()`. */
  function LStrip(s: string): string {
    DropWhile(s, IsSpace)
  }

  /** Python's `s.rstrip()`. */
  function RStrip(s: string): string {
    DropWhileEnd(s, IsSpace)
  }

  /** Python's `s.strip()`. */
  function Strip(s: string): string {
    RStrip(LStrip(s))
  }

  /** A line that is empty after `strip()`: Python's `line.strip() == ""`. */
  predicate IsBlank(s: string) {
    Strip(s) == []
  }

  lemma BlankIsAllSpace(s: string)
    ensures IsBlank(s) <==> AllSpace(s)
  {
    var k := LeadCount(s, IsSpace);
    if AllSpace(s) {
      assert k == |s|;
    } else {
      var i :| 0 <= i < |s| && !IsSpace(s[i]);
      assert k <= i;
      assert LStrip(s)[i - k] == s[i];
      assert TrailStart(LStrip(s), IsSpace) > i - k;
    }
  }

  /** A string without whitespace is its own strip. */
  lemma StripNoSpace(s: string)
    requires forall i :: 0 <= i < |s| ==> !IsSpace(s[i])
    ensures LStrip(s) == s && RStrip(s) == s && Strip(s) == s
  {
    assert LeadCount(s, IsSpace) == 0;
    assert TrailStart(s, IsSpace) == |s|;
  }

  /** Dropping a prefix of class characters keeps every character `f` selects, when `f` selects none of the class. */
  lemma FilterDropWhile(f: char -> bool, s: string, p: char -> bool)
    requires forall x :: p(x) ==> !f(x)
    ensures Seqs.Filter(f, DropWhile(s, p)) == Seqs.Filter(f, s)
  {
    var k := LeadCount(s, p);
    var lead := s[..k];
    assert s == lead + s[k..];
    forall i | 0 <= i < |lead|
      ensures !f(lead[i])
    {
      assert p(s[i]);
    }
    Seqs.FilterNone(f, lead);
    Seqs.FilterAppend(f, lead, s[k..]);
  }

  /** Dropping a suffix of class characters keeps every character `f` selects, when `f` selects none of the class. */
  lemma FilterDropWhileEnd(f: char -> bool, s: string, p: char -> bool)
    requires forall x :: p(x) ==> !f(x)
    ensures Seqs.Filter(f, DropWhileEnd(s, p)) == Seqs.Filter(f, s)
  {
    var m := TrailStart(s, p);
    var trail := s[m..];
    assert s == s[..m] + trail;
    forall i | 0 <= i < |trail|
      ensures !f(trail[i])
    {
      assert p(s[m + i]);
    }
    Seqs.FilterNone(f, trail);
    Seqs.FilterAppend(f, s[..m], trail);
  }

  /**
   * `re.sub("[P]+", c, s)`: every maximal run of characters satisfying `p` becomes the
   * single character `c`; every other character is kept in place.
   */
  function ReplaceRuns(s: string, p: char -> bool, c: char): (r: string)
    ensures |r| == 0 <==> |s| == 0
    ensures s != [] && p(s[0]) ==> r[0] == c
    ensures s != [] && !p(s[0]) ==> r[0] == s[0]
    ensures p(c) ==> forall i :: 0 <= i < |r| - 1 ==> !(r[i] == c && r[i + 1] == c)
    ensures forall i :: 0 <= i < |r| && r[i] != c ==> !p(r[i])
    decreases |s|
  {
    if s == [] then []
    else if p(s[0]) then [c] + ReplaceRuns(DropWhile(s[1..], p), p, c)
    else [s[0]] + ReplaceRuns(s[1..], p, c)
  }

  /** A property shared by `c` and by every non-class character holds of the whole result. */
  lemma {:induction false} ReplaceRunsKeeps(s: string, p: char -> bool, c: char, g: char -> bool)
    requires g(c)
    requires forall i :: 0 <= i < |s| ==> p(s[i]) || g(s[i])
    ensures forall i :: 0 <= i < |ReplaceRuns(s, p, c)| ==> g(ReplaceRuns(s, p, c)[i])
    decreases |s|
  {
    if s != [] {
      if p(s[0]) {
        var k := LeadCount(s[1..], p);
        var rest := s[1..][k..];
        assert forall i :: 0 <= i < |rest| ==> rest[i] == s[1 + k + i];
        ReplaceRunsKeeps(rest, p, c, g);
      } else {
        assert forall i :: 0 <= i < |s| - 1 ==> s[1..][i] == s[i + 1];
        ReplaceRunsKeeps(s[1..], p, c, g);
      }
    }
  }

  /** Replacing runs keeps, in order, every character that is neither in the class nor `c`. */
  lemma {:induction false} ReplaceRunsContent(s: string, p: char -> bool, c: char, q: char -> bool)
    requires forall x :: q(x) ==> !p(x) && x != c
    ensures Seqs.Filter(q, ReplaceRuns(s, p, c)) == Seqs.Filter(q, s)
    decreases |s|
  {
    if s != [] {
      var r := ReplaceRuns(s, p, c);
      if p(s[0]) {
        var k := LeadCount(s[1..], p);
        var rest := s[1..][k..];
        assert s[1..] == s[1..][..k] + rest;
        Seqs.FilterNone(q, s[1..][..k]);
        Seqs.FilterAppend(q, s[1..][..k], rest);
        ReplaceRunsContent(rest, p, c, q);
        Seqs.FilterAppend(q, [c], ReplaceRuns(rest, p, c));
      } else {
        ReplaceRunsContent(s[1..], p, c, q);
        Seqs.FilterAppend(q, [s[0]], ReplaceRuns(s[1..], p, c));
      }
    }
  }

  /** A string whose class characters are all single `c`s that are followed by a non-class character is unchanged. */
  lemma {:induction false} ReplaceRunsFixed(s: string, p: char -> bool, c: char)
    requires forall i :: 0 <= i < |s| && p(s[i]) ==> s[i] == c
    requires forall i :: 0 <= i < |s| - 1 && s[i] == c ==> !p(s[i + 1])
    ensures ReplaceRuns(s, p, c) == s
    decreases |s|
  {
    if s != [] {
      var t := s[1..];
      forall i | 0 <= i < |t| && p(t[i])
        ensures t[i] == c
      {
        assert t[i] == s[i + 1];
      }
      forall i | 0 <= i < |t| - 1 && t[i] == c
        ensures !p(t[i + 1])
      {
        assert t[i] == s[i + 1] && t[i + 1] == s[i + 2];
      }
      ReplaceRunsFixed(t, p, c);
      if p(s[0]) {
        assert LeadCount(t, p) == 0;
        assert ReplaceRuns(s, p, c) == [c] + ReplaceRuns(t, p, c);
      } else {
        assert ReplaceRuns(s, p, c) == [s[0]] + ReplaceRuns(t, p, c);
      }
      assert s == [s[0]] + t;
    }
  }

  /** A property of every character of three strings holds of every character of their concatenation. */
  lemma AllOfJoin(a: string, m: string, b: string, f: char -> bool)
    requires forall i :: 0 <= i < |a| ==> f(a[i])
    requires forall i :: 0 <= i < |m| ==> f(m[i])
    requires forall i :: 0 <= i < |b| ==> f(b[i])
    ensures forall i :: 0 <= i < |a + m + b| ==> f((a + m + b)[i])
  {
    forall i | 0 <= i < |a + m + b|
      ensures f((a + m + b)[i])
    {
      if i < |a| {
        assert (a + m + b)[i] == a[i];
      } else if i < |a| + |m| {
        assert (a + m + b)[i] == m[i - |a|];
      } else {
        assert (a + m + b)[i] == b[i - |a| - |m|];
      }
    }
  }

  /** Stripping and lowering leave alone a text without upper-case letters whose ends are not whitespace. */
  lemma StripLowerFixed(s: string)
    requires s != [] && !IsSpace(s[0]) && !IsSpace(s[|s| - 1])
    requires forall i :: 0 <= i < |s| ==> !IsUpper(s[i])
    ensures Lower(Strip(s)) == s
  {
    StripFrame([], s, []);
    assert [] + s + [] == s;
    LowerFixed(s);
  }

  /** A class run that ends inside `a` is dropped the same way whatever follows `a`. */
  lemma DropWhileAppend(a: string, t: string, p: char -> bool)
    requires a != [] && !p(a[|a| - 1])
    ensures DropWhile(a + t, p) == DropWhile(a, p) + t
    ensures DropWhile(a, p) != [] && !p(DropWhile(a, p)[|DropWhile(a, p)| - 1])
  {
    var k := LeadCount(a, p);
    assert k < |a|;
    assert a + t == a[..k] + (a[k..] + t);
    LeadCountConcat(a[..k], a[k..] + t, p);
  }

  /** Replacing runs works piecewise on the two sides of a cut after a non-class character. */
  lemma {:induction false} ReplaceRunsAppend(a: string, t: string, p: char -> bool, c: char)
    requires a == [] || !p(a[|a| - 1])
    ensures ReplaceRuns(a + t, p, c) == ReplaceRuns(a, p, c) + ReplaceRuns(t, p, c)
    decreases |a|
  {
    if a == [] {
      assert a + t == t;
    } else {
      var s := a + t;
      assert s[0] == a[0];
      if p(a[0]) {
        assert s[1..] == a[1..] + t;
        DropWhileAppend(a[1..], t, p);
        var d := DropWhile(a[1..], p);
        ReplaceRunsAppend(d, t, p, c);
        Seqs.ConcatAssoc([c], ReplaceRuns(d, p, c), ReplaceRuns(t, p, c));
      } else {
        assert s[1..] == a[1..] + t;
        ReplaceRunsAppend(a[1..], t, p, c);
        Seqs.ConcatAssoc([a[0]], ReplaceRuns(a[1..], p, c), ReplaceRuns(t, p, c));
      }
    }
  }

  /** A whole run at the front becomes one `c`, and the rest is replaced on its own. */
  lemma ReplaceRunsLead(run: string, b: string, p: char -> bool, c: char)
    requires run != [] && forall i :: 0 <= i < |run| ==> p(run[i])
    requires b == [] || !p(b[0])
    ensures ReplaceRuns(run + b, p, c) == [c] + ReplaceRuns(b, p, c)
  {
    var s := run + b;
    assert s[0] == run[0];
    assert s[1..] == run[1..] + b;
    LeadCountConcat(run[1..], b, p);
  }

  /** A maximal run of class characters between two non-class characters becomes exactly one `c`. */
  lemma ReplaceRunsRun(a: string, run: string, b: string, p: char -> bool, c: char)
    requires a == [] || !p(a[|a| - 1])
    requires run != [] && forall i :: 0 <= i < |run| ==> p(run[i])
    requires b == [] || !p(b[0])
    ensures ReplaceRuns(a + run + b, p, c) == ReplaceRuns(a, p, c) + [c] + ReplaceRuns(b, p, c)
  {
    Seqs.ConcatAssoc(a, run, b);
    ReplaceRunsAppend(a, run + b, p, c);
    ReplaceRunsLead(run, b, p, c);
    Seqs.ConcatAssoc(ReplaceRuns(a, p, c), [c], ReplaceRuns(b, p, c));
  }

  /** Lowering commutes with keeping only letters and digits. */
  lemma {:induction false} FilterAlnumLower(s: string)
    ensures Seqs.Filter(IsAlnum, Lower(s)) == Lower(Seqs.Filter(IsAlnum, s))
    decreases |s|
  {
    if s != [] {
      assert Lower(s)[1..] == Lower(s[1..]);
      FilterAlnumLower(s[1..]);
      var h := if IsAlnum(s[0]) then [s[0]] else [];
      assert Lower(h + Seqs.Filter(IsAlnum, s[1..])) == Lower(h) + Lower(Seqs.Filter(IsAlnum, s[1..]));
    }
  }

  /** Stripping whitespace from around a word whose ends are not whitespace gives the word. */
  lemma StripFrame(a: string, m: string, b: string)
    requires AllSpace(a) && AllSpace(b)
    requires m != [] && !IsSpace(m[0]) && !IsSpace(m[|m| - 1])
    ensures Strip(a + m + b) == m
  {
    assert a + m + b == a + (m + b);
    LeadCountConcat(a, m + b, IsSpace);
    assert LStrip(a + m + b) == m + b;
    TrailStartConcat(m, b, IsSpace);
  }

  /** Stripping whitespace keeps every letter and digit. */
  lemma StripKeepsAlnum(s: string)
    ensures Seqs.Filter(IsAlnum, Strip(s)) == Seqs.Filter(IsAlnum, s)
  {
    FilterDropWhile(IsAlnum, s, IsSpace);
    FilterDropWhileEnd(IsAlnum, LStrip(s), IsSpace);
  }
}
