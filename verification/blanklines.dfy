/**
 * The two blank-line passes of substack2md.py, each a loop over `md.splitlines()`
 * that copies lines to `out` and skips some blank ones:
 * `remove_blank_after_headings` (substack2md.py:194-202) and
 * `collapse_blank_lines_in_lists` (substack2md.py:204-217).
 */
module BlankLines {
  import opened Text
  import Seqs
  import Lines

  predicate NotBlank(l: string) { !IsBlank(l) }

  /** `line.lstrip().startswith("#")`. */
  predicate IsHeading(l: string) {
    var t := LStrip(l);
    t != [] && t[0] == '#'
  }

  lemma HeadingNotBlank(l: string)
    requires IsHeading(l)
    ensures !IsBlank(l)
  {
    BlankIsAllSpace(l);
    assert l[LeadCount(l, IsSpace)] == '#';
  }

  /** No blank line directly after a heading. */
  predicate NoBlankAfterHeading(s: seq<string>) {
    forall i :: 0 < i < |s| ==> !(IsHeading(s[i - 1]) && IsBlank(s[i]))
  }

  predicate EndsInHeading(s: seq<string>) {
    s != [] && IsHeading(s[|s| - 1])
  }

  // ---------------------------------------------------------------------------
  // remove_blank_after_headings

  /** The list `out` once the loop of `remove_blank_after_headings` has seen `lines`. */
  function HeadingPass(lines: seq<string>): (out: seq<string>)
    ensures |out| <= |lines|
    ensures NoBlankAfterHeading(out)
    decreases |lines|
  {
    if lines == [] then []
    else
      var out := HeadingPass(lines[..|lines| - 1]);
      var line := lines[|lines| - 1];
      if EndsInHeading(out) && IsBlank(line) then out
      else out + [line]
  }

  /** `remove_blank_after_headings(md)`: the lines of `md` through the independent definition `HeadingSpec`. */
  function RemoveBlankAfterHeadings(md: string): (r: string)
    ensures r == Lines.JoinLines(HeadingSpec(Lines.SplitLines(md)))
  {
    HeadingPassMeetsSpec(Lines.SplitLines(md));
    Lines.JoinLines(HeadingPass(Lines.SplitLines(md)))
  }

  /** The closest non-blank line of `before` exists and is a heading. */
  predicate AfterHeading(before: seq<string>)
    decreases |before|
  {
    before != [] &&
    var l := before[|before| - 1];
    if IsBlank(l) then AfterHeading(before[..|before| - 1]) else IsHeading(l)
  }

  /** Every line is kept except a blank one whose closest non-blank predecessor is a heading. */
  function HeadingSpec(lines: seq<string>): seq<string>
    decreases |lines|
  {
    if lines == [] then []
    else
      var before := lines[..|lines| - 1];
      var line := lines[|lines| - 1];
      HeadingSpec(before) + (if IsBlank(line) && AfterHeading(before) then [] else [line])
  }

  /**
   * Looking only at the last line kept is the same as looking back through the
   * input for the closest non-blank line: the blank lines in between were all dropped.
   */
  lemma {:induction false} HeadingPassMeetsSpec(lines: seq<string>)
    ensures HeadingPass(lines) == HeadingSpec(lines)
    ensures EndsInHeading(HeadingPass(lines)) <==> AfterHeading(lines)
    decreases |lines|
  {
    if lines != [] {
      var line := lines[|lines| - 1];
      HeadingPassMeetsSpec(lines[..|lines| - 1]);
      if IsHeading(line) {
        HeadingNotBlank(line);
      }
    }
  }

  /** Only blank lines are deleted: the non-blank lines survive, in order. */
  lemma {:induction false} HeadingPassKeepsText(lines: seq<string>)
    ensures Seqs.Filter(NotBlank, HeadingPass(lines)) == Seqs.Filter(NotBlank, lines)
    ensures Seqs.IsSubseq(HeadingPass(lines), lines)
    decreases |lines|
  {
    if lines != [] {
      var before := lines[..|lines| - 1];
      var line := lines[|lines| - 1];
      var out := HeadingPass(before);
      HeadingPassKeepsText(before);
      assert lines == before + [line];
      if EndsInHeading(out) && IsBlank(line) {
        Seqs.CopyStep(NotBlank, out, before, line, []);
        assert out + [] == out;
      } else {
        Seqs.CopyStep(NotBlank, out, before, line, [line]);
      }
    }
  }

  /** The pass changes nothing exactly when no blank line follows a heading. */
  lemma {:induction false} HeadingPassFixed(lines: seq<string>)
    ensures HeadingPass(lines) == lines <==> NoBlankAfterHeading(lines)
    decreases |lines|
  {
    if lines != [] && NoBlankAfterHeading(lines) {
      var before := lines[..|lines| - 1];
      assert NoBlankAfterHeading(before) by {
        assert forall i :: 0 <= i < |before| ==> before[i] == lines[i];
      }
      HeadingPassFixed(before);
      assert lines == before + [lines[|lines| - 1]];
    }
  }

  lemma {:induction false} HeadingPassIdempotent(lines: seq<string>)
    ensures HeadingPass(HeadingPass(lines)) == HeadingPass(lines)
  {
    HeadingPassFixed(HeadingPass(lines));
  }

  // ---------------------------------------------------------------------------
  // collapse_blank_lines_in_lists

  /** `s.startswith(("-", "*", "\t-", "\t*"))`. */
  predicate IsBulletStart(s: string) {
    || (|s| >= 1 && (s[0] == '-' || s[0] == '*'))
    || (|s| >= 2 && s[0] == '\t' && (s[1] == '-' || s[1] == '*'))
  }

  /** What may precede a deleted blank line: a bullet, a line ending in `:`, or a heading. */
  predicate IsListContext(prev: string) {
    IsBulletStart(prev) || (prev != [] && (prev[|prev| - 1] == ':' || prev[0] == '#'))
  }

  /** Line `i` is blank and sits between list context and a bullet. */
  predicate SkipsAt(lines: seq<string>, i: nat)
    requires i < |lines|
  {
    && IsBlank(lines[i])
    && i + 1 < |lines|
    && IsBulletStart(Strip(lines[i + 1]))
    && IsListContext(if i > 0 then Strip(lines[i - 1]) else "")
  }

  /** The list `out` after the first `n` iterations of the loop of `collapse_blank_lines_in_lists`. */
  function ListPassUpTo(lines: seq<string>, n: nat): (out: seq<string>)
    requires n <= |lines|
    ensures |out| <= n
  {
    if n == 0 then []
    else ListPassUpTo(lines, n - 1) + Piece(lines, n - 1)
  }

  /**
   * The whole loop: it equals the walk that looks at the previous input line, the line
   * and the rest, and it deletes only blank lines, keeping the rest in order.
   */
  function ListPass(lines: seq<string>): (out: seq<string>)
    ensures out == Walk("", lines)
    ensures Seqs.Filter(NotBlank, out) == Seqs.Filter(NotBlank, lines)
    ensures Seqs.IsSubseq(out, lines)
  {
    ListPassWalkFrom(lines, 0);
    ListPassKeepsText(lines, |lines|);
    assert lines[..|lines|] == lines;
    ListPassUpTo(lines, |lines|)
  }

  /** The bullets are tested on stripped text, so the two tab-led prefixes can never match. */
  lemma StrippedBullet(s: string)
    ensures IsBulletStart(Strip(s)) <==> Strip(s) != [] && (Strip(s)[0] == '-' || Strip(s)[0] == '*')
  {
    var t := LStrip(s);
    if Strip(s) != [] {
      assert t != [] && Strip(s)[0] == t[0] == s[LeadCount(s, IsSpace)];
    }
  }

  lemma BulletNotBlank(s: string)
    requires IsBulletStart(Strip(s))
    ensures !IsBlank(s)
  {
  }

  /** Line `i` contributes itself to `out`, or nothing when it is a skipped blank line. */
  function Piece(lines: seq<string>, i: nat): (r: seq<string>)
    requires i < |lines|
    ensures r == [] || r == [lines[i]]
    ensures r == [] ==> IsBlank(lines[i])
  {
    if SkipsAt(lines, i) then [] else [lines[i]]
  }

  /** Only blank lines are deleted: the non-blank lines survive, in order. */
  lemma {:induction false} ListPassKeepsText(lines: seq<string>, n: nat)
    requires n <= |lines|
    ensures Seqs.Filter(NotBlank, ListPassUpTo(lines, n)) == Seqs.Filter(NotBlank, lines[..n])
    ensures Seqs.IsSubseq(ListPassUpTo(lines, n), lines[..n])
    decreases n
  {
    if n > 0 {
      ListPassKeepsText(lines, n - 1);
      Seqs.TakeLast(lines, n);
      Seqs.CopyStep(NotBlank, ListPassUpTo(lines, n - 1), lines[..n - 1], lines[n - 1], Piece(lines, n - 1));
    }
  }

  /**
   * The same pass as a walk that carries the previous input line: a blank line is
   * dropped when the line after it starts a bullet and the line before it is list context.
   */
  function Walk(prev: string, lines: seq<string>): seq<string>
    decreases |lines|
  {
    if lines == [] then []
    else (if Skip(prev, lines[0], lines[1..]) then [] else [lines[0]]) + Walk(lines[0], lines[1..])
  }

  /** Whether the walk drops `line`, given the input lines around it. */
  predicate Skip(prev: string, line: string, next: seq<string>) {
    IsBlank(line) && next != [] && IsBulletStart(Strip(next[0])) && IsListContext(Strip(prev))
  }

  /** A dropped line is followed by a non-blank one. */
  lemma SkipBeforeText(prev: string, line: string, next: seq<string>)
    requires Skip(prev, line, next)
    ensures !IsBlank(next[0])
  {
    BulletNotBlank(next[0]);
  }

  /** A blank line is no list context, so the line after it is never dropped. */
  lemma NoSkipAfterBlank(prev: string, line: string, next: seq<string>)
    requires IsBlank(prev)
    ensures !Skip(prev, line, next)
  {
    assert Strip(prev) == [];
  }

  /** The indexed loop and the walk agree from every point on. */
  lemma {:induction false} ListPassWalkFrom(lines: seq<string>, k: nat)
    requires k <= |lines|
    ensures ListPassUpTo(lines, |lines|) == ListPassUpTo(lines, k) + Walk(if k > 0 then lines[k - 1] else "", lines[k..])
    decreases |lines| - k
  {
    if k < |lines| {
      ListPassWalkFrom(lines, k + 1);
      WalkAt(lines, k);
      Seqs.ConcatAssoc(ListPassUpTo(lines, k), Piece(lines, k), Walk(lines[k], lines[k + 1..]));
    }
  }

  /** One step of the walk from line `k` is the loop's piece at `k`. */
  lemma WalkAt(lines: seq<string>, k: nat)
    requires k < |lines|
    ensures Walk(if k > 0 then lines[k - 1] else "", lines[k..]) == Piece(lines, k) + Walk(lines[k], lines[k + 1..])
  {
    var t := lines[k..];
    assert t[0] == lines[k] && t[1..] == lines[k + 1..];
    SkipsAtIsSkip(lines, k);
  }

  lemma SkipsAtIsSkip(lines: seq<string>, k: nat)
    requires k < |lines|
    ensures SkipsAt(lines, k) == Skip(if k > 0 then lines[k - 1] else "", lines[k], lines[k + 1..])
  {
    assert k + 1 < |lines| ==> lines[k + 1..][0] == lines[k + 1];
    assert Strip("") == "";
  }

  /**
   * A blank line the walk keeps keeps its neighbours, since a blank line is no list
   * context and no bullet; so a second walk deletes nothing more.
   */
  lemma {:induction false} WalkIdempotent(prev: string, lines: seq<string>)
    ensures Walk(prev, Walk(prev, lines)) == Walk(prev, lines)
    decreases |lines|
  {
    if lines != [] {
      var x := lines[0];
      var rest := lines[1..];
      var w := Walk(x, rest);
      if Skip(prev, x, rest) {
        SkipBeforeText(prev, x, rest);
        var y := rest[0];
        var w2 := Walk(y, rest[1..]);
        assert w == [y] + w2;
        WalkIdempotent(y, rest[1..]);
        assert ([y] + w2)[1..] == w2;
        assert Walk(prev, w) == [y] + Walk(y, w2);
        assert Walk(prev, lines) == w;
      } else {
        WalkIdempotent(x, rest);
        assert ([x] + w)[1..] == w;
        if IsBlank(x) && rest != [] {
          NoSkipAfterBlank(x, rest[0], rest[1..]);
          assert w[0] == rest[0];
          assert !Skip(prev, x, w);
        }
        assert Walk(prev, [x] + w) == [x] + Walk(x, w);
        assert Walk(prev, lines) == [x] + w;
      }
    }
  }

  lemma ListPassIdempotent(lines: seq<string>)
    ensures ListPass(ListPass(lines)) == ListPass(lines)
  {
    WalkIdempotent("", lines);
  }

  // ---------------------------------------------------------------------------
  // re.sub(r"\n{3,}", "\n\n", md2)

  predicate IsLf(c: char) { c == '\n' }

  predicate NotLf(c: char) { c != '\n' }

  predicate NoTripleNewline(s: string) {
    forall i :: 0 <= i < |s| - 2 ==> !(s[i] == '\n' && s[i + 1] == '\n' && s[i + 2] == '\n')
  }

  /** Every run of three or more newlines becomes two. */
  function CollapseNewlines(s: string): (r: string)
    ensures NoTripleNewline(r)
    ensures s != [] ==> r != [] && (r[0] == '\n' <==> s[0] == '\n')
    decreases |s|
  {
    if s == [] then []
    else
      var k := LeadCount(s, IsLf);
      if k == 0 then
        var rest := CollapseNewlines(s[1..]);
        NoTripleAfter([s[0]], rest);
        [s[0]] + rest
      else
        var rest := CollapseNewlines(s[k..]);
        var run := if k >= 3 then "\n\n" else s[..k];
        NoTripleAfter(run, rest);
        run + rest
  }

  /** A short piece, or one ending in a non-newline, in front of a run-free text. */
  lemma NoTripleAfter(a: string, b: string)
    requires NoTripleNewline(b)
    requires (|a| == 1 && a[0] != '\n') || (|a| <= 2 && (b == [] || b[0] != '\n'))
    ensures NoTripleNewline(a + b)
  {
    var s := a + b;
    forall i | 0 <= i < |s| - 2
      ensures !(s[i] == '\n' && s[i + 1] == '\n' && s[i + 2] == '\n')
    {
      if i >= |a| {
        assert s[i] == b[i - |a|] && s[i + 1] == b[i + 1 - |a|] && s[i + 2] == b[i + 2 - |a|];
      } else if |a| == 1 && a[0] != '\n' {
        assert s[i] == a[0];
      } else {
        assert s[|a|] == b[0];
      }
    }
  }

  /** Only newlines are removed. */
  lemma {:induction false} CollapseKeepsText(s: string)
    ensures Seqs.Filter(NotLf, CollapseNewlines(s)) == Seqs.Filter(NotLf, s)
    decreases |s|
  {
    if s != [] {
      var k := LeadCount(s, IsLf);
      if k == 0 {
        CollapseKeepsText(s[1..]);
        Seqs.FilterAppend(NotLf, [s[0]], CollapseNewlines(s[1..]));
        Seqs.FilterAppend(NotLf, [s[0]], s[1..]);
        assert s == [s[0]] + s[1..];
      } else {
        CollapseKeepsText(s[k..]);
        CollapseRunStep(s, k);
      }
    }
  }

  lemma CollapseRunStep(s: string, k: nat)
    requires 0 < k == LeadCount(s, IsLf)
    requires Seqs.Filter(NotLf, CollapseNewlines(s[k..])) == Seqs.Filter(NotLf, s[k..])
    ensures Seqs.Filter(NotLf, CollapseNewlines(s)) == Seqs.Filter(NotLf, s)
  {
    var run := CollapseRun(s, k);
    RunPrefix(s, k);
    RunSwap(run, CollapseNewlines(s[k..]), s[..k], s[k..]);
    assert s[..k] + s[k..] == s;
  }

  /** Two newline runs in front of texts the filter cannot tell apart. */
  lemma RunSwap(run: string, c: string, pre: string, post: string)
    requires forall i :: 0 <= i < |run| ==> run[i] == '\n'
    requires forall i :: 0 <= i < |pre| ==> pre[i] == '\n'
    requires Seqs.Filter(NotLf, c) == Seqs.Filter(NotLf, post)
    ensures Seqs.Filter(NotLf, run + c) == Seqs.Filter(NotLf, pre + post)
  {
    NewlinesOnly(run, c);
    NewlinesOnly(pre, post);
  }

  /** What a leading run of `k` newlines becomes. */
  function CollapseRun(s: string, k: nat): (run: string)
    requires 0 < k == LeadCount(s, IsLf)
    ensures forall i :: 0 <= i < |run| ==> run[i] == '\n'
    ensures CollapseNewlines(s) == run + CollapseNewlines(s[k..])
  {
    RunPrefix(s, k);
    if k >= 3 then "\n\n" else s[..k]
  }

  lemma RunPrefix(s: string, k: nat)
    requires k == LeadCount(s, IsLf)
    ensures forall i :: 0 <= i < |s[..k]| ==> s[..k][i] == '\n'
  {
    assert forall i :: 0 <= i < k ==> IsLf(s[i]);
  }

  /** A run of newlines in front of a text adds nothing the filter keeps. */
  lemma NewlinesOnly(run: string, t: string)
    requires forall i :: 0 <= i < |run| ==> run[i] == '\n'
    ensures Seqs.Filter(NotLf, run + t) == Seqs.Filter(NotLf, t)
  {
    Seqs.FilterNone(NotLf, run);
    Seqs.FilterAppend(NotLf, run, t);
  }

  /** The substitution changes nothing exactly when there is no run of three newlines. */
  lemma {:induction false} CollapseFixed(s: string)
    ensures CollapseNewlines(s) == s <==> NoTripleNewline(s)
    decreases |s|
  {
    if s != [] && NoTripleNewline(s) {
      var k := LeadCount(s, IsLf);
      var i := if k == 0 then 1 else k;
      assert NoTripleNewline(s[i..]) by {
        assert forall j :: 0 <= j < |s[i..]| ==> s[i..][j] == s[i + j];
      }
      CollapseFixed(s[i..]);
      assert s == s[..i] + s[i..];
      if k == 0 {
        assert s[..i] == [s[0]];
      } else {
        if |s| > 2 {
          assert !(s[0] == '\n' && s[1] == '\n' && s[2] == '\n');
        }
      }
    }
  }

  lemma {:induction false} CollapseIdempotent(s: string)
    ensures CollapseNewlines(CollapseNewlines(s)) == CollapseNewlines(s)
  {
    CollapseFixed(CollapseNewlines(s));
  }

  /** `k` newlines. */
  function Newlines(k: nat): (r: string)
    ensures |r| == k && forall i :: 0 <= i < k ==> r[i] == '\n'
  {
    if k == 0 then [] else Newlines(k - 1) + "\n"
  }

  /** A leading run of newlines that ends inside `a` ends at the same place in `a + t`. */
  lemma LeadInside(a: string, t: string)
    requires LeadCount(a, IsLf) < |a|
    ensures LeadCount(a + t, IsLf) == LeadCount(a, IsLf)
  {
    var n := LeadCount(a, IsLf);
    assert a + t == a[..n] + (a[n..] + t);
    LeadCountConcat(a[..n], a[n..] + t, IsLf);
  }

  /** The substitution works piecewise across a cut after a non-newline character. */
  lemma {:induction false} CollapseAppend(a: string, t: string)
    requires a == [] || a[|a| - 1] != '\n'
    ensures CollapseNewlines(a + t) == CollapseNewlines(a) + CollapseNewlines(t)
    decreases |a|
  {
    if a == [] {
      assert a + t == t;
    } else {
      var k := LeadCount(a, IsLf);
      var i := if k == 0 then 1 else k;
      assert a[i..] == [] || a[i..][|a[i..]| - 1] == a[|a| - 1];
      CollapseAppend(a[i..], t);
      if k == 0 {
        CollapseAppendPlain(a, t);
      } else {
        CollapseAppendRun(a, t, k);
      }
    }
  }

  /** The step of CollapseAppend past a first character that is not a newline. */
  lemma CollapseAppendPlain(a: string, t: string)
    requires a != [] && a[0] != '\n'
    requires CollapseNewlines(a[1..] + t) == CollapseNewlines(a[1..]) + CollapseNewlines(t)
    ensures CollapseNewlines(a + t) == CollapseNewlines(a) + CollapseNewlines(t)
  {
    var s := a + t;
    assert s[1..] == a[1..] + t;
    assert s[0] == a[0];
    CollapseFirst(s);
    CollapseFirst(a);
    Seqs.ConcatAssoc([a[0]], CollapseNewlines(a[1..]), CollapseNewlines(t));
  }

  /** A first character that is not a newline is kept as it is. */
  lemma CollapseFirst(s: string)
    requires s != [] && s[0] != '\n'
    ensures CollapseNewlines(s) == [s[0]] + CollapseNewlines(s[1..])
  {
  }

  /** The step of CollapseAppend past a leading run of newlines that ends inside `a`. */
  lemma CollapseAppendRun(a: string, t: string, k: nat)
    requires 0 < k == LeadCount(a, IsLf) < |a|
    requires CollapseNewlines(a[k..] + t) == CollapseNewlines(a[k..]) + CollapseNewlines(t)
    ensures CollapseNewlines(a + t) == CollapseNewlines(a) + CollapseNewlines(t)
  {
    LeadInside(a, t);
    var run := CollapseRun(a, k);
    assert (a + t)[..k] == a[..k];
    assert CollapseRun(a + t, k) == run;
    assert (a + t)[k..] == a[k..] + t;
    Seqs.ConcatAssoc(run, CollapseNewlines(a[k..]), CollapseNewlines(t));
  }

  /** What a run of `k` newlines between two other characters becomes: two when `k >= 3`, else itself. */
  lemma CollapseRunBetween(a: string, k: nat, b: string)
    requires a == [] || a[|a| - 1] != '\n'
    requires b == [] || b[0] != '\n'
    ensures CollapseNewlines(a + Newlines(k) + b)
      == CollapseNewlines(a) + (if k >= 3 then "\n\n" else Newlines(k)) + CollapseNewlines(b)
  {
    var run := Newlines(k);
    Seqs.ConcatAssoc(a, run, b);
    CollapseAppend(a, run + b);
    CollapseNewlinesAhead(k, b);
    Seqs.ConcatAssoc(CollapseNewlines(a), if k >= 3 then "\n\n" else run, CollapseNewlines(b));
  }

  /** A run of `k` newlines in front of a text that does not start with one. */
  lemma CollapseNewlinesAhead(k: nat, b: string)
    requires b == [] || b[0] != '\n'
    ensures CollapseNewlines(Newlines(k) + b) == (if k >= 3 then "\n\n" else Newlines(k)) + CollapseNewlines(b)
  {
    var run := Newlines(k);
    if k == 0 {
      assert run + b == b;
    } else {
      LeadCountConcat(run, b, IsLf);
      assert (run + b)[k..] == b;
      assert (run + b)[..k] == run;
      assert CollapseNewlines(run + b) == CollapseRun(run + b, k) + CollapseNewlines(b);
    }
  }

  /** `collapse_blank_lines_in_lists(md)`. */
  function CollapseBlankLinesInLists(md: string): (r: string)
    ensures NoTripleNewline(r)
  {
    CollapseNewlines(Lines.JoinLines(ListPass(Lines.SplitLines(md))))
  }
}
