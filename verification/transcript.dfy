/**
 * `scrub_transcript_lines` (substack2md.py:178-192): drop bare timestamps and speaker
 * labels from a transcript and remove one leading timestamp from every other line.
 *
 * The two patterns are read the way Python's backtracking engine reads them. Every
 * choice point in them (`\[?`, `\d{1,2}`, the optional seconds, `\]?`, `\s*`, `\d+`)
 * meets a character its alternative cannot accept, so the first, greedy choice is the
 * only one that can succeed and each match is computed by a single left-to-right scan.
 * `\d` is read as the ASCII digits.
 */
module Transcript {
  import opened Wrappers
  import opened Text
  import Seqs
  import Lines

  /** `\d{1,2}:\d{2}(?::\d{2})?` with exactly `h` leading digits. */
  predicate IsClockWith(c: string, h: nat) {
    && (h == 1 || h == 2)
    && |c| >= h + 3
    && (forall k :: 0 <= k < h ==> IsDigit(c[k]))
    && c[h] == ':' && IsDigit(c[h + 1]) && IsDigit(c[h + 2])
    && (|c| == h + 3 || (|c| == h + 6 && c[h + 3] == ':' && IsDigit(c[h + 4]) && IsDigit(c[h + 5])))
  }

  /** A clock: `m:ss`, `mm:ss`, `h:mm:ss` or `hh:mm:ss`. */
  predicate IsClock(c: string) { IsClockWith(c, 1) || IsClockWith(c, 2) }

  /** What `TIME_RE` (substack2md.py:178) accepts: a clock, optionally opened by `[`, optionally closed by `]`. */
  predicate IsTimestamp(s: string) {
    || IsClock(s)
    || (|s| >= 1 && s[0] == '[' && IsClock(s[1..]))
    || (|s| >= 1 && s[|s| - 1] == ']' && IsClock(s[..|s| - 1]))
    || (|s| >= 2 && s[0] == '[' && s[|s| - 1] == ']' && IsClock(s[1..|s| - 1]))
  }

  /** Length of the clock the regex engine matches at the start of `s`, if any: the longest clock there. */
  function ClockLen(s: string): (r: Option<nat>)
    ensures r.Some? ==> r.value <= |s| && IsClock(s[..r.value])
    ensures r.Some? ==> forall m :: r.value < m <= |s| ==> !IsClock(s[..m])
  {
    var h := if |s| >= 2 && IsDigit(s[0]) && IsDigit(s[1]) then 2 else if |s| >= 1 && IsDigit(s[0]) then 1 else 0;
    if h == 0 || |s| < h + 3 || s[h] != ':' || !IsDigit(s[h + 1]) || !IsDigit(s[h + 2]) then None
    else if |s| >= h + 6 && s[h + 3] == ':' && IsDigit(s[h + 4]) && IsDigit(s[h + 5]) then
      assert IsClockWith(s[..h + 6], h);
      Some(h + 6)
    else
      assert IsClockWith(s[..h + 3], h);
      Some(h + 3)
  }

  /**
   * Length of the match of `\[?\d{1,2}:\d{2}(?::\d{2})?\]?` at the start of `s`, if any: the
   * longest timestamp there, which is what the greedy engine takes.
   */
  function StampLen(s: string): (r: Option<nat>)
    ensures r.Some? ==> 0 < r.value <= |s| && IsTimestamp(s[..r.value])
    ensures r.Some? ==> forall m :: r.value < m <= |s| ==> !IsTimestamp(s[..m])
  {
    var a := if |s| >= 1 && s[0] == '[' then 1 else 0;
    match ClockLen(s[a..])
    case None => None
    case Some(n) =>
      var e := a + n;
      assert s[a..][..n] == s[a..e];
      if e < |s| && s[e] == ']' then
        assert s[..e + 1][a..e] == s[a..e];
        StampShape(s[..e + 1], a);
        StampLongest(s, a, n, e + 1);
        Some(e + 1)
      else
        assert s[..e][a..] == s[a..e];
        StampShape(s[..e], a);
        StampLongest(s, a, n, e);
        Some(e)
  }

  /** No timestamp at the start of `s` is longer than the one built on the longest clock after an optional `[`. */
  lemma StampLongest(s: string, a: nat, n: nat, r: nat)
    requires a == (if |s| >= 1 && s[0] == '[' then 1 else 0)
    requires a + n <= |s| && IsClock(s[a..][..n])
    requires forall m :: n < m <= |s[a..]| ==> !IsClock(s[a..][..m])
    requires r == (if a + n < |s| && s[a + n] == ']' then a + n + 1 else a + n)
    ensures forall m :: r < m <= |s| ==> !IsTimestamp(s[..m])
  {
    forall m | r < m <= |s|
      ensures !IsTimestamp(s[..m])
    {
      StampLongestAt(s, a, n, r, m);
    }
  }

  lemma StampLongestAt(s: string, a: nat, n: nat, r: nat, m: nat)
    requires a == (if |s| >= 1 && s[0] == '[' then 1 else 0)
    requires a + n <= |s| && IsClock(s[a..][..n])
    requires forall m :: n < m <= |s[a..]| ==> !IsClock(s[a..][..m])
    requires r == (if a + n < |s| && s[a + n] == ']' then a + n + 1 else a + n)
    requires r < m <= |s|
    ensures !IsTimestamp(s[..m])
  {
    var t := s[..m];
    assert n > 0;
    if a == 1 {
      assert t[0] == '[' && !IsDigit(t[0]);
      assert !IsClock(t);
      assert t[1..] == s[a..][..m - 1];
      if t[m - 1] == ']' && m >= 2 {
        assert t[1..m - 1] == s[a..][..m - 2];
      }
    } else {
      assert s[a..] == s;
      if t[m - 1] == ']' {
        assert t[..m - 1] == s[..m - 1];
      }
      assert t[0] != '[';
    }
  }

  lemma StampShape(t: string, a: nat)
    requires a <= 1 && a <= |t|
    requires a == 1 ==> t[0] == '['
    requires IsClock(t[a..]) || (|t| > a && t[|t| - 1] == ']' && IsClock(t[a..|t| - 1]))
    ensures IsTimestamp(t)
  {
    if a == 1 {
      assert t[1..] == t[a..];
    } else {
      assert t[a..] == t;
      assert t[..|t| - 1] == t[a..|t| - 1];
    }
  }

  /** `TIME_RE.match(s)`: the whole of `s` is one timestamp (`s` is stripped, so `$` can only match at its end). */
  predicate TimeMatch(s: string) {
    StampLen(s) == Some(|s|)
  }

  /** The engine's clock match is the whole clock when only `]` or nothing follows it. */
  lemma ClockLenOf(c: string, rest: string)
    requires IsClock(c)
    requires rest == [] || rest[0] == ']'
    ensures ClockLen(c + rest) == Some(|c|)
  {
    var s := c + rest;
    assert forall i :: 0 <= i < |c| ==> s[i] == c[i];
    if rest != [] {
      assert s[|c|] == ']';
    }
  }

  /** `TIME_RE` accepts exactly the timestamps. */
  lemma {:induction false} TimeMatchIsTimestamp(s: string)
    ensures TimeMatch(s) <==> IsTimestamp(s)
  {
    if TimeMatch(s) {
      assert s[..|s|] == s;
    }
    if IsClock(s) {
      ClockLenOf(s, []);
      assert s + [] == s;
    } else if |s| >= 1 && s[0] == '[' && IsClock(s[1..]) {
      ClockLenOf(s[1..], []);
      assert s[1..] + [] == s[1..];
    } else if |s| >= 1 && s[|s| - 1] == ']' && IsClock(s[..|s| - 1]) {
      var c := s[..|s| - 1];
      ClockLenOf(c, "]");
      CloseBracketLast(s);
      assert s[0] == c[0];
    } else if |s| >= 2 && s[0] == '[' && s[|s| - 1] == ']' && IsClock(s[1..|s| - 1]) {
      var c := s[1..|s| - 1];
      ClockLenOf(c, "]");
      CloseBracketLast(s[1..]);
      assert s[1..][..|s[1..]| - 1] == c;
    }
  }

  /** Text ending in `]` is what comes before it, then `]`. */
  lemma CloseBracketLast(s: string)
    requires |s| >= 1 && s[|s| - 1] == ']'
    ensures s[..|s| - 1] + "]" == s
  {
  }

  /** The match of `^\s*\[?\d{1,2}:\d{2}(?::\d{2})?\]?\s*` in `line`: where the timestamp starts and ends, and where the match ends. */
  datatype Span = Span(start: nat, stop: nat, end: nat)

  /** `sp` cuts `line` into leading whitespace, a timestamp, and the whitespace after it up to a visible character. */
  predicate StampSpanOf(line: string, sp: Span) {
    && sp.start < sp.stop <= sp.end <= |line|
    && AllSpace(line[..sp.start])
    && IsTimestamp(line[sp.start..sp.stop])
    && AllSpace(line[sp.stop..sp.end])
    && (sp.end < |line| ==> !IsSpace(line[sp.end]))
  }

  /** The span the anchored pattern matches: it takes the longest timestamp after the leading whitespace. */
  function StampPrefix(line: string): (r: Option<Span>)
    ensures r.Some? ==> StampSpanOf(line, r.value)
    ensures r.Some? ==> forall m :: r.value.stop < m <= |line| ==> !IsTimestamp(line[r.value.start..m])
  {
    var a := LeadCount(line, IsSpace);
    match StampLen(line[a..])
    case None => None
    case Some(n) =>
      StampSpan(line, a, n);
      StampSpanLongest(line, a, n);
      Some(Span(a, a + n, a + n + LeadCount(line[a + n..], IsSpace)))
  }

  /** The longest timestamp after the leading whitespace, read in the whole line. */
  lemma StampSpanLongest(line: string, a: nat, n: nat)
    requires a <= |line| && StampLen(line[a..]) == Some(n)
    ensures forall m :: a + n < m <= |line| ==> !IsTimestamp(line[a..m])
  {
    forall m | a + n < m <= |line|
      ensures !IsTimestamp(line[a..m])
    {
      assert line[a..m] == line[a..][..m - a];
    }
  }

  /** Leading whitespace up to `a`, a timestamp of length `n` there, and the whitespace after it. */
  lemma StampSpan(line: string, a: nat, n: nat)
    requires 0 < n && a + n <= |line|
    requires forall i :: 0 <= i < a ==> IsSpace(line[i])
    requires IsTimestamp(line[a..][..n])
    ensures StampSpanOf(line, Span(a, a + n, a + n + LeadCount(line[a + n..], IsSpace)))
  {
    Seqs.DropTake(line, a, n);
    SpaceRun(line, a + n);
    assert AllSpace(line[..a]) by {
      assert forall i :: 0 <= i < a ==> line[..a][i] == line[i];
    }
  }

  /** The whitespace run that starts at `b`. */
  lemma SpaceRun(line: string, b: nat)
    requires b <= |line|
    ensures var e := b + LeadCount(line[b..], IsSpace);
      e <= |line| && AllSpace(line[b..e]) && (e < |line| ==> !IsSpace(line[e]))
  {
    var e := b + LeadCount(line[b..], IsSpace);
    assert forall i :: b <= i < e ==> line[i] == line[b..][i - b];
    assert e < |line| ==> line[e] == line[b..][e - b];
  }

  /** `re.sub(r"^\s*\[?\d{1,2}:\d{2}(?::\d{2})?\]?\s*", "", line)`: the pattern is anchored, so at most one prefix goes. */
  function StripStamp(line: string): (r: string)
    ensures |r| <= |line|
    ensures StampPrefix(line).None? ==> r == line
    ensures StampPrefix(line).Some? ==> r == line[StampPrefix(line).value.end..]
  {
    match StampPrefix(line)
    case None => line
    case Some(sp) => line[sp.end..]
  }

  /** Whenever a line opens with whitespace and a timestamp, the pattern matches there. */
  lemma StampPrefixComplete(lead: string, stamp: string, rest: string)
    requires AllSpace(lead) && IsTimestamp(stamp)
    ensures StampPrefix(lead + stamp + rest).Some?
  {
    var line := lead + stamp + rest;
    var t := stamp + rest;
    assert line == lead + t;
    assert stamp[0] == '[' || IsDigit(stamp[0]);
    assert t[0] == stamp[0];
    LeadCountConcat(lead, t, IsSpace);
    assert line[|lead|..] == t;
    StampLenSome(stamp, rest);
  }

  /** A timestamp at the start of the text is always matched (perhaps with more after it). */
  lemma StampLenSome(stamp: string, rest: string)
    requires IsTimestamp(stamp)
    ensures StampLen(stamp + rest).Some?
  {
    var s := stamp + rest;
    assert forall i :: 0 <= i < |stamp| ==> s[i] == stamp[i];
    if IsClock(stamp) {
      ClockAt(s, 0, stamp);
    } else if |stamp| >= 1 && stamp[0] == '[' && IsClock(stamp[1..]) {
      ClockAt(s, 1, stamp[1..]);
    } else if |stamp| >= 1 && stamp[|stamp| - 1] == ']' && IsClock(stamp[..|stamp| - 1]) {
      ClockAt(s, 0, stamp[..|stamp| - 1]);
    } else {
      ClockAt(s, 1, stamp[1..|stamp| - 1]);
    }
  }

  /** A clock written at offset `a` of the text is matched there. */
  lemma ClockAt(s: string, a: nat, c: string)
    requires IsClock(c) && a + |c| <= |s|
    requires forall i :: 0 <= i < |c| ==> s[a + i] == c[i]
    ensures ClockLen(s[a..]).Some?
  {
    ClockLenPrefix(c, s[a..]);
  }

  /** A clock at the start of the text is always matched. */
  lemma ClockLenPrefix(c: string, s: string)
    requires IsClock(c) && |s| >= |c|
    requires forall i :: 0 <= i < |c| ==> s[i] == c[i]
    ensures ClockLen(s).Some?
  {
  }

  /** A timestamp line with surrounding whitespace: what `line.strip()` sees. */
  lemma StripAroundStamp(line: string, sp: Span)
    requires sp.start < sp.stop <= sp.end <= |line|
    requires AllSpace(line[..sp.start]) && IsTimestamp(line[sp.start..sp.stop]) && AllSpace(line[sp.stop..sp.end])
    requires sp.end == |line|
    ensures Strip(line) == line[sp.start..sp.stop]
  {
    var m := line[sp.start..sp.stop];
    assert m[0] == '[' || IsDigit(m[0]);
    assert m[|m| - 1] == ']' || IsDigit(m[|m| - 1]);
    assert line == line[..sp.start] + m + line[sp.stop..sp.end];
    StripFrame(line[..sp.start], m, line[sp.stop..sp.end]);
  }

  /** `SPEAKER_RE` (substack2md.py:179) is case-insensitive: `c` matches the lower-case letter `x` when it lower-cases to `x`, or is one of the two non-ASCII letters Python folds onto `s` and `k`. */
  predicate FoldsTo(c: char, x: char) {
    LowerChar(c) == x || (x == 's' && c == '\U{17f}') || (x == 'k' && c == '\U{212a}')
  }

  predicate StartsWithWord(t: string, w: string) {
    |t| >= |w| && forall i :: 0 <= i < |w| ==> FoldsTo(t[i], w[i])
  }

  /** After a label of length `n`, `\s*[:\-]` matches. */
  predicate MarkAfter(t: string, n: nat) {
    n <= |t| &&
    var w := t[n..];
    var b := LeadCount(w, IsSpace);
    b < |w| && (w[b] == ':' || w[b] == '-')
  }

  /** Length of the `speaker\s*\d+` branch at the start of `t`, if it matches. */
  function SpeakerLen(t: string): (r: Option<nat>)
    ensures r.Some? ==> 7 < r.value <= |t|
  {
    if StartsWithWord(t, "speaker") then
      var u := t[7..];
      var sp := LeadCount(u, IsSpace);
      var d := LeadCount(u[sp..], IsDigit);
      if d > 0 then Some(7 + sp + d) else None
    else None
  }

  /** `SPEAKER_RE.match(s)`: each branch of the alternation is tried in turn. */
  predicate SpeakerMatch(s: string) {
    var t := DropWhile(s, IsSpace);
    || (SpeakerLen(t).Some? && MarkAfter(t, SpeakerLen(t).value))
    || (StartsWithWord(t, "host") && MarkAfter(t, 4))
    || (StartsWithWord(t, "guest") && MarkAfter(t, 5))
  }

  /** A speaker label word: `host`, `guest`, or `speaker`, optional whitespace and a number. */
  predicate IsLabel(w: string) {
    || (|w| == 4 && StartsWithWord(w, "host"))
    || (|w| == 5 && StartsWithWord(w, "guest"))
    || (|w| > 7 && StartsWithWord(w, "speaker") && SpacesThenDigits(w[7..]))
  }

  /** Whitespace followed by a non-empty run of ASCII digits. */
  predicate SpacesThenDigits(u: string) {
    var j := LeadCount(u, IsSpace);
    j < |u| && forall i :: j <= i < |u| ==> IsDigit(u[i])
  }

  /** A speaker line cut at its parts: whitespace up to `a`, the label up to `b`, whitespace up to `c`, then `:` or `-`. */
  predicate SpeakerCut(s: string, a: nat, b: nat, c: nat) {
    && a < b <= c < |s|
    && AllSpace(s[..a]) && IsLabel(s[a..b]) && AllSpace(s[b..c])
    && (s[c] == ':' || s[c] == '-')
  }

  /** A label starts with a letter, never with whitespace. */
  lemma LabelStartsVisible(w: string)
    requires IsLabel(w)
    ensures !IsSpace(w[0])
  {
    assert FoldsTo(w[0], 'h') || FoldsTo(w[0], 'g') || FoldsTo(w[0], 's');
  }

  /** `\s*[:\-]` matches after the label when whitespace and then the mark follow it. */
  lemma MarkAfterOf(s: string, a: nat, b: nat, c: nat)
    requires a <= b <= c < |s|
    requires AllSpace(s[b..c]) && (s[c] == ':' || s[c] == '-')
    ensures MarkAfter(s[a..], b - a)
  {
    var w := s[a..][b - a..];
    assert w == s[b..];
    assert s[b..] == s[b..c] + s[c..];
    LeadCountConcat(s[b..c], s[c..], IsSpace);
    assert w[c - b] == s[c];
  }

  /** Every speaker line cut into whitespace, label, whitespace and mark is matched by `SPEAKER_RE`. */
  lemma SpeakerComplete(s: string, a: nat, b: nat, c: nat)
    requires SpeakerCut(s, a, b, c)
    ensures SpeakerMatch(s)
  {
    LabelStartsVisible(s[a..b]);
    assert s[a..b][0] == s[a];
    SkipSpaces(s, a);
    MarkAfterOf(s, a, b, c);
    LabelBranch(s, a, b, c);
  }

  /** Whitespace up to `a` and a visible character there: `\s*` stops at `a`. */
  lemma SkipSpaces(s: string, a: nat)
    requires a < |s| && AllSpace(s[..a]) && !IsSpace(s[a])
    ensures DropWhile(s, IsSpace) == s[a..]
  {
    assert s == s[..a] + s[a..];
    LeadCountConcat(s[..a], s[a..], IsSpace);
  }

  /** The branch of the alternation that the label of a speaker line takes. */
  lemma LabelBranch(s: string, a: nat, b: nat, c: nat)
    requires SpeakerCut(s, a, b, c) && MarkAfter(s[a..], b - a)
    ensures var t := s[a..];
      || (SpeakerLen(t).Some? && MarkAfter(t, SpeakerLen(t).value))
      || (StartsWithWord(t, "host") && MarkAfter(t, 4))
      || (StartsWithWord(t, "guest") && MarkAfter(t, 5))
  {
    var w := s[a..b];
    var t := s[a..];
    assert forall i :: 0 <= i < |w| ==> t[i] == w[i];
    if |w| == 4 && StartsWithWord(w, "host") {
      assert StartsWithWord(t, "host");
    } else if |w| == 5 && StartsWithWord(w, "guest") {
      assert StartsWithWord(t, "guest");
    } else {
      SpeakerLenOf(s, a, b, c);
    }
  }

  /** The `speaker\s*\d+` branch consumes exactly the label. */
  lemma SpeakerLenOf(s: string, a: nat, b: nat, c: nat)
    requires SpeakerCut(s, a, b, c)
    requires b - a > 7 && StartsWithWord(s[a..b], "speaker") && SpacesThenDigits(s[a..b][7..])
    ensures SpeakerLen(s[a..]) == Some(b - a)
  {
    var t := s[a..];
    var v := s[a..b][7..];
    assert forall i :: 0 <= i < 7 ==> t[i] == s[a..b][i];
    assert StartsWithWord(t, "speaker");
    var r := s[b..];
    assert t[7..] == s[a + 7..];
    assert s[a + 7..] == s[a + 7..b] + s[b..];
    assert t[7..] == v + r;
    assert r[0] == s[b];
    assert !IsDigit(r[0]) by {
      if b < c {
        assert s[b..c][0] == s[b];
      }
    }
    SpeakerLenFrom(t, v, r);
  }

  /** `speaker`, whitespace and digits, then a non-digit: the branch is exactly that long. */
  lemma SpeakerLenFrom(t: string, v: string, r: string)
    requires StartsWithWord(t, "speaker") && t[7..] == v + r
    requires SpacesThenDigits(v) && (r == [] || !IsDigit(r[0]))
    ensures SpeakerLen(t) == Some(7 + |v|)
  {
    SpacesDigitsRun(v, r);
  }

  /** Whitespace then digits, followed by a non-digit: `\s*` and `\d+` consume exactly them. */
  lemma SpacesDigitsRun(v: string, r: string)
    requires SpacesThenDigits(v)
    requires r == [] || !IsDigit(r[0])
    ensures var j := LeadCount(v + r, IsSpace);
      j < |v| && j + LeadCount((v + r)[j..], IsDigit) == |v|
  {
    var j := LeadCount(v, IsSpace);
    var d := v[j..];
    SliceConcat(v, j, r);
    assert (d + r)[0] == v[j];
    LeadCountConcat(v[..j], d + r, IsSpace);
    LeadCountConcat(d, r, IsDigit);
  }

  lemma SliceConcat(v: string, j: nat, r: string)
    requires j <= |v|
    ensures v + r == v[..j] + (v[j..] + r) && (v + r)[j..] == v[j..] + r
  {
    assert v == v[..j] + v[j..];
  }

  /** Every line `SPEAKER_RE` matches can be cut into whitespace, label, whitespace and mark. */
  lemma SpeakerSound(s: string) returns (a: nat, b: nat, c: nat)
    requires SpeakerMatch(s)
    ensures SpeakerCut(s, a, b, c)
  {
    a := LeadCount(s, IsSpace);
    var t := s[a..];
    var n: nat;
    if SpeakerLen(t).Some? && MarkAfter(t, SpeakerLen(t).value) {
      n := SpeakerLen(t).value;
      SpeakerLabel(t);
    } else if StartsWithWord(t, "host") && MarkAfter(t, 4) {
      n := 4;
      assert IsLabel(t[..n]);
    } else {
      n := 5;
      assert IsLabel(t[..n]);
    }
    b, c := CutAfter(s, a, n);
  }

  /** A label of length `n` after the leading whitespace, then `\s*[:\-]`, is a cut. */
  lemma CutAfter(s: string, a: nat, n: nat) returns (b: nat, c: nat)
    requires a == LeadCount(s, IsSpace) && 0 < n
    requires MarkAfter(s[a..], n) && IsLabel(s[a..][..n])
    ensures SpeakerCut(s, a, b, c)
  {
    b := a + n;
    assert s[a..b] == s[a..][..n];
    assert s[a..][n..] == s[b..];
    c := MarkAt(s, b);
    assert forall i :: 0 <= i < a ==> s[..a][i] == s[i];
  }

  /** After position `b`, whitespace and then `:` or `-`. */
  lemma MarkAt(s: string, b: nat) returns (c: nat)
    requires b <= |s| && MarkAfter(s[b..], 0)
    ensures b <= c < |s| && AllSpace(s[b..c]) && (s[c] == ':' || s[c] == '-')
  {
    var w := s[b..];
    var k := LeadCount(w, IsSpace);
    c := b + k;
    assert forall i :: 0 <= i < k ==> s[b..c][i] == w[i];
    assert s[c] == w[k];
  }

  /** What the `speaker\s*\d+` branch consumes is a label. */
  lemma SpeakerLabel(t: string)
    requires SpeakerLen(t).Some?
    ensures IsLabel(t[..SpeakerLen(t).value])
  {
    var n := SpeakerLen(t).value;
    var w := t[..n];
    var u := t[7..];
    var sp := LeadCount(u, IsSpace);
    var d := LeadCount(u[sp..], IsDigit);
    var v := w[7..];
    assert v == u[..sp] + u[sp..][..d];
    assert forall i :: sp <= i < sp + d ==> v[i] == u[sp..][i - sp];
    if d < |u[sp..]| {
      assert u[sp..][0] == u[sp];
    }
    LeadCountConcat(u[..sp], u[sp..][..d], IsSpace);
    assert forall i :: 0 <= i < 7 ==> w[i] == t[i];
  }

  /** Dropped lines: those whose stripped form is a timestamp or starts with a speaker label. */
  predicate Dropped(line: string) {
    TimeMatch(Strip(line)) || SpeakerMatch(Strip(line))
  }

  predicate Kept(line: string) { !Dropped(line) }

  /** The loop of `scrub_transcript_lines` over the lines. */
  function ScrubLines(lines: seq<string>): (r: seq<string>)
    ensures |r| <= |lines|
    decreases |lines|
  {
    if lines == [] then []
    else (if Dropped(lines[0]) then [] else [StripStamp(lines[0])]) + ScrubLines(lines[1..])
  }

  /** `scrub_transcript_lines(md)`: the kept lines of `md`, each without its timestamp prefix, joined again. */
  function ScrubTranscript(md: string): (r: string)
    ensures r == Lines.JoinLines(Seqs.Map(StripStamp, Seqs.Filter(Kept, Lines.SplitLines(md))))
  {
    ScrubIsMapFilter(Lines.SplitLines(md));
    Lines.JoinLines(ScrubLines(Lines.SplitLines(md)))
  }

  /** The scrubbed lines are the kept lines, in order, each with its timestamp prefix removed. */
  lemma {:induction false} ScrubIsMapFilter(lines: seq<string>)
    ensures ScrubLines(lines) == Seqs.Map(StripStamp, Seqs.Filter(Kept, lines))
    decreases |lines|
  {
    if lines != [] {
      ScrubIsMapFilter(lines[1..]);
      MapAppend(StripStamp, if Kept(lines[0]) then [lines[0]] else [], Seqs.Filter(Kept, lines[1..]));
    }
  }

  lemma MapAppend(f: string -> string, a: seq<string>, b: seq<string>)
    ensures Seqs.Map(f, a + b) == Seqs.Map(f, a) + Seqs.Map(f, b)
  {
  }

  /** Removing the prefix never turns a kept, non-blank line blank: it would have been a bare timestamp. */
  lemma BlankedLinesAreTimestamps(line: string)
    requires !IsBlank(line) && IsBlank(StripStamp(line))
    ensures TimeMatch(Strip(line))
  {
    var r := StripStamp(line);
    BlankIsAllSpace(line);
    BlankIsAllSpace(r);
    var sp := StampPrefix(line).value;
    assert r == line[sp.end..];
    assert sp.end == |line|;
    StripAroundStamp(line, sp);
    TimeMatchIsTimestamp(Strip(line));
  }
}
