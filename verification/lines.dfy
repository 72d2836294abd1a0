/**
 * Python's `str.splitlines()` and `"\n".join(lines)`, the framing every markdown
 * pass of substack2md.py uses (substack2md.py:182, 192, 196, 202, 206, 215).
 */
module Lines {
  import opened Text

  /** The characters `str.splitlines()` breaks at; `\r\n` counts as one break. */
  predicate IsLineBreak(c: char) {
    || c == '\n' || c == '\r' || c == '\U{0b}' || c == '\U{0c}'
    || c == '\U{1c}' || c == '\U{1d}' || c == '\U{1e}'
    || c == '\U{85}' || c == '\U{2028}' || c == '\U{2029}'
  }

  predicate NotLineBreak(c: char) { !IsLineBreak(c) }

  /** A line as `splitlines` yields it: no break character inside. */
  predicate IsLine(l: string) {
    forall i :: 0 <= i < |l| ==> !IsLineBreak(l[i])
  }

  /** `s.splitlines()`: a final break does not open an empty last line. */
  function SplitLines(s: string): (r: seq<string>)
    ensures forall i :: 0 <= i < |r| ==> IsLine(r[i])
    ensures r == [] <==> s == []
    decreases |s|
  {
    if s == [] then []
    else
      var i := LeadCount(s, NotLineBreak);
      if i == |s| then [s]
      else
        var k := if s[i] == '\r' && i + 1 < |s| && s[i + 1] == '\n' then 2 else 1;
        [s[..i]] + SplitLines(s[i + k..])
  }

  /** `"\n".join(lines)`. */
  function JoinLines(lines: seq<string>): string {
    JoinWith(lines, '\n')
  }

  /** Lines without breaks, the last one non-empty, survive a join and a split. */
  lemma {:induction false} SplitJoinLines(lines: seq<string>)
    requires forall i :: 0 <= i < |lines| ==> IsLine(lines[i])
    requires lines == [] || lines[|lines| - 1] != []
    ensures SplitLines(JoinLines(lines)) == lines
    decreases |lines|
  {
    if lines != [] {
      var l := lines[0];
      var s := JoinLines(lines);
      if |lines| == 1 {
        assert s == l;
        assert LeadCount(s, NotLineBreak) == |s|;
      } else {
        var rest := lines[1..];
        var t := JoinLines(rest);
        assert s == l + "\n" + t;
        assert forall j :: 0 <= j < |l| ==> s[j] == l[j];
        assert s[|l|] == '\n';
        assert LeadCount(s, NotLineBreak) == |l|;
        assert s[..|l|] == l;
        assert s[|l| + 1..] == t;
        SplitJoinLines(rest);
        assert t != [] by {
          if |rest| == 1 {
            assert t == rest[0];
          } else {
            assert |t| >= |rest[0]| + 1;
          }
        }
      }
    }
  }

  /** A character that is no line break other than `\n`. */
  predicate LfOnly(c: char) { IsLineBreak(c) ==> c == '\n' }

  /** Text whose only breaks are `\n`, not ending in one, survives a split and a join. */
  lemma {:induction false} JoinSplitLines(s: string)
    requires forall i :: 0 <= i < |s| ==> LfOnly(s[i])
    requires s == [] || s[|s| - 1] != '\n'
    ensures JoinLines(SplitLines(s)) == s
    decreases |s|
  {
    if s != [] {
      var i := LeadCount(s, NotLineBreak);
      if i == |s| {
        assert SplitLines(s) == [s];
      } else {
        var rest := s[i + 1..];
        assert LfOnly(s[i]);
        assert s[i] == '\n';
        assert rest != [];
        JoinSplitLines(rest);
        var r := SplitLines(rest);
        assert SplitLines(s) == [s[..i]] + r;
        assert r != [];
        assert JoinLines(SplitLines(s)) == s[..i] + "\n" + JoinLines(r);
        Around(s, i);
      }
    }
  }

  lemma Around(s: string, i: nat)
    requires i < |s|
    ensures s == s[..i] + [s[i]] + s[i + 1..]
  {
  }
}
