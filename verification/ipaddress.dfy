/**
 * The address grammars of Python's `ipaddress` module (CPython 3.12.13) that `urlsplit`
 * applies to a host written in brackets: `IPv4Address(s)` and `IPv6Address(s)` accept a
 * string exactly when `IsIPv4(s)` and `IsIPv6(s)` hold. Only acceptance is modelled; the
 * integer value of an address never matters to the program.
 */
module IpAddress {
  import opened Wrappers
  import opened Text

  /** `_BaseV6._HEX_DIGITS`. */
  predicate IsHexDigit(c: char) { IsDigit(c) || 'a' <= c <= 'f' || 'A' <= c <= 'F' }

  /** `int(s, 10)` for a string of ASCII digits. */
  function Decimal(s: string): nat
    requires forall i :: 0 <= i < |s| ==> IsDigit(s[i])
    decreases |s|
  {
    if s == [] then 0
    else
      var d := s[|s| - 1];
      assert IsDigit(d);
      10 * Decimal(s[..|s| - 1]) + ((d as int) - ('0' as int))
  }

  /** `_BaseV4._parse_octet`: one to three ASCII digits, no leading zero, at most 255. */
  predicate IsOctet(s: string) {
    && 1 <= |s| <= 3
    && (forall i :: 0 <= i < |s| ==> IsDigit(s[i]))
    && (s == "0" || s[0] != '0')
    && Decimal(s) <= 255
  }

  /** `IPv4Address(s)` succeeds: no `/`, and four octets separated by dots. */
  predicate IsIPv4(s: string) {
    && '/' !in s
    && var parts := SplitOn(s, '.');
       |parts| == 4 && forall i :: 0 <= i < |parts| ==> IsOctet(parts[i])
  }

  /** `_BaseV6._parse_hextet`: one to four hex digits (`int("", 16)` raises). */
  predicate IsHextet(s: string) {
    1 <= |s| <= 4 && forall i :: 0 <= i < |s| ==> IsHexDigit(s[i])
  }

  /** Python's `s.split(sep, maxsplit=m)` for a one-character separator. */
  function SplitMax(s: string, sep: char, m: nat): (r: seq<string>)
    ensures 1 <= |r| <= m + 1
    ensures forall i :: 0 <= i < |r| - 1 ==> sep !in r[i]
    ensures |r| <= m ==> sep !in r[|r| - 1]
    ensures JoinWith(r, sep) == s
    decreases |s|
  {
    var i := FindChar(s, sep);
    if m == 0 || i == |s| then
      assert i == |s| ==> s[..i] == s;
      [s]
    else
      var rest := SplitMax(s[i + 1..], sep, m - 1);
      assert s == s[..i] + [sep] + s[i + 1..];
      [s[..i]] + rest
  }

  /** `_BaseV6._split_scope_id`: the address before the first `%`, or nothing when the scope id after it is empty or holds another `%`. */
  function ScopeSplit(s: string): (r: Option<string>)
    ensures r.Some? ==> '%' !in r.value && r.value <= s
    ensures '%' !in s ==> r == Some(s)
    ensures var i := FindChar(s, '%'); i < |s| ==>
      && (r.None? <==> s[i + 1..] == [] || '%' in s[i + 1..])
      && (r.Some? ==> r.value == s[..i])
  {
    var i := FindChar(s, '%');
    if i == |s| then
      assert s[..i] == s;
      Some(s)
    else
      var scope := s[i + 1..];
      if scope == [] || '%' in scope then None else Some(s[..i])
  }

  /** The interior positions (neither first nor last) of `parts` from `i` on that hold an empty part: each marks a `::`. */
  function GapsFrom(parts: seq<string>, i: nat): (r: seq<nat>)
    requires i >= 1
    ensures forall j :: 0 <= j < |r| ==> i <= r[j] < |parts| - 1 && parts[r[j]] == []
    ensures forall k :: i <= k < |parts| - 1 && parts[k] == [] ==> k in r
    decreases |parts| - i
  {
    if i + 1 >= |parts| then []
    else if parts[i] == [] then [i] + GapsFrom(parts, i + 1)
    else GapsFrom(parts, i + 1)
  }

  /** Without empty parts there is no `::`. */
  lemma {:induction false} GapsNone(parts: seq<string>, i: nat)
    requires i >= 1
    requires forall k :: 0 <= k < |parts| ==> parts[k] != []
    ensures GapsFrom(parts, i) == []
    decreases |parts| - i
  {
    if i + 1 < |parts| {
      GapsNone(parts, i + 1);
    }
  }

  /**
   * The hextet checks of `_BaseV6._ip_int_from_string` once the parts are known: at most one
   * `::`; with one, a leading or trailing empty part only as part of it, at least one group
   * left to skip, and every part before and after it a hextet; without one, exactly eight hextets.
   */
  predicate HextetsOk(parts: seq<string>)
    requires |parts| >= 3
  {
    var g := GapsFrom(parts, 1);
    var n := |parts|;
    if |g| > 1 then false
    else if |g| == 1 then
      var k := g[0];
      var hi := if parts[0] == [] then k - 1 else k;
      var lo := if parts[n - 1] == [] then n - k - 2 else n - k - 1;
      && (parts[0] == [] ==> hi == 0)
      && (parts[n - 1] == [] ==> lo == 0)
      && hi + lo <= 7
      && (forall i :: 0 <= i < hi ==> IsHextet(parts[i]))
      && (forall i :: n - lo <= i < n ==> IsHextet(parts[i]))
    else
      n == 8 && forall i :: 0 <= i < n ==> IsHextet(parts[i])
  }

  /**
   * `_BaseV6._ip_int_from_string(a)` succeeds: at most 45 characters, split at the first nine
   * colons into at least three parts, an IPv4 suffix standing for two hextets, at most nine parts.
   * The two hextets an IPv4 suffix converts to are written `"0"` here: what `'%x'` gives is one to
   * four hex digits either way, and only the validity of the parts matters.
   */
  predicate IsIPv6Text(a: string) {
    && 0 < |a| <= 45
    && var p := SplitMax(a, ':', 9);
       && |p| >= 3
       && var last := p[|p| - 1];
          && ('.' in last ==> IsIPv4(last))
          && var parts := if '.' in last then p[..|p| - 1] + ["0", "0"] else p;
             |parts| <= 9 && HextetsOk(parts)
  }

  /** `IPv6Address(s)` succeeds: no `/`, a well-formed scope id if any, and a valid address before it. */
  predicate IsIPv6(s: string) {
    && '/' !in s
    && match ScopeSplit(s)
       case None => false
       case Some(a) => IsIPv6Text(a)
  }

  /** The characters of a join are those of the parts and the separator. */
  lemma {:induction false} JoinWithChars(parts: seq<string>, sep: char, c: char)
    requires c != sep
    requires forall i :: 0 <= i < |parts| ==> c !in parts[i]
    ensures c !in JoinWith(parts, sep)
    decreases |parts|
  {
    if |parts| > 1 {
      JoinWithChars(parts[1..], sep, c);
      assert JoinWith(parts, sep) == parts[0] + [sep] + JoinWith(parts[1..], sep);
    }
  }

  /** A join of parts of at most `w` characters each is at most `(w + 1) * |parts| - 1` long. */
  lemma {:induction false} JoinWithLength(parts: seq<string>, sep: char, w: nat)
    requires parts != []
    requires forall i :: 0 <= i < |parts| ==> |parts[i]| <= w
    ensures |JoinWith(parts, sep)| <= (w + 1) * |parts| - 1
    decreases |parts|
  {
    if |parts| > 1 {
      JoinWithLength(parts[1..], sep, w);
    }
  }

  /** Splitting a text that starts with a separator-free part and a separator. */
  lemma SplitMaxStep(p: string, tail: string, sep: char, m: nat)
    requires sep !in p && m >= 1
    ensures SplitMax(p + [sep] + tail, sep, m) == [p] + SplitMax(tail, sep, m - 1)
  {
    var s := p + [sep] + tail;
    FindAfterPrefix(p, tail, sep);
    assert s[..|p|] == p;
    assert s[|p| + 1..] == tail;
  }

  /** Splitting with a bound no smaller than the number of separators undoes a join. */
  lemma {:induction false} SplitMaxJoin(parts: seq<string>, sep: char, m: nat)
    requires 1 <= |parts| <= m + 1
    requires forall i :: 0 <= i < |parts| ==> sep !in parts[i]
    ensures SplitMax(JoinWith(parts, sep), sep, m) == parts
    decreases |parts|
  {
    if |parts| == 1 {
      FindAbsent(parts[0], sep);
    } else {
      SplitMaxJoin(parts[1..], sep, m - 1);
      SplitMaxJoinStep(parts, sep, m);
    }
  }

  /** The step of SplitMaxJoin: the first part, then the split of the rest. */
  lemma SplitMaxJoinStep(parts: seq<string>, sep: char, m: nat)
    requires 2 <= |parts| <= m + 1
    requires sep !in parts[0]
    requires SplitMax(JoinWith(parts[1..], sep), sep, m - 1) == parts[1..]
    ensures SplitMax(JoinWith(parts, sep), sep, m) == parts
  {
    assert JoinWith(parts, sep) == parts[0] + [sep] + JoinWith(parts[1..], sep);
    SplitMaxStep(parts[0], JoinWith(parts[1..], sep), sep, m);
    assert parts == [parts[0]] + parts[1..];
  }

  /** Four octets joined by dots are an IPv4 address. */
  lemma IPv4Dotted(octets: seq<string>)
    requires |octets| == 4
    requires forall i :: 0 <= i < 4 ==> IsOctet(octets[i])
    ensures IsIPv4(JoinWith(octets, '.'))
  {
    forall i | 0 <= i < 4
      ensures '.' !in octets[i] && '/' !in octets[i]
    {
      assert forall j :: 0 <= j < |octets[i]| ==> IsDigit(octets[i][j]);
    }
    SplitJoin(octets, '.');
    JoinWithChars(octets, '.', '/');
  }

  /** Eight hextets joined by colons, the full form without `::`, are an IPv6 address. */
  lemma IPv6Full(h: seq<string>)
    requires |h| == 8
    requires forall i :: 0 <= i < 8 ==> IsHextet(h[i])
    ensures IsIPv6(JoinWith(h, ':'))
  {
    var s := JoinWith(h, ':');
    forall i, c | 0 <= i < 8 && c in ":./%"
      ensures c !in h[i]
    {
      assert forall j :: 0 <= j < |h[i]| ==> IsHexDigit(h[i][j]);
    }
    JoinWithChars(h, ':', '/');
    JoinWithChars(h, ':', '%');
    JoinWithLength(h, ':', 4);
    SplitMaxJoin(h, ':', 9);
    assert ScopeSplit(s) == Some(s);
    var g := GapsFrom(h, 1);
    GapsNone(h, 1);
  }

  /** A name with neither a dot nor a colon is neither kind of address. */
  lemma NameIsNoAddress(s: string)
    requires '.' !in s && ':' !in s
    ensures !IsIPv4(s) && !IsIPv6(s)
  {
    FindAbsent(s, '.');
    assert SplitOn(s, '.') == [s];
    if ScopeSplit(s).Some? {
      var a := ScopeSplit(s).value;
      assert ':' !in a by {
        assert a <= s;
        assert forall k :: 0 <= k < |a| ==> a[k] == s[k];
      }
      FindAbsent(a, ':');
    }
  }
}
