/**
 * `fetch_archive_urls_via_cdp` (substack2md.py:458-514): open the archive page,
 * then, for at most 60 rounds, scroll and collect every anchor whose href holds
 * `/p/`, with the query cut off, into a set; stop early once the set's size stayed
 * the same for three rounds in a row, or when an evaluation raises. The answer is
 * the set in sorted order.
 */
module Archive {
  import opened Wrappers
  import opened Text
  import opened Cdp
  import Fetch

  const MaxRounds := 60
  const StableRounds := 3

  // ---------------------------------------------------------------------------
  // sorted(): code-point order on strings

  /** Python's `a < b` on `str`: the first differing character decides, and a proper prefix comes first. */
  predicate StrLess(a: string, b: string)
    decreases |a|
  {
    if a == [] then b != []
    else b != [] && (a[0] < b[0] || (a[0] == b[0] && StrLess(a[1..], b[1..])))
  }

  lemma {:induction false} StrLessIrreflexive(a: string)
    ensures !StrLess(a, a)
    decreases |a|
  {
    if a != [] {
      StrLessIrreflexive(a[1..]);
    }
  }

  lemma {:induction false} StrLessTransitive(a: string, b: string, c: string)
    requires StrLess(a, b) && StrLess(b, c)
    ensures StrLess(a, c)
    decreases |a|
  {
    if a != [] && a[0] == b[0] && b[0] == c[0] {
      StrLessTransitive(a[1..], b[1..], c[1..]);
    }
  }

  lemma {:induction false} StrLessTotal(a: string, b: string)
    requires a != b
    ensures StrLess(a, b) || StrLess(b, a)
    decreases |a|
  {
    if a != [] && b != [] && a[0] == b[0] {
      assert a[1..] != b[1..] by {
        assert a == [a[0]] + a[1..] && b == [b[0]] + b[1..];
      }
      StrLessTotal(a[1..], b[1..]);
    }
  }

  /** Strictly increasing, hence free of duplicates. */
  predicate Sorted(r: seq<string>) {
    forall i, j :: 0 <= i < j < |r| ==> StrLess(r[i], r[j])
  }

  /** Every non-empty set of strings has a least element. */
  lemma {:induction false} MinExists(s: set<string>)
    requires s != {}
    ensures exists m :: m in s && forall x :: x in s ==> !StrLess(x, m)
    decreases |s|
  {
    var y :| y in s;
    var t := s - {y};
    if t == {} {
      assert s == {y};
      StrLessIrreflexive(y);
    } else {
      MinExists(t);
      var m :| m in t && forall x :: x in t ==> !StrLess(x, m);
      if StrLess(y, m) {
        forall x | x in s
          ensures !StrLess(x, y)
        {
          if x == y {
            StrLessIrreflexive(y);
          } else if StrLess(x, y) {
            StrLessTransitive(x, y, m);
          }
        }
      } else {
        assert forall x :: x in s ==> x == y || x in t;
      }
    }
  }

  /** `sorted(urls)`: the elements of the set, each once, in increasing order. */
  method SortUrls(s: set<string>) returns (r: seq<string>)
    ensures Sorted(r)
    ensures forall x :: x in r <==> x in s
    ensures |r| == |s|
  {
    r := [];
    var rest := s;
    while rest != {}
      invariant rest <= s
      invariant forall x :: x in r <==> x in s && x !in rest
      invariant Sorted(r)
      invariant forall i, x :: 0 <= i < |r| && x in rest ==> StrLess(r[i], x)
      invariant |r| + |rest| == |s|
      decreases |rest|
    {
      MinExists(rest);
      var m :| m in rest && forall x :: x in rest ==> !StrLess(x, m);
      forall x | x in rest - {m}
        ensures StrLess(m, x)
      {
        StrLessTotal(m, x);
      }
      r := r + [m];
      rest := rest - {m};
    }
  }

  /** Two sorted listings of the same elements are the same listing: `SortUrls` has only one possible answer. */
  lemma {:induction false} SortedUnique(a: seq<string>, b: seq<string>)
    requires Sorted(a) && Sorted(b)
    requires forall x :: x in a <==> x in b
    ensures a == b
    decreases |a|
  {
    assert a != [] ==> a[0] in b;
    assert b != [] ==> b[0] in a;
    if a != [] && b != [] {
      assert a[0] == b[0] by {
        if a[0] != b[0] {
          assert b[0] in b && a[0] in a;
          var j :| 0 <= j < |a| && a[j] == b[0];
          var k :| 0 <= k < |b| && b[k] == a[0];
          StrLessTransitive(a[0], b[0], a[0]);
          StrLessIrreflexive(a[0]);
        }
      }
      forall x | x in a[1..]
        ensures x in b[1..]
      {
        SortedTailMember(a, b, x);
      }
      forall x | x in b[1..]
        ensures x in a[1..]
      {
        SortedTailMember(b, a, x);
      }
      SortedUnique(a[1..], b[1..]);
      assert a == [a[0]] + a[1..] && b == [b[0]] + b[1..];
    }
  }

  /** In sorted listings with the same first element and the same members, the tails have the same members. */
  lemma SortedTailMember(a: seq<string>, b: seq<string>, x: string)
    requires Sorted(a) && Sorted(b) && a != [] && b != [] && a[0] == b[0]
    requires forall y :: y in a <==> y in b
    requires x in a[1..]
    ensures x in b[1..]
  {
    var i :| 1 <= i < |a| && a[i] == x;
    assert StrLess(a[0], x);
    if x == b[0] {
      StrLessIrreflexive(x);
    }
    assert x in b;
    var j :| 0 <= j < |b| && b[j] == x;
    assert b[1..][j - 1] == x;
  }

  // ---------------------------------------------------------------------------
  // What one round collects

  /** `a.split('?')[0]`. */
  function CutQuery(a: string): (r: string)
    ensures '?' !in r && |r| <= |a| && a[..|r|] == r
    ensures |r| < |a| ==> a[|r|] == '?'
  {
    a[..FindChar(a, '?')]
  }

  /** The URLs added for the items of a list: each non-empty string, query cut off. */
  function ListLinks(items: seq<Json>): (r: set<string>)
    ensures forall u :: u in r <==> exists i :: 0 <= i < |items| && items[i].JStr? && items[i].s != [] && u == CutQuery(items[i].s)
    decreases |items|
  {
    if items == [] then {}
    else
      var rest := ListLinks(items[1..]);
      assert forall i :: 1 <= i < |items| ==> items[1..][i - 1] == items[i];
      (if items[0].JStr? && items[0].s != [] then {CutQuery(items[0].s)} else {}) + rest
  }

  /** Iterating a string: its characters as one-character strings. */
  function Chars(s: string): (r: seq<Json>)
    ensures |r| == |s| && forall i :: 0 <= i < |s| ==> r[i] == JStr([s[i]])
  {
    if s == [] then [] else [JStr([s[0]])] + Chars(s[1..])
  }

  /**
   * What `for a in arr` adds for the value an evaluation returned (`value or []`):
   * a list gives its strings, a string its characters, a dict its keys; a truthy
   * number or `True` cannot be walked.
   */
  function RoundLinks(value: Json): (r: Result<set<string>, CdpError>)
    ensures r.Failure? <==> Truthy(value) && (value.JInt? || value.JBool?)
    ensures !Truthy(value) ==> r == Success({})
    ensures value.JArr? ==> r == Success(ListLinks(value.items))
  {
    if !Truthy(value) then Success({})
    else
      match value
      case JArr(items) => Success(ListLinks(items))
      case JStr(s) => Success(ListLinks(Chars(s)))
      case JObj(m) => Success(set k | k in m.Keys && k != [] :: CutQuery(k))
      case _ => Failure(NotIterable)
  }

  // ---------------------------------------------------------------------------
  // The harvest loop over the rounds' outcomes

  /**
   * One round: its `Runtime.evaluate` raised, or it returned and walking the
   * value gave these links (or raised in turn).
   */
  datatype Round = Raised | Read(links: Result<set<string>, CdpError>)

  /** The loop's variables: `urls`, `last_count` and `stable`. */
  datatype State = State(urls: set<string>, last: int, stable: nat)

  const Start := State({}, -1, 0)

  datatype Stop = Converged | RoundLimit | EvalFailed

  /** The collected URLs, the number of rounds whose result was read, and why the loop ended. */
  datatype Harvest = Harvest(urls: set<string>, rounds: nat, stop: Stop)

  /** The links one evaluation result yields: `r.get("result", {}).get("value") or []`, walked. */
  function Collected(result: Json): (r: Result<set<string>, CdpError>)
    ensures r.Failure? <==> Fetch.EvalValue(result, JNull).Failure? || RoundLinks(Fetch.EvalValue(result, JNull).value).Failure?
  {
    match Fetch.EvalValue(result, JNull)
    case Failure(e) => Failure(e)
    case Success(value) => RoundLinks(value)
  }

  /** The size comparison that ends a round; `true` means "break". */
  function Advance(st: State, links: set<string>): (r: (State, bool))
    ensures r.0.urls == st.urls + links && r.0.last == |r.0.urls|
    ensures st.last == |r.0.urls| ==> r.0.stable == st.stable + 1 && r.1 == (st.stable + 1 >= StableRounds)
    ensures st.last != |r.0.urls| ==> r.0.stable == 0 && !r.1
  {
    var u := st.urls + links;
    if |u| == st.last then (State(u, st.last, st.stable + 1), st.stable + 1 >= StableRounds)
    else (State(u, |u|, 0), false)
  }

  /** The round an outcome of `client.send("Runtime.evaluate", ...)` makes. */
  function RoundOf(res: Result<Json, CdpError>): Round {
    if res.Failure? then Raised else Read(Collected(res.value))
  }

  /** The links a round contributes, when it was read. */
  function LinksOf(x: Round): set<string> {
    if x.Read? && x.links.Success? then x.links.value else {}
  }

  /** The links of the first `k` rounds. */
  function Union(rounds: seq<Round>, k: nat): set<string>
    requires k <= |rounds|
  {
    if k == 0 then {} else LinksOf(rounds[0]) + Union(rounds[1..], k - 1)
  }

  /**
   * The `for _ in range(max_rounds)` loop from round `n` on; running out of
   * outcomes is an evaluation that raised.
   */
  function Loop(rounds: seq<Round>, n: nat, st: State): (r: Result<Harvest, CdpError>)
    requires n <= MaxRounds
    ensures r.Success? ==> n <= r.value.rounds <= MaxRounds && r.value.rounds - n <= |rounds|
    ensures r.Success? ==> st.urls <= r.value.urls
    ensures r.Success? && r.value.stop == RoundLimit ==> r.value.rounds == MaxRounds
    decreases MaxRounds - n
  {
    if n == MaxRounds then Success(Harvest(st.urls, n, RoundLimit))
    else if rounds == [] || rounds[0].Raised? then Success(Harvest(st.urls, n, EvalFailed))
    else
      match rounds[0].links
      case Failure(e) => Failure(e)
      case Success(links) =>
        var (next, done) := Advance(st, links);
        if done then Success(Harvest(next.urls, n + 1, Converged))
        else Loop(rounds[1..], n + 1, next)
  }

  /** The loop ends without converging only at the round limit or at the first round that raised (or was never answered). */
  lemma {:induction false} LoopStops(rounds: seq<Round>, n: nat, st: State)
    requires n <= MaxRounds
    ensures var r := Loop(rounds, n, st);
      r.Success? && r.value.stop == EvalFailed ==>
        var p := r.value.rounds - n;
        (p == |rounds| || rounds[p].Raised?) && forall i :: 0 <= i < p ==> rounds[i].Read?
    decreases MaxRounds - n
  {
    if n < MaxRounds && rounds != [] && rounds[0].Read? {
      var c := rounds[0].links;
      if c.Success? {
        LoopStops(rounds[1..], n + 1, Advance(st, c.value).0);
      }
    }
  }

  /** The set in the end is exactly what the rounds read contributed. */
  predicate UnionAfter(rounds: seq<Round>, n: nat, st: State)
    requires n <= MaxRounds
  {
    var r := Loop(rounds, n, st);
    r.Success? ==> r.value.urls == st.urls + Union(rounds, r.value.rounds - n)
  }

  lemma {:induction false} LoopUnion(rounds: seq<Round>, n: nat, st: State)
    requires n <= MaxRounds
    ensures UnionAfter(rounds, n, st)
    decreases MaxRounds - n
  {
    if n < MaxRounds && rounds != [] && rounds[0].Read? && rounds[0].links.Success? {
      var a := Advance(st, rounds[0].links.value);
      if a.1 {
        UnionNow(rounds, n, st);
      } else {
        LoopUnion(rounds[1..], n + 1, a.0);
        UnionStep(rounds, n, st);
      }
    } else {
      assert Union(rounds, 0) == {};
    }
  }

  /** The round that converges adds its links and ends the loop. */
  lemma UnionNow(rounds: seq<Round>, n: nat, st: State)
    requires n < MaxRounds && rounds != [] && rounds[0].Read? && rounds[0].links.Success?
    requires Advance(st, rounds[0].links.value).1
    ensures UnionAfter(rounds, n, st)
  {
    var a := Advance(st, rounds[0].links.value);
    assert Loop(rounds, n, st) == Success(Harvest(a.0.urls, n + 1, Converged));
    assert Union(rounds, 1) == LinksOf(rounds[0]) + Union(rounds[1..], 0);
    assert Union(rounds[1..], 0) == {};
  }

  /** A round that does not converge adds its links to those of the rounds after it. */
  lemma UnionStep(rounds: seq<Round>, n: nat, st: State)
    requires n < MaxRounds && rounds != [] && rounds[0].Read? && rounds[0].links.Success?
    requires var a := Advance(st, rounds[0].links.value);
      !a.1 && UnionAfter(rounds[1..], n + 1, a.0)
    ensures UnionAfter(rounds, n, st)
  {
    var a := Advance(st, rounds[0].links.value);
    assert Loop(rounds, n, st) == Loop(rounds[1..], n + 1, a.0);
  }

  /** The loop's state between rounds: before the first round, or `last_count` is the current size. */
  predicate Reachable(n: nat, st: State) {
    && st.stable < StableRounds
    && (n == 0 ==> st.last == -1 && st.stable == 0)
    && (n > 0 ==> st.last == |st.urls|)
  }

  /**
   * Convergence takes `StableRounds - stable` more rounds (one more from the start,
   * since the first round only records the size), and the last `StableRounds`
   * rounds bring nothing new: the final set was already there before them.
   */
  predicate ConvergedAfter(rounds: seq<Round>, n: nat, st: State)
    requires n <= MaxRounds
  {
    var r := Loop(rounds, n, st);
    r.Success? && r.value.stop == Converged ==>
      var p := r.value.rounds - n;
      && p >= StableRounds - st.stable + (if n == 0 then 1 else 0)
      && r.value.urls == st.urls + Union(rounds, if p < StableRounds then 0 else p - StableRounds)
  }

  /** The convergence claim holds from every state the loop can reach. */
  lemma {:induction false} ConvergedLate(rounds: seq<Round>, n: nat, st: State)
    requires n <= MaxRounds && Reachable(n, st)
    ensures ConvergedAfter(rounds, n, st)
    decreases MaxRounds - n
  {
    if n < MaxRounds && rounds != [] && rounds[0].Read? && rounds[0].links.Success? {
      var a := Advance(st, rounds[0].links.value);
      if a.1 {
        ConvergedNow(rounds, n, st);
      } else {
        ConvergedLate(rounds[1..], n + 1, a.0);
        ConvergedLater(rounds, n, st);
      }
    }
  }

  /** The round that converges: the size has not changed for `StableRounds` rounds. */
  lemma ConvergedNow(rounds: seq<Round>, n: nat, st: State)
    requires n < MaxRounds && Reachable(n, st) && rounds != [] && rounds[0].Read? && rounds[0].links.Success?
    requires Advance(st, rounds[0].links.value).1
    ensures ConvergedAfter(rounds, n, st)
  {
    var next := Advance(st, rounds[0].links.value).0;
    assert Loop(rounds, n, st) == Success(Harvest(next.urls, n + 1, Converged));
    SubsetSameSize(st.urls, next.urls);
    assert Union(rounds, 0) == {};
  }

  /** A round that does not converge, given the claim for the rounds after it. */
  lemma ConvergedLater(rounds: seq<Round>, n: nat, st: State)
    requires n < MaxRounds && Reachable(n, st) && rounds != [] && rounds[0].Read? && rounds[0].links.Success?
    requires var a := Advance(st, rounds[0].links.value);
      !a.1 && ConvergedAfter(rounds[1..], n + 1, a.0)
    ensures ConvergedAfter(rounds, n, st)
  {
    var r := Loop(rounds, n, st);
    var next := Advance(st, rounds[0].links.value).0;
    assert r == Loop(rounds[1..], n + 1, next);
    if r.Success? && r.value.stop == Converged {
      if next.stable > 0 {
        SubsetSameSize(st.urls, next.urls);
      }
      ConvergedStep(rounds, st.urls, next.urls, r.value.urls, r.value.rounds - n, next.stable > 0);
    }
  }

  /** The set bookkeeping of one round in `ConvergedLate`. */
  lemma ConvergedStep(rounds: seq<Round>, before: set<string>, after: set<string>, final: set<string>, p: nat, same: bool)
    requires 1 <= p <= |rounds| && after == before + LinksOf(rounds[0])
    requires same ==> after == before
    requires !same ==> p - 1 >= StableRounds
    requires final == after + Union(rounds[1..], if p - 1 < StableRounds then 0 else p - 1 - StableRounds)
    ensures final == before + Union(rounds, if p < StableRounds then 0 else p - StableRounds)
  {
    if p > StableRounds {
      assert Union(rounds, p - StableRounds) == LinksOf(rounds[0]) + Union(rounds[1..], p - 1 - StableRounds);
    } else {
      assert Union(rounds, 0) == {} && Union(rounds[1..], 0) == {};
    }
  }

  lemma SubsetSameSize(a: set<string>, b: set<string>)
    requires a <= b && |a| == |b|
    ensures a == b
  {
    if a != b {
      var x :| x in b && x !in a;
      SubsetSize(a, b - {x});
    }
  }

  lemma {:induction false} SubsetSize(a: set<string>, b: set<string>)
    requires a <= b
    ensures |a| <= |b|
    decreases |a|
  {
    if a != {} {
      var y :| y in a;
      SubsetSize(a - {y}, b - {y});
    }
  }

  /**
   * Before the first round (`last_count = -1`, whatever is already collected),
   * the loop converges no sooner than the fourth round, and the last three rounds
   * found nothing new.
   */
  lemma ConvergedFromStart(rounds: seq<Round>, n: nat, st: State)
    requires n == 0 && Reachable(n, st)
    ensures var r := Loop(rounds, n, st);
      r.Success? && r.value.stop == Converged ==>
        && r.value.rounds >= StableRounds + 1
        && r.value.urls == st.urls + Union(rounds, r.value.rounds - StableRounds)
  {
    ConvergedLate(rounds, n, st);
  }

  // ---------------------------------------------------------------------------
  // The whole harvest with the client

  /** `rounds` is exactly what the loop plays from round `n` in state `st`: it stops where the loop stops. */
  predicate IsTrace(rounds: seq<Round>, n: nat, st: State)
    requires n <= MaxRounds
    decreases MaxRounds - n
  {
    if n == MaxRounds then rounds == []
    else
      && rounds != []
      && var x := rounds[0];
      if x.Raised? || x.links.Failure? then rounds == [x]
      else
        var (next, done) := Advance(st, x.links.value);
        if done then rounds == [x] else IsTrace(rounds[1..], n + 1, next)
  }

  /**
   * The rounds as the client plays them: each sends the scrolling expression
   * and reads the result, until the loop would stop.
   */
  function Rounds(c: Conn, session: Json, script: string, n: nat, st: State): (r: (Conn, seq<Round>))
    requires n <= MaxRounds
    ensures Extends(c, r.0) && |r.0.sent| == |c.sent| + |r.1| && |r.1| <= MaxRounds - n
    ensures forall i :: |c.sent| <= i < |r.0.sent| ==> r.0.sent[i].name == Fetch.RuntimeEvaluate
    ensures IsTrace(r.1, n, st)
    decreases MaxRounds - n
  {
    if n == MaxRounds then (c, [])
    else
      var (c1, res) := Send(c, Fetch.RuntimeEvaluate, Some(Fetch.Evaluate(script)), session);
      SendExtends(c, Fetch.RuntimeEvaluate, Some(Fetch.Evaluate(script)), session);
      var x := RoundOf(res);
      if x.Raised? || x.links.Failure? then (c1, [x])
      else
        var (next, done) := Advance(st, x.links.value);
        if done then (c1, [x])
        else
          var (d, more) := Rounds(c1, session, script, n + 1, next);
          RoundsLog(c, c1, d, |more|);
          TraceStep(x, more, n, st);
          (d, [x] + more)
  }

  /** One evaluation request followed by the requests of the later rounds. */
  lemma RoundsLog(c: Conn, c1: Conn, d: Conn, k: nat)
    requires Extends(c, c1) && |c1.sent| == |c.sent| + 1 && c1.sent[|c.sent|].name == Fetch.RuntimeEvaluate
    requires Extends(c1, d) && |d.sent| == |c1.sent| + k
    requires forall i :: |c1.sent| <= i < |d.sent| ==> d.sent[i].name == Fetch.RuntimeEvaluate
    ensures Extends(c, d) && |d.sent| == |c.sent| + 1 + k
    ensures forall i :: |c.sent| <= i < |d.sent| ==> d.sent[i].name == Fetch.RuntimeEvaluate
  {
    ExtendsTrans(c, c1, d);
    assert d.sent[..|c1.sent|] == c1.sent;
    assert d.sent[|c.sent|] == c1.sent[|c.sent|];
  }

  /** A round read without converging, followed by a trace from the next round, is a trace. */
  lemma TraceStep(x: Round, more: seq<Round>, n: nat, st: State)
    requires n < MaxRounds && x.Read? && x.links.Success?
    requires !Advance(st, x.links.value).1 && IsTrace(more, n + 1, Advance(st, x.links.value).0)
    ensures IsTrace([x] + more, n, st)
  {
    assert ([x] + more)[1..] == more;
  }

  /** The loop reads every round of a trace, and nothing after it. */
  lemma {:induction false} TraceConsumed(rounds: seq<Round>, n: nat, st: State)
    requires n <= MaxRounds && IsTrace(rounds, n, st)
    ensures var h := Loop(rounds, n, st);
      && (h.Success? && h.value.stop != EvalFailed ==> h.value.rounds - n == |rounds|)
      && (h.Success? && h.value.stop == EvalFailed ==> h.value.rounds - n + 1 == |rounds| && rounds[|rounds| - 1].Raised?)
    decreases MaxRounds - n
  {
    if n < MaxRounds {
      var x := rounds[0];
      if x.Read? && x.links.Success? {
        var (next, done) := Advance(st, x.links.value);
        if !done {
          var more := rounds[1..];
          TraceConsumed(more, n + 1, next);
          assert Loop(rounds, n, st) == Loop(more, n + 1, next);
          if more != [] {
            assert rounds[|rounds| - 1] == more[|more| - 1];
          }
        }
      }
    }
  }

  /** The client afterwards, the archive tab, and the harvest (or the error that ended it). */
  datatype ArchiveRun = ArchiveRun(conn: Conn, target: Option<Json>, harvest: Result<Harvest, CdpError>)

  /** Everything `fetch_archive_urls_via_cdp` does before `Target.closeTarget`. */
  function ArchiveBody(c: Conn, url: string, loadBudget: nat, script: string): (r: ArchiveRun)
    ensures r.harvest.Success? ==> r.target.Some?
    ensures r.target.Some? ==> Truthy(r.target.value)
    ensures Extends(c, r.conn) && |c.sent| < |r.conn.sent| <= |c.sent| + 4 + MaxRounds
    ensures Fetch.NoCloseAfter(r.conn.sent, |c.sent|)
    ensures r.harvest.Success? ==> r.harvest.value.rounds <= MaxRounds
  {
    var o := Fetch.OpenPage(c, url, loadBudget);
    if o.session.Failure? then ArchiveRun(o.conn, o.target, Failure(o.session.error))
    else
      var (d, rounds) := Rounds(o.conn, o.session.value, script, 0, Start);
      HarvestLog(c, o.conn, d, |rounds|);
      ArchiveRun(d, o.target, Loop(rounds, 0, Start))
  }

  /** The setup requests followed by the evaluation requests of the rounds: no close among them. */
  lemma HarvestLog(c: Conn, c1: Conn, d: Conn, k: nat)
    requires Extends(c, c1) && |c.sent| < |c1.sent| <= |c.sent| + 4 && Fetch.NoCloseAfter(c1.sent, |c.sent|)
    requires Extends(c1, d) && |d.sent| == |c1.sent| + k && k <= MaxRounds
    requires forall i :: |c1.sent| <= i < |d.sent| ==> d.sent[i].name == Fetch.RuntimeEvaluate
    ensures Extends(c, d) && |c.sent| < |d.sent| <= |c.sent| + 4 + MaxRounds
    ensures Fetch.NoCloseAfter(d.sent, |c.sent|)
  {
    ExtendsTrans(c, c1, d);
    assert d.sent[..|c1.sent|] == c1.sent;
    assert forall i :: |c.sent| <= i < |c1.sent| ==> d.sent[i] == c1.sent[i];
    assert Fetch.RuntimeEvaluate != Fetch.CloseTarget by {
      assert Fetch.RuntimeEvaluate[0] != Fetch.CloseTarget[0];
    }
  }

  /** As written: the tab is closed only when the harvest completed. */
  function Archive(c: Conn, url: string, loadBudget: nat, script: string): (r: ArchiveRun)
    ensures r.harvest.Success? ==> r.target.Some? && Fetch.ClosesLast(r.conn, r.target.value)
    ensures r.harvest.Failure? ==> Fetch.NoCloseAfter(r.conn.sent, |c.sent|)
    ensures r.harvest.Success? ==> r.harvest.value.rounds <= MaxRounds
    ensures Extends(c, r.conn)
  {
    var b := ArchiveBody(c, url, loadBudget, script);
    if b.harvest.Success? then
      var d := Fetch.Close(b.conn, b.target.value);
      ExtendsTrans(c, b.conn, d);
      b.(conn := d)
    else b
  }

  /** With the teardown on every exit path once the tab exists. */
  function ArchiveClosing(c: Conn, url: string, loadBudget: nat, script: string): (r: ArchiveRun)
    ensures r.target.Some? ==> Fetch.ClosesLast(r.conn, r.target.value)
    ensures r.target.None? ==> Fetch.NoCloseAfter(r.conn.sent, |c.sent|)
    ensures r.harvest == Archive(c, url, loadBudget, script).harvest
    ensures r.target == Archive(c, url, loadBudget, script).target
    ensures Extends(c, r.conn)
  {
    var b := ArchiveBody(c, url, loadBudget, script);
    if b.target.Some? then
      var d := Fetch.Close(b.conn, b.target.value);
      ExtendsTrans(c, b.conn, d);
      b.(conn := d)
    else b
  }

  /** `fetch_archive_urls_via_cdp(url)`: the harvested URLs in sorted order. */
  method FetchArchiveUrls(c: Conn, url: string, loadBudget: nat, script: string) returns (d: Conn, r: Result<seq<string>, CdpError>)
    ensures var run := Archive(c, url, loadBudget, script);
      && d == run.conn
      && (r.Failure? <==> run.harvest.Failure?)
      && (r.Success? ==>
            Sorted(r.value) && |r.value| == |run.harvest.value.urls| && forall x :: x in r.value <==> x in run.harvest.value.urls)
  {
    var run := Archive(c, url, loadBudget, script);
    d := run.conn;
    if run.harvest.Failure? {
      r := Failure(run.harvest.error);
    } else {
      var sorted := SortUrls(run.harvest.value.urls);
      r := Success(sorted);
    }
  }

  /** The browser that leaves `fetch_html` without a session leaves the archive tab open too. */
  lemma NoSessionLeavesArchive(loadBudget: nat, url: string, script: string)
    ensures var r := Archive(Conn(0, Fetch.NoSessionInbox(), []), url, loadBudget, script);
      && r.harvest == Failure(NoSession)
      && r.target == Some(JStr("T"))
      && Fetch.NoCloseAfter(r.conn.sent, 0)
  {
    var c := Conn(0, Fetch.NoSessionInbox(), []);
    var (c1, t) := Fetch.Create(c);
    Fetch.CreateAnswered(c);
    Fetch.AttachAnswered(c1);
  }
}
