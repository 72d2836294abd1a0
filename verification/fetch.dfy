/**
 * `CDPClient.fetch_html` (substack2md.py:407-453): open a blank target, attach to
 * it, enable the page domain, navigate, wait for the load event, poll until the
 * article node appears, fall back to whatever HTML is there, and close the target.
 *
 * The deadlines become counts (`loadBudget` receives, `polls` evaluations) and the
 * two JavaScript expressions are parameters.
 */
module Fetch {
  import opened Wrappers
  import opened Cdp

  const CreateTarget := "Target.createTarget"
  const AttachToTarget := "Target.attachToTarget"
  const PageEnable := "Page.enable"
  const PageNavigate := "Page.navigate"
  const LoadEventFired := "Page.loadEventFired"
  const RuntimeEvaluate := "Runtime.evaluate"
  const CloseTarget := "Target.closeTarget"

  /** The expression that returns the page HTML once an article node exists (else `null`), and the plain HTML dump. */
  datatype Scripts = Scripts(probe: string, dump: string)

  /** The params of a `Runtime.evaluate` request. */
  function Evaluate(expr: string): map<string, Json> {
    map["expression" := JStr(expr), "returnByValue" := JBool(true)]
  }

  function CreateParams(): map<string, Json> {
    map["url" := JStr("about:blank")]
  }

  function AttachParams(target: Json): map<string, Json> {
    map["targetId" := target, "flatten" := JBool(true)]
  }

  function CloseParams(target: Json): map<string, Json> {
    map["targetId" := target]
  }

  /** None of the requests after the first `from` closes a target. */
  predicate NoCloseAfter(sent: seq<Req>, from: nat) {
    forall i :: from <= i < |sent| ==> sent[i].name != CloseTarget
  }

  /** `res.get(key)` on a reply that must be truthy, else `err` is raised. */
  function TruthyField(res: Result<Json, CdpError>, key: string, err: CdpError): (r: Result<Json, CdpError>)
    ensures r.Success? <==> res.Success? && res.value.JObj? && key in res.value.fields && Truthy(res.value.fields[key])
    ensures r.Success? ==> r.value == res.value.fields[key]
    ensures res.Failure? ==> r == res
    ensures res.Success? && res.value.JObj? && !r.Success? ==> r == Failure(err)
  {
    if res.Failure? then Failure(res.error)
    else
      match Get(res.value, key, JNull)
      case Failure(e) => Failure(e)
      case Success(v) => if Truthy(v) then Success(v) else Failure(err)
  }

  /** `res.get("result", {}).get("value", default)`. */
  function EvalValue(res: Json, default: Json): (r: Result<Json, CdpError>)
    ensures r.Failure? <==> !res.JObj? || ("result" in res.fields && !res.fields["result"].JObj?)
    ensures r.Success? && "result" in res.fields && "value" in res.fields["result"].fields ==>
      r.value == res.fields["result"].fields["value"]
    ensures r.Success? && ("result" !in res.fields || "value" !in res.fields["result"].fields) ==> r.value == default
  {
    match Get(res, "result", JObj(map[]))
    case Failure(e) => Failure(e)
    case Success(inner) => Get(inner, "value", default)
  }

  /** `Target.createTarget` and its truthy `targetId`. */
  function Create(c: Conn): (r: (Conn, Result<Json, CdpError>))
    ensures r.0.sent == c.sent + [Req(c.msgId + 1, CreateTarget, CreateParams(), JNull)] && r.0.msgId == c.msgId + 1
    ensures r.1.Success? ==> Truthy(r.1.value)
  {
    var (c1, res) := Send(c, CreateTarget, Some(CreateParams()), JNull);
    (c1, TruthyField(res, "targetId", NoTarget))
  }

  /** `Target.attachToTarget` and its truthy `sessionId`. */
  function Attach(c: Conn, target: Json): (r: (Conn, Result<Json, CdpError>))
    ensures r.0.sent == c.sent + [Req(c.msgId + 1, AttachToTarget, AttachParams(target), JNull)] && r.0.msgId == c.msgId + 1
    ensures r.1.Success? ==> Truthy(r.1.value)
  {
    var (c1, res) := Send(c, AttachToTarget, Some(AttachParams(target)), JNull);
    (c1, TruthyField(res, "sessionId", NoSession))
  }

  /** `Page.navigate`, then the wait for the load event, whose timeout is ignored. */
  function Navigate(c: Conn, session: Json, url: string, loadBudget: nat): (r: (Conn, Result<Json, CdpError>))
    ensures r.0.sent == c.sent + [Req(c.msgId + 1, PageNavigate, map["url" := JStr(url)], session)]
    ensures r.0.msgId == c.msgId + 1
    ensures r.1.Success? ==> r.1.value == session
  {
    var (c1, res) := Send(c, PageNavigate, Some(map["url" := JStr(url)]), session);
    if res.Failure? then (c1, Failure(res.error))
    else
      var (_, rest) := RecvEventUntil(c1.inbox, LoadEventFired, Some(session), loadBudget);
      (c1.(inbox := rest), Success(session))
  }

  /** `Page.enable`, then `Navigate`. */
  function Load(c: Conn, session: Json, url: string, loadBudget: nat): (r: (Conn, Result<Json, CdpError>))
    ensures var enable := Req(c.msgId + 1, PageEnable, map[], session);
      var navigate := Req(c.msgId + 2, PageNavigate, map["url" := JStr(url)], session);
      && (r.0.sent == c.sent + [enable] || r.0.sent == c.sent + [enable, navigate])
      && (r.1.Success? ==> r.0.sent == c.sent + [enable, navigate] && r.1.value == session)
      && r.0.msgId == c.msgId + (|r.0.sent| - |c.sent|)
  {
    var (c1, r1) := Send(c, PageEnable, None, session);
    if r1.Failure? then (c1, Failure(r1.error))
    else
      var (c2, r2) := Navigate(c1, session, url, loadBudget);
      assert c2.sent == c.sent + [Req(c.msgId + 1, PageEnable, map[], session), Req(c.msgId + 2, PageNavigate, map["url" := JStr(url)], session)];
      (c2, r2)
  }

  /**
   * The setup shared by `fetch_html` and `fetch_archive_urls_via_cdp`: the target
   * (once one with a truthy id exists) and the session id, or the error that ends it.
   */
  datatype Opened = Opened(conn: Conn, target: Option<Json>, session: Result<Json, CdpError>)

  function OpenPage(c: Conn, url: string, loadBudget: nat): (r: Opened)
    ensures r.target.Some? ==> Truthy(r.target.value)
    ensures r.session.Success? ==> r.target.Some? && Truthy(r.session.value)
    ensures Extends(c, r.conn) && |c.sent| < |r.conn.sent| <= |c.sent| + 4
    ensures r.conn.sent[|c.sent|] == Req(c.msgId + 1, CreateTarget, CreateParams(), JNull)
    ensures r.target.Some? ==>
      |c.sent| + 1 < |r.conn.sent| &&
      r.conn.sent[|c.sent| + 1] == Req(c.msgId + 2, AttachToTarget, AttachParams(r.target.value), JNull)
    ensures r.session.Success? ==> |r.conn.sent| == |c.sent| + 4
    ensures NoCloseAfter(r.conn.sent, |c.sent|)
  {
    var (c1, t) := Create(c);
    CreateLog(c, c1);
    if t.Failure? then Opened(c1, None, Failure(t.error))
    else
      var o := AttachAndLoad(c1, t.value, url, loadBudget, |c.sent|);
      OpenedAfterCreate(c, c1, o);
      o
  }

  /** The create request extends the log and is not a close. */
  lemma CreateLog(c: Conn, c1: Conn)
    requires c1.sent == c.sent + [Req(c.msgId + 1, CreateTarget, CreateParams(), JNull)] && c1.msgId == c.msgId + 1
    ensures Extends(c, c1) && NoCloseAfter(c1.sent, |c.sent|)
  {
    assert c1.sent[..|c.sent|] == c.sent;
    assert CreateTarget != CloseTarget by {
      assert CreateTarget[8] != CloseTarget[8];
    }
  }

  /** The log of `OpenPage` once the target exists: the create request, then what `AttachAndLoad` sent. */
  lemma OpenedAfterCreate(c: Conn, c1: Conn, o: Opened)
    requires c1.sent == c.sent + [Req(c.msgId + 1, CreateTarget, CreateParams(), JNull)] && c1.msgId == c.msgId + 1
    requires o.target.Some? && Extends(c1, o.conn) && |c1.sent| < |o.conn.sent| <= |c1.sent| + 3
    requires o.conn.sent[|c1.sent|] == Req(c1.msgId + 1, AttachToTarget, AttachParams(o.target.value), JNull)
    requires o.session.Success? ==> |o.conn.sent| == |c1.sent| + 3
    ensures Extends(c, o.conn) && |c.sent| < |o.conn.sent| <= |c.sent| + 4
    ensures o.conn.sent[|c.sent|] == Req(c.msgId + 1, CreateTarget, CreateParams(), JNull)
    ensures |c.sent| + 1 < |o.conn.sent|
    ensures o.conn.sent[|c.sent| + 1] == Req(c.msgId + 2, AttachToTarget, AttachParams(o.target.value), JNull)
    ensures o.session.Success? ==> |o.conn.sent| == |c.sent| + 4
  {
    assert c1.sent[..|c.sent|] == c.sent;
    ExtendsTrans(c, c1, o.conn);
    assert o.conn.sent[..|c1.sent|] == c1.sent;
    assert o.conn.sent[|c.sent|] == c1.sent[|c.sent|];
  }

  /** Attach to a created target, then `Load`. */
  function AttachAndLoad(c: Conn, target: Json, url: string, loadBudget: nat, from: nat): (r: Opened)
    requires Truthy(target) && from <= |c.sent| && NoCloseAfter(c.sent, from)
    ensures r.target == Some(target)
    ensures r.session.Success? ==> Truthy(r.session.value)
    ensures Extends(c, r.conn) && |c.sent| < |r.conn.sent| <= |c.sent| + 3
    ensures r.conn.sent[|c.sent|] == Req(c.msgId + 1, AttachToTarget, AttachParams(target), JNull)
    ensures r.session.Success? ==> |r.conn.sent| == |c.sent| + 3
    ensures NoCloseAfter(r.conn.sent, from)
  {
    var (c2, s) := Attach(c, target);
    SendExtends(c, AttachToTarget, Some(AttachParams(target)), JNull);
    NoCloseAppend(c.sent, [c2.sent[|c.sent|]], from);
    if s.Failure? then Opened(c2, Some(target), Failure(s.error))
    else
      var (c3, l) := Load(c2, s.value, url, loadBudget);
      LoadExtends(c2, s.value, url, loadBudget);
      ExtendsTrans(c, c2, c3);
      NoCloseAppend(c2.sent, c3.sent[|c2.sent|..], from);
      assert c3.sent[|c.sent|] == c2.sent[|c.sent|] by {
        assert c3.sent[..|c2.sent|] == c2.sent;
      }
      Opened(c3, Some(target), l)
  }

  /** Requests that do not close a target keep `NoCloseAfter`. */
  lemma NoCloseAppend(sent: seq<Req>, extra: seq<Req>, from: nat)
    requires from <= |sent| && NoCloseAfter(sent, from)
    requires forall i :: 0 <= i < |extra| ==> extra[i].name != CloseTarget
    ensures NoCloseAfter(sent + extra, from)
  {
  }

  lemma LoadExtends(c: Conn, session: Json, url: string, loadBudget: nat)
    ensures var d := Load(c, session, url, loadBudget).0;
      && Extends(c, d)
      && d.sent == c.sent + d.sent[|c.sent|..]
      && forall i :: |c.sent| <= i < |d.sent| ==> d.sent[i].name != CloseTarget
  {
  }

  /**
   * The polling loop: evaluate the probe up to `polls` times and stop at the
   * first truthy value; `""` when none came.
   */
  function Poll(c: Conn, session: Json, probe: string, polls: nat): (r: (Conn, Result<Json, CdpError>))
    ensures r.1.Success? ==> Truthy(r.1.value) || r.1.value == JStr("")
    ensures Extends(c, r.0) && |r.0.sent| <= |c.sent| + polls
    ensures forall i :: |c.sent| <= i < |r.0.sent| ==> r.0.sent[i] == Req(r.0.sent[i].id, RuntimeEvaluate, Evaluate(probe), session)
    decreases polls
  {
    if polls == 0 then (c, Success(JStr("")))
    else
      var (c1, res) := Send(c, RuntimeEvaluate, Some(Evaluate(probe)), session);
      SendExtends(c, RuntimeEvaluate, Some(Evaluate(probe)), session);
      if res.Failure? then (c1, Failure(res.error))
      else
        match EvalValue(res.value, JNull)
        case Failure(e) => (c1, Failure(e))
        case Success(v) =>
          if Truthy(v) then (c1, Success(v))
          else
            var r := Poll(c1, session, probe, polls - 1);
            ExtendsTrans(c, c1, r.0);
            assert r.0.sent[|c.sent|] == c1.sent[|c.sent|] by {
              assert r.0.sent[..|c1.sent|] == c1.sent;
            }
            r
  }

  /**
   * What an evaluation makes of the browser's reply to it: the `RpcError` `send` raises, or
   * `result.get("value", default)` of the result (`{}` when the reply has none).
   */
  function ReplyValue(reply: Json, default: Json): (r: Result<Json, CdpError>)
    requires reply.JObj?
    ensures "error" in reply.fields ==> r == Failure(RpcError(RuntimeEvaluate, reply.fields["error"]))
    ensures "error" !in reply.fields && "result" !in reply.fields ==> r == Success(default)
  {
    if "error" in reply.fields then Failure(RpcError(RuntimeEvaluate, reply.fields["error"]))
    else EvalValue(if "result" in reply.fields then reply.fields["result"] else JObj(map[]), default)
  }

  /** The polling loop stops at this reply: evaluating it raised, or its value is truthy. */
  predicate StopsAt(reply: Json)
    requires reply.JObj?
  {
    ReplyValue(reply, JNull).Failure? || Truthy(ReplyValue(reply, JNull).value)
  }

  /** The first `n` inbound items are replies to the requests numbered `first`, `first + 1`, …. */
  predicate AnswersEach(inbox: seq<Inbound>, first: int, n: nat) {
    n <= |inbox| && forall i :: 0 <= i < n ==> inbox[i].Frame? && Answers(inbox[i].value, first + i)
  }

  /** An evaluation answered by the next inbound frame: that frame is consumed, and its value is the reply's. */
  lemma EvaluateReply(c: Conn, session: Json, expr: string, default: Json)
    requires AnswersEach(c.inbox, c.msgId + 1, 1)
    ensures var (c1, res) := Send(c, RuntimeEvaluate, Some(Evaluate(expr)), session);
      && c1.inbox == c.inbox[1..]
      && (if res.Failure? then Failure(res.error) else EvalValue(res.value, default)) == ReplyValue(c.inbox[0].value, default)
  {
    SendReply(c, RuntimeEvaluate, Some(Evaluate(expr)), session, 0);
  }

  /**
   * `r` is what the polling loop ends with when the `k`-th reply is the first that stops it
   * (or none of the `polls` replies does, when `k == polls`): the value of that reply after
   * `k + 1` probes, or `""` after all `polls` probes, with those replies consumed.
   */
  predicate PolledTo(c: Conn, r: (Conn, Result<Json, CdpError>), polls: nat, k: nat) {
    var n := if k < polls then k + 1 else polls;
    && n <= |c.inbox|
    && |r.0.sent| == |c.sent| + n
    && r.0.inbox == c.inbox[n..]
    && (k < polls ==> c.inbox[k].Frame? && c.inbox[k].value.JObj? && r.1 == ReplyValue(c.inbox[k].value, JNull))
    && (k >= polls ==> r.1 == Success(JStr("")))
  }

  /**
   * With a browser that answers each probe in turn, the polling loop returns the value of the
   * first reply that stops it (the `k`-th), having sent `k + 1` probes; when none of the `polls`
   * replies stops it, it returns `""` after sending all `polls` probes.
   */
  lemma {:induction false} PollFirstStop(c: Conn, session: Json, probe: string, polls: nat, k: nat)
    requires k <= polls
    requires AnswersEach(c.inbox, c.msgId + 1, if k < polls then k + 1 else polls)
    requires forall i :: 0 <= i < k ==> !StopsAt(c.inbox[i].value)
    requires k < polls ==> StopsAt(c.inbox[k].value)
    ensures PolledTo(c, Poll(c, session, probe, polls), polls, k)
    decreases polls, 2
  {
    if polls > 0 {
      if k == 0 {
        PollStops(c, session, probe, polls);
      } else {
        PollPastFirst(c, session, probe, polls, k);
      }
    }
  }

  /** The step of PollFirstStop past a first reply that does not stop the loop. */
  lemma {:induction false} PollPastFirst(c: Conn, session: Json, probe: string, polls: nat, k: nat)
    requires 0 < k <= polls
    requires AnswersEach(c.inbox, c.msgId + 1, if k < polls then k + 1 else polls)
    requires forall i :: 0 <= i < k ==> !StopsAt(c.inbox[i].value)
    requires k < polls ==> StopsAt(c.inbox[k].value)
    ensures PolledTo(c, Poll(c, session, probe, polls), polls, k)
    decreases polls, 1
  {
    EvaluateReply(c, session, probe, JNull);
    PolledAfterFirst(c, Send(c, RuntimeEvaluate, Some(Evaluate(probe)), session).0, session, probe, polls, k);
  }

  /** What the loop does from the second probe on, seen from the client `c` before the first. */
  lemma {:induction false} PolledAfterFirst(c: Conn, c1: Conn, session: Json, probe: string, polls: nat, k: nat)
    requires 0 < k <= polls
    requires AnswersEach(c.inbox, c.msgId + 1, if k < polls then k + 1 else polls)
    requires forall i :: 0 <= i < k ==> !StopsAt(c.inbox[i].value)
    requires k < polls ==> StopsAt(c.inbox[k].value)
    requires c1.inbox == c.inbox[1..] && c1.msgId == c.msgId + 1 && |c1.sent| == |c.sent| + 1
    ensures PolledTo(c, Poll(c1, session, probe, polls - 1), polls, k)
    decreases polls, 0
  {
    var n := if k < polls then k + 1 else polls;
    AnswersShift(c.inbox, c.msgId + 1, n);
    assert forall i :: 0 <= i < n - 1 ==> c1.inbox[i] == c.inbox[i + 1];
    PollFirstStop(c1, session, probe, polls - 1, k - 1);
    PolledShift(c, c1, Poll(c1, session, probe, polls - 1), polls, k);
  }

  /** One non-stopping reply in front: the loop's end is the same, one probe and one reply further on. */
  lemma PolledShift(c: Conn, c1: Conn, r: (Conn, Result<Json, CdpError>), polls: nat, k: nat)
    requires 0 < k <= polls && c.inbox != []
    requires c1.inbox == c.inbox[1..] && |c1.sent| == |c.sent| + 1
    requires PolledTo(c1, r, polls - 1, k - 1)
    ensures PolledTo(c, r, polls, k)
  {
    var n := if k < polls then k + 1 else polls;
    assert c.inbox[1..][n - 1..] == c.inbox[n..];
    if k < polls {
      assert c1.inbox[k - 1] == c.inbox[k];
    }
  }

  /** Dropping the first answered item leaves the next ones answering the following numbers. */
  lemma AnswersShift(inbox: seq<Inbound>, first: int, n: nat)
    requires n > 0 && AnswersEach(inbox, first, n)
    ensures AnswersEach(inbox[1..], first + 1, n - 1)
  {
    assert forall i :: 0 <= i < n - 1 ==> inbox[1..][i] == inbox[i + 1];
  }

  /** A first probe reply that stops the loop decides what it returns. */
  lemma PollStops(c: Conn, session: Json, probe: string, polls: nat)
    requires polls > 0 && AnswersEach(c.inbox, c.msgId + 1, 1) && StopsAt(c.inbox[0].value)
    ensures PolledTo(c, Poll(c, session, probe, polls), polls, 0)
  {
    EvaluateReply(c, session, probe, JNull);
  }

  /** A target `fetch_html` opened, the client afterwards, and the HTML (or why there is none). */
  datatype Fetched = Fetched(conn: Conn, target: Option<Json>, html: Result<Json, CdpError>)

  /** The probe's value when truthy, else the fallback dump's `value` (default `""`). */
  function Grab(c: Conn, session: Json, polls: nat, scripts: Scripts): (r: (Conn, Result<Json, CdpError>))
    ensures var p := Poll(c, session, scripts.probe, polls).1; p.Failure? || Truthy(p.value) ==> r.1 == p
    ensures Extends(c, r.0) && |r.0.sent| <= |c.sent| + polls + 1
    ensures forall i :: |c.sent| <= i < |r.0.sent| ==> r.0.sent[i].name == RuntimeEvaluate
  {
    var (c5, probed) := Poll(c, session, scripts.probe, polls);
    if probed.Failure? || Truthy(probed.value) then (c5, probed)
    else
      var (c6, res) := Send(c5, RuntimeEvaluate, Some(Evaluate(scripts.dump)), session);
      SendExtends(c5, RuntimeEvaluate, Some(Evaluate(scripts.dump)), session);
      ExtendsTrans(c, c5, c6);
      assert forall i :: |c.sent| <= i < |c5.sent| ==> c6.sent[i] == c5.sent[i];
      (c6, if res.Failure? then Failure(res.error) else EvalValue(res.value, JStr("")))
  }

  /**
   * With a browser that answers each evaluation in turn, the HTML is the value of the first
   * probe reply that stops the loop, or else the fallback reply's `value` with default `""`.
   */
  lemma GrabFirstStop(c: Conn, session: Json, polls: nat, scripts: Scripts, k: nat)
    requires k <= polls
    requires AnswersEach(c.inbox, c.msgId + 1, if k < polls then k + 1 else polls + 1)
    requires forall i :: 0 <= i < k ==> !StopsAt(c.inbox[i].value)
    requires k < polls ==> StopsAt(c.inbox[k].value)
    ensures Grab(c, session, polls, scripts).1 ==
      if k < polls then ReplyValue(c.inbox[k].value, JNull) else ReplyValue(c.inbox[polls].value, JStr(""))
  {
    PollFirstStop(c, session, scripts.probe, polls, k);
    if k == polls {
      var d := Poll(c, session, scripts.probe, polls).0;
      assert d.inbox[0] == c.inbox[polls];
      SendReply(d, RuntimeEvaluate, Some(Evaluate(scripts.dump)), session, 0);
    }
  }

  /** Evaluation requests after an opening that closed nothing still close nothing. */
  lemma GrabKeepsOpen(c: Conn, d: Conn, e: Conn)
    requires Extends(c, d) && Extends(d, e) && |c.sent| < |d.sent|
    requires NoCloseAfter(d.sent, |c.sent|)
    requires forall i :: |d.sent| <= i < |e.sent| ==> e.sent[i].name == RuntimeEvaluate
    ensures Extends(c, e) && |c.sent| < |e.sent|
    ensures NoCloseAfter(e.sent, |c.sent|)
  {
    ExtendsTrans(c, d, e);
    assert RuntimeEvaluate != CloseTarget by {
      assert RuntimeEvaluate[0] != CloseTarget[0];
    }
    assert e.sent == d.sent + e.sent[|d.sent|..];
    NoCloseAppend(d.sent, e.sent[|d.sent|..], |c.sent|);
  }

  /** Everything `fetch_html` does before `Target.closeTarget`. */
  function Body(c: Conn, url: string, loadBudget: nat, polls: nat, scripts: Scripts): (r: Fetched)
    ensures r.html.Success? ==> r.target.Some?
    ensures r.target.Some? ==> Truthy(r.target.value)
    ensures Extends(c, r.conn) && |c.sent| < |r.conn.sent|
    ensures NoCloseAfter(r.conn.sent, |c.sent|)
  {
    var o := OpenPage(c, url, loadBudget);
    if o.session.Failure? then Fetched(o.conn, o.target, Failure(o.session.error))
    else
      var (c6, html) := Grab(o.conn, o.session.value, polls, scripts);
      GrabKeepsOpen(c, o.conn, c6);
      Fetched(c6, o.target, html)
  }

  /** `send("Target.closeTarget", ...)` inside `try/except: pass`: only the request and the client's state remain. */
  function Close(c: Conn, target: Json): (r: Conn)
    ensures r.sent == c.sent + [Req(c.msgId + 1, CloseTarget, CloseParams(target), JNull)]
    ensures r.msgId == c.msgId + 1 && Extends(c, r)
  {
    SendExtends(c, CloseTarget, Some(CloseParams(target)), JNull);
    Send(c, CloseTarget, Some(CloseParams(target)), JNull).0
  }

  /** The last request closes `target`. */
  predicate ClosesLast(c: Conn, target: Json) {
    |c.sent| > 0 && c.sent[|c.sent| - 1] == Req(c.msgId, CloseTarget, CloseParams(target), JNull)
  }

  /** `fetch_html(url)` as written: the target is closed only when the HTML was obtained. */
  function FetchHtml(c: Conn, url: string, loadBudget: nat, polls: nat, scripts: Scripts): (r: Fetched)
    ensures r.html.Success? ==> r.target.Some? && ClosesLast(r.conn, r.target.value)
    ensures r.html.Failure? ==> NoCloseAfter(r.conn.sent, |c.sent|)
    ensures Extends(c, r.conn)
  {
    var b := Body(c, url, loadBudget, polls, scripts);
    if b.html.Success? then
      var d := Close(b.conn, b.target.value);
      ExtendsTrans(c, b.conn, d);
      b.(conn := d)
    else b
  }

  /** `fetch_html` with the teardown on every exit path once a target exists, as in a `finally` clause. */
  function FetchHtmlClosing(c: Conn, url: string, loadBudget: nat, polls: nat, scripts: Scripts): (r: Fetched)
    ensures r.target.Some? ==> ClosesLast(r.conn, r.target.value)
    ensures r.target.None? ==> NoCloseAfter(r.conn.sent, |c.sent|)
    ensures r.html == FetchHtml(c, url, loadBudget, polls, scripts).html
    ensures r.target == FetchHtml(c, url, loadBudget, polls, scripts).target
    ensures Extends(c, r.conn)
  {
    var b := Body(c, url, loadBudget, polls, scripts);
    if b.target.Some? then
      var d := Close(b.conn, b.target.value);
      ExtendsTrans(c, b.conn, d);
      b.(conn := d)
    else b
  }

  /** Every request either version sends carries the next message id. */
  lemma FetchNumbers(c: Conn, base: int, url: string, loadBudget: nat, polls: nat, scripts: Scripts)
    requires NumberedFrom(c, base)
    ensures NumberedFrom(FetchHtml(c, url, loadBudget, polls, scripts).conn, base)
    ensures NumberedFrom(FetchHtmlClosing(c, url, loadBudget, polls, scripts).conn, base)
  {
    ExtendsNumbers(c, FetchHtml(c, url, loadBudget, polls, scripts).conn, base);
    ExtendsNumbers(c, FetchHtmlClosing(c, url, loadBudget, polls, scripts).conn, base);
  }

  // ---------------------------------------------------------------------------
  // The teardown gap

  /** A browser that creates target "T" and then answers the attach request without a session id. */
  function NoSessionInbox(): seq<Inbound> {
    [ Frame(JObj(map["id" := JInt(1), "result" := JObj(map["targetId" := JStr("T")])])),
      Frame(JObj(map["id" := JInt(2), "result" := JObj(map[])])) ]
  }

  /** With that browser, the fetch fails with "Failed to attach to target" and target "T" is never closed. */
  lemma NoSessionLeaves(url: string, loadBudget: nat, polls: nat, scripts: Scripts)
    ensures var r := FetchHtml(Conn(0, NoSessionInbox(), []), url, loadBudget, polls, scripts);
      && r.html == Failure(NoSession)
      && r.target == Some(JStr("T"))
      && NoCloseAfter(r.conn.sent, 0)
  {
    var c := Conn(0, NoSessionInbox(), []);
    var (c1, t) := Create(c);
    CreateAnswered(c);
    var (c2, s) := Attach(c1, t.value);
    AttachAnswered(c1);
  }

  lemma CreateAnswered(c: Conn)
    requires c == Conn(0, NoSessionInbox(), [])
    ensures Create(c).1 == Success(JStr("T")) && Create(c).0.inbox == NoSessionInbox()[1..]
  {
    var m := map["targetId" := JStr("T")];
    var frame := JObj(map["id" := JInt(1), "result" := JObj(m)]);
    assert c.inbox[0] == Frame(frame);
    assert Answers(frame, 1);
    assert !Passes(c.inbox[0], 1);
    assert Send(c, CreateTarget, Some(CreateParams()), JNull).1 == Success(JObj(m));
  }

  lemma AttachAnswered(c: Conn)
    requires c.msgId == 1 && c.inbox == NoSessionInbox()[1..]
    ensures Attach(c, JStr("T")).1 == Failure(NoSession)
  {
    var frame := JObj(map["id" := JInt(2), "result" := JObj(map[])]);
    assert c.inbox[0] == Frame(frame);
    assert Answers(frame, 2);
    assert !Passes(c.inbox[0], 2);
    assert Send(c, AttachToTarget, Some(AttachParams(JStr("T"))), JNull).1 == Success(JObj(map[]));
  }

  /** With the teardown in place, the same browser sees target "T" closed. */
  lemma NoSessionCloses(url: string, loadBudget: nat, polls: nat, scripts: Scripts)
    ensures var r := FetchHtmlClosing(Conn(0, NoSessionInbox(), []), url, loadBudget, polls, scripts);
      && r.html == Failure(NoSession)
      && ClosesLast(r.conn, JStr("T"))
  {
    NoSessionLeaves(url, loadBudget, polls, scripts);
  }
}
