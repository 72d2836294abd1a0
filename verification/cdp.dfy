/**
 * The DevTools-protocol client of substack2md.py (`CDPClient`, substack2md.py:365-405),
 * with the websocket replaced by the sequence of inbound items it would deliver.
 *
 * `send` numbers each request, writes it, and reads inbound frames until the reply
 * carrying that number arrives; `recv_event_until` reads frames until an event with
 * a given method (and session) arrives or the deadline passes.
 */
module Cdp {
  import opened Wrappers

  /** A value `json.loads` can produce (numbers other than integers are not modelled). */
  datatype Json =
    | JNull
    | JBool(b: bool)
    | JInt(i: int)
    | JStr(s: string)
    | JArr(items: seq<Json>)
    | JObj(fields: map<string, Json>)

  /** Python truthiness of a decoded value. */
  predicate Truthy(j: Json) {
    match j
    case JNull => false
    case JBool(b) => b
    case JInt(i) => i != 0
    case JStr(s) => s != []
    case JArr(a) => a != []
    case JObj(m) => |m| != 0
  }

  /** Python's `value == n` for an int `n`: `True == 1` and `False == 0` hold too. */
  predicate EqualsInt(j: Json, n: int) {
    match j
    case JInt(i) => i == n
    case JBool(b) => (if b then 1 else 0) == n
    case _ => false
  }

  /** The number a bool or an int stands for in Python's comparisons. */
  function NumberOf(j: Json): int
    requires j.JBool? || j.JInt?
  {
    if j.JBool? then (if j.b then 1 else 0) else j.i
  }

  /**
   * Python's `a == b` on decoded values: bools and ints compare as numbers (`True == 1`),
   * lists element by element, dicts by their keys and then by the values under each key.
   */
  predicate PyEq(a: Json, b: Json)
    decreases a
  {
    match a
    case JNull => b.JNull?
    case JBool(_) => (b.JBool? || b.JInt?) && NumberOf(a) == NumberOf(b)
    case JInt(_) => (b.JBool? || b.JInt?) && NumberOf(a) == NumberOf(b)
    case JStr(x) => b.JStr? && b.s == x
    case JArr(xs) =>
      && b.JArr? && |xs| == |b.items|
      && forall i :: 0 <= i < |xs| ==> PyEq(xs[i], b.items[i])
    case JObj(m) =>
      && b.JObj? && m.Keys == b.fields.Keys
      && forall k :: k in m ==> PyEq(m[k], b.fields[k])
  }

  /** Every value equals itself. */
  lemma {:induction false} PyEqReflexive(a: Json)
    ensures PyEq(a, a)
    decreases a
  {
    match a
    case JArr(xs) =>
      forall i | 0 <= i < |xs|
        ensures PyEq(xs[i], xs[i])
      {
        PyEqReflexive(xs[i]);
      }
    case JObj(m) =>
      forall k | k in m
        ensures PyEq(m[k], m[k])
      {
        PyEqReflexive(m[k]);
      }
    case _ =>
  }

  /** Python's `==` is symmetric. */
  lemma {:induction false} PyEqSymmetric(a: Json, b: Json)
    requires PyEq(a, b)
    ensures PyEq(b, a)
    decreases a
  {
    match a
    case JArr(xs) =>
      forall i | 0 <= i < |xs|
        ensures PyEq(b.items[i], xs[i])
      {
        PyEqSymmetric(xs[i], b.items[i]);
      }
    case JObj(m) =>
      forall k | k in b.fields
        ensures PyEq(b.fields[k], m[k])
      {
        PyEqSymmetric(m[k], b.fields[k]);
      }
    case _ =>
  }

  /** The reply-id test is Python's `==` against an int. */
  lemma EqualsIntIsPyEq(j: Json, n: int)
    ensures EqualsInt(j, n) <==> PyEq(j, JInt(n))
  {
  }

  /** One `ws.recv()` followed by `json.loads`: a decoded frame, or an exception (a timeout, a closed socket, bad JSON). */
  datatype Inbound = Frame(value: Json) | Broken

  datatype CdpError =
    | RpcError(name: string, error: Json)  // the reply carried "error"
    | RecvFailed                             // `ws.recv()` or `json.loads` raised inside `send`
    | NotAnObject                            // `.get` was called on a value that is not a dict
    | NoTarget                               // "Could not create target"
    | NoSession                              // "Failed to attach to target"
    | Timeout                                // `recv_event_until` reached its deadline
    | NotIterable                            // a truthy evaluation value that `for` cannot walk

  /** A request as `send` builds it; `Wire` gives the JSON object written to the socket. */
  datatype Req = Req(id: int, name: string, params: map<string, Json>, session: Json)

  /** The client: the last message id, what is still to be received, and the requests sent. */
  datatype Conn = Conn(msgId: int, inbox: seq<Inbound>, sent: seq<Req>)

  /** `obj.get(key, default)`; a value that is not a dict has no `.get`. */
  function Get(j: Json, key: string, default: Json): (r: Result<Json, CdpError>)
    ensures r.Failure? <==> !j.JObj?
    ensures j.JObj? && key in j.fields ==> r == Success(j.fields[key])
    ensures j.JObj? && key !in j.fields ==> r == Success(default)
  {
    match j
    case JObj(m) => Success(if key in m then m[key] else default)
    case _ => Failure(NotAnObject)
  }

  /** The request `send` writes: id, method and params, and the session when one is given. */
  function Wire(q: Req): (m: Json)
    ensures m.JObj? && m.fields.Keys == {"id", "method", "params"} + (if Truthy(q.session) then {"sessionId"} else {})
    ensures m.fields["id"] == JInt(q.id) && m.fields["method"] == JStr(q.name) && m.fields["params"] == JObj(q.params)
    ensures Truthy(q.session) ==> m.fields["sessionId"] == q.session
  {
    var base := map["id" := JInt(q.id), "method" := JStr(q.name), "params" := JObj(q.params)];
    JObj(if Truthy(q.session) then base["sessionId" := q.session] else base)
  }

  /** A reply to a request, as the browser would frame it, answers that request. */
  lemma ReplyAnswers(q: Req, result: Json)
    ensures Answers(JObj(map["id" := JInt(q.id), "result" := result]), q.id)
    ensures Answers(JObj(map["id" := Wire(q).fields["id"], "result" := result]), q.id)
  {
  }

  /** A frame that answers request `id`. */
  predicate Answers(j: Json, id: int) {
    j.JObj? && "id" in j.fields && EqualsInt(j.fields["id"], id)
  }

  /** An inbound item `send` reads past while waiting for the reply to `id`. */
  predicate Passes(x: Inbound, id: int) {
    x.Frame? && x.value.JObj? && !Answers(x.value, id)
  }

  /** What `send` makes of the item it stops at. */
  function Outcome(x: Inbound, id: int, name: string): Result<Json, CdpError>
    requires !Passes(x, id)
  {
    match x
    case Broken => Failure(RecvFailed)
    case Frame(j) =>
      if !j.JObj? then Failure(NotAnObject)
      else if "error" in j.fields then Failure(RpcError(name, j.fields["error"]))
      else Success(if "result" in j.fields then j.fields["result"] else JObj(map[]))
  }

  /**
   * The `while True` loop of `send`: the outcome and the number of items read.
   * Running out of items is `ws.recv()` timing out.
   */
  function AwaitReply(inbox: seq<Inbound>, id: int, name: string): (r: (Result<Json, CdpError>, nat))
    ensures var k := r.1;
      && k <= |inbox|
      && (forall i :: 0 <= i < k ==> Passes(inbox[i], id))
      && (k == |inbox| ==> r.0 == Failure(RecvFailed))
      && (k < |inbox| ==> !Passes(inbox[k], id) && r.0 == Outcome(inbox[k], id, name))
    decreases |inbox|
  {
    if inbox == [] then (Failure(RecvFailed), 0)
    else if Passes(inbox[0], id) then
      var r := AwaitReply(inbox[1..], id, name);
      (r.0, r.1 + 1)
    else (Outcome(inbox[0], id, name), 0)
  }

  /** `client.send(method, params, sessionId)`: the client afterwards and the outcome. */
  function Send(c: Conn, name: string, params: Option<map<string, Json>>, session: Json): (r: (Conn, Result<Json, CdpError>))
    ensures r.0.msgId == c.msgId + 1
    ensures r.0.sent == c.sent + [Req(c.msgId + 1, name, params.GetOr(map[]), session)]
    ensures |r.0.inbox| <= |c.inbox| && r.0.inbox == c.inbox[|c.inbox| - |r.0.inbox|..]
  {
    var id := c.msgId + 1;
    var msg := Req(id, name, params.GetOr(map[]), session);
    var (res, k) := AwaitReply(c.inbox, id, name);
    var rest := if k < |c.inbox| then c.inbox[k + 1..] else [];
    (Conn(id, rest, c.sent + [msg]), res)
  }

  /** The reply `send` returns is the first frame answering its id, and everything before it was passed over. */
  lemma SendReply(c: Conn, name: string, params: Option<map<string, Json>>, session: Json, k: nat)
    requires k < |c.inbox| && c.inbox[k].Frame? && Answers(c.inbox[k].value, c.msgId + 1)
    requires forall i :: 0 <= i < k ==> c.inbox[i].Frame? && c.inbox[i].value.JObj? && !Answers(c.inbox[i].value, c.msgId + 1)
    ensures var (c2, res) := Send(c, name, params, session);
      var reply := c.inbox[k].value.fields;
      && c2.inbox == c.inbox[k + 1..]
      && ("error" in reply ==> res == Failure(RpcError(name, reply["error"])))
      && ("error" !in reply ==> res == Success(if "result" in reply then reply["result"] else JObj(map[])))
  {
    assert !Passes(c.inbox[k], c.msgId + 1);
  }

  /** Without a reply to its id among the frames, `send` fails. */
  lemma SendNoReply(c: Conn, name: string, params: Option<map<string, Json>>, session: Json)
    requires forall i :: 0 <= i < |c.inbox| ==> !(c.inbox[i].Frame? && Answers(c.inbox[i].value, c.msgId + 1))
    ensures Send(c, name, params, session).1.Failure?
  {
  }

  /** The client has sent requests numbered `base + 1`, `base + 2`, … in order, and `msgId` is the last. */
  predicate NumberedFrom(c: Conn, base: int) {
    && c.msgId == base + |c.sent|
    && forall i :: 0 <= i < |c.sent| ==> c.sent[i].id == base + 1 + i
  }

  /** `d` is `c` after more requests, each taking the next number. */
  predicate Extends(c: Conn, d: Conn) {
    && |c.sent| <= |d.sent| && d.sent[..|c.sent|] == c.sent
    && d.msgId == c.msgId + (|d.sent| - |c.sent|)
    && forall i :: |c.sent| <= i < |d.sent| ==> d.sent[i].id == c.msgId + 1 + (i - |c.sent|)
  }

  lemma ExtendsTrans(c: Conn, d: Conn, e: Conn)
    requires Extends(c, d) && Extends(d, e)
    ensures Extends(c, e)
  {
    assert e.sent[..|c.sent|] == e.sent[..|d.sent|][..|c.sent|];
  }

  lemma SendExtends(c: Conn, name: string, params: Option<map<string, Json>>, session: Json)
    ensures Extends(c, Send(c, name, params, session).0)
  {
    assert (c.sent + [Req(c.msgId + 1, name, params.GetOr(map[]), session)])[..|c.sent|] == c.sent;
  }

  /** Requests added in order keep the whole log numbered. */
  lemma {:induction false} ExtendsNumbers(c: Conn, d: Conn, base: int)
    requires NumberedFrom(c, base) && Extends(c, d)
    ensures NumberedFrom(d, base)
  {
    forall i | 0 <= i < |d.sent|
      ensures d.sent[i].id == base + 1 + i
    {
      if i < |c.sent| {
        assert d.sent[i] == d.sent[..|c.sent|][i];
      }
    }
  }

  // ---------------------------------------------------------------------------
  // recv_event_until

  /**
   * `"method" in obj and obj["method"] == event and (sessionId is None or obj.get("sessionId") == sessionId)`,
   * with Python's `==`; a frame that is not a dict makes the test raise, and the loop goes on.
   */
  predicate IsEvent(x: Inbound, event: string, session: Option<Json>) {
    && x.Frame? && x.value.JObj?
    && "method" in x.value.fields && PyEq(x.value.fields["method"], JStr(event))
    && (session.None? || session.value.JNull?
        || PyEq(if "sessionId" in x.value.fields then x.value.fields["sessionId"] else JNull, session.value))
  }

  /** A session id `true` matches an event whose `sessionId` is `1`, since `1 == True` in Python. */
  lemma SessionTrueMatchesOne(event: string)
    ensures IsEvent(Frame(JObj(map["method" := JStr(event), "sessionId" := JInt(1)])), event, Some(JBool(true)))
  {
    var m := map["method" := JStr(event), "sessionId" := JInt(1)];
    assert "method" in m && m["method"] == JStr(event);
    assert "sessionId" in m && m["sessionId"] == JInt(1);
  }

  /**
   * `recv_event_until(event, sessionId, timeout)` with the deadline as a number of
   * `recv` calls: the event frame (or `Timeout`) and the items still to be received.
   * A `recv` that raises, or a frame that is not the event, only uses up one call.
   */
  function RecvEventUntil(inbox: seq<Inbound>, event: string, session: Option<Json>, budget: nat): (r: (Result<Json, CdpError>, seq<Inbound>))
    ensures |r.1| <= |inbox|
    ensures r.0.Failure? ==> r.0.error == Timeout
    ensures r.0.Success? ==> IsEvent(Frame(r.0.value), event, session) && |r.1| < |inbox|
    decreases budget
  {
    if budget == 0 then (Failure(Timeout), inbox)
    else if inbox == [] then RecvEventUntil(inbox, event, session, budget - 1)
    else if IsEvent(inbox[0], event, session) then (Success(inbox[0].value), inbox[1..])
    else
      RecvEventUntil(inbox[1..], event, session, budget - 1)
  }

  /** The number of items the deadline leaves time to read. */
  function Window(inbox: seq<Inbound>, budget: nat): nat {
    if budget < |inbox| then budget else |inbox|
  }

  /** The position of the first event among the first `w` items, or `w` when there is none. */
  function FirstEvent(inbox: seq<Inbound>, event: string, session: Option<Json>, w: nat): (k: nat)
    requires w <= |inbox|
    ensures k <= w
    ensures forall i :: 0 <= i < k ==> !IsEvent(inbox[i], event, session)
    ensures k < w ==> IsEvent(inbox[k], event, session)
    decreases w
  {
    if w == 0 || IsEvent(inbox[0], event, session) then 0
    else
      var k := FirstEvent(inbox[1..], event, session, w - 1);
      assert forall i :: 1 <= i <= k ==> inbox[i] == inbox[1..][i - 1];
      k + 1
  }

  /** Reference outcome: the first event among the first `w` items and what follows it, or a timeout after all `w`. */
  function FirstEventOutcome(inbox: seq<Inbound>, event: string, session: Option<Json>, w: nat): (Result<Json, CdpError>, seq<Inbound>)
    requires w <= |inbox|
  {
    var k := FirstEvent(inbox, event, session, w);
    if k < w then (Success(inbox[k].value), inbox[k + 1..]) else (Failure(Timeout), inbox[w..])
  }

  /**
   * The wait returns the first event within the deadline and leaves what follows it;
   * without one, it times out having read every item the deadline allowed.
   */
  lemma {:induction false} RecvEventSpec(inbox: seq<Inbound>, event: string, session: Option<Json>, budget: nat)
    ensures RecvEventUntil(inbox, event, session, budget) == FirstEventOutcome(inbox, event, session, Window(inbox, budget))
    decreases budget
  {
    if budget > 0 {
      if inbox == [] {
        RecvEventSpec(inbox, event, session, budget - 1);
      } else if !IsEvent(inbox[0], event, session) {
        RecvEventSpec(inbox[1..], event, session, budget - 1);
        RecvEventStep(inbox, event, session, budget);
      }
    }
  }

  /** One item that is not the event: the claim for the tail with one call fewer gives it for `inbox`. */
  lemma RecvEventStep(inbox: seq<Inbound>, event: string, session: Option<Json>, budget: nat)
    requires budget > 0 && inbox != [] && !IsEvent(inbox[0], event, session)
    requires RecvEventUntil(inbox[1..], event, session, budget - 1) ==
      FirstEventOutcome(inbox[1..], event, session, Window(inbox[1..], budget - 1))
    ensures RecvEventUntil(inbox, event, session, budget) == FirstEventOutcome(inbox, event, session, Window(inbox, budget))
  {
    assert Window(inbox[1..], budget - 1) == Window(inbox, budget) - 1;
    RecvEventShift(inbox, event, session, Window(inbox, budget));
  }

  /** Past an item that is not the event, the search in `inbox` is the search in its tail. */
  lemma RecvEventShift(inbox: seq<Inbound>, event: string, session: Option<Json>, w: nat)
    requires 0 < w <= |inbox| && !IsEvent(inbox[0], event, session)
    ensures FirstEventOutcome(inbox[1..], event, session, w - 1) == FirstEventOutcome(inbox, event, session, w)
  {
    var tail := inbox[1..];
    var k := FirstEvent(tail, event, session, w - 1);
    assert FirstEvent(inbox, event, session, w) == k + 1;
    if k < w - 1 {
      assert tail[k] == inbox[k + 1];
      assert tail[k + 1..] == inbox[k + 2..];
    } else {
      assert tail[w - 1..] == inbox[w..];
    }
  }

  /** The wait times out exactly when no item within the deadline is the event. */
  lemma {:induction false} RecvEventTimeout(inbox: seq<Inbound>, event: string, session: Option<Json>, budget: nat)
    ensures RecvEventUntil(inbox, event, session, budget).0.Failure? <==>
      forall i :: 0 <= i < Window(inbox, budget) ==> !IsEvent(inbox[i], event, session)
  {
    RecvEventSpec(inbox, event, session, budget);
  }
}
