/** Forwarding requests over one upstream HTTP/1.1 connection that is replaced when it
    fails: h1RoundTripper in proxy/roundtrip.go, over every sequence of requests. */
module RoundTrip {
  import opened GoStrings

  type Conn = nat

  /** isIdempotentMethod. */
  predicate Idempotent(verb: string) {
    verb == "GET" || verb == "HEAD" || verb == "OPTIONS" || verb == "TRACE"
  }

  /** They are the safe methods of section 9.2.1 of RFC 9110, and no other. */
  lemma IdempotentIff(verb: string)
    ensures Idempotent(verb) <==> verb in {"GET", "HEAD", "OPTIONS", "TRACE"}
  {
  }

  datatype Failure = WriteFailed | HeadersTooLarge | ReadFailed

  /** How one attempt goes: bytes of the request that reach the wire, and what comes back. */
  datatype Attempt = Attempt(written: nat, result: Result<string>, failure: Failure)

  /** Everything the network may answer during one call: the first attempt, the redial
      and the second attempt. */
  datatype Answers = Answers(first: Attempt, redialed: bool, second: Attempt)

  /** What happens on the wire for request number n. */
  datatype Event = Open(conn: Conn) | Close(conn: Conn) | Send(conn: Conn, request: nat, bytes: nat)

  // ---- Reading a trace ----

  ghost function Opened(t: seq<Event>): set<Conn> {
    set e | e in t && e.Open? :: e.conn
  }

  ghost function Closed(t: seq<Event>): set<Conn> {
    set e | e in t && e.Close? :: e.conn
  }

  /** The attempts made for a request. */
  ghost function Attempts(t: seq<Event>, request: nat): seq<Event> {
    if t == [] then []
    else
      var before := Attempts(t[..|t| - 1], request);
      var e := t[|t| - 1];
      if e.Send? && e.request == request then before + [e] else before
  }

  /** The connections that carried some of it. */
  ghost function Carriers(t: seq<Event>, request: nat): set<Conn> {
    set e | e in t && e.Send? && e.request == request && e.bytes > 0 :: e.conn
  }

  /** Every connection opened so far has been closed, except the current one. */
  ghost predicate OnlyOpen(t: seq<Event>, conn: Conn) {
    Opened(t) - Closed(t) == {conn} && Closed(t) <= Opened(t)
  }

  /** What is promised for one request: at most one more attempt, and what is not safe to
      send twice reaches one connection at most. */
  ghost predicate Careful(t: seq<Event>, request: nat, verb: string) {
    && |Attempts(t, request)| <= 2
    && (!Idempotent(verb) ==> forall a, b | a in Carriers(t, request) && b in Carriers(t, request) :: a == b)
  }

  lemma OpenedNext(t: seq<Event>, e: Event)
    ensures Opened(t + [e]) == if e.Open? then Opened(t) + {e.conn} else Opened(t)
    ensures Closed(t + [e]) == if e.Close? then Closed(t) + {e.conn} else Closed(t)
  {
    assert e in t + [e];
    forall x | x in t ensures x in t + [e] {}
  }

  lemma AttemptsNext(t: seq<Event>, e: Event, request: nat)
    ensures Attempts(t + [e], request)
            == if e.Send? && e.request == request then Attempts(t, request) + [e] else Attempts(t, request)
    ensures Carriers(t + [e], request)
            == if e.Send? && e.request == request && e.bytes > 0 then Carriers(t, request) + {e.conn}
               else Carriers(t, request)
  {
    assert (t + [e])[..|t|] == t;
    assert e in t + [e];
    forall x | x in t ensures x in t + [e] {}
  }

  /** Nothing has been sent for this request or any later one. */
  ghost predicate Unsent(t: seq<Event>, request: nat) {
    forall r | r >= request :: Attempts(t, r) == [] && Carriers(t, r) == {}
  }

  /** No other request's attempts have changed. */
  ghost predicate Elsewhere(t: seq<Event>, t': seq<Event>, request: nat) {
    forall r: nat | r != request :: Attempts(t', r) == Attempts(t, r) && Carriers(t', r) == Carriers(t, r)
  }

  lemma OneMore(t: seq<Event>, e: Event, request: nat)
    requires e.Send? ==> e.request == request
    ensures Elsewhere(t, t + [e], request)
  {
    forall r: nat | r != request
      ensures Attempts(t + [e], r) == Attempts(t, r) && Carriers(t + [e], r) == Carriers(t, r)
    {
      AttemptsNext(t, e, r);
    }
  }

  lemma ElsewhereThen(t: seq<Event>, t': seq<Event>, t'': seq<Event>, request: nat)
    requires Elsewhere(t, t', request) && Elsewhere(t', t'', request)
    ensures Elsewhere(t, t'', request)
  {
    forall r: nat | r != request ensures Attempts(t'', r) == Attempts(t, r) && Carriers(t'', r) == Carriers(t, r) {
      assert Attempts(t'', r) == Attempts(t', r) && Carriers(t'', r) == Carriers(t', r);
    }
  }

  lemma StillUnsent(t: seq<Event>, t': seq<Event>, request: nat)
    requires Unsent(t, request) && Elsewhere(t, t', request)
    ensures Unsent(t', request + 1)
  {
  }

  /** After the first attempt. */
  lemma SentOnce(t: seq<Event>, e: Event, request: nat)
    requires Unsent(t, request) && e.Send? && e.request == request
    ensures Attempts(t + [e], request) == [e]
    ensures Carriers(t + [e], request) == if e.bytes > 0 then {e.conn} else {}
    ensures Opened(t + [e]) == Opened(t) && Closed(t + [e]) == Closed(t) && Elsewhere(t, t + [e], request)
  {
    AttemptsNext(t, e, request);
    OpenedNext(t, e);
    OneMore(t, e, request);
  }

  /** After another on a connection opened for it, and the closing of one of the two. */
  lemma SentAgain(t: seq<Event>, conn: Conn, e: Event, x: Conn, request: nat)
    requires e.Send? && e.request == request && e.conn == conn
    ensures var t' := t + [Open(conn)] + [e] + [Close(x)];
            && Attempts(t', request) == Attempts(t, request) + [e]
            && Carriers(t', request) == Carriers(t, request) + (if e.bytes > 0 then {conn} else {})
            && Opened(t') == Opened(t) + {conn} && Closed(t') == Closed(t) + {x}
  {
    AttemptsNext(t, Open(conn), request);
    AttemptsNext(t + [Open(conn)], e, request);
    AttemptsNext(t + [Open(conn)] + [e], Close(x), request);
    OpenedNext(t, Open(conn));
    OpenedNext(t + [Open(conn)], e);
    OpenedNext(t + [Open(conn)] + [e], Close(x));
  }

  lemma SentAgainElsewhere(t: seq<Event>, conn: Conn, e: Event, x: Conn, request: nat)
    requires e.Send? && e.request == request
    ensures Elsewhere(t, t + [Open(conn)] + [e] + [Close(x)], request)
  {
    OneMore(t, Open(conn), request);
    OneMore(t + [Open(conn)], e, request);
    OneMore(t + [Open(conn)] + [e], Close(x), request);
    ElsewhereThen(t, t + [Open(conn)], t + [Open(conn)] + [e], request);
    ElsewhereThen(t, t + [Open(conn)] + [e], t + [Open(conn)] + [e] + [Close(x)], request);
  }

  class H1RoundTripper {
    const canRedial: bool
    var conn: Conn
    /** The next connection a dial will give. */
    var next: Conn
    ghost var trace: seq<Event>

    ghost predicate Valid()
      reads this
    {
      OnlyOpen(trace, conn) && forall c | c in Opened(trace) :: c < next
    }

    constructor (canRedial: bool)
      ensures Valid() && this.canRedial == canRedial && trace == [Open(0)]
    {
      this.canRedial, conn, next, trace := canRedial, 0, 1, [Open(0)];
    }

    /** roundTripOnce on a connection. */
    method Once(c: Conn, request: nat, a: Attempt) returns (r: Result<string>, nothingWritten: bool)
      modifies `trace
      ensures trace == old(trace) + [Send(c, request, a.written)]
      ensures r == a.result && nothingWritten == (a.result.Err? && a.failure.WriteFailed? && a.written == 0)
    {
      trace := trace + [Send(c, request, a.written)];
      return a.result, a.result.Err? && a.failure.WriteFailed? && a.written == 0;
    }

    /** The second attempt, on a connection of its own; it replaces the current one if it
        succeeds and is closed if not. */
    method Again(request: nat, a: Attempt) returns (r: Result<string>)
      requires Valid()
      modifies this
      ensures Valid() && old(trace) <= trace && r == a.result && Elsewhere(old(trace), trace, request)
      ensures Attempts(trace, request) == old(Attempts(trace, request) + [Send(next, request, a.written)])
      ensures Carriers(trace, request) == old(Carriers(trace, request) + if a.written > 0 then {next} else {})
      ensures conn == if r.Ok? then old(next) else old(conn)
    {
      ghost var t, e := trace, Send(next, request, a.written);
      SentAgain(t, next, e, if a.result.Ok? then conn else next, request);
      SentAgainElsewhere(t, next, e, if a.result.Ok? then conn else next, request);
      var newConn := next;
      next := next + 1;
      trace := trace + [Open(newConn)];
      var nothingWritten;
      r, nothingWritten := Once(newConn, request, a);
      if r.Err? {
        trace := trace + [Close(newConn)];
        return;
      }
      trace := trace + [Close(conn)];
      conn := newConn;
    }

    /** RoundTrip. A request is attempted twice exactly if the first attempt failed in a way
        that another may mend and it is safe to try: nothing of it has gone out, or it may
        be sent twice. A response is the one read on the connection that is now current; a
        failure is the first attempt's. */
    method RoundTrip(request: nat, verb: string, a: Answers) returns (r: Result<string>)
      requires Valid() && Unsent(trace, request)
      modifies this
      ensures Valid() && old(trace) <= trace && Careful(trace, request, verb)
      ensures Elsewhere(old(trace), trace, request) && Unsent(trace, request + 1)
      ensures 1 <= |Attempts(trace, request)| <= 2
      ensures |Attempts(trace, request)| == 2
              <==> a.first.result.Err? && canRedial && a.redialed && !a.first.failure.HeadersTooLarge?
                   && (Idempotent(verb) || (a.first.failure.WriteFailed? && a.first.written == 0))
      ensures r.Err? ==> r == a.first.result && conn == old(conn)
      ensures r.Ok? ==> Attempts(trace, request)[|Attempts(trace, request)| - 1].conn == conn
                        && r == if |Attempts(trace, request)| == 1 then a.first.result else a.second.result
      ensures |Attempts(trace, request)| == 2 && a.second.result.Ok? ==> r.Ok?
    {
      SentOnce(trace, Send(conn, request, a.first.written), request);
      StillUnsent(trace, trace + [Send(conn, request, a.first.written)], request);
      var nothingWritten;
      r, nothingWritten := Once(conn, request, a.first);
      if r.Ok? || !canRedial || a.first.failure.HeadersTooLarge? {
        return;
      }
      if !nothingWritten && !Idempotent(verb) {
        return;
      }
      if !a.redialed {
        return;
      }
      ghost var t := trace;
      var r2 := Again(request, a.second);
      ElsewhereThen(old(trace), t, trace, request);
      StillUnsent(old(trace), trace, request);
      if r2.Ok? {
        return r2;
      }
    }
  }

  // ---- Every sequence of calls ----

  datatype Call = Call(verb: string, answers: Answers)

  ghost predicate AllCareful(t: seq<Event>, calls: seq<Call>) {
    forall n | 0 <= n < |calls| :: Careful(t, n, calls[n].verb)
  }

  lemma StillCareful(t: seq<Event>, t': seq<Event>, calls: seq<Call>, n: nat)
    requires n < |calls| && AllCareful(t, calls[..n]) && Elsewhere(t, t', n) && Careful(t', n, calls[n].verb)
    ensures AllCareful(t', calls[..n + 1])
  {
    forall k: nat | k < n ensures Careful(t', k, calls[k].verb) {
      assert calls[..n][k] == calls[k] && Careful(t, k, calls[k].verb);
      assert Attempts(t', k) == Attempts(t, k) && Carriers(t', k) == Carriers(t, k);
    }
  }

  lemma NothingSent()
    ensures Unsent([Open(0)], 0)
  {
    assert [] + [Open(0)] == [Open(0)];
    forall r: nat ensures Attempts([Open(0)], r) == [] && Carriers([Open(0)], r) == {} {
      AttemptsNext([], Open(0), r);
    }
  }

  /** Over any sequence of requests: two attempts each at most, nothing sent twice that must
      not be, and no connection left open but the current one. */
  method Run(canRedial: bool, calls: seq<Call>) returns (rt: H1RoundTripper, results: seq<Result<string>>)
    ensures fresh(rt) && OnlyOpen(rt.trace, rt.conn) && AllCareful(rt.trace, calls)
    ensures |results| == |calls|
    ensures forall n | 0 <= n < |calls| :: results[n].Err? ==> results[n] == calls[n].answers.first.result
  {
    rt := new H1RoundTripper(canRedial);
    results := [];
    NothingSent();
    for n := 0 to |calls|
      invariant fresh(rt) && rt.Valid() && AllCareful(rt.trace, calls[..n]) && Unsent(rt.trace, n)
      invariant |results| == n
      invariant forall k | 0 <= k < n :: results[k].Err? ==> results[k] == calls[k].answers.first.result
    {
      ghost var t := rt.trace;
      var r := rt.RoundTrip(n, calls[n].verb, calls[n].answers);
      results := results + [r];
      StillCareful(t, rt.trace, calls, n);
    }
    assert calls[..|calls|] == calls;
  }
}
