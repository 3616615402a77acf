/** The outcall broker client (outcall/service.go): a reply cache shared by concurrent
    calls that are coalesced per key and capped in number. Every atomic section of the
    service is one method, and a run is any sequence of them. */
module Outcall {
  import opened GoStrings
  import opened CacheControl

  // ---- Replies ----

  datatype Response = Response(message: string, httpStatus: nat, rest: string)

  datatype Verdict = Allow(resp: Response) | Deny(message: string, status: nat)

  /** Equal up to the status a denial carries: a cached one has the transport's, a fresh
      one the envelope's. */
  predicate Same(a: Verdict, b: Verdict) {
    match a
    case Allow(resp) => b == Allow(resp)
    case Deny(message, _) => b.Deny? && b.message == message
  }

  /** What comes back from the broker: something coherent, or any of the failures on the
      way (encoding, transport, reading, size, content type, syntax). */
  datatype Reply = Broken | Reply(status: nat, body: Response, headers: Headers, etag: string)

  datatype Entry = Entry(resp: Response, denied: bool, status: nat, etag: string,
                         freshUntil: int, swrUntil: int, sieUntil: int, mustRevalidate: bool)
  {
    function Result(): Verdict {
      if denied then Deny(resp.message, status) else Allow(resp)
    }
  }

  type Key = string

  type Id = nat

  /** A completed reply: which flight got it, when, and what it means. A 304 means the
      body and verdict it confirmed. */
  datatype Record = Record(key: Key, flight: Id, resp: Response, denied: bool, status: nat, etag: string,
                           fr: Freshness, at: int)

  ghost function EntryOf(r: Record): Entry {
    Entry(r.resp, r.denied, r.status, r.etag,
          r.at + r.fr.freshFor,
          r.at + r.fr.freshFor + r.fr.staleWhileRevalidate,
          r.at + r.fr.freshFor + r.fr.staleIfError,
          r.fr.mustRevalidate)
  }

  // ---- What the cache should hold ----

  ghost function Latest(log: seq<Record>, key: Key): Option<Record> {
    if log == [] then None
    else if log[|log| - 1].key == key then Some(log[|log| - 1])
    else Latest(log[..|log| - 1], key)
  }

  /** The latest completed reply for the key, if its headers allow keeping it. */
  ghost function Content(log: seq<Record>, key: Key): Option<Entry> {
    match Latest(log, key)
    case None => None
    case Some(r) => if r.fr.cacheable then Some(EntryOf(r)) else None
  }

  ghost function Held(cache: map<Key, Entry>, key: Key): Option<Entry> {
    if key in cache then Some(cache[key]) else None
  }

  ghost predicate CacheOk(cache: map<Key, Entry>, log: seq<Record>) {
    forall key :: Held(cache, key) == Content(log, key)
  }

  lemma LatestNext(log: seq<Record>, r: Record, key: Key)
    ensures Latest(log + [r], key) == if r.key == key then Some(r) else Latest(log, key)
  {
    assert (log + [r])[..|log|] == log;
  }

  ghost function Keep(cache: map<Key, Entry>, r: Record): map<Key, Entry> {
    if r.fr.cacheable then cache[r.key := EntryOf(r)] else cache - {r.key}
  }

  lemma KeepOk(cache: map<Key, Entry>, log: seq<Record>, r: Record)
    requires CacheOk(cache, log)
    ensures CacheOk(Keep(cache, r), log + [r])
  {
    forall key ensures Held(Keep(cache, r), key) == Content(log + [r], key) {
      LatestNext(log, r, key);
      assert Held(cache, key) == Content(log, key);
    }
  }

  // ---- Calls ----

  /** What a flight ends with. */
  datatype Outcome = Verdict(verdict: Verdict) | Failed | OverCapacity

  datatype Window = Fresh | WhileRevalidate | IfError

  /** What Do returns: a cached verdict, or the outcome of a flight. */
  datatype Answer = Hit(window: Window, verdict: Verdict) | Got(outcome: Outcome, leader: Id) | Dropped

  datatype Phase =
    | Calling                                  // about to enter singleflight
    | Leading                                  // its own flight, no slot yet
    | Sending                                  // slot taken, waiting for the broker
    | Stored(raw: Outcome)                     // cache updated, slot still taken
    | Released(raw: Outcome)                   // slot given back, flight not yet over
    | Waiting(leader: Id)                      // joined someone else's flight
    | Returned(raw: Outcome, leader: Id)       // back from singleflight
    | Done(answer: Answer, served: nat)        // over, when the log had that many replies

  /** A goroutine in Do or in a background revalidation: the time and cache entry it
      started from, and how many replies had completed then. */
  datatype Call = Call(key: Key, at: int, seen: nat, prior: Option<Entry>, background: bool, phase: Phase)

  predicate InFlight(p: Phase) {
    p.Leading? || p.Sending? || p.Stored? || p.Released?
  }

  predicate HoldsSlot(p: Phase) {
    p.Sending? || p.Stored?
  }

  ghost predicate InWindow(w: Window, e: Entry, at: int) {
    match w
    case Fresh => at < e.freshUntil
    case WhileRevalidate => !e.mustRevalidate && at < e.swrUntil
    case IfError => at < e.sieUntil
  }

  /** A background revalidation is due: the entry is stale but may be served meanwhile. */
  ghost predicate Background(entry: Option<Entry>, at: int) {
    entry.Some? && !InWindow(Fresh, entry.value, at) && InWindow(WhileRevalidate, entry.value, at)
  }

  /** Where Do goes from the entry it found. */
  ghost function FirstPhase(entry: Option<Entry>, at: int, n: nat): Phase {
    if entry.Some? && InWindow(Fresh, entry.value, at) then Done(Hit(Fresh, entry.value.Result()), n)
    else if Background(entry, at) then Done(Hit(WhileRevalidate, entry.value.Result()), n)
    else Calling
  }

  ghost function FinalAnswer(c: Call): Answer
    requires c.phase.Returned?
  {
    if c.background then Dropped
    else if !c.phase.raw.Verdict? && c.prior.Some? && InWindow(IfError, c.prior.value, c.at)
    then Hit(IfError, c.prior.value.Result())
    else Got(c.phase.raw, c.phase.leader)
  }

  // ---- What every interleaving keeps ----

  /** The call started from the latest reply completed by then. */
  ghost predicate StartOk(c: Call, log: seq<Record>) {
    c.seen <= |log| && c.prior == Content(log[..c.seen], c.key)
  }

  ghost predicate ReportedBy(r: Record, flight: Id, key: Key, verdict: Verdict) {
    r.flight == flight && r.key == key && Same(verdict, EntryOf(r).Result())
  }

  /** A verdict is that of a reply this flight itself completed. */
  ghost predicate Reported(log: seq<Record>, flight: Id, key: Key, raw: Outcome) {
    raw.Verdict? ==> exists r | r in log :: ReportedBy(r, flight, key, raw.verdict)
  }

  ghost predicate AnswerOk(c: Call, answer: Answer, served: nat, log: seq<Record>, outcomes: map<Id, Outcome>) {
    && c.seen <= served <= |log|
    && match answer
       case Hit(w, v) =>
         c.prior.Some? && v == c.prior.value.Result() && InWindow(w, c.prior.value, c.at)
         && (w.IfError? || served == c.seen)
       case Got(raw, l) =>
         l in outcomes && outcomes[l] == raw
         && (raw.Verdict? || c.prior.None? || !InWindow(IfError, c.prior.value, c.at))
       case Dropped => c.background
  }

  ghost predicate PhaseOk(id: Id, c: Call, log: seq<Record>, outcomes: map<Id, Outcome>) {
    match c.phase
    case Stored(raw) => Reported(log, id, c.key, raw)
    case Released(raw) => Reported(log, id, c.key, raw)
    case Returned(raw, l) => l in outcomes && outcomes[l] == raw
    case Done(answer, served) => AnswerOk(c, answer, served, log, outcomes)
    case _ => true
  }

  ghost predicate CallsOk(calls: map<Id, Call>, log: seq<Record>, outcomes: map<Id, Outcome>) {
    forall id {:trigger PhaseOk(id, calls[id], log, outcomes)} {:trigger StartOk(calls[id], log)} | id in calls ::
      StartOk(calls[id], log) && PhaseOk(id, calls[id], log, outcomes)
  }

  /** One flight per key, led by a call that is in it. */
  ghost predicate FlightsOk(calls: map<Id, Call>, flights: map<Key, Id>) {
    && (forall key | key in flights ::
          flights[key] in calls && calls[flights[key]].key == key && InFlight(calls[flights[key]].phase))
    && (forall id {:trigger InFlight(calls[id].phase)} | id in calls && InFlight(calls[id].phase) ::
          calls[id].key in flights && flights[calls[id].key] == id)
  }

  /** Whoever waits, waits for a flight of its key that is under way or over. */
  ghost predicate WaitersOk(calls: map<Id, Call>, flights: map<Key, Id>, outcomes: map<Id, Outcome>) {
    forall id | id in calls && calls[id].phase.Waiting? ::
      var l := calls[id].phase.leader;
      l in outcomes || (calls[id].key in flights && flights[calls[id].key] == l)
  }

  function LeaderOf(p: Phase): Option<Id> {
    match p
    case Waiting(l) => Some(l)
    case Returned(_, l) => Some(l)
    case Done(Got(_, l), _) => Some(l)
    case _ => None
  }

  /** Whoever got its outcome from a flight got it from one of its own key. */
  ghost predicate KeysOk(calls: map<Id, Call>) {
    forall id {:trigger LeaderOf(calls[id].phase)} | id in calls && LeaderOf(calls[id].phase).Some? ::
      LeaderOf(calls[id].phase).value in calls && calls[LeaderOf(calls[id].phase).value].key == calls[id].key
  }

  ghost predicate OutcomesOk(calls: map<Id, Call>, log: seq<Record>, outcomes: map<Id, Outcome>) {
    forall l | l in outcomes ::
      l in calls && (calls[l].phase.Returned? || calls[l].phase.Done?) && Reported(log, l, calls[l].key, outcomes[l])
  }

  function Holding(calls: map<Id, Call>): set<Id> {
    set id | id in calls && HoldsSlot(calls[id].phase)
  }

  // ---- One call moves ----

  lemma HoldingMove(calls: map<Id, Call>, id: Id, c: Call)
    ensures Holding(calls[id := c]) == if HoldsSlot(c.phase) then Holding(calls) + {id} else Holding(calls) - {id}
  {
  }

  predicate HadSlot(calls: map<Id, Call>, id: Id) {
    id in calls && HoldsSlot(calls[id].phase)
  }

  lemma HoldingCount(calls: map<Id, Call>, id: Id, c: Call)
    ensures |Holding(calls[id := c])| + (if HadSlot(calls, id) then 1 else 0)
            == |Holding(calls)| + if HoldsSlot(c.phase) then 1 else 0
  {
    HoldingMove(calls, id, c);
    assert HadSlot(calls, id) <==> id in Holding(calls);
  }

  lemma MoveCalls(calls: map<Id, Call>, id: Id, c: Call, log: seq<Record>, outcomes: map<Id, Outcome>)
    requires CallsOk(calls, log, outcomes) && StartOk(c, log) && PhaseOk(id, c, log, outcomes)
    ensures CallsOk(calls[id := c], log, outcomes)
  {
  }

  lemma MoveOutcomes(calls: map<Id, Call>, id: Id, c: Call, log: seq<Record>, outcomes: map<Id, Outcome>)
    requires OutcomesOk(calls, log, outcomes)
    requires id in outcomes ==> c.key == calls[id].key && (c.phase.Returned? || c.phase.Done?)
    ensures OutcomesOk(calls[id := c], log, outcomes)
  {
  }

  lemma MoveWaiters(calls: map<Id, Call>, id: Id, c: Call, flights: map<Key, Id>, outcomes: map<Id, Outcome>)
    requires WaitersOk(calls, flights, outcomes)
    requires c.phase.Waiting? ==> c.key in flights && flights[c.key] == c.phase.leader
    ensures WaitersOk(calls[id := c], flights, outcomes)
  {
  }

  lemma MoveKeys(calls: map<Id, Call>, id: Id, c: Call)
    requires KeysOk(calls) && (id in calls ==> c.key == calls[id].key)
    requires var l := LeaderOf(c.phase); l.Some? ==> l.value in calls && calls[l.value].key == c.key
    ensures KeysOk(calls[id := c])
  {
  }

  lemma MoveFlights(calls: map<Id, Call>, id: Id, c: Call, flights: map<Key, Id>)
    requires FlightsOk(calls, flights)
    requires if id in calls then c.key == calls[id].key && InFlight(c.phase) == InFlight(calls[id].phase)
             else !InFlight(c.phase)
    ensures FlightsOk(calls[id := c], flights)
  {
  }

  lemma NewFlight(calls: map<Id, Call>, id: Id, c: Call, flights: map<Key, Id>)
    requires FlightsOk(calls, flights) && c.key !in flights && InFlight(c.phase)
    requires id in calls && !InFlight(calls[id].phase)
    ensures FlightsOk(calls[id := c], flights[c.key := id])
  {
  }

  lemma NewFlightWaiters(calls: map<Id, Call>, id: Id, c: Call, flights: map<Key, Id>, outcomes: map<Id, Outcome>)
    requires WaitersOk(calls, flights, outcomes) && c.key !in flights && !c.phase.Waiting?
    ensures WaitersOk(calls[id := c], flights[c.key := id], outcomes)
  {
  }

  lemma ReportedLater(log: seq<Record>, r: Record, flight: Id, key: Key, raw: Outcome)
    requires Reported(log, flight, key, raw)
    ensures Reported(log + [r], flight, key, raw)
  {
    if raw.Verdict? {
      var x :| x in log && ReportedBy(x, flight, key, raw.verdict);
      assert x in log + [r];
    }
  }

  lemma StartLater(c: Call, log: seq<Record>, r: Record)
    requires StartOk(c, log)
    ensures StartOk(c, log + [r])
  {
    assert (log + [r])[..c.seen] == log[..c.seen];
  }

  lemma PhaseLater(id: Id, c: Call, log: seq<Record>, r: Record, outcomes: map<Id, Outcome>)
    requires PhaseOk(id, c, log, outcomes)
    ensures PhaseOk(id, c, log + [r], outcomes)
  {
    if c.phase.Stored? || c.phase.Released? {
      ReportedLater(log, r, id, c.key, c.phase.raw);
    }
  }

  lemma CallsLater(calls: map<Id, Call>, log: seq<Record>, r: Record, outcomes: map<Id, Outcome>)
    requires CallsOk(calls, log, outcomes)
    ensures CallsOk(calls, log + [r], outcomes)
  {
    forall id | id in calls
      ensures StartOk(calls[id], log + [r]) && PhaseOk(id, calls[id], log + [r], outcomes)
    {
      StartLater(calls[id], log, r);
      PhaseLater(id, calls[id], log, r, outcomes);
    }
  }

  lemma OutcomesLater(calls: map<Id, Call>, log: seq<Record>, r: Record, outcomes: map<Id, Outcome>)
    requires OutcomesOk(calls, log, outcomes)
    ensures OutcomesOk(calls, log + [r], outcomes)
  {
    forall l | l in outcomes ensures Reported(log + [r], l, calls[l].key, outcomes[l]) {
      ReportedLater(log, r, l, calls[l].key, outcomes[l]);
    }
  }

  /** What a coherent reply means to the call c that received it at now. */
  ghost function RecordOf(c: Call, id: Id, reply: Reply, now: int): Record
    requires reply.Reply?
  {
    RecordWith(c, id, reply, FreshnessOf(reply.headers, now), now)
  }

  ghost function RecordWith(c: Call, id: Id, reply: Reply, fr: Freshness, now: int): Record
    requires reply.Reply?
  {
    if reply.status == 304 && c.prior.Some? then
      var prior := c.prior.value;
      Record(c.key, id, prior.resp, prior.denied, prior.status,
             if reply.etag != "" then reply.etag else prior.etag, fr, now)
    else
      Record(c.key, id, reply.body, !(200 <= reply.status < 300), reply.status, reply.etag, fr, now)
  }

  /** What the caller that received it is told. */
  ghost function VerdictOf(c: Call, reply: Reply): Verdict
    requires reply.Reply?
  {
    if reply.status == 304 && c.prior.Some? then c.prior.value.Result()
    else if 200 <= reply.status < 300 then Allow(reply.body)
    else Deny(reply.body.message, reply.body.httpStatus)
  }

  // ---- A flight ends ----

  function Landed(calls: map<Id, Call>, id: Id): map<Id, Call>
    requires id in calls && calls[id].phase.Released?
  {
    calls[id := calls[id].(phase := Returned(calls[id].phase.raw, id))]
  }

  lemma FinishCalls(calls: map<Id, Call>, id: Id, log: seq<Record>, outcomes: map<Id, Outcome>)
    requires CallsOk(calls, log, outcomes) && OutcomesOk(calls, log, outcomes)
    requires id in calls && calls[id].phase.Released?
    ensures CallsOk(Landed(calls, id), log, outcomes[id := calls[id].phase.raw])
  {
    var calls', outcomes' := Landed(calls, id), outcomes[id := calls[id].phase.raw];
    forall x | x in calls' ensures StartOk(calls'[x], log) && PhaseOk(x, calls'[x], log, outcomes') {
      assert StartOk(calls[x], log) && PhaseOk(x, calls[x], log, outcomes);
      MoreOutcomes(x, calls[x], log, outcomes, id, calls[id].phase.raw);
    }
  }

  lemma MoreOutcomes(x: Id, c: Call, log: seq<Record>, outcomes: map<Id, Outcome>, id: Id, raw: Outcome)
    requires PhaseOk(x, c, log, outcomes) && id !in outcomes
    ensures PhaseOk(x, c, log, outcomes[id := raw])
  {
  }

  lemma FinishOutcomes(calls: map<Id, Call>, id: Id, log: seq<Record>, outcomes: map<Id, Outcome>)
    requires CallsOk(calls, log, outcomes) && OutcomesOk(calls, log, outcomes)
    requires id in calls && calls[id].phase.Released?
    ensures id !in outcomes && OutcomesOk(Landed(calls, id), log, outcomes[id := calls[id].phase.raw])
  {
    assert PhaseOk(id, calls[id], log, outcomes);
  }

  lemma EndFlight(calls: map<Id, Call>, id: Id, flights: map<Key, Id>)
    requires FlightsOk(calls, flights) && id in calls && calls[id].phase.Released?
    ensures FlightsOk(Landed(calls, id), flights - {calls[id].key})
  {
    assert InFlight(calls[id].phase);
    var calls' := Landed(calls, id);
    forall x | x in calls' && InFlight(calls'[x].phase) ensures x != id && calls[x].key != calls[id].key {
      assert InFlight(calls[x].phase);
    }
  }

  lemma EndWaiters(calls: map<Id, Call>, id: Id, flights: map<Key, Id>, outcomes: map<Id, Outcome>)
    requires FlightsOk(calls, flights) && WaitersOk(calls, flights, outcomes)
    requires id in calls && calls[id].phase.Released?
    ensures WaitersOk(Landed(calls, id), flights - {calls[id].key}, outcomes[id := calls[id].phase.raw])
  {
    assert InFlight(calls[id].phase);
  }

  // ---- The service as a transition system ----

  /** Everything the service holds, and every reply completed so far. */
  datatype State = State(now: int, cache: map<Key, Entry>, slots: int, flights: map<Key, Id>,
                         outcomes: map<Id, Outcome>, calls: map<Id, Call>, log: seq<Record>)

  const IDLE := State(0, map[], 0, map[], map[], map[], [])

  /** Time passes, a call starts, or a goroutine does its next atomic section (with this
      reply, if the broker is what it waits for). */
  datatype Event = Pass(d: nat) | Start(id: Id, key: Key, delay: nat, spare: Id) | Step(id: Id, reply: Reply)

  ghost function Moved(s: State, id: Id, p: Phase): State
    requires id in s.calls
  {
    s.(calls := s.calls[id := s.calls[id].(phase := p)])
  }

  ghost function Begun(s: State, id: Id, key: Key, at: int, spare: Id): State {
    var entry := Held(s.cache, key);
    var c := Call(key, at, |s.log|, entry, false, FirstPhase(entry, at, |s.log|));
    var calls := s.calls[id := c];
    s.(calls := if Background(entry, at) then calls[spare := c.(background := true, phase := Calling)] else calls)
  }

  ghost function Entered(s: State, id: Id): State
    requires id in s.calls
  {
    var key := s.calls[id].key;
    if key in s.flights then Moved(s, id, Waiting(s.flights[key]))
    else Moved(s.(flights := s.flights[key := id]), id, Leading)
  }

  ghost function Acquired(s: State, id: Id, max: nat): State
    requires id in s.calls
  {
    if s.slots < max then Moved(s.(slots := s.slots + 1), id, Sending) else Moved(s, id, Released(OverCapacity))
  }

  ghost function Received(s: State, id: Id, reply: Reply): State
    requires id in s.calls
  {
    if reply.Broken? then Moved(s, id, Stored(Failed))
    else
      var r := RecordOf(s.calls[id], id, reply, s.now);
      Moved(s.(cache := Keep(s.cache, r), log := s.log + [r]), id, Stored(Verdict(VerdictOf(s.calls[id], reply))))
  }

  ghost function Finished(s: State, id: Id, raw: Outcome): State
    requires id in s.calls
  {
    Moved(s.(flights := s.flights - {s.calls[id].key}, outcomes := s.outcomes[id := raw]), id, Returned(raw, id))
  }

  /** The next atomic section of the call. */
  ghost function Stepped(s: State, id: Id, reply: Reply, max: nat): State
    requires id in s.calls
  {
    match s.calls[id].phase
    case Calling => Entered(s, id)
    case Leading => Acquired(s, id, max)
    case Sending => Received(s, id, reply)
    case Stored(raw) => Moved(s.(slots := s.slots - 1), id, Released(raw))
    case Released(raw) => Finished(s, id, raw)
    case Waiting(l) => if l in s.outcomes then Moved(s, id, Returned(s.outcomes[l], l)) else s
    case Returned(_, _) => Moved(s, id, Done(FinalAnswer(s.calls[id]), |s.log|))
    case Done(_, _) => s
  }

  ghost function After(s: State, e: Event, max: nat): State {
    match e
    case Pass(d) => s.(now := s.now + d)
    case Start(id, key, delay, spare) =>
      if id in s.calls || spare in s.calls || id == spare then s else Begun(s, id, key, s.now - delay, spare)
    case Step(id, reply) => if id in s.calls then Stepped(s, id, reply, max) else s
  }

  /** Where a run leads. */
  ghost function Reached(s: State, events: seq<Event>, max: nat): State {
    if events == [] then s
    else After(Reached(s, events[..|events| - 1], max), events[|events| - 1], max)
  }

  // ---- What a step means ----

  ghost function Told(r: Record): Verdict {
    if r.denied then Deny(r.resp.message, r.status) else Allow(r.resp)
  }

  /** Do answers at once from a reply that is fresh, and from a stale one while a background
      call asks again, if the reply allows that; otherwise it turns to the broker. */
  lemma BeginMeans(s: State, id: Id, key: Key, at: int, spare: Id)
    requires CacheOk(s.cache, s.log) && id != spare && spare !in s.calls
    ensures var s', latest := Begun(s, id, key, at, spare), Latest(s.log, key);
            && id in s'.calls && s'.calls[id].key == key && !s'.calls[id].background
            && match latest
               case None => s'.calls[id].phase == Calling && spare !in s'.calls
               case Some(r) =>
                 var until := r.at + r.fr.freshFor;
                 if r.fr.cacheable && at < until then
                   s'.calls[id].phase == Done(Hit(Fresh, Told(r)), |s.log|) && spare !in s'.calls
                 else if r.fr.cacheable && !r.fr.mustRevalidate && at < until + r.fr.staleWhileRevalidate then
                   && s'.calls[id].phase == Done(Hit(WhileRevalidate, Told(r)), |s.log|)
                   && spare in s'.calls && s'.calls[spare].key == key && s'.calls[spare].background
                   && s'.calls[spare].phase == Calling
                 else s'.calls[id].phase == Calling && spare !in s'.calls
  {
    assert Held(s.cache, key) == Content(s.log, key);
  }

  /** And by the entry itself. */
  lemma BeginByEntry(s: State, id: Id, key: Key, at: int, spare: Id)
    requires id != spare && spare !in s.calls && key in s.cache
    ensures var s', e := Begun(s, id, key, at, spare), s.cache[key];
            if at < e.freshUntil then s'.calls[id].phase == Done(Hit(Fresh, e.Result()), |s.log|)
            else if at < e.swrUntil && !e.mustRevalidate then
              && s'.calls[id].phase == Done(Hit(WhileRevalidate, e.Result()), |s.log|)
              && spare in s'.calls && s'.calls[spare].key == key && s'.calls[spare].background
            else s'.calls[id].phase == Calling
  {
  }

  /** A failure, and only a failure, is covered by the entry the call started from while its
      error window lasts; a background call tells nobody. */
  lemma ConcludeMeans(s: State, id: Id, reply: Reply, max: nat)
    requires id in s.calls && s.calls[id].phase.Returned?
    ensures var c, p := s.calls[id], After(s, Step(id, reply), max).calls[id].phase;
            && p.Done? && p.served == |s.log|
            && (c.background <==> p.answer == Dropped)
            && (c.phase.raw.Verdict? && !c.background ==> p.answer == Got(c.phase.raw, c.phase.leader))
            && (!c.phase.raw.Verdict? && !c.background ==>
                  p.answer == if c.prior.Some? && c.at < c.prior.value.sieUntil
                              then Hit(IfError, c.prior.value.Result()) else Got(c.phase.raw, c.phase.leader))
  {
  }

  /** A reply is kept under the call's key exactly if its headers allow it, from the moment
      it was read; nothing else in the cache changes. */
  lemma ReceiveMeans(s: State, id: Id, reply: Reply, max: nat)
    requires id in s.calls && s.calls[id].phase.Sending? && reply.Reply?
    ensures var c, s', fr := s.calls[id], After(s, Step(id, reply), max), FreshnessOf(reply.headers, s.now);
            && (c.key in s'.cache <==> fr.cacheable)
            && (fr.cacheable ==>
                  var e := s'.cache[c.key];
                  && e.freshUntil == s.now + fr.freshFor && e.mustRevalidate == fr.mustRevalidate
                  && e.swrUntil == e.freshUntil + fr.staleWhileRevalidate
                  && e.sieUntil == e.freshUntil + fr.staleIfError)
            && s'.cache - {c.key} == s.cache - {c.key}
  {
  }

  /** A 304 to a call that had an entry confirms its body and verdict; any other 2xx reply
      allows with its own body, and any other reply denies. */
  lemma ReplyMeans(s: State, id: Id, reply: Reply, max: nat)
    requires id in s.calls && s.calls[id].phase.Sending? && reply.Reply?
    ensures var c, s' := s.calls[id], After(s, Step(id, reply), max);
            var told, kept := s'.calls[id].phase, s'.log[|s'.log| - 1];
            && s'.log == s.log + [kept] && kept.key == c.key && kept.flight == id && kept.at == s.now
            && if c.prior.Some? && reply.status == 304 then
                 && told == Stored(Verdict(c.prior.value.Result()))
                 && kept.resp == c.prior.value.resp && kept.denied == c.prior.value.denied
                 && kept.status == c.prior.value.status
                 && kept.etag == (if reply.etag == "" then c.prior.value.etag else reply.etag)
               else
                 && kept.resp == reply.body && kept.status == reply.status && kept.etag == reply.etag
                 && if 200 <= reply.status <= 299 then told == Stored(Verdict(Allow(reply.body))) && !kept.denied
                    else kept.denied && told == Stored(Verdict(Deny(reply.body.message, reply.body.httpStatus)))
  {
  }

  /** A failure on the way leaves the cache and the log alone. */
  lemma FailureMeans(s: State, id: Id, max: nat)
    requires id in s.calls && s.calls[id].phase.Sending?
    ensures var s' := After(s, Step(id, Broken), max);
            s'.cache == s.cache && s'.log == s.log && s'.calls[id].phase == Stored(Failed)
  {
  }

  class Service {
    const maxInflight: nat
    var now: int
    var cache: map<Key, Entry>
    var slots: nat
    var flights: map<Key, Id>
    var outcomes: map<Id, Outcome>
    var calls: map<Id, Call>
    /** How many replies have completed so far, and which. */
    var completed: nat
    ghost var log: seq<Record>

    ghost function Snapshot(): State
      reads this
    {
      State(now, cache, slots, flights, outcomes, calls, log)
    }

    ghost predicate SlotsOk()
      reads `slots, `calls
    {
      slots == |Holding(calls)| && slots <= maxInflight
    }

    ghost predicate Valid()
      reads this
    {
      && CacheOk(cache, log)
      && CallsOk(calls, log, outcomes)
      && FlightsOk(calls, flights)
      && WaitersOk(calls, flights, outcomes)
      && OutcomesOk(calls, log, outcomes)
      && KeysOk(calls)
      && SlotsOk()
      && completed == |log|
    }

    constructor (maxInflight: nat)
      ensures Valid() && this.maxInflight == maxInflight && Snapshot() == IDLE
    {
      this.maxInflight, now, cache, slots, completed := maxInflight, 0, map[], 0, 0;
      flights, outcomes, calls, log := map[], map[], map[], [];
    }

    /** Time passes. */
    method Tick(d: nat)
      requires Valid()
      modifies `now
      ensures Valid() && Snapshot() == After(old(Snapshot()), Pass(d), maxInflight)
    {
      now := now + d;
    }

    /** The parts of Valid that flights and slots have no part in, after call id is c. */
    lemma Settle(id: Id, c: Call)
      requires Valid() && StartOk(c, log) && PhaseOk(id, c, log, outcomes)
      requires id in outcomes ==> c.key == calls[id].key && (c.phase.Returned? || c.phase.Done?)
      ensures CallsOk(calls[id := c], log, outcomes) && OutcomesOk(calls[id := c], log, outcomes)
    {
      MoveCalls(calls, id, c, log, outcomes);
      MoveOutcomes(calls, id, c, log, outcomes);
    }

    lemma Look(id: Id)
      requires Valid() && id in calls
      ensures StartOk(calls[id], log) && PhaseOk(id, calls[id], log, outcomes)
      ensures var l := LeaderOf(calls[id].phase); l.Some? ==> l.value in calls && calls[l.value].key == calls[id].key
      ensures InFlight(calls[id].phase) ==> calls[id].key in flights && flights[calls[id].key] == id
      ensures id in outcomes ==> calls[id].phase.Returned? || calls[id].phase.Done?
    {
      assert StartOk(calls[id], log);
    }

    /** A call starts or moves, within its flight if it is in one; the semaphore follows. */
    method Move(id: Id, c: Call)
      requires Valid() && StartOk(c, log) && PhaseOk(id, c, log, outcomes)
      requires if id in calls
               then c.key == calls[id].key && InFlight(c.phase) == InFlight(calls[id].phase)
               else !InFlight(c.phase)
      requires id in outcomes ==> c.phase.Returned? || c.phase.Done?
      requires var l := LeaderOf(c.phase); l.Some? ==> l.value in calls && calls[l.value].key == c.key
      requires c.phase.Waiting? ==> c.key in flights && flights[c.key] == c.phase.leader
      requires HoldsSlot(c.phase) && !HadSlot(calls, id) ==> slots < maxInflight
      modifies `calls, `slots
      ensures Valid() && calls == old(calls)[id := c]
      ensures slots + (if old(HadSlot(calls, id)) then 1 else 0) == old(slots) + if HoldsSlot(c.phase) then 1 else 0
    {
      Settle(id, c);
      MoveFlights(calls, id, c, flights);
      MoveWaiters(calls, id, c, flights, outcomes);
      MoveKeys(calls, id, c);
      HoldingCount(calls, id, c);
      if HoldsSlot(c.phase) && !HadSlot(calls, id) {
        slots := slots + 1;
      } else if !HoldsSlot(c.phase) && HadSlot(calls, id) {
        slots := slots - 1;
      }
      calls := calls[id := c];
    }

    /** Do, up to the point where it answers from the cache or turns to the broker. The
        time was read earlier; spare is the goroutine a background revalidation runs in. */
    method Begin(id: Id, key: Key, at: int, spare: Id)
      requires Valid() && id !in calls && spare !in calls && id != spare && at <= now
      modifies `calls, `slots
      ensures Valid() && Snapshot() == Begun(old(Snapshot()), id, key, at, spare)
    {
      var entry: Option<Entry>, phase, revalidate := None, Calling, false;
      if key in cache {
        var e := cache[key];
        entry := Some(e);
        if at < e.freshUntil {
          phase := Done(Hit(Fresh, e.Result()), completed);
        } else if !e.mustRevalidate && at < e.swrUntil {
          phase := Done(Hit(WhileRevalidate, e.Result()), completed);
          revalidate := true;
        }
      }
      assert log[..|log|] == log && Held(cache, key) == Content(log, key);
      Move(id, Call(key, at, completed, entry, false, phase));
      if revalidate {
        Move(spare, Call(key, at, completed, entry, true, Calling));
      }
    }

    /** singleflight's entry: join the flight of the key or start one. */
    method Enter(id: Id)
      requires Valid() && id in calls && calls[id].phase.Calling?
      modifies `flights, `calls, `slots
      ensures Valid() && Snapshot() == Entered(old(Snapshot()), id)
    {
      Look(id);
      var c := calls[id];
      if c.key in flights {
        Move(id, c.(phase := Waiting(flights[c.key])));
      } else {
        Lead(id);
      }
    }

    method Lead(id: Id)
      requires Valid() && id in calls && calls[id].phase.Calling? && calls[id].key !in flights
      modifies `flights, `calls
      ensures Valid() && calls == old(calls[id := calls[id].(phase := Leading)])
      ensures flights == old(flights[calls[id].key := id])
    {
      Look(id);
      var c := calls[id].(phase := Leading);
      Settle(id, c);
      NewFlight(calls, id, c, flights);
      NewFlightWaiters(calls, id, c, flights, outcomes);
      MoveKeys(calls, id, c);
      HoldingCount(calls, id, c);
      flights := flights[c.key := id];
      calls := calls[id := c];
    }

    /** The semaphore: a slot if there is one, otherwise the flight fails at once. */
    method Acquire(id: Id)
      requires Valid() && id in calls && calls[id].phase.Leading?
      modifies `slots, `calls
      ensures Valid() && Snapshot() == Acquired(old(Snapshot()), id, maxInflight)
    {
      Look(id);
      Move(id, calls[id].(phase := if slots < maxInflight then Sending else Released(OverCapacity)));
    }

    /** store and refresh: the cache takes a reply in. */
    method StoreReply(r: Record)
      requires Valid()
      modifies `cache, `log, `completed
      ensures Valid() && log == old(log) + [r] && cache == Keep(old(cache), r)
    {
      KeepOk(cache, log, r);
      CallsLater(calls, log, r, outcomes);
      OutcomesLater(calls, log, r, outcomes);
      if r.fr.cacheable {
        var until := r.at + r.fr.freshFor;
        cache := cache[r.key := Entry(r.resp, r.denied, r.status, r.etag, until, until + r.fr.staleWhileRevalidate,
                                      until + r.fr.staleIfError, r.fr.mustRevalidate)];
      } else {
        cache := cache - {r.key};
      }
      completed := completed + 1;
      log := log + [r];
    }

    /** A reply has been read to its end. */
    method Complete(id: Id, r: Record, verdict: Verdict)
      requires Valid() && id in calls && calls[id].phase.Sending?
      requires ReportedBy(r, id, calls[id].key, verdict)
      modifies `cache, `log, `completed, `calls, `slots
      ensures Valid() && log == old(log) + [r] && cache == Keep(old(cache), r) && slots == old(slots)
      ensures calls == old(calls[id := calls[id].(phase := Stored(Verdict(verdict)))])
    {
      StoreReply(r);
      Look(id);
      assert r in log;
      Move(id, calls[id].(phase := Stored(Verdict(verdict))));
    }

    /** doHTTP after the request is sent: a failure leaves the cache alone, a 304 to a
        call that had an entry renews that entry, anything else replaces it. */
    method Receive(id: Id, reply: Reply)
      requires Valid() && id in calls && calls[id].phase.Sending?
      modifies `cache, `log, `completed, `calls, `slots
      ensures Valid() && Snapshot() == Received(old(Snapshot()), id, reply)
    {
      Look(id);
      var c := calls[id];
      if reply.Broken? {
        Move(id, c.(phase := Stored(Failed)));
        return;
      }
      var fr := ParseFreshness(reply.headers, now);
      if reply.status == 304 && c.prior.Some? {
        Refresh(id, reply, fr);
      } else {
        Store(id, reply, fr);
      }
    }

    /** refresh: the entry the call had, under the new headers. */
    method Refresh(id: Id, reply: Reply, fr: Freshness)
      requires Valid() && id in calls && calls[id].phase.Sending?
      requires reply.Reply? && reply.status == 304 && calls[id].prior.Some?
      modifies `cache, `log, `completed, `calls, `slots
      ensures Valid() && slots == old(slots)
      ensures log == old(log + [RecordWith(calls[id], id, reply, fr, now)])
      ensures cache == old(Keep(cache, RecordWith(calls[id], id, reply, fr, now)))
      ensures calls == old(calls[id := calls[id].(phase := Stored(Verdict(VerdictOf(calls[id], reply))))])
    {
      var c, prior := calls[id], calls[id].prior.value;
      var etag := if reply.etag != "" then reply.etag else prior.etag;
      Complete(id, Record(c.key, id, prior.resp, prior.denied, prior.status, etag, fr, now), prior.Result());
    }

    /** store: the reply itself. */
    method Store(id: Id, reply: Reply, fr: Freshness)
      requires Valid() && id in calls && calls[id].phase.Sending?
      requires reply.Reply? && (reply.status == 304 ==> calls[id].prior.None?)
      modifies `cache, `log, `completed, `calls, `slots
      ensures Valid() && slots == old(slots)
      ensures log == old(log + [RecordWith(calls[id], id, reply, fr, now)])
      ensures cache == old(Keep(cache, RecordWith(calls[id], id, reply, fr, now)))
      ensures calls == old(calls[id := calls[id].(phase := Stored(Verdict(VerdictOf(calls[id], reply))))])
    {
      var c := calls[id];
      var denied := reply.status < 200 || reply.status >= 300;
      Complete(id, Record(c.key, id, reply.body, denied, reply.status, reply.etag, fr, now),
               if denied then Deny(reply.body.message, reply.body.httpStatus) else Allow(reply.body));
    }

    /** The deferred release, whatever doHTTP ended with. */
    method Release(id: Id)
      requires Valid() && id in calls && calls[id].phase.Stored?
      modifies `slots, `calls
      ensures Valid()
      ensures Snapshot() == old(Moved(Snapshot().(slots := slots - 1), id, Released(calls[id].phase.raw)))
    {
      Look(id);
      Move(id, calls[id].(phase := Released(calls[id].phase.raw)));
    }

    /** singleflight's exit: the key is free again and everyone who joined has the outcome. */
    method Finish(id: Id)
      requires Valid() && id in calls && calls[id].phase.Released?
      modifies `flights, `outcomes, `calls
      ensures Valid() && id !in old(outcomes)
      ensures Snapshot() == old(Finished(Snapshot(), id, calls[id].phase.raw))
    {
      FinishCalls(calls, id, log, outcomes);
      FinishOutcomes(calls, id, log, outcomes);
      EndFlight(calls, id, flights);
      EndWaiters(calls, id, flights, outcomes);
      MoveKeys(calls, id, Landed(calls, id)[id]);
      HoldingCount(calls, id, Landed(calls, id)[id]);
      flights := flights - {calls[id].key};
      outcomes := outcomes[id := calls[id].phase.raw];
      calls := Landed(calls, id);
    }

    /** A caller that joined gets the flight's outcome. */
    method Wake(id: Id)
      requires Valid() && id in calls && calls[id].phase.Waiting? && calls[id].phase.leader in outcomes
      modifies `calls, `slots
      ensures Valid()
      ensures Snapshot() == old(var l := calls[id].phase.leader; Moved(Snapshot(), id, Returned(outcomes[l], l)))
    {
      Look(id);
      var l := calls[id].phase.leader;
      Move(id, calls[id].(phase := Returned(outcomes[l], l)));
    }

    /** The rest of Do: a failure that is no refusal may be covered by the entry the call
        started from. */
    method Conclude(id: Id)
      requires Valid() && id in calls && calls[id].phase.Returned?
      modifies `calls, `slots
      ensures Valid() && Snapshot() == old(Moved(Snapshot(), id, Done(FinalAnswer(calls[id]), |log|)))
    {
      Look(id);
      var c := calls[id];
      var answer := Got(c.phase.raw, c.phase.leader);
      if c.background {
        answer := Dropped;
      } else if !c.phase.raw.Verdict? && c.prior.Some? && c.at < c.prior.value.sieUntil {
        answer := Hit(IfError, c.prior.value.Result());
      }
      Move(id, c.(phase := Done(answer, completed)));
    }

    // ---- What callers can rely on, at every point of every run ----

    /** Never more broker calls than the cap, never two for one key; and when none is
        under way every slot is free again. */
    lemma InflightBounds(a: Id, b: Id)
      requires Valid()
      ensures |Holding(calls)| == slots <= maxInflight
      ensures a in Holding(calls) && b in Holding(calls) && calls[a].key == calls[b].key ==> a == b
      ensures (forall id | id in calls :: calls[id].phase.Done?) ==> slots == 0
    {
      if a in Holding(calls) { Look(a); }
      if b in Holding(calls) { Look(b); }
      if forall id | id in calls :: calls[id].phase.Done? {
        assert Holding(calls) == {};
      }
    }

    /** Callers that joined one flight get one outcome: a verdict the broker gave that very
        flight for their key, or the flight's failure. */
    lemma JoinedAlike(a: Id, b: Id)
      requires Valid() && a in calls && b in calls
      requires calls[a].phase.Returned? && calls[b].phase.Returned?
      requires calls[a].phase.leader == calls[b].phase.leader
      ensures calls[a].phase.raw == calls[b].phase.raw && calls[a].key == calls[b].key
      ensures Reported(log, calls[a].phase.leader, calls[a].key, calls[a].phase.raw)
    {
      Look(a);
      Look(b);
      assert calls[a].phase.leader in outcomes;
    }

    /** A caller that was answered by a flight was told what the broker replied to it. */
    lemma AnsweredByFlight(id: Id)
      requires Valid() && id in calls && calls[id].phase.Done? && calls[id].phase.answer.Got?
      ensures Reported(log, calls[id].phase.answer.leader, calls[id].key, calls[id].phase.answer.outcome)
    {
      Look(id);
      assert calls[id].phase.answer.leader in outcomes;
    }

    /** An answer from the cache is the latest reply completed when the call started, still
        in its window; an answer that needed no broker is the latest there is. */
    lemma AnsweredFromCache(id: Id)
      requires Valid() && id in calls && calls[id].phase.Done? && calls[id].phase.answer.Hit?
      ensures var c := calls[id];
              c.seen <= c.phase.served <= |log| && Latest(log[..c.seen], c.key).Some?
      ensures var c := calls[id];
              var r := Latest(log[..c.seen], c.key).value;
              r.fr.cacheable && c.phase.answer.verdict == EntryOf(r).Result()
              && match c.phase.answer.window
                 case Fresh => c.at < r.at + r.fr.freshFor
                 case WhileRevalidate => !r.fr.mustRevalidate && c.at < r.at + r.fr.freshFor + r.fr.staleWhileRevalidate
                 case IfError => c.at < r.at + r.fr.freshFor + r.fr.staleIfError
      ensures !calls[id].phase.answer.window.IfError? ==> calls[id].phase.served == calls[id].seen
    {
      Look(id);
    }
  }

  // ---- Every run ----

  method Next(svc: Service, e: Event)
    requires svc.Valid()
    modifies svc
    ensures svc.Valid() && svc.Snapshot() == After(old(svc.Snapshot()), e, svc.maxInflight)
  {
    match e
    case Pass(d) => svc.Tick(d);
    case Start(id, key, delay, spare) =>
      if id !in svc.calls && spare !in svc.calls && id != spare {
        svc.Begin(id, key, svc.now - delay, spare);
      }
    case Step(id, reply) =>
      if id in svc.calls {
        match svc.calls[id].phase
        case Calling => svc.Enter(id);
        case Leading => svc.Acquire(id);
        case Sending => svc.Receive(id, reply);
        case Stored(_) => svc.Release(id);
        case Released(_) => svc.Finish(id);
        case Waiting(l) => if l in svc.outcomes { svc.Wake(id); }
        case Returned(_, _) => svc.Conclude(id);
        case Done(_, _) =>
      }
  }

  method Continue(svc: Service, events: seq<Event>)
    requires svc.Valid()
    modifies svc
    ensures svc.Valid() && svc.Snapshot() == Reached(old(svc.Snapshot()), events, svc.maxInflight)
  {
    for n := 0 to |events|
      invariant svc.Valid() && svc.Snapshot() == Reached(old(svc.Snapshot()), events[..n], svc.maxInflight)
    {
      Next(svc, events[n]);
      assert events[..n + 1][..n] == events[..n];
    }
    assert events[..|events|] == events;
  }

  /** Every interleaving of calls, replies and delays keeps the service valid. */
  method Run(maxInflight: nat, events: seq<Event>) returns (svc: Service)
    ensures fresh(svc) && svc.Valid() && svc.maxInflight == maxInflight
    ensures svc.Snapshot() == Reached(IDLE, events, maxInflight)
  {
    svc := new Service(maxInflight);
    Continue(svc, events);
  }
}
