/** When an answer of the outcall client is out of date (outcall/service.go): the exact
    conditions, and runs of the service in which they fail. */
module StaleAnswers {
  import opened GoStrings
  import opened CacheControl
  import opened Outcall

  // ---- The latest reply ----

  /** Reply n is the last for the key among the first m. */
  ghost predicate LastFor(log: seq<Record>, key: Key, n: nat, m: nat)
    requires m <= |log|
  {
    n < m && log[n].key == key && forall i | n < i < m :: log[i].key != key
  }

  lemma {:induction false} LatestIsLast(log: seq<Record>, key: Key, m: nat)
    requires m <= |log|
    ensures match Latest(log[..m], key)
            case None => forall n: nat :: !LastFor(log, key, n, m)
            case Some(r) => exists n: nat :: LastFor(log, key, n, m) && log[n] == r
  {
    if m > 0 {
      assert log[..m][..m - 1] == log[..m - 1];
      if log[m - 1].key == key {
        assert LastFor(log, key, m - 1, m);
      } else {
        LatestIsLast(log, key, m - 1);
        forall n: nat ensures LastFor(log, key, n, m) <==> LastFor(log, key, n, m - 1) {}
      }
    }
  }

  lemma LastOrLater(log: seq<Record>, key: Key, a: nat, m: nat, b: nat, k: nat)
    requires m <= k <= |log| && LastFor(log, key, a, m) && LastFor(log, key, b, k)
    ensures m <= b || a == b
  {
  }

  lemma LastUnique(log: seq<Record>, key: Key, a: nat, b: nat, m: nat)
    requires m <= |log| && LastFor(log, key, a, m) && LastFor(log, key, b, m)
    ensures a == b
  {
  }

  lemma {:induction false} LastExists(log: seq<Record>, key: Key, n: nat, m: nat, k: nat)
    requires m <= k <= |log| && LastFor(log, key, n, m)
    ensures Latest(log[..k], key).Some?
    decreases k
  {
    if m < k {
      LastExists(log, key, n, m, k - 1);
      assert log[..k][..k - 1] == log[..k - 1];
    } else {
      LatestIsLast(log, key, m);
    }
  }

  // ---- Verdicts served from the cache ----

  /** Reply n completed for the key after the first seen, and may not be kept. */
  ghost predicate PassedBy(log: seq<Record>, key: Key, seen: nat, n: nat) {
    seen <= n && LastFor(log, key, n, |log|) && !log[n].fr.cacheable
  }

  lemma LatestIsHeld(cache: map<Key, Entry>, log: seq<Record>, c: Call)
    requires CacheOk(cache, log) && StartOk(c, log) && c.prior.Some?
    ensures Latest(log, c.key).Some?
    ensures c.key in cache <==> Latest(log, c.key).value.fr.cacheable
    ensures c.key in cache ==> cache[c.key] == EntryOf(Latest(log, c.key).value)
    ensures c.key !in cache ==> exists n: nat :: PassedBy(log, c.key, c.seen, n)
  {
    var key := c.key;
    assert Held(cache, key) == Content(log, key);
    assert log[..|log|] == log;
    LatestIsLast(log, key, c.seen);
    var a: nat :| LastFor(log, key, a, c.seen) && log[a] == Latest(log[..c.seen], key).value;
    LastExists(log, key, a, c.seen, |log|);
    LatestIsLast(log, key, |log|);
    if key !in cache {
      var b: nat :| LastFor(log, key, b, |log|) && log[b] == Latest(log, key).value;
      LastOrLater(log, key, a, c.seen, b, |log|);
      assert PassedBy(log, key, c.seen, b);
    }
  }

  /** What stale-if-error is about to serve is the verdict of the latest reply exactly if the
      entry now cached for the key gives the same one. If none is cached any more, a later
      reply that may not be kept has been passed over. */
  lemma CoveredByLatest(svc: Service, id: Id)
    requires svc.Valid() && id in svc.calls && svc.calls[id].phase.Returned? && FinalAnswer(svc.calls[id]).Hit?
    ensures var c, v := svc.calls[id], FinalAnswer(svc.calls[id]).verdict;
            && Latest(svc.log, c.key).Some?
            && var latest := Latest(svc.log, c.key).value;
               && (c.key in svc.cache ==>
                     (Same(v, EntryOf(latest).Result()) <==> Same(v, svc.cache[c.key].Result())))
               && (c.key in svc.cache <==> latest.fr.cacheable)
               && (c.key !in svc.cache ==> exists n: nat :: PassedBy(svc.log, c.key, c.seen, n))
  {
    svc.Look(id);
    LatestIsHeld(svc.cache, svc.log, svc.calls[id]);
  }

  // ---- 304 ----

  predicate SameContent(a: Entry, b: Entry) {
    a.resp == b.resp && a.denied == b.denied && a.status == b.status
  }

  /** Since a call started, the last reply to complete for its key brought another body or
      verdict than the entry it started from, or one that may not be kept. */
  ghost predicate Replaced(log: seq<Record>, key: Key, seen: nat, prior: Entry) {
    exists n: nat ::
      seen <= n && LastFor(log, key, n, |log|) && !(log[n].fr.cacheable && SameContent(EntryOf(log[n]), prior))
  }

  lemma ReplacedOrHeld(cache: map<Key, Entry>, log: seq<Record>, c: Call)
    requires CacheOk(cache, log) && StartOk(c, log) && c.prior.Some?
    ensures c.key in cache && SameContent(c.prior.value, cache[c.key])
            <==> !Replaced(log, c.key, c.seen, c.prior.value)
  {
    var key := c.key;
    assert Held(cache, key) == Content(log, key);
    assert log[..|log|] == log;
    LatestIsLast(log, key, c.seen);
    var a: nat :| LastFor(log, key, a, c.seen) && log[a] == Latest(log[..c.seen], key).value;
    LastExists(log, key, a, c.seen, |log|);
    LatestIsLast(log, key, |log|);
    var b: nat :| LastFor(log, key, b, |log|) && log[b] == Latest(log, key).value;
    forall n: nat | LastFor(log, key, n, |log|) ensures n == b { LastUnique(log, key, n, b, |log|); }
    LastOrLater(log, key, a, c.seen, b, |log|);
  }

  /** A 304 puts back the body and verdict its call started from. So it leaves those the
      cache held alone, as it should, exactly if they had not been replaced meanwhile. */
  lemma RevalidationKeeps(svc: Service, id: Id, reply: Reply)
    requires svc.Valid() && id in svc.calls && svc.calls[id].phase.Sending? && svc.calls[id].prior.Some?
    requires reply.Reply? && reply.status == 304 && FreshnessOf(reply.headers, svc.now).cacheable
    ensures var c := svc.calls[id];
            var after := Received(svc.Snapshot(), id, reply).cache;
            && c.key in after && SameContent(after[c.key], c.prior.value)
            && (c.key in svc.cache && SameContent(after[c.key], svc.cache[c.key])
                <==> !Replaced(svc.log, c.key, c.seen, c.prior.value))
  {
    svc.Look(id);
    ReplacedOrHeld(svc.cache, svc.log, svc.calls[id]);
  }

  // ---- One call on its own, from entering singleflight to its answer ----

  /** The six sections of a call that leads its own flight. */
  function Steps(id: Id, reply: Reply): seq<Event> {
    seq(6, _ => Step(id, reply))
  }

  /** From a reply to the answer. */
  ghost function Concluded(r: State, id: Id): State
    requires id in r.calls && r.calls[id].phase.Stored?
  {
    var raw := r.calls[id].phase.raw;
    Moved(r.(outcomes := r.outcomes[id := raw]), id,
          Done(FinalAnswer(r.calls[id].(phase := Returned(raw, id))), |r.log|))
  }

  /** Its answer, with the cache and the log as its reply leaves them. */
  ghost function Flown(s: State, id: Id, reply: Reply): State
    requires id in s.calls
  {
    Concluded(Received(s, id, reply), id)
  }

  ghost predicate Free(s: State, id: Id, max: nat) {
    id in s.calls && s.calls[id].phase.Calling? && s.calls[id].key !in s.flights && s.slots < max
  }

  lemma ReachedNext(s: State, events: seq<Event>, n: nat, max: nat)
    requires n < |events|
    ensures Reached(s, events[..n + 1], max) == After(Reached(s, events[..n], max), events[n], max)
  {
    assert events[..n + 1][..n] == events[..n];
  }

  /** Three sections at a time. */
  ghost function Thrice(s: State, e: Event, max: nat): State {
    After(After(After(s, e, max), e, max), e, max)
  }

  lemma SixSteps(s: State, id: Id, reply: Reply, max: nat, halfway: State, end: State)
    requires Thrice(s, Step(id, reply), max) == halfway && Thrice(halfway, Step(id, reply), max) == end
    ensures Reached(s, Steps(id, reply), max) == end
  {
    var events := Steps(id, reply);
    assert events[..0] == [] && events[..6] == events;
    ReachedNext(s, events, 0, max);
    ReachedNext(s, events, 1, max);
    ReachedNext(s, events, 2, max);
    ReachedNext(s, events, 3, max);
    ReachedNext(s, events, 4, max);
    ReachedNext(s, events, 5, max);
  }

  lemma TakeOff(s: State, id: Id, reply: Reply, max: nat)
    requires Free(s, id, max)
    ensures After(After(s, Step(id, reply), max), Step(id, reply), max)
            == Moved(s.(flights := s.flights[s.calls[id].key := id], slots := s.slots + 1), id, Sending)
  {
    var c := s.calls[id];
    assert After(s, Step(id, reply), max) == Moved(s.(flights := s.flights[c.key := id]), id, Leading);
    assert s.calls[id := c.(phase := Leading)][id := c.(phase := Sending)] == s.calls[id := c.(phase := Sending)];
  }

  /** A call's own moves and the flights and slots around it do not change what a reply
      means to it. */
  lemma ReceivedAlike(s: State, id: Id, reply: Reply, flights: map<Key, Id>, slots: int)
    requires id in s.calls
    ensures Received(Moved(s.(flights := flights, slots := slots), id, Sending), id, reply)
            == Received(s, id, reply).(flights := flights, slots := slots)
  {
    var c := s.calls[id];
    assert s.calls[id := c.(phase := Sending)][id := c.(phase := Stored(Failed))]
        == s.calls[id := c.(phase := Stored(Failed))];
    if reply.Reply? {
      var p := Stored(Verdict(VerdictOf(c, reply)));
      assert s.calls[id := c.(phase := Sending)][id := c.(phase := p)] == s.calls[id := c.(phase := p)];
    }
  }

  lemma Reception(s: State, id: Id, reply: Reply, max: nat)
    requires Free(s, id, max)
    ensures Thrice(s, Step(id, reply), max)
            == Received(s, id, reply).(flights := s.flights[s.calls[id].key := id], slots := s.slots + 1)
  {
    TakeOff(s, id, reply, max);
    ReceivedAlike(s, id, reply, s.flights[s.calls[id].key := id], s.slots + 1);
  }

  lemma Landing(r: State, id: Id, reply: Reply, max: nat)
    requires id in r.calls && r.calls[id].phase.Stored? && r.calls[id].key !in r.flights
    ensures Thrice(r.(flights := r.flights[r.calls[id].key := id], slots := r.slots + 1), Step(id, reply), max)
            == Concluded(r, id)
  {
    var c, raw := r.calls[id], r.calls[id].phase.raw;
    var flights := r.flights[c.key := id];
    var t4 := After(r.(flights := flights, slots := r.slots + 1), Step(id, reply), max);
    assert t4 == r.(flights := flights, calls := r.calls[id := c.(phase := Released(raw))]);
    var t5 := After(t4, Step(id, reply), max);
    assert flights - {c.key} == r.flights;
    assert t5.calls == r.calls[id := c.(phase := Returned(raw, id))];
    assert t5 == r.(outcomes := r.outcomes[id := raw], calls := r.calls[id := c.(phase := Returned(raw, id))]);
    var p := Done(FinalAnswer(c.(phase := Returned(raw, id))), |r.log|);
    assert t5.calls[id := c.(phase := p)] == r.calls[id := c.(phase := p)];
  }

  lemma Flight(s: State, id: Id, reply: Reply, max: nat)
    requires Free(s, id, max)
    ensures Reached(s, Steps(id, reply), max) == Flown(s, id, reply)
  {
    var r := Received(s, id, reply);
    Reception(s, id, reply, max);
    Landing(r, id, reply, max);
    var halfway := r.(flights := r.flights[s.calls[id].key := id], slots := r.slots + 1);
    SixSteps(s, id, reply, max, halfway, Flown(s, id, reply));
  }

  // ---- Three calls for one key ----

  /** Kept, stale from the start, and not to be served while revalidated; but good enough
      when the broker fails. */
  predicate Lapsed(fr: Freshness) {
    && fr.cacheable && fr.freshFor <= 0 < fr.freshFor + fr.staleIfError
    && (fr.mustRevalidate || fr.freshFor + fr.staleWhileRevalidate <= 0)
  }

  lemma {:induction false} ReachedMore(s: State, a: seq<Event>, b: seq<Event>, max: nat)
    ensures Reached(s, a + b, max) == Reached(Reached(s, a, max), b, max)
    decreases |b|
  {
    if b == [] {
      assert a + b == a;
    } else {
      var front, last := b[..|b| - 1], b[|b| - 1];
      ReachedMore(s, a, front, max);
      assert (a + b)[..|a + b| - 1] == a + front;
    }
  }

  predicate Plain(s: string) {
    s != "" && forall i | 0 <= i < |s| :: 'a' <= s[i] <= 'z' || s[i] == '-' || '0' <= s[i] <= '9'
  }

  lemma PlainStays(s: string)
    requires Plain(s)
    ensures Trim(s, Space) == s && Trim(s, Quote) == s && Lower(s) == s && ',' !in s && '=' !in s
  {
  }

  lemma PairStays(name: string, arg: string)
    requires Plain(name) && Plain(arg)
    ensures var text := name + ['='] + arg;
            Trim(text, Space) == text && ',' !in text && CutArg(text) == (name, arg)
  {
    PlainStays(name);
    PlainStays(arg);
    SplitOfPrefix(name, arg, '=');
    SplitOfPrefix(arg, "", '=');
    assert ([name] + [arg])[1..] == [arg];
  }

  lemma PairReads(name: string, arg: string)
    requires Plain(name) && Plain(arg)
    ensures Directives(Split(name + ['='] + arg, ',')) == [Directive(name, arg)]
  {
    var text := name + ['='] + arg;
    PlainStays(name);
    PlainStays(arg);
    PairStays(name, arg);
    SplitOfPrefix(text, "", ',');
    assert [text][..0] == [];
    assert Directives([]) == [];
  }

  lemma DigitReads(s: string)
    requires |s| == 1 && '0' < s[0] <= '9'
    ensures Plain(s) && Integer(s).Some? && Integer(s).value > 0
  {
  }

  lemma GraceAlone(d: Directive)
    requires d.name == "stale-if-error" && Integer(d.arg).Some?
    ensures ControlOf([d]) == NOCONTROL.(staleIfError := Integer(d.arg))
  {
    ControlNext([], d);
    assert [] + [d] == [d];
    ApplyEach(NOCONTROL, d);
    assert ControlOf([]) == NOCONTROL;
  }

  /** Headers that say so: already expired, with some seconds' grace. */
  function Expired(seconds: string): Headers {
    Headers("stale-if-error" + ['='] + seconds, "0", (_: string) => Some(0))
  }

  lemma ExpiredIsLapsed(seconds: string)
    requires |seconds| == 1 && '0' < seconds[0] <= '9'
    ensures Lapsed(FreshnessOf(Expired(seconds), 0))
  {
    DigitReads(seconds);
    PairReads("stale-if-error", seconds);
    GraceAlone(Directive("stale-if-error", seconds));
  }

  /** Where the run below stands once call 0 is answered, once calls 1 and 2 have started
      from that reply, and once call 2 is answered by another. */
  ghost function AfterFirst(key: Key, first: Reply): State {
    Flown(Begun(IDLE, 0, key, 0, 9), 0, first)
  }

  ghost function BothStarted(key: Key, first: Reply): State {
    Begun(Begun(AfterFirst(key, first), 1, key, 0, 9), 2, key, 0, 9)
  }

  ghost function AfterSecond(key: Key, first: Reply, second: Reply): State {
    Flown(BothStarted(key, first), 2, second)
  }

  function Opening(key: Key, first: Reply, second: Reply): seq<Event> {
    [Start(0, key, 0, 9)] + Steps(0, first) + [Start(1, key, 0, 9), Start(2, key, 0, 9)] + Steps(2, second)
  }

  /** A reply received at the outset, other than a 304, and what it leaves in the cache. */
  function FullRecord(key: Key, id: Id, reply: Reply): Record
    requires reply.Reply?
  {
    Record(key, id, reply.body, !(200 <= reply.status < 300), reply.status, reply.etag,
           FreshnessOf(reply.headers, 0), 0)
  }

  ghost function FullEntry(key: Key, reply: Reply): Entry
    requires reply.Reply?
  {
    EntryOf(FullRecord(key, 0, reply))
  }

  lemma FirstIsIn(key: Key, first: Reply)
    requires first.Reply? && FreshnessOf(first.headers, 0).cacheable
    ensures var s := AfterFirst(key, first);
            && s.now == 0 && s.slots == 0 && s.flights == map[] && s.calls.Keys == {0} && |s.log| == 1
            && s.cache == map[key := FullEntry(key, first)] && s.log[0].key == key
  {
  }

  lemma BothCalling(key: Key, first: Reply)
    requires first.Reply? && Lapsed(FreshnessOf(first.headers, 0))
    ensures var s := BothStarted(key, first);
            var c := Call(key, 0, 1, Some(FullEntry(key, first)), false, Calling);
            && s == AfterFirst(key, first).(calls := s.calls)
            && s.calls.Keys == {0, 1, 2} && s.calls[1] == c && s.calls[2] == c
  {
    FirstIsIn(key, first);
  }

  lemma ReachedOne(s: State, e: Event, max: nat)
    ensures Reached(s, [e], max) == After(s, e, max)
  {
    assert [e][..0] == [];
  }

  lemma OneFlight(s: State, e: Event, id: Id, reply: Reply, max: nat)
    requires Free(After(s, e, max), id, max)
    ensures Reached(s, [e] + Steps(id, reply), max) == Flown(After(s, e, max), id, reply)
  {
    ReachedMore(s, [e], Steps(id, reply), max);
    ReachedOne(s, e, max);
    Flight(After(s, e, max), id, reply, max);
  }

  lemma FirstLeads(key: Key, first: Reply, max: nat)
    requires max > 0
    ensures Reached(IDLE, [Start(0, key, 0, 9)] + Steps(0, first), max) == AfterFirst(key, first)
  {
    OneFlight(IDLE, Start(0, key, 0, 9), 0, first, max);
  }

  function OneStarted(key: Key, first: Reply): seq<Event> {
    [Start(0, key, 0, 9)] + Steps(0, first) + [Start(1, key, 0, 9)]
  }

  lemma OneLeads(key: Key, first: Reply, max: nat)
    requires first.Reply? && FreshnessOf(first.headers, 0).cacheable && max > 0
    ensures Reached(IDLE, OneStarted(key, first), max) == Begun(AfterFirst(key, first), 1, key, 0, 9)
  {
    FirstLeads(key, first, max);
    FirstIsIn(key, first);
    ReachedMore(IDLE, [Start(0, key, 0, 9)] + Steps(0, first), [Start(1, key, 0, 9)], max);
    ReachedOne(AfterFirst(key, first), Start(1, key, 0, 9), max);
  }

  lemma SecondStarts(key: Key, first: Reply, max: nat)
    requires first.Reply? && Lapsed(FreshnessOf(first.headers, 0)) && max > 0
    ensures After(Begun(AfterFirst(key, first), 1, key, 0, 9), Start(2, key, 0, 9), max) == BothStarted(key, first)
    ensures Free(BothStarted(key, first), 2, max)
  {
    FirstIsIn(key, first);
    BothCalling(key, first);
  }

  lemma OpeningLeads(key: Key, first: Reply, second: Reply, max: nat)
    requires first.Reply? && Lapsed(FreshnessOf(first.headers, 0)) && max > 0
    ensures Reached(IDLE, Opening(key, first, second), max) == AfterSecond(key, first, second)
  {
    var rest := [Start(2, key, 0, 9)] + Steps(2, second);
    assert OneStarted(key, first) + rest == Opening(key, first, second);
    ReachedMore(IDLE, OneStarted(key, first), rest, max);
    OneLeads(key, first, max);
    SecondStarts(key, first, max);
    OneFlight(Begun(AfterFirst(key, first), 1, key, 0, 9), Start(2, key, 0, 9), 2, second, max);
  }

  lemma SecondIsIn(key: Key, first: Reply, second: Reply)
    requires first.Reply? && Lapsed(FreshnessOf(first.headers, 0)) && second.Reply? && second.status != 304
    ensures var s := AfterSecond(key, first, second);
            var r := FullRecord(key, 2, second);
            && s.now == 0 && s.slots == 0 && s.flights == map[]
            && |s.log| == 2 && s.log[1] == r && s.cache == Keep(map[key := FullEntry(key, first)], r)
            && 1 in s.calls && s.calls[1] == Call(key, 0, 1, Some(FullEntry(key, first)), false, Calling)
  {
    FirstIsIn(key, first);
    BothCalling(key, first);
  }

  lemma Ending(key: Key, first: Reply, second: Reply, last: Reply, max: nat)
    requires first.Reply? && Lapsed(FreshnessOf(first.headers, 0)) && second.Reply? && second.status != 304
    requires max > 0
    ensures var s := AfterSecond(key, first, second); Reached(s, Steps(1, last), max) == Flown(s, 1, last)
  {
    SecondIsIn(key, first, second);
    Flight(AfterSecond(key, first, second), 1, last, max);
  }

  /** A call that fails on its own changes nothing, and its window covers it. */
  lemma Covered(s: State, id: Id)
    requires id in s.calls && !s.calls[id].background && s.calls[id].prior.Some?
    requires InWindow(IfError, s.calls[id].prior.value, s.calls[id].at)
    ensures var t := Flown(s, id, Broken);
            && t.log == s.log && t.cache == s.cache && id in t.calls
            && t.calls[id].phase == Done(Hit(IfError, s.calls[id].prior.value.Result()), |s.log|)
  {
  }

  lemma PassedOver(key: Key, first: Reply, second: Reply)
    requires first.Reply? && Lapsed(FreshnessOf(first.headers, 0)) && second.Reply? && second.status != 304
    ensures var s := Flown(AfterSecond(key, first, second), 1, Broken);
            && 1 in s.calls && s.calls[1].phase == Done(Hit(IfError, FullEntry(key, first).Result()), 2)
            && |s.log| == 2 && s.log[1] == FullRecord(key, 2, second)
  {
    SecondIsIn(key, first, second);
    Covered(AfterSecond(key, first, second), 1);
  }

  /** Calls 1 and 2 start from the first reply; call 2 gets another verdict; then the
      broker fails call 1, which is served the first verdict although the second is the
      latest. */
  method NewerVerdictPassedOver(key: Key, first: Reply, second: Reply, maxInflight: nat) returns (svc: Service)
    requires first.Reply? && second.Reply? && second.status != 304 && maxInflight > 0
    requires Lapsed(FreshnessOf(first.headers, 0))
    requires !Same(FullEntry(key, first).Result(), FullEntry(key, second).Result())
    ensures fresh(svc) && svc.Valid()
    ensures 1 in svc.calls && svc.calls[1].phase == Done(Hit(IfError, FullEntry(key, first).Result()), 2)
    ensures Latest(svc.log, key) == Some(FullRecord(key, 2, second))
    ensures !Same(svc.calls[1].phase.answer.verdict, EntryOf(Latest(svc.log, key).value).Result())
  {
    OpeningLeads(key, first, second, maxInflight);
    Ending(key, first, second, Broken, maxInflight);
    PassedOver(key, first, second);
    svc := Run(maxInflight, Opening(key, first, second));
    Continue(svc, Steps(1, Broken));
  }

  lemma BroughtBack(key: Key, first: Reply, second: Reply, third: Reply)
    requires first.Reply? && Lapsed(FreshnessOf(first.headers, 0)) && second.Reply? && second.status != 304
    requires third.Reply? && third.status == 304
    requires FreshnessOf(second.headers, 0).cacheable && FreshnessOf(third.headers, 0).cacheable
    ensures var s, t := AfterSecond(key, first, second), Flown(AfterSecond(key, first, second), 1, third);
            && key in s.cache && SameContent(s.cache[key], FullEntry(key, second))
            && key in t.cache && SameContent(t.cache[key], FullEntry(key, first))
  {
    SecondIsIn(key, first, second);
  }

  /** The same, but call 1 is told that the first reply still stands: that one is back in
      the cache, in place of the second. */
  method OlderBodyBroughtBack(key: Key, first: Reply, second: Reply, third: Reply, maxInflight: nat)
    returns (svc: Service, before: map<Key, Entry>)
    requires first.Reply? && second.Reply? && second.status != 304 && third.Reply? && third.status == 304
    requires Lapsed(FreshnessOf(first.headers, 0)) && maxInflight > 0
    requires FreshnessOf(second.headers, 0).cacheable && FreshnessOf(third.headers, 0).cacheable
    ensures fresh(svc) && svc.Valid()
    ensures key in before && SameContent(before[key], FullEntry(key, second))
    ensures key in svc.cache && SameContent(svc.cache[key], FullEntry(key, first))
  {
    OpeningLeads(key, first, second, maxInflight);
    Ending(key, first, second, third, maxInflight);
    BroughtBack(key, first, second, third);
    svc := Run(maxInflight, Opening(key, first, second));
    before := svc.cache;
    Continue(svc, Steps(1, third));
  }

  /** So a caller may be allowed after the broker has begun to refuse, and a refusal that
      the broker gave last may be gone from the cache. */
  method AllowedAfterRefusal(key: Key, allowed: Response, refused: Response) returns (one: Service, two: Service)
    ensures one.Valid() && 1 in one.calls && one.calls[1].phase == Done(Hit(IfError, Allow(allowed)), 2)
    ensures Latest(one.log, key).Some? && EntryOf(Latest(one.log, key).value).Result() == Deny(refused.message, 403)
    ensures two.Valid() && key in two.cache && two.cache[key].Result() == Allow(allowed)
  {
    ExpiredIsLapsed("9");
    var first, second := Reply(200, allowed, Expired("9"), "a"), Reply(403, refused, Expired("9"), "b");
    one := NewerVerdictPassedOver(key, first, second, 1);
    var before;
    two, before := OlderBodyBroughtBack(key, first, second, Reply(304, allowed, Expired("9"), "a"), 1);
  }
}
