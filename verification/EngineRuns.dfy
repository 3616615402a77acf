/** Whole runs of the rule engine: every interleaving of changes to storage, ticks of the
    clock, outages and lookups; and one run in which an edit goes unseen. */
module EngineRuns {
  import opened GoStrings
  import opened MaskedKeys
  import opened KeyMatching
  import opened KeyText
  import opened RuleCompile
  import opened RuleFiles
  import opened DefaultParse
  import opened DefaultTable
  import opened EngineView
  import opened RuleEngine

  /** Storage, the clock or what is down changes; or a client's rules are looked up. */
  datatype Event = Change(world: World) | Ask(client: Addr)

  /** The world a run has come to, and all it has been through. */
  function Now(start: World, events: seq<Event>): World {
    if events == [] then start
    else
      var last := events[|events| - 1];
      if last.Change? then last.world else Now(start, events[..|events| - 1])
  }

  ghost function Past(start: World, events: seq<Event>): set<World> {
    {start} + set e | e in events && e.Change? :: e.world
  }

  /** In all of it equal versions mean equal contents. */
  ghost predicate Contract(ws: set<World>) {
    && (forall a, b, c | a in ws && b in ws :: FileAgrees(a, b, c))
    && (forall a, b | a in ws && b in ws :: TableAgrees(a, b))
  }

  /** What an engine that starts out blank has seen by then. */
  ghost function Seen(s: Config, start: World, events: seq<Event>): View {
    if events == [] then BLANK
    else
      var before, last := events[..|events| - 1], events[|events| - 1];
      if last.Change? then Seen(s, start, before)
      else Next(s, Now(start, before), Seen(s, start, before), last.client)
  }

  // ---- One event more ----

  lemma NowNext(start: World, events: seq<Event>, e: Event)
    ensures Now(start, events + [e]) == if e.Change? then e.world else Now(start, events)
  {
    assert (events + [e])[..|events|] == events;
  }

  lemma SeenNext(s: Config, start: World, events: seq<Event>, e: Event)
    ensures Seen(s, start, events + [e])
            == if e.Change? then Seen(s, start, events)
               else Next(s, Now(start, events), Seen(s, start, events), e.client)
  {
    assert (events + [e])[..|events|] == events;
  }

  lemma {:induction false} NowIsPast(start: World, events: seq<Event>)
    ensures Now(start, events) in Past(start, events)
    decreases |events|
  {
    if events != [] {
      var before, last := events[..|events| - 1], events[|events| - 1];
      assert last in events;
      NowIsPast(start, before);
      PastGrows(start, before, events);
    }
  }

  lemma PastGrows(start: World, before: seq<Event>, events: seq<Event>)
    requires before <= events
    ensures Past(start, before) <= Past(start, events)
  {
    forall e | e in before ensures e in events {}
  }

  // ---- Everything seen was there ----

  ghost predicate NoteIn(n: Note, ws: set<World>) {
    n.at in ws && n.made in ws && (n.from.Some? ==> n.from.value in ws)
  }

  ghost predicate ViewIn(v: View, ws: set<World>) {
    (forall c | c in v.notes :: NoteIn(v.notes[c], ws)) && (v.table.Some? ==> v.table.value in ws)
  }

  lemma NextIn(s: Config, w: World, v: View, c: Addr, ws: set<World>)
    requires ViewIn(v, ws) && w in ws
    ensures ViewIn(Next(s, w, v, c), ws)
  {
    if c in v.notes { assert NoteIn(v.notes[c], ws); }
  }

  lemma WiderIn(v: View, ws: set<World>, ws': set<World>)
    requires ViewIn(v, ws) && ws <= ws'
    ensures ViewIn(v, ws')
  {
    forall c | c in v.notes ensures NoteIn(v.notes[c], ws') { assert NoteIn(v.notes[c], ws); }
  }

  /** What has been seen at any time was stored at some time before. */
  lemma {:induction false} SeenIsPast(s: Config, start: World, events: seq<Event>)
    ensures ViewIn(Seen(s, start, events), Past(start, events))
    decreases |events|
  {
    if events != [] {
      var before, last := events[..|events| - 1], events[|events| - 1];
      SeenIsPast(s, start, before);
      PastGrows(start, before, events);
      WiderIn(Seen(s, start, before), Past(start, before), Past(start, events));
      if last.Ask? {
        NowIsPast(start, before);
        NextIn(s, Now(start, before), Seen(s, start, before), last.client, Past(start, events));
      }
    }
  }

  lemma PastConsistent(v: View, w: World, ws: set<World>)
    requires ViewIn(v, ws) && w in ws && Contract(ws)
    ensures Consistent(v, w)
  {
    forall c | c in v.notes ensures FileAgrees(v.notes[c].at, w, c) { assert NoteIn(v.notes[c], ws); }
  }

  lemma SeenConsistent(s: Config, start: World, events: seq<Event>, n: nat)
    requires n <= |events| && Contract(Past(start, events))
    ensures Consistent(Seen(s, start, events[..n]), Now(start, events[..n]))
  {
    var before := events[..n];
    SeenIsPast(s, start, before);
    NowIsPast(start, before);
    PastGrows(start, before, events);
    WiderIn(Seen(s, start, before), Past(start, before), Past(start, events));
    PastConsistent(Seen(s, start, before), Now(start, before), Past(start, events));
  }

  // ---- Every run ----

  /** The n-th event and what came of it: a lookup fails exactly if what had been seen says
      so, and otherwise answers by what has then been seen. */
  ghost predicate Exact(s: Config, start: World, events: seq<Event>, n: nat, answer: Option<Result<Rules>>)
    requires n < |events|
  {
    match answer
    case None => events[n].Change?
    case Some(r) =>
      && events[n].Ask?
      && (r.Err? <==> Fails(s, Now(start, events[..n]), Seen(s, start, events[..n]), events[n].client))
      && (r.Ok? ==> Answer(s, Seen(s, start, events[..n + 1]), events[n].client, r.value))
  }

  ghost predicate AllExact(s: Config, start: World, events: seq<Event>, answers: seq<Option<Result<Rules>>>) {
    |answers| <= |events| && forall n | 0 <= n < |answers| :: Exact(s, start, events, n, answers[n])
  }

  lemma OneMoreExact(s: Config, start: World, events: seq<Event>, answers: seq<Option<Result<Rules>>>,
                     answer: Option<Result<Rules>>)
    requires AllExact(s, start, events, answers) && |answers| < |events|
    requires Exact(s, start, events, |answers|, answer)
    ensures AllExact(s, start, events, answers + [answer])
  {
  }

  /** One event. */
  method Step(e: RuleEngine, world: World, ghost start: World, events: seq<Event>, n: nat)
    returns (answer: Option<Result<Rules>>, world': World)
    requires n < |events| && Contract(Past(start, events))
    requires e.Valid() && e.view == Seen(e.s, start, events[..n]) && world == Now(start, events[..n])
    requires events[n].Ask? ==> |events[n].client.bytes| == Width(events[n].client.is4)
    modifies e
    ensures e.Valid() && e.view == Seen(e.s, start, events[..n + 1]) && world' == Now(start, events[..n + 1])
    ensures Exact(e.s, start, events, n, answer)
  {
    assert events[..n] + [events[n]] == events[..n + 1];
    NowNext(start, events[..n], events[n]);
    SeenNext(e.s, start, events[..n], events[n]);
    match events[n]
    case Change(w) =>
      answer, world' := None, w;
    case Ask(client) =>
      world' := world;
      SeenConsistent(e.s, start, events, n);
      var r := e.Lookup(client, world);
      answer := Some(r);
  }

  /** One engine through a whole run: each lookup in it fails or answers exactly as what has
      been seen so far says. */
  method Run(s: Config, start: World, events: seq<Event>) returns (answers: seq<Option<Result<Rules>>>)
    requires Sound(s.codec) && Contract(Past(start, events))
    requires forall n | 0 <= n < |events| && events[n].Ask? :: |events[n].client.bytes| == Width(events[n].client.is4)
    ensures |answers| == |events| && AllExact(s, start, events, answers)
  {
    var e := new RuleEngine(s);
    var world := start;
    answers := [];
    assert events[..0] == [];
    for n := 0 to |events|
      invariant fresh(e) && e.s == s && e.Valid()
      invariant e.view == Seen(s, start, events[..n]) && world == Now(start, events[..n])
      invariant |answers| == n && AllExact(s, start, events, answers)
    {
      var answer;
      answer, world := Step(e, world, start, events, n);
      OneMoreExact(s, start, events, answers, answer);
      answers := answers + [answer];
    }
  }

  // ---- Two lookups of one client ----

  /** Events that leave c alone leave what is known of it. */
  lemma {:induction false} NoteStays(s: Config, start: World, events: seq<Event>, mid: seq<Event>, c: Addr)
    requires Ask(c) !in mid
    ensures var v, v' := Seen(s, start, events), Seen(s, start, events + mid);
            && (c in v'.notes <==> c in v.notes) && (c in v.notes ==> v'.notes[c] == v.notes[c])
            && (v.table.Some? ==> v'.table.Some?)
    decreases |mid|
  {
    if mid == [] {
      assert events + mid == events;
    } else {
      var front, last := mid[..|mid| - 1], mid[|mid| - 1];
      NoteStays(s, start, events, front, c);
      assert events + front + [last] == events + mid;
      SeenNext(s, start, events + front, last);
    }
  }

  lemma FirstAsk(s: Config, start: World, before: seq<Event>, c: Addr)
    requires !Fails(s, Now(start, before), Seen(s, start, before), c)
    ensures var w, v := Now(start, before), Seen(s, start, before + [Ask(c)]);
            && c in v.notes && (c !in v.notes[c].at.files ==> v.table.Some?)
            && (!AtHand(s, w, Seen(s, start, before), c) ==> v.notes[c].at == w)
  {
    SeenNext(s, start, before, Ask(c));
    AnswersAreRecent(s, Now(start, before), Seen(s, start, before), c);
  }

  /** While Stat fails, a client last seen with an override is answered as it was before: the
      same policy, whatever has changed in storage. */
  lemma LastAnswerAgain(s: Config, start: World, before: seq<Event>, mid: seq<Event>, c: Addr, a: Rules, b: Rules)
    requires Ask(c) !in mid && !Fails(s, Now(start, before), Seen(s, start, before), c)
    requires var v := Seen(s, start, before + [Ask(c)]); c in v.notes ==> c in v.notes[c].at.files
    requires s.ttl > 0 && Now(start, before + [Ask(c)] + mid).down.stat
    ensures var past := before + [Ask(c)] + mid;
            && !Fails(s, Now(start, past), Seen(s, start, past), c)
            && (Answer(s, Seen(s, start, before + [Ask(c)]), c, a) && Answer(s, Seen(s, start, past + [Ask(c)]), c, b)
                ==> Alike(a, b))
  {
    var past := before + [Ask(c)] + mid;
    FirstAsk(s, start, before, c);
    NoteStays(s, start, before + [Ask(c)], mid, c);
    SeenNext(s, start, past, Ask(c));
    OverrideOutlivesStat(s, Now(start, past), Seen(s, start, past), c);
    if Answer(s, Seen(s, start, before + [Ask(c)]), c, a) && Answer(s, Seen(s, start, past + [Ask(c)]), c, b) {
      CompiledAlike(s, c, Seen(s, start, past).notes[c], Seen(s, start, past).notes[c], a, b);
    }
  }

  /** A client that was answered is answered while both Stat calls fail. */
  lemma AnsweredThroughOutage(s: Config, start: World, before: seq<Event>, mid: seq<Event>, c: Addr)
    requires Ask(c) !in mid && !Fails(s, Now(start, before), Seen(s, start, before), c) && s.ttl > 0
    requires var down := Now(start, before + [Ask(c)] + mid).down; down.stat && down.statDefault
    ensures var past := before + [Ask(c)] + mid; !Fails(s, Now(start, past), Seen(s, start, past), c)
  {
    var past := before + [Ask(c)] + mid;
    FirstAsk(s, start, before, c);
    NoteStays(s, start, before + [Ask(c)], mid, c);
    if c in Seen(s, start, past).notes[c].at.files {
      OverrideOutlivesStat(s, Now(start, past), Seen(s, start, past), c);
    } else {
      DefaultOutlivesStat(s, Now(start, past), Seen(s, start, past), c);
    }
  }

  /** An override that was answered by a look at storage, and has its version still, is
      answered by the same policy as long as Stat works: nothing is loaded. */
  lemma SameVersionAgain(s: Config, start: World, before: seq<Event>, mid: seq<Event>, c: Addr, a: Rules, b: Rules)
    requires var w, w' := Now(start, before), Now(start, before + [Ask(c)] + mid);
             && Ask(c) !in mid && !Fails(s, w, Seen(s, start, before), c) && !AtHand(s, w, Seen(s, start, before), c)
             && c in w.files && c in w'.files && w.files[c].version == w'.files[c].version && !w'.down.stat
    ensures var past := before + [Ask(c)] + mid;
            && !Fails(s, Now(start, past), Seen(s, start, past), c)
            && (Answer(s, Seen(s, start, before + [Ask(c)]), c, a) && Answer(s, Seen(s, start, past + [Ask(c)]), c, b)
                ==> Alike(a, b))
  {
    var past := before + [Ask(c)] + mid;
    var w, v := Now(start, past), Seen(s, start, past);
    FirstAsk(s, start, before, c);
    NoteStays(s, start, before + [Ask(c)], mid, c);
    SeenNext(s, start, past, Ask(c));
    KnownAgain(s, w, v, c);
    if Answer(s, Seen(s, start, before + [Ask(c)]), c, a) && Answer(s, Seen(s, start, past + [Ask(c)]), c, b) {
      CompiledAlike(s, c, v.notes[c], Next(s, w, v, c).notes[c], a, b);
    }
  }

  lemma KnownAgain(s: Config, w: World, v: View, c: Addr)
    requires Unchanged(w, v, c) && !w.down.stat
    ensures !Fails(s, w, v, c)
    ensures var n, n' := v.notes[c], Next(s, w, v, c).notes[c];
            n'.made == n.made && n'.from == n.from && c in n'.at.files
  {
    if !AtHand(s, w, v, c) { UnchangedIsNotLoaded(s, w, v, c); }
  }

  // ---- An edit that goes unseen ----

  /** k matches every address of its family. */
  ghost predicate Whole(k: MaskedKey, is4: bool) {
    && k.is4 == is4 && Normal(k) && PrefixLength(k.mask).Some?
    && forall ab: Bytes | |ab| == Width(is4) :: Contains(k, ab)
  }

  /** A default table of one bucket for each family, whose one egress rule compiles, and an
      override without an egress key. */
  datatype Scene = Scene(env: Compilers, codec: KeyCodec, client: Addr, k4: MaskedKey, k6: MaskedKey,
                         rule: EgressRule, bucket: RuleFile, file: RuleFile)
  {
    ghost predicate Staged() {
      && Sound(codec) && |client.bytes| == Width(client.is4) && Whole(k4, true) && Whole(k6, false)
      && env.egress(rule).Some?
      && bucket.egress == Some([rule]) && bucket.auth == None && bucket.http == []
      && file.egress == None && file.auth == None && file.http == []
    }

    function Raw(): seq<RawEntry> {
      [RawEntry(codec.spell(k4), Some(bucket)), RawEntry(codec.spell(k6), Some(bucket))]
    }

    function TheTable(): Table {
      map[k4 := bucket, k6 := bucket]
    }

    function Entries(): (r: seq<ParsedEntry>)
      ensures |r| == 2 && r[0] == ParsedEntry(k4, bucket) && r[1] == ParsedEntry(k6, bucket)
    {
      [ParsedEntry(k4, bucket), ParsedEntry(k6, bucket)]
    }

    /** The world with that table and some override of the client. */
    function With(version: string, rf: RuleFile): World {
      World(0, map[client := File(version, Some(rf))], Some(Blob("table", Some(Raw()))), NOOUTAGE)
    }

    function Config(): Config {
      EngineView.Config.Config(env, codec, 0)
    }

    function Inherited(): seq<CompiledEgress>
      requires env.egress(rule).Some?
    {
      [env.egress(rule).value]
    }
  }

  lemma TableOfNext(c: KeyCodec, raw: seq<RawEntry>, m: Table, k: MaskedKey, rf: RuleFile)
    requires TableOf(c, raw) == Some(m) && c.read(c.spell(k)) == Some(k)
    ensures TableOf(c, raw + [RawEntry(c.spell(k), Some(rf))]) == Some(m[k := rf])
  {
    assert (raw + [RawEntry(c.spell(k), Some(rf))])[..|raw|] == raw;
  }

  lemma RawReads(x: Scene)
    requires x.Staged()
    ensures TableOf(x.codec, x.Raw()) == Some(x.TheTable())
  {
    TableOfNext(x.codec, [], map[], x.k4, x.bucket);
    var one := [] + [RawEntry(x.codec.spell(x.k4), Some(x.bucket))];
    TableOfNext(x.codec, one, map[][x.k4 := x.bucket], x.k6, x.bucket);
    assert one + [RawEntry(x.codec.spell(x.k6), Some(x.bucket))] == x.Raw();
  }

  lemma EntriesListed(x: Scene)
    requires x.Staged()
    ensures AllNormal(x.Entries()) && Lists(x.Entries(), x.TheTable())
  {
    var es := x.Entries();
    assert es[0].key == x.k4 && es[1].key == x.k6;
    assert HasEntry(es, x.k4) && HasEntry(es, x.k6);
  }

  lemma EntriesCover(x: Scene, is4: bool)
    requires x.Staged() && AllNormal(x.Entries())
    ensures FamilyCovered(x.Entries(), is4)
  {
    forall ab: Bytes | |ab| == Width(is4) ensures PrefixEntryFor(x.Entries(), is4, ab) {
      var i := if is4 then 0 else 1;
      assert Whole(x.Entries()[i].key, is4);
    }
  }

  lemma EgressCompiles(x: Scene)
    requires x.Staged()
    ensures CompileEgress(x.env, [x.rule]) == Some(x.Inherited())
  {
    assert [x.rule][1..] == [] && [x.rule][0] == x.rule;
    assert CompileEgress(x.env, []) == Some([]);
    assert [x.env.egress(x.rule).value] + [] == x.Inherited();
  }

  lemma EntriesCompile(x: Scene)
    requires x.Staged() && AllNormal(x.Entries())
    ensures TableCompiles(x.env, x.Entries())
  {
    BucketIsGood(x);
    AllBucketsGood(x.env, x.bucket, x.Entries());
    EntriesCover(x, true);
    EntriesCover(x, false);
  }

  lemma AllBucketsGood(env: Compilers, bucket: RuleFile, es: seq<ParsedEntry>)
    requires BucketCompiles(env, bucket) && |es| == 2 && es[0].rule == bucket && es[1].rule == bucket
    ensures forall i | 0 <= i < |es| :: BucketCompiles(env, es[i].rule)
  {
  }

  lemma BucketIsGood(x: Scene)
    requires x.Staged()
    ensures BucketCompiles(x.env, x.bucket)
  {
    EgressCompiles(x);
  }

  lemma TableIsGood(x: Scene, b: Blob)
    requires x.Staged() && b.raw == Some(x.Raw())
    ensures TableGood(x.Config(), Some(b))
  {
    RawReads(x);
    EntriesListed(x);
    EntriesCompile(x);
    assert Compilable(x.env, x.TheTable(), x.Entries());
  }

  /** Whatever the table answers, it answers with its one egress rule. */
  lemma TableEgress(x: Scene, b: Blob, d: Rules)
    requires x.Staged() && b.raw == Some(x.Raw()) && DefaultAnswer(x.Config(), d, x.client, Some(b))
    ensures d.egress == x.Inherited()
  {
    RawReads(x);
    EgressCompiles(x);
    var k :| Best(x.TheTable(), x.client.is4, x.client.bytes, k) && BucketRules(x.env, d, x.TheTable()[k]);
    BucketHasEgress(x, d);
  }

  lemma BucketHasEgress(x: Scene, d: Rules)
    requires x.Staged() && BucketRules(x.env, d, x.bucket)
    ensures d.egress == x.Inherited()
  {
    EgressCompiles(x);
  }

  lemma FileCompiles(x: Scene, w: World)
    requires x.Staged() && w == x.With("1", x.file)
    ensures w.files[x.client].content == Some(x.file)
    ensures !TableFails(x.Config(), w, BLANK) && TableNext(x.Config(), w, BLANK) == Some(w)
    ensures !CompileFails(x.Config(), w, BLANK, x.file)
  {
    TableIsGood(x, w.table.value);
    NothingFails(x.Config(), w, x.file);
  }

  lemma NothingFails(s: Config, w: World, rf: RuleFile)
    requires w.down == NOOUTAGE && TableGood(s, w.table) && rf.auth == None && rf.http == [] && rf.egress == None
    ensures !TableFails(s, w, BLANK) && TableNext(s, w, BLANK) == Some(w) && !CompileFails(s, w, BLANK, rf)
  {
  }

  /** The first lookup succeeds, and takes its egress list from the table. */
  lemma FirstNext(x: Scene, w: World)
    requires x.Staged() && w == x.With("1", x.file)
    ensures !Fails(x.Config(), w, BLANK, x.client)
    ensures Next(x.Config(), w, BLANK, x.client) == View(map[x.client := Note(w, w, Some(w))], Some(w))
  {
    FileCompiles(x, w);
  }

  lemma FirstAnswer(x: Scene, w: World, rs: Rules)
    requires x.Staged() && w == x.With("1", x.file) && CompiledAs(x.Config(), rs, x.client, Note(w, w, Some(w)))
    ensures rs.egress == x.Inherited()
  {
    assert w.files[x.client].content == Some(x.file);
    var d: Rules :| DefaultAnswer(x.Config(), d, x.client, w.table) && d.egress == rs.egress;
    TableEgress(x, w.table.value, d);
  }

  /** The second finds the hash it knows. */
  lemma SecondKnows(x: Scene, w0: World, w1: World, v: View)
    requires w0 == x.With("1", x.file) && w1 == x.With("2", x.file.(egress := Some([]))) && x.file.egress == None
    requires v == View(map[x.client := Note(w0, w0, Some(w0))], Some(w0))
    ensures HashKnown(w1, v, x.client) && Consistent(v, w1)
    ensures !AtHand(x.Config(), w1, v, x.client) && !Fails(x.Config(), w1, v, x.client)
    ensures Next(x.Config(), w1, v, x.client).notes[x.client].at == w1
  {
    assert Marshalled(x.file.(egress := Some([]))) == Marshalled(x.file);
  }

  /** A client's override has no egress key and is looked up; the key is then added with an
      empty list, which should allow nothing, and it is looked up again. There is no TTL
      and no outage, yet the second answer is the first, inherited list and all. */
  method EmptiedListUnseen(x: Scene) returns (before: Result<Rules>, after: Result<Rules>)
    requires x.Staged()
    ensures before.Ok? && before.value.egress == x.Inherited() && after == before
  {
    var w0, w1 := x.With("1", x.file), x.With("2", x.file.(egress := Some([])));
    var e := new RuleEngine(x.Config());
    before := AskFirst(e, x, w0);
    after := AskAgain(e, x, w0, w1, before.value);
  }

  method AskFirst(e: RuleEngine, x: Scene, w: World) returns (r: Result<Rules>)
    requires x.Staged() && w == x.With("1", x.file) && e.Valid() && e.s == x.Config() && e.view == BLANK
    modifies e
    ensures e.Valid() && r.Ok? && r.value.egress == x.Inherited()
    ensures e.view == View(map[x.client := Note(w, w, Some(w))], Some(w))
    ensures x.client in e.cache && e.cache[x.client].ruleSet == r.value
  {
    FirstNext(x, w);
    r := e.Lookup(x.client, w);
    FirstAnswer(x, w, r.value);
  }

  method AskAgain(e: RuleEngine, x: Scene, w0: World, w1: World, ghost rs: Rules) returns (r: Result<Rules>)
    requires x.Staged() && w0 == x.With("1", x.file) && w1 == x.With("2", x.file.(egress := Some([])))
    requires e.Valid() && e.s == x.Config() && e.view == View(map[x.client := Note(w0, w0, Some(w0))], Some(w0))
    requires x.client in e.cache && e.cache[x.client].ruleSet == rs
    modifies e
    ensures r == Ok(rs)
  {
    SecondKnows(x, w0, w1, e.view);
    r := AskKnown(e, x.client, w1, rs);
  }

  /** A hash that is known is answered by the rules there are. */
  method AskKnown(e: RuleEngine, c: Addr, w: World, ghost rs: Rules) returns (r: Result<Rules>)
    requires e.Valid() && Consistent(e.view, w) && |c.bytes| == Width(c.is4)
    requires HashKnown(w, e.view, c) && !AtHand(e.s, w, e.view, c) && !Fails(e.s, w, e.view, c)
    requires c in e.cache && e.cache[c].ruleSet == rs
    modifies e
    ensures r == Ok(rs)
  {
    e.ReusesIffKnown(c, w);
    r := e.Lookup(c, w);
  }

  lemma AndNothing(b: Byte)
    ensures And(b, 0) == 0
  {
    EightBits();
  }

  lemma ZeroContains(zero: Bytes, is4: bool, ab: Bytes)
    requires AllZero(zero) && |zero| == |ab| == Width(is4)
    ensures Contains(MaskedKey(is4, zero, zero), ab)
  {
    forall i | 0 <= i < |ab| ensures And(ab[i], zero[i]) == zero[i] { AndNothing(ab[i]); }
  }

  /** Such keys are 0.0.0.0/0 and ::/0, so there are such scenes. */
  lemma ZeroIsWhole(zero: Bytes, is4: bool)
    requires AllZero(zero) && |zero| == Width(is4)
    ensures Whole(MaskedKey(is4, zero, zero), is4)
  {
    ZeroIsPrefix(zero, is4);
    var k := MaskedKey(is4, zero, zero);
    forall ab: Bytes | |ab| == Width(is4) ensures Contains(k, ab) { ZeroContains(zero, is4, ab); }
  }

  lemma ZeroIsPrefix(zero: Bytes, is4: bool)
    requires AllZero(zero) && |zero| == Width(is4)
    ensures Normal(MaskedKey(is4, zero, zero)) && PrefixLength(zero) == Some(0)
  {
    ZeroContains(zero, is4, zero);
    ContainsIsMasked(MaskedKey(is4, zero, zero), zero);
    ZeroMaskUnique(zero);
    PrefixLengthIff(zero, 0);
  }

  /** One such scene, with the real reader and writer of keys. */
  function SceneOf(t: AddrText, client: Addr): Scene {
    var anywhere := EgressRule("0.0.0.0/0", "", "", "allow");
    Scene(Compilers(Library(_ => None, _ => false), _ => Some(CompiledEgress((_, _, _) => true, true)), _ => None),
          Netip(t), client,
          MaskedKey(true, PrefixMask(0, 4), PrefixMask(0, 4)), MaskedKey(false, PrefixMask(0, 16), PrefixMask(0, 16)),
          anywhere, RuleFile("bucket", None, [], Some([anywhere])), RuleFile("override", None, [], None))
  }

  lemma SceneIsStaged(t: AddrText, client: Addr)
    requires Faithful(t) && |client.bytes| == Width(client.is4)
    ensures SceneOf(t, client).Staged()
  {
    NetipSound(t);
    ZeroMask(4);
    ZeroMask(16);
    ZeroIsWhole(PrefixMask(0, 4), true);
    ZeroIsWhole(PrefixMask(0, 16), false);
  }
}
