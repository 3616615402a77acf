/** RuleEngine.Lookup (engine.go): the caches, and that every lookup does what EngineView
    says. */
module RuleEngine {
  import opened GoStrings
  import opened MaskedKeys
  import opened KeyMatching
  import opened KeyText
  import opened RuleCompile
  import opened HostLookup
  import opened RuleFiles
  import opened DefaultParse
  import opened DefaultTable
  import opened EngineView

  // ---- Listings of one table ----

  lemma CoveredByThat(a: seq<ParsedEntry>, b: seq<ParsedEntry>, m: Table, is4: bool, ab: Bytes)
    requires AllNormal(a) && AllNormal(b) && Lists(a, m) && Lists(b, m) && |ab| == Width(is4)
    requires PrefixEntryFor(a, is4, ab)
    ensures PrefixEntryFor(b, is4, ab)
  {
    var i :| 0 <= i < |a| && a[i].key.is4 == is4 && PrefixLength(a[i].key.mask).Some? && Contains(a[i].key, ab);
    assert HasEntry(b, a[i].key);
  }

  lemma CoveredInAnyOrder(a: seq<ParsedEntry>, b: seq<ParsedEntry>, m: Table, is4: bool)
    requires AllNormal(a) && AllNormal(b) && Lists(a, m) && Lists(b, m) && FamilyCovered(a, is4)
    ensures FamilyCovered(b, is4)
  {
    forall ab: Bytes | |ab| == Width(is4) ensures PrefixEntryFor(b, is4, ab) {
      CoveredByThat(a, b, m, is4, ab);
    }
  }

  /** Whether a table compiles does not depend on the order its entries are listed in. */
  lemma CompilesInAnyOrder(env: Compilers, a: seq<ParsedEntry>, b: seq<ParsedEntry>, m: Table)
    requires AllNormal(a) && AllNormal(b) && Lists(a, m) && Lists(b, m) && TableCompiles(env, a)
    ensures TableCompiles(env, b)
  {
    CoveredInAnyOrder(a, b, m, true);
    CoveredInAnyOrder(a, b, m, false);
    forall i | 0 <= i < |b| ensures BucketCompiles(env, b[i].rule) {
      assert HasEntry(a, b[i].key);
      var j :| 0 <= j < |a| && a[j].key == b[i].key;
      assert a[j].rule == m[a[j].key] == b[i].rule;
    }
  }

  // ---- Compiled default tables ----

  ghost predicate Listing(env: Compilers, m: Table, d: DefaultRuleset, entries: seq<ParsedEntry>) {
    Compilable(env, m, entries) && TableFor(env, d, entries)
  }

  /** d is what the stored table b compiles to. */
  ghost predicate DefaultRules(s: Config, d: DefaultRuleset, b: Blob) {
    && b.raw.Some? && TableOf(s.codec, b.raw.value).Some?
    && exists entries :: Listing(s.env, TableOf(s.codec, b.raw.value).value, d, entries)
  }

  /** d is what a stored table, or none, compiles to. */
  ghost predicate TableIs(s: Config, table: Option<Blob>, d: Option<DefaultRuleset>) {
    match table
    case None => d.None?
    case Some(b) => d.Some? && DefaultRules(s, d.value, b)
  }

  lemma DefaultRulesOk(s: Config, d: DefaultRuleset, b: Blob)
    requires DefaultRules(s, d, b)
    ensures TableOk(s.env, d) && TableGood(s, Some(b))
  {
    var m := TableOf(s.codec, b.raw.value).value;
    var entries :| Listing(s.env, m, d, entries);
    TableForOk(s.env, d, entries);
    assert Compilable(s.env, m, entries);
  }

  /** parseDefaultRuleset, then compileParsedEntries with whatever was compiled before. */
  method CompileDefault(s: Config, b: Blob, prev: Option<DefaultRuleset>) returns (r: Option<DefaultRuleset>)
    requires Sound(s.codec) && (prev.Some? ==> TableOk(s.env, prev.value))
    ensures r.Some? <==> TableGood(s, Some(b))
    ensures r.Some? ==> DefaultRules(s, r.value, b)
  {
    if b.raw.None? {
      return None;
    }
    var entries := ParseDefaultRuleset(s.codec, b.raw.value);
    if entries.None? {
      return None;
    }
    r := CompileParsedEntries(s.env, s.codec, entries.value, prev);
    ghost var m := TableOf(s.codec, b.raw.value).value;
    if r.Some? {
      assert Listing(s.env, m, r.value, entries.value);
      assert Compilable(s.env, m, entries.value);
    } else if TableGood(s, Some(b)) {
      ghost var other :| Compilable(s.env, m, other);
      CompilesInAnyOrder(s.env, other, entries.value, m);
    }
  }

  lemma ListedIsMatched(env: Compilers, m: Table, d: DefaultRuleset, entries: seq<ParsedEntry>, client: Addr)
    requires Listing(env, m, d, entries) && |client.bytes| == Width(client.is4)
    ensures exists k :: Matching(m, client.is4, client.bytes, k)
  {
    CoveredIsMatched(entries, m, client.is4, client.bytes);
  }

  method FromTable(ghost env: Compilers, ghost m: Table, ghost entries: seq<ParsedEntry>,
                   d: DefaultRuleset, client: Addr)
    returns (rs: Rules)
    requires TableFor(env, d, entries) && Lists(entries, m) && |client.bytes| == Width(client.is4)
    requires exists k :: Matching(m, client.is4, client.bytes, k)
    ensures BestRules(env, rs, client, m)
  {
    var found := Lookup(d, client.is4, client.bytes, env, entries, m);
    rs := if found.Some? then found.value else EMPTY;
  }

  /** The use both callers make of a table: def.Lookup, or the empty rule set. */
  method FromDefault(ghost s: Config, ghost table: Option<Blob>, d: Option<DefaultRuleset>, client: Addr)
    returns (rs: Rules)
    requires TableIs(s, table, d) && |client.bytes| == Width(client.is4)
    ensures DefaultAnswer(s, rs, client, table)
  {
    if d.None? {
      return EMPTY;
    }
    ghost var m := TableOf(s.codec, table.value.raw.value).value;
    ghost var entries :| Listing(s.env, m, d.value, entries);
    ListedIsMatched(s.env, m, d.value, entries, client);
    rs := FromTable(s.env, m, entries, d.value, client);
  }

  // ---- Cache entries ----

  /** The zero rule file. */
  const NOFILE := RuleFile("", None, [], None)

  /** exists_ is false for a client confirmed to have no override; hash is the marshalled
      file, since hashing is injective. */
  datatype CachedRuleSet = CachedRuleSet(checkedAt: int, version: string, exists_: bool,
                                         ruleSet: Rules, hash: RuleFile)

  datatype CachedDefault = CachedDefault(checkedAt: int, version: string, exists_: bool,
                                         ruleset: Option<DefaultRuleset>)

  /** e records what the note says. */
  ghost predicate Records(s: Config, c: Addr, e: CachedRuleSet, n: Note) {
    && e.checkedAt == n.at.now && e.exists_ == (c in n.at.files)
    && if e.exists_
       then e.version == n.at.files[c].version && n.at.files[c].content.Some?
            && e.hash == Marshalled(n.at.files[c].content.value) && CompiledAs(s, e.ruleSet, c, n)
       else e.version == ""
  }

  ghost predicate AllRecorded(s: Config, cache: map<Addr, CachedRuleSet>, notes: map<Addr, Note>) {
    cache.Keys == notes.Keys && forall c | c in cache :: Records(s, c, cache[c], notes[c])
  }

  ghost predicate RecordsTable(s: Config, e: CachedDefault, t: World) {
    && e.checkedAt == t.now && e.exists_ == t.table.Some?
    && e.version == (if e.exists_ then t.table.value.version else "")
    && TableIs(s, t.table, e.ruleset)
  }

  ghost predicate TableRecorded(s: Config, cached: Option<CachedDefault>, t: Option<World>) {
    cached.Some? == t.Some? && (cached.Some? ==> RecordsTable(s, cached.value, t.value))
  }

  lemma Recorded(s: Config, cache: map<Addr, CachedRuleSet>, notes: map<Addr, Note>, c: Addr,
                 e: CachedRuleSet, n: Note)
    requires AllRecorded(s, cache, notes) && Records(s, c, e, n)
    ensures AllRecorded(s, cache[c := e], notes[c := n])
  {
  }

  /** An entry whose version is still the stored one stands for the present too. */
  lemma StillRecords(s: Config, c: Addr, e: CachedRuleSet, n: Note, w: World)
    requires Records(s, c, e, n) && e.exists_ && c in w.files && e.version == w.files[c].version
    requires FileAgrees(n.at, w, c)
    ensures Records(s, c, e.(checkedAt := w.now), n.(at := w))
  {
  }

  /** So does one with the stored file's hash. */
  lemma HashRecords(s: Config, c: Addr, e: CachedRuleSet, n: Note, w: World)
    requires Records(s, c, e, n) && e.exists_ && c in w.files && w.files[c].content.Some?
    requires e.hash == Marshalled(w.files[c].content.value)
    ensures Records(s, c, CachedRuleSet(w.now, w.files[c].version, true, e.ruleSet, e.hash), n.(at := w))
  {
  }

  lemma StillRecordsTable(s: Config, e: CachedDefault, t: World, w: World)
    requires RecordsTable(s, e, t) && TableAgrees(t, w) && e.exists_ == w.table.Some?
    requires e.exists_ ==> e.version == w.table.value.version
    ensures RecordsTable(s, e.(checkedAt := w.now), w)
  {
  }

  // ---- The engine ----

  class RuleEngine {
    const s: Config
    var cache: map<Addr, CachedRuleSet>
    var defaultCache: Option<CachedDefault>
    ghost var view: View

    ghost predicate Valid()
      reads this
    {
      && Sound(s.codec) && ViewOk(s, view)
      && AllRecorded(s, cache, view.notes) && TableRecorded(s, defaultCache, view.table)
    }

    constructor (s: Config)
      requires Sound(s.codec)
      ensures this.s == s && Valid() && view == BLANK && cache == map[]
    {
      this.s, cache, defaultCache, view := s, map[], None, BLANK;
    }

    predicate Fresh(checkedAt: int, now: int) {
      s.ttl > 0 && now - checkedAt < s.ttl
    }

    // ---- The default table ----

    /** lookupDefaultTable: fails exactly when TableFails says, and otherwise returns the
        table of the world last seen, which is then as TableNext says. */
    method LookupDefaultTable(w: World) returns (r: Result<Option<DefaultRuleset>>)
      requires Valid() && Consistent(view, w)
      modifies `defaultCache, `view
      ensures Valid() && view == old(view).(table := TableNext(s, w, old(view)))
      ensures r.Err? <==> TableFails(s, w, old(view))
      ensures r.Ok? ==> view.table.Some? && TableIs(s, view.table.value.table, r.value)
    {
      TableNextOk(s, w, view);
      var cached := defaultCache;
      if cached.Some? && Fresh(cached.value.checkedAt, w.now) {
        return Ok(cached.value.ruleset);
      }
      if w.down.statDefault {
        if s.ttl > 0 && cached.Some? {
          return Ok(cached.value.ruleset);
        }
        return Err("stat");
      }
      var version, present := if w.table.Some? then w.table.value.version else "", w.table.Some?;
      if cached.Some? && cached.value.version == version && cached.value.exists_ == present {
        StillRecordsTable(s, cached.value, view.table.value, w);
        defaultCache := Some(CachedDefault(w.now, version, present, cached.value.ruleset));
        view := view.(table := Some(w));
        return Ok(cached.value.ruleset);
      }
      if !present {
        defaultCache := Some(CachedDefault(w.now, version, false, None));
        view := view.(table := Some(w));
        return Ok(None);
      }
      r := LoadDefaultTable(w, version);
    }

    /** The part of it that compiles. */
    method LoadDefaultTable(w: World, version: string) returns (r: Result<Option<DefaultRuleset>>)
      requires Valid() && w.table.Some? && version == w.table.value.version
      modifies `defaultCache, `view
      ensures r.Err? <==> w.down.loadDefault || !TableGood(s, w.table)
      ensures r.Err? ==> view == old(view) && defaultCache == old(defaultCache)
      ensures r.Ok? ==> view == old(view).(table := Some(w)) && TableIs(s, w.table, r.value)
      ensures Valid()
    {
      if w.down.loadDefault {
        return Err("load");
      }
      var previous := if defaultCache.Some? then defaultCache.value.ruleset else None;
      if previous.Some? { DefaultRulesOk(s, previous.value, view.table.value.table.value); }
      var compiled := CompileDefault(s, w.table.value, previous);
      if compiled.None? {
        return Err("compile");
      }
      defaultCache := Some(CachedDefault(w.now, version, true, compiled));
      view := view.(table := Some(w));
      return Ok(compiled);
    }

    /** The default answer both callers want. */
    method DefaultFor(client: Addr, w: World) returns (r: Result<Rules>)
      requires Valid() && Consistent(view, w) && |client.bytes| == Width(client.is4)
      modifies `defaultCache, `view
      ensures Valid() && view == old(view).(table := TableNext(s, w, old(view)))
      ensures r.Err? <==> TableFails(s, w, old(view))
      ensures r.Ok? ==> view.table.Some? && DefaultAnswer(s, r.value, client, view.table.value.table)
    {
      var def := LookupDefaultTable(w);
      if def.Err? {
        return Err(def.reason);
      }
      var rs := FromDefault(s, view.table.value.table, def.value, client);
      return Ok(rs);
    }

    // ---- Overrides ----

    /** resolveClientCache. */
    method ResolveClientCache(client: Addr, cached: CachedRuleSet, w: World) returns (r: Result<Rules>)
      requires Valid() && Consistent(view, w) && |client.bytes| == Width(client.is4)
      requires client in cache && cached == cache[client]
      modifies `defaultCache, `view
      ensures Valid()
      ensures view == if cached.exists_ then old(view) else old(view).(table := TableNext(s, w, old(view)))
      ensures r.Err? <==> !cached.exists_ && TableFails(s, w, old(view))
      ensures r.Ok? ==> Answer(s, view, client, r.value)
      ensures cached.exists_ ==> r == Ok(cached.ruleSet)
    {
      assert Records(s, client, cached, view.notes[client]);
      if cached.exists_ {
        return Ok(cached.ruleSet);
      }
      r := DefaultFor(client, w);
    }

    /** resolveEgress: the override's own list, or the default table's for this client. */
    method ResolveEgress(client: Addr, rf: RuleFile, w: World) returns (r: Result<seq<CompiledEgress>>)
      requires Valid() && Consistent(view, w) && |client.bytes| == Width(client.is4)
      modifies `defaultCache, `view
      ensures Valid()
      ensures view == if rf.egress.Some? then old(view) else old(view).(table := TableNext(s, w, old(view)))
      ensures match rf.egress
              case Some(rules) => if r.Ok? then CompileEgress(s.env, rules) == Some(r.value)
                                  else CompileEgress(s.env, rules).None?
              case None => if r.Ok? then view.table.Some? && Inherits(s, r.value, client, view.table.value.table)
                           else TableFails(s, w, old(view))
      ensures rf.egress.None? && r.Ok? ==> !TableFails(s, w, old(view))
    {
      if rf.egress.Some? {
        var own := CompileEgress(s.env, rf.egress.value);
        return if own.Some? then Ok(own.value) else Err("egress");
      }
      var d := DefaultFor(client, w);
      if d.Err? {
        return Err(d.reason);
      }
      return Ok(d.value.egress);
    }

    /** The part of lookupIP that compiles from scratch. */
    method CompileOverride(client: Addr, rf: RuleFile, w: World) returns (r: Result<Rules>)
      requires Valid() && Consistent(view, w) && |client.bytes| == Width(client.is4)
      modifies `defaultCache, `view
      ensures Valid()
      ensures r.Err? <==> CompileFails(s, w, old(view), rf)
      ensures view == old(view).(table := TableAfterCompile(s, w, old(view), rf))
      ensures r.Ok? ==> CompiledFrom(s, r.value, rf, client, if rf.egress.None? then view.table else None)
    {
      var auth := CompileAuth(s.env, rf.auth);
      if auth.None? {
        return Err("auth");
      }
      var compiled := Compile(s.env.lib, rf.http);
      if compiled.None? {
        return Err("rules");
      }
      var egress := ResolveEgress(client, rf, w);
      if egress.Err? {
        return Err(egress.reason);
      }
      var rs := NewRuleSet(compiled.value, egress.value, rf.uuid, auth.value);
      return Ok(rs);
    }

    /** The stored override has the hash of the one compiled before. */
    predicate Reuses(client: Addr, w: World)
      reads `cache
    {
      && client in cache && cache[client].exists_ && client in w.files && w.files[client].content.Some?
      && cache[client].hash == Marshalled(w.files[client].content.value)
    }

    lemma ReusesIffKnown(client: Addr, w: World)
      requires Valid()
      ensures Reuses(client, w) <==> HashKnown(w, view, client)
    {
      if client in cache { assert Records(s, client, cache[client], view.notes[client]); }
    }

    /** The cache takes in an override just made sure of. */
    method Store(client: Addr, e: CachedRuleSet, ghost n: Note)
      requires Valid() && Records(s, client, e, n) && NoteOk(s, client, n)
      modifies `cache, `view
      ensures Valid() && cache == old(cache)[client := e]
      ensures view == old(view).(notes := old(view).notes[client := n])
    {
      Recorded(s, cache, view.notes, client, e, n);
      cache := cache[client := e];
      view := view.(notes := view.notes[client := n]);
    }

    /** lookupIP: compiles the override the client has now, unless its hash is the one
        that was compiled before. */
    method LookupIP(client: Addr, w: World) returns (r: Result<Rules>)
      requires Valid() && Consistent(view, w) && |client.bytes| == Width(client.is4) && client in w.files
      requires !AtHand(s, w, view, client) && !w.down.stat && !Unchanged(w, view, client)
      modifies this
      ensures Valid() && view == Next(s, w, old(view), client)
      ensures r.Err? <==> Fails(s, w, old(view), client)
      ensures r.Ok? ==> Answer(s, view, client, r.value) && cache[client].ruleSet == r.value
      ensures r.Err? ==> cache == old(cache)
      ensures r.Ok? && old(Reuses(client, w)) ==> r.value == old(cache[client].ruleSet)
    {
      NoteNextOk(s, w, view, client);
      ReusesIffKnown(client, w);
      if w.down.load || w.files[client].content.None? {
        return Err("load");
      }
      var f, rf := w.files[client], w.files[client].content.value;
      if Reuses(client, w) {
        var e := cache[client];
        assert Records(s, client, e, view.notes[client]);
        HashRecords(s, client, e, view.notes[client], w);
        Store(client, CachedRuleSet(w.now, f.version, true, e.ruleSet, e.hash), view.notes[client].(at := w));
        return Ok(e.ruleSet);
      }
      r := CompileOverride(client, rf, w);
      if r.Ok? {
        ghost var n := Note(w, w, if rf.egress.None? then view.table else None);
        Store(client, CachedRuleSet(w.now, f.version, true, r.value, Marshalled(rf)), n);
      }
    }

    // ---- Lookup ----

    /** Lookup with an entry at hand. */
    method FromCache(client: Addr, w: World) returns (r: Result<Rules>)
      requires Valid() && Consistent(view, w) && |client.bytes| == Width(client.is4) && AtHand(s, w, view, client)
      modifies `defaultCache, `view
      ensures Valid() && view == Next(s, w, old(view), client)
      ensures r.Err? <==> Fails(s, w, old(view), client)
      ensures r.Ok? ==> Answer(s, view, client, r.value)
      ensures client in cache && (cache[client].exists_ ==> r == Ok(cache[client].ruleSet))
    {
      assert Records(s, client, cache[client], view.notes[client]);
      assert view.notes[client := view.notes[client]] == view.notes;
      r := ResolveClientCache(client, cache[client], w);
    }

    /** An entry just made sure of is kept and served. */
    method Confirm(client: Addr, e: CachedRuleSet, ghost n: Note, w: World) returns (r: Result<Rules>)
      requires Valid() && Consistent(view, w) && |client.bytes| == Width(client.is4)
      requires Records(s, client, e, n) && NoteOk(s, client, n) && n.at == w
      modifies this
      ensures Valid() && cache == old(cache)[client := e]
      ensures view == View(old(view).notes[client := n],
                           if e.exists_ then old(view).table else TableNext(s, w, old(view)))
      ensures r.Err? <==> !e.exists_ && TableFails(s, w, old(view))
      ensures r.Ok? ==> Answer(s, view, client, r.value)
      ensures e.exists_ ==> r == Ok(e.ruleSet)
    {
      Store(client, e, n);
      r := ResolveClientCache(client, e, w);
    }

    /** Lookup once Stat has found an override. */
    method WithOverride(client: Addr, w: World) returns (r: Result<Rules>)
      requires Valid() && Consistent(view, w) && |client.bytes| == Width(client.is4) && client in w.files
      requires !AtHand(s, w, view, client) && !w.down.stat
      modifies this
      ensures Valid() && view == Next(s, w, old(view), client)
      ensures r.Err? <==> Fails(s, w, old(view), client)
      ensures r.Ok? ==> Answer(s, view, client, r.value) && client in cache && cache[client].ruleSet == r.value
      ensures r.Ok? && old(Reuses(client, w)) ==> r.value == old(cache[client].ruleSet)
    {
      if client in cache { assert Records(s, client, cache[client], view.notes[client]); }
      if client in cache && cache[client].version == w.files[client].version && cache[client].exists_ {
        NoteNextOk(s, w, view, client);
        StillRecords(s, client, cache[client], view.notes[client], w);
        r := Confirm(client, cache[client].(checkedAt := w.now), view.notes[client].(at := w), w);
      } else {
        r := LookupIP(client, w);
      }
    }

    /** Lookup once Stat has found none. */
    method WithoutOverride(client: Addr, w: World) returns (r: Result<Rules>)
      requires Valid() && Consistent(view, w) && |client.bytes| == Width(client.is4) && client !in w.files
      requires !AtHand(s, w, view, client) && !w.down.stat
      modifies this
      ensures Valid() && view == Next(s, w, old(view), client)
      ensures r.Err? <==> Fails(s, w, old(view), client)
      ensures r.Ok? ==> Answer(s, view, client, r.value)
    {
      var e := CachedRuleSet(w.now, "", false, EMPTY, NOFILE);
      if client in cache && cache[client].version == "" && !cache[client].exists_ {
        e := cache[client].(checkedAt := w.now);
      }
      r := Confirm(client, e, Note(w, w, None), w);
    }

    /** Lookup: fails exactly when the view says, answers by what it has then seen, and has
        then seen what the view says. An override is answered with the rules cached for it. */
    method Lookup(client: Addr, w: World) returns (r: Result<Rules>)
      requires Valid() && Consistent(view, w) && |client.bytes| == Width(client.is4)
      modifies this
      ensures Valid() && view == Next(s, w, old(view), client)
      ensures r.Err? <==> Fails(s, w, old(view), client)
      ensures r.Ok? ==> Answer(s, view, client, r.value) && AnswerSpeaks(s, view, client, r.value)
      ensures r.Ok? && client in view.notes[client].at.files ==> client in cache && cache[client].ruleSet == r.value
      ensures r.Ok? && old(Reuses(client, w)) && !AtHand(s, w, old(view), client)
              ==> r.value == old(cache[client].ruleSet)
    {
      if client in cache { assert Records(s, client, cache[client], view.notes[client]); }
      if client in cache && Fresh(cache[client].checkedAt, w.now) {
        r := FromCache(client, w);
        if r.Ok? { AnswerMeans(s, view, client, r.value); }
        return;
      }
      if w.down.stat {
        if s.ttl > 0 && client in cache {
          r := FromCache(client, w);
          if r.Ok? { AnswerMeans(s, view, client, r.value); }
          return;
        }
        assert client in view.notes ==> view.notes[client := view.notes[client]] == view.notes;
        return Err("stat");
      }
      if client in w.files {
        r := WithOverride(client, w);
      } else {
        r := WithoutOverride(client, w);
      }
      if r.Ok? { AnswerMeans(s, view, client, r.value); }
    }
  }

  // ---- The emptied list ----

  /** A file whose egress key is there but empty should allow nothing. After a lookup that
      looked at it, it does exactly unless the cache held the same hash with a list. */
  method EmptyListObserved(e: RuleEngine, client: Addr, w: World) returns (r: Result<Rules>)
    requires e.Valid() && Consistent(e.view, w) && |client.bytes| == Width(client.is4)
    requires !AtHand(e.s, w, e.view, client)
    requires client in w.files && w.files[client].content.Some? && w.files[client].content.value.egress == Some([])
    modifies e
    ensures e.Valid()
    ensures r.Ok? ==> (r.value.egress == [] <==>
                         !(old(e.Reuses(client, w)) && old(e.cache[client].ruleSet.egress) != []))
  {
    e.ReusesIffKnown(client, w);
    if client in e.view.notes { assert FileAgrees(e.view.notes[client].at, w, client); }
    r := e.Lookup(client, w);
  }

  /** The table last seen once rf has been compiled, or found not to compile. */
  ghost function TableAfterCompile(s: Config, w: World, v: View, rf: RuleFile): Option<World> {
    if CompileAuth(s.env, rf.auth).Some? && Compile(s.env.lib, rf.http).Some? && rf.egress.None?
    then TableNext(s, w, v) else v.table
  }
}
