/** What RuleEngine.Lookup should do (rules/engine.go), on values alone: what the engine
    last saw of storage, when a lookup fails, what it answers and what it has seen then. */
module EngineView {
  import opened GoStrings
  import opened MaskedKeys
  import opened KeyText
  import opened RuleCompile
  import opened HostLookup
  import opened RuleFiles
  import opened DefaultParse
  import opened DefaultTable

  // ---- Storage ----

  datatype Addr = Addr(is4: bool, bytes: Bytes)

  /** A stored rule file; content is None when it does not decode. */
  datatype File = File(version: string, content: Option<RuleFile>)

  /** The stored default table; raw is None when it is not a JSON object. */
  datatype Blob = Blob(version: string, raw: Option<seq<RawEntry>>)

  /** Which storage calls fail. */
  datatype Outage = Outage(stat: bool, load: bool, statDefault: bool, loadDefault: bool)

  const NOOUTAGE := Outage(false, false, false, false)

  /** Storage and clock at one moment. */
  datatype World = World(now: int, files: map<Addr, File>, table: Option<Blob>, down: Outage)

  /** The contract of storage.Version: two reads of a key that return equal versions
      return equal contents. */
  ghost predicate FileAgrees(a: World, b: World, c: Addr) {
    c in a.files && c in b.files && a.files[c].version == b.files[c].version
    ==> a.files[c].content == b.files[c].content
  }

  ghost predicate TableAgrees(a: World, b: World) {
    a.table.Some? && b.table.Some? && a.table.value.version == b.table.value.version
    ==> a.table.value.raw == b.table.value.raw
  }

  datatype Config = Config(env: Compilers, codec: KeyCodec, ttl: nat)

  // ---- What stored contents mean ----

  /** rs is the best bucket's rules, or nothing at all when no table is stored. */
  ghost predicate DefaultAnswer(s: Config, rs: Rules, client: Addr, table: Option<Blob>) {
    match table
    case None => rs == EMPTY
    case Some(b) =>
      && b.raw.Some? && TableOf(s.codec, b.raw.value).Some?
      && BestRules(s.env, rs, client, TableOf(s.codec, b.raw.value).value)
  }

  ghost predicate BestRules(env: Compilers, rs: Rules, client: Addr, m: Table) {
    exists k :: Best(m, client.is4, client.bytes, k) && BucketRules(env, rs, m[k])
  }

  /** Nothing is stored, or it parses and some listing of it compiles; by
      CompilesInAnyOrder it does not matter which. */
  ghost predicate TableGood(s: Config, table: Option<Blob>) {
    match table
    case None => true
    case Some(b) =>
      && b.raw.Some? && TableOf(s.codec, b.raw.value).Some?
      && exists entries :: Compilable(s.env, TableOf(s.codec, b.raw.value).value, entries)
  }

  ghost predicate Compilable(env: Compilers, m: Table, entries: seq<ParsedEntry>) {
    AllNormal(entries) && Lists(entries, m) && TableCompiles(env, entries)
  }

  ghost predicate Inherits(s: Config, egress: seq<CompiledEgress>, client: Addr, table: Option<Blob>) {
    exists d: Rules :: DefaultAnswer(s, d, client, table) && d.egress == egress
  }

  /** rs is rule file rf compiled: with its own egress list if the key is there, be it
      empty, else with the default egress of the table of world from. */
  ghost predicate CompiledFrom(s: Config, rs: Rules, rf: RuleFile, client: Addr, from: Option<World>) {
    && Usable(rs)
    && Compile(s.env.lib, rf.http) == Some(rs.rules)
    && CompileAuth(s.env, rf.auth) == Some(rs.auth)
    && rs.uuid == rf.uuid
    && match rf.egress
       case Some(rules) => CompileEgress(s.env, rules) == Some(rs.egress)
       case None => from.Some? && Inherits(s, rs.egress, client, from.value.table)
  }

  // ---- What a hash can tell ----

  predicate OwnEgress(rf: RuleFile) {
    rf.egress.Some? && rf.egress.value != []
  }

  /** The content hash tells two override files apart unless they differ only in an
      absent against an empty egress list. */
  lemma HashBlindSpot(a: RuleFile, b: RuleFile)
    ensures Marshalled(a) == Marshalled(b)
            <==> a == b || (!OwnEgress(a) && !OwnEgress(b) && a.(egress := None) == b.(egress := None))
  {
  }

  // ---- What the engine has seen ----

  /** What it knows of a client: the world in which it last made sure of the client's
      override, the one in which it compiled it, and the one whose default table that
      compilation drew its egress from, if it did. */
  datatype Note = Note(at: World, made: World, from: Option<World>)

  /** And the world in which it last made sure of the default table. */
  datatype View = View(notes: map<Addr, Note>, table: Option<World>)

  const BLANK := View(map[], None)

  /** a is still trusted in w without asking. */
  predicate Young(s: Config, a: World, w: World) {
    s.ttl > 0 && w.now - a.now < s.ttl
  }

  // ---- The default table ----

  /** The table last seen is served whatever storage says. */
  predicate TableAtHand(s: Config, w: World, v: View) {
    v.table.Some? && (Young(s, v.table.value, w) || (s.ttl > 0 && w.down.statDefault))
  }

  predicate SameTable(a: World, b: World) {
    a.table.Some? == b.table.Some? && (a.table.Some? ==> a.table.value.version == b.table.value.version)
  }

  /** Looking the table up fails: StatDefault does with nothing at hand, or a new version is
      there and does not load or compile. */
  ghost predicate TableFails(s: Config, w: World, v: View) {
    && !TableAtHand(s, w, v)
    && (w.down.statDefault
        || (w.table.Some? && !(v.table.Some? && SameTable(v.table.value, w))
            && (w.down.loadDefault || !TableGood(s, w.table))))
  }

  ghost function TableNext(s: Config, w: World, v: View): Option<World> {
    if TableAtHand(s, w, v) || TableFails(s, w, v) then v.table else Some(w)
  }

  // ---- Overrides ----

  /** What was last seen of the client is served whatever storage says. */
  predicate AtHand(s: Config, w: World, v: View, c: Addr) {
    c in v.notes && (Young(s, v.notes[c].at, w) || (s.ttl > 0 && w.down.stat))
  }

  /** The override has the version last seen. */
  predicate Unchanged(w: World, v: View, c: Addr) {
    && c in v.notes && c in v.notes[c].at.files && c in w.files
    && v.notes[c].at.files[c].version == w.files[c].version
  }

  /** The override has the hash last seen. */
  predicate HashKnown(w: World, v: View, c: Addr) {
    && c in v.notes && c in v.notes[c].at.files && c in w.files
    && v.notes[c].at.files[c].content.Some? && w.files[c].content.Some?
    && Marshalled(v.notes[c].at.files[c].content.value) == Marshalled(w.files[c].content.value)
  }

  ghost predicate CompileFails(s: Config, w: World, v: View, rf: RuleFile) {
    || CompileAuth(s.env, rf.auth).None? || Compile(s.env.lib, rf.http).None?
    || match rf.egress
       case Some(rules) => CompileEgress(s.env, rules).None?
       case None => TableFails(s, w, v)
  }

  /** Taking in a new version fails: it does not load, or has to be compiled and cannot be. */
  ghost predicate OverrideFails(s: Config, w: World, v: View, c: Addr)
    requires c in w.files
  {
    || w.down.load || w.files[c].content.None?
    || (!HashKnown(w, v, c) && CompileFails(s, w, v, w.files[c].content.value))
  }

  /** Lookup fails. */
  ghost predicate Fails(s: Config, w: World, v: View, c: Addr) {
    if AtHand(s, w, v, c) then c !in v.notes[c].at.files && TableFails(s, w, v)
    else w.down.stat || if c in w.files then !Unchanged(w, v, c) && OverrideFails(s, w, v, c) else TableFails(s, w, v)
  }

  /** Lookup turns to the default table: for its answer, or for the egress list of an
      override that compiles otherwise. */
  predicate AsksTable(s: Config, w: World, v: View, c: Addr) {
    if AtHand(s, w, v, c) then c !in v.notes[c].at.files
    else if w.down.stat then false
    else if c in w.files then
      && !Unchanged(w, v, c) && !w.down.load && w.files[c].content.Some? && !HashKnown(w, v, c)
      && CompileAuth(s.env, w.files[c].content.value.auth).Some?
      && Compile(s.env.lib, w.files[c].content.value.http).Some? && w.files[c].content.value.egress.None?
    else true
  }

  /** What is known of the client after a lookup. */
  ghost function NoteNext(s: Config, w: World, v: View, c: Addr): Option<Note> {
    var before := if c in v.notes then Some(v.notes[c]) else None;
    if AtHand(s, w, v, c) || w.down.stat then before
    else if c !in w.files then Some(Note(w, w, None))
    else if Unchanged(w, v, c) then Some(v.notes[c].(at := w))
    else if OverrideFails(s, w, v, c) then before
    else if HashKnown(w, v, c) then Some(v.notes[c].(at := w))
    else Some(Note(w, w, if w.files[c].content.value.egress.None? then TableNext(s, w, v) else None))
  }

  ghost function Next(s: Config, w: World, v: View, c: Addr): View {
    var note := NoteNext(s, w, v, c);
    View(if note.Some? then v.notes[c := note.value] else v.notes,
         if AsksTable(s, w, v, c) then TableNext(s, w, v) else v.table)
  }

  // ---- The answer ----

  ghost predicate CompiledAs(s: Config, rs: Rules, c: Addr, n: Note) {
    && c in n.made.files && n.made.files[c].content.Some?
    && CompiledFrom(s, rs, n.made.files[c].content.value, c, n.from)
  }

  /** rs is the answer by what has been seen: the override's rules, else the best default
      bucket's, else none. */
  ghost predicate Answer(s: Config, v: View, c: Addr, rs: Rules) {
    && c in v.notes
    && if c in v.notes[c].at.files then CompiledAs(s, rs, c, v.notes[c])
       else v.table.Some? && DefaultAnswer(s, rs, c, v.table.value.table)
  }

  // ---- What every view has in common ----

  /** Table world t was in use in world w. */
  predicate TableInUse(s: Config, t: World, w: World) {
    t == w || Young(s, t, w) || (s.ttl > 0 && w.down.statDefault)
  }

  /** An override last seen is one that decoded, and was compiled from a file with its hash. */
  ghost predicate NoteOk(s: Config, c: Addr, n: Note) {
    c in n.at.files ==>
      && n.at.files[c].content.Some? && c in n.made.files && n.made.files[c].content.Some?
      && Marshalled(n.made.files[c].content.value) == Marshalled(n.at.files[c].content.value)
      && (n.from.Some? ==> TableInUse(s, n.from.value, n.made) && TableGood(s, n.from.value.table))
  }

  ghost predicate ViewOk(s: Config, v: View) {
    && (forall c | c in v.notes :: NoteOk(s, c, v.notes[c]))
    && (v.table.Some? ==> TableGood(s, v.table.value.table))
  }

  /** Versions tell what w holds apart from what was seen before. */
  ghost predicate Consistent(v: View, w: World) {
    && (forall c | c in v.notes :: FileAgrees(v.notes[c].at, w, c))
    && (v.table.Some? ==> TableAgrees(v.table.value, w))
  }

  lemma TableNextOk(s: Config, w: World, v: View)
    requires ViewOk(s, v) && Consistent(v, w)
    ensures TableNext(s, w, v).Some? ==> TableGood(s, TableNext(s, w, v).value.table)
    ensures !TableFails(s, w, v) ==> TableNext(s, w, v).Some? && TableInUse(s, TableNext(s, w, v).value, w)
  {
  }

  lemma NoteNextOk(s: Config, w: World, v: View, c: Addr)
    requires ViewOk(s, v) && Consistent(v, w)
    ensures NoteNext(s, w, v, c).Some? ==> NoteOk(s, c, NoteNext(s, w, v, c).value)
  {
    TableNextOk(s, w, v);
    if c in v.notes { assert NoteOk(s, c, v.notes[c]) && FileAgrees(v.notes[c].at, w, c); }
  }

  lemma NextOk(s: Config, w: World, v: View, c: Addr)
    requires ViewOk(s, v) && Consistent(v, w)
    ensures ViewOk(s, Next(s, w, v, c))
  {
    TableNextOk(s, w, v);
    NoteNextOk(s, w, v, c);
  }

  // ---- What the machine promises ----

  /** Whatever is answered was last made sure of in this world, or less than a TTL ago, or
      with a TTL earlier while Stat fails; the same for the default table. */
  lemma AnswersAreRecent(s: Config, w: World, v: View, c: Addr)
    requires !Fails(s, w, v, c)
    ensures var v' := Next(s, w, v, c);
            && c in v'.notes
            && var a := v'.notes[c].at;
               && (a == w || Young(s, a, w) || (s.ttl > 0 && w.down.stat))
               && (c !in a.files ==> v'.table.Some? && TableInUse(s, v'.table.value, w))
  {
  }

  /** An override with a non-empty list of its own is answered by exactly what it says. */
  lemma OwnEgressIsExact(s: Config, v: View, c: Addr, rs: Rules)
    requires ViewOk(s, v) && Answer(s, v, c, rs) && c in v.notes[c].at.files
    requires OwnEgress(v.notes[c].at.files[c].content.value)
    ensures CompileEgress(s.env, v.notes[c].at.files[c].content.value.egress.value) == Some(rs.egress)
  {
    assert NoteOk(s, c, v.notes[c]);
    HashBlindSpot(v.notes[c].made.files[c].content.value, v.notes[c].at.files[c].content.value);
  }

  /** Override f compiles, leaning on the default table when it has no egress key. */
  ghost predicate OverrideGood(s: Config, f: File, table: Option<Blob>) {
    && f.content.Some?
    && CompileAuth(s.env, f.content.value.auth).Some? && Compile(s.env.lib, f.content.value.http).Some?
    && match f.content.value.egress
       case None => TableGood(s, table)
       case Some(rules) => CompileEgress(s.env, rules).Some?
  }

  /** With these contents the client has an answer. */
  ghost predicate Answerable(s: Config, w: World, c: Addr) {
    if c in w.files then OverrideGood(s, w.files[c], w.table) else TableGood(s, w.table)
  }

  lemma TableFailsIff(s: Config, w: World, v: View)
    requires ViewOk(s, v) && Consistent(v, w) && s.ttl == 0 && w.down == NOOUTAGE
    ensures TableFails(s, w, v) <==> !TableGood(s, w.table)
  {
  }

  /** With no TTL and no outage a lookup succeeds exactly if the contents stored now have an
      answer or their hash is the one last seen; and it answers by those contents. */
  lemma CurrentAnswer(s: Config, w: World, v: View, c: Addr)
    requires ViewOk(s, v) && Consistent(v, w) && s.ttl == 0 && w.down == NOOUTAGE
    ensures !Fails(s, w, v, c) <==> Answerable(s, w, c) || HashKnown(w, v, c)
    ensures !Fails(s, w, v, c) ==> Next(s, w, v, c).notes[c].at == w
    ensures !Fails(s, w, v, c) && c !in w.files ==> Next(s, w, v, c).table == Some(w)
  {
    TableFailsIff(s, w, v);
    if c in v.notes { assert NoteOk(s, c, v.notes[c]) && FileAgrees(v.notes[c].at, w, c); }
  }

  /** A version that has not changed is not loaded: whatever else is down, the lookup
      succeeds with the rules compiled before. */
  lemma UnchangedIsNotLoaded(s: Config, w: World, v: View, c: Addr)
    requires !w.down.stat && !AtHand(s, w, v, c) && Unchanged(w, v, c)
    ensures !Fails(s, w, v, c) && Next(s, w, v, c) == v.(notes := v.notes[c := v.notes[c].(at := w)])
  {
  }

  /** While Stat fails, a client last seen with an override gets the rules it had: nothing
      that was seen changes. */
  lemma OverrideOutlivesStat(s: Config, w: World, v: View, c: Addr)
    requires s.ttl > 0 && w.down.stat && c in v.notes && c in v.notes[c].at.files
    ensures !Fails(s, w, v, c) && Next(s, w, v, c) == v
  {
  }

  /** And one last seen without, as long as the default table was seen, does not fail for
      StatDefault either. */
  lemma DefaultOutlivesStat(s: Config, w: World, v: View, c: Addr)
    requires s.ttl > 0 && w.down.stat && w.down.statDefault && c in v.notes && v.table.Some?
    ensures !Fails(s, w, v, c) && Next(s, w, v, c) == v
  {
  }

  /** What was last made sure of never gets older. */
  lemma NothingGoesBack(s: Config, w: World, v: View, c: Addr, a: Addr)
    requires a in v.notes
    ensures var v' := Next(s, w, v, c);
            && a in v'.notes && (v'.notes[a].at == v.notes[a].at || v'.notes[a].at == w)
            && (a != c ==> v'.notes[a] == v.notes[a])
            && (v.table.Some? ==> v'.table == v.table || v'.table == Some(w))
  {
  }

  lemma SameEgress(s: Config, a: seq<CompiledEgress>, b: seq<CompiledEgress>, c: Addr, table: Option<Blob>)
    requires Inherits(s, a, c, table) && Inherits(s, b, c, table)
    ensures a == b
  {
    var d: Rules :| DefaultAnswer(s, d, c, table) && d.egress == a;
    var e: Rules :| DefaultAnswer(s, e, c, table) && e.egress == b;
    if table.Some? { SameBest(s, d, e, c, TableOf(s.codec, table.value.raw.value).value); }
  }

  lemma SameBest(s: Config, d: Rules, e: Rules, c: Addr, m: Table)
    requires BestRules(s.env, d, c, m) && BestRules(s.env, e, c, m)
    ensures Alike(d, e)
  {
    var i :| Best(m, c.is4, c.bytes, i) && BucketRules(s.env, d, m[i]);
    var j :| Best(m, c.is4, c.bytes, j) && BucketRules(s.env, e, m[j]);
    BestUnique(m, c.is4, c.bytes, i, j);
  }

  /** Compiled from the same file, with egress from the same table, is the same policy. */
  lemma CompiledAlike(s: Config, c: Addr, n: Note, n': Note, a: Rules, b: Rules)
    requires CompiledAs(s, a, c, n) && CompiledAs(s, b, c, n') && n.made == n'.made && n.from == n'.from
    ensures Alike(a, b)
  {
    if n.made.files[c].content.value.egress.None? {
      SameEgress(s, a.egress, b.egress, c, n.from.value.table);
    }
  }

  /** What has been seen determines the answer, but for how its index is laid out. */
  lemma AnswerUnique(s: Config, v: View, c: Addr, a: Rules, b: Rules)
    requires Answer(s, v, c, a) && Answer(s, v, c, b)
    ensures Alike(a, b)
  {
    if c in v.notes[c].at.files {
      CompiledAlike(s, c, v.notes[c], v.notes[c], a, b);
    } else if v.table.value.table.Some? {
      SameBest(s, a, b, c, TableOf(s.codec, v.table.value.table.value.raw.value).value);
    }
  }

  // ---- What an answer says of the stored documents ----

  /** The egress list of the best bucket, or none when no table is stored. */
  ghost predicate DefaultEgress(s: Config, egress: seq<CompiledEgress>, client: Addr, table: Option<Blob>) {
    match table
    case None => egress == []
    case Some(b) =>
      && b.raw.Some? && TableOf(s.codec, b.raw.value).Some?
      && var m := TableOf(s.codec, b.raw.value).value;
         exists k :: Best(m, client.is4, client.bytes, k)
                     && EgressOf(s.env, egress, if m[k].egress.Some? then m[k].egress.value else [])
  }

  /** rs says what the best bucket says, or nothing when no table is stored. */
  ghost predicate DefaultSpeaks(s: Config, rs: Rules, client: Addr, table: Option<Blob>) {
    match table
    case None => rs.rules == [] && rs.auth.None? && rs.uuid == ""
    case Some(b) =>
      && b.raw.Some? && TableOf(s.codec, b.raw.value).Some?
      && var m := TableOf(s.codec, b.raw.value).value;
         exists k :: Best(m, client.is4, client.bytes, k) && Speaks(s.env, rs, m[k])
  }

  lemma DefaultMeans(s: Config, rs: Rules, client: Addr, table: Option<Blob>)
    requires DefaultAnswer(s, rs, client, table)
    ensures DefaultSpeaks(s, rs, client, table) && DefaultEgress(s, rs.egress, client, table)
  {
    if table.Some? {
      var m := TableOf(s.codec, table.value.raw.value).value;
      var k :| Best(m, client.is4, client.bytes, k) && BucketRules(s.env, rs, m[k]);
      BucketMeans(s.env, rs, m[k]);
    }
  }

  /** An override's answer is its file's rules, gate and name, and its egress list if it has
      the key, else the default one. */
  lemma OverrideMeans(s: Config, rs: Rules, rf: RuleFile, client: Addr, from: Option<World>)
    requires CompiledFrom(s, rs, rf, client, from)
    ensures Speaks(s.env, rs, rf)
    ensures rf.egress.Some? ==> EgressOf(s.env, rs.egress, rf.egress.value)
    ensures rf.egress.None? ==> from.Some? && DefaultEgress(s, rs.egress, client, from.value.table)
  {
    AuthMeans(s.env, rf.auth);
    if rf.egress.Some? {
      EgressEach(s.env, rf.egress.value);
    } else {
      var d: Rules :| DefaultAnswer(s, d, client, from.value.table) && d.egress == rs.egress;
      DefaultMeans(s, d, client, from.value.table);
    }
  }

  /** What is answered has the name, the rules and the gate of the document last seen: the
      override, or else the best bucket. */
  ghost predicate AnswerSpeaks(s: Config, v: View, c: Addr, rs: Rules) {
    && c in v.notes
    && if c in v.notes[c].at.files then
         v.notes[c].at.files[c].content.Some? && Speaks(s.env, rs, v.notes[c].at.files[c].content.value)
       else v.table.Some? && DefaultSpeaks(s, rs, c, v.table.value.table)
  }

  lemma AnswerMeans(s: Config, v: View, c: Addr, rs: Rules)
    requires ViewOk(s, v) && Answer(s, v, c, rs)
    ensures AnswerSpeaks(s, v, c, rs)
  {
    if c in v.notes[c].at.files {
      var n := v.notes[c];
      assert NoteOk(s, c, n);
      OverrideMeans(s, rs, n.made.files[c].content.value, c, n.from);
      HashBlindSpot(n.made.files[c].content.value, n.at.files[c].content.value);
    } else {
      DefaultMeans(s, rs, c, v.table.value.table);
    }
  }
}
