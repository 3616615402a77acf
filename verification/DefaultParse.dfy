/** Reading and writing the rules/default table: parseDefaultRuleset and
    marshalCanonical. */
module DefaultParse {
  import opened GoStrings
  import opened KeyMatching
  import opened KeyText
  import opened RuleFiles

  /** One member of the JSON object in source order; value is None when it does not
      decode as a rule file. */
  datatype RawEntry = RawEntry(key: string, value: Option<RuleFile>)

  datatype ParsedEntry = ParsedEntry(key: MaskedKey, rule: RuleFile)

  type Table = map<MaskedKey, RuleFile>

  /** The table by definition: entries read in order, a later one replacing an earlier
      one with the same key; any bad entry rejects the whole. */
  function TableOf(c: KeyCodec, raw: seq<RawEntry>): Option<Table> {
    if raw == [] then Some(map[])
    else
      var last := raw[|raw| - 1];
      match (TableOf(c, raw[..|raw| - 1]), c.read(last.key), last.value)
      case (Some(m), Some(k), Some(rf)) => Some(m[k := rf])
      case _ => None
  }

  ghost predicate HasEntry(entries: seq<ParsedEntry>, k: MaskedKey) {
    exists i | 0 <= i < |entries| :: entries[i].key == k
  }

  /** entries lists the table m, each key once. */
  ghost predicate Lists(entries: seq<ParsedEntry>, m: Table) {
    && (forall i | 0 <= i < |entries| :: entries[i].key in m && m[entries[i].key] == entries[i].rule)
    && (forall k | k in m :: HasEntry(entries, k))
    && (forall i, j | 0 <= i < j < |entries| :: entries[i].key != entries[j].key)
  }

  ghost predicate AllNormal(entries: seq<ParsedEntry>) {
    forall i | 0 <= i < |entries| :: Normal(entries[i].key)
  }

  /** index holds the position of each entry under its canonical key. */
  ghost predicate Positions(c: KeyCodec, entries: seq<ParsedEntry>, index: map<string, nat>) {
    && (forall i | 0 <= i < |entries| :: PositionOf(c, entries[i].key, index, i))
    && (forall s | s in index :: index[s] < |entries| && c.spell(entries[index[s]].key) == s)
  }

  ghost predicate PositionOf(c: KeyCodec, key: MaskedKey, index: map<string, nat>, i: nat) {
    c.spell(key) in index && index[c.spell(key)] == i
  }

  lemma ReplaceLists(entries: seq<ParsedEntry>, m: Table, i: nat, rf: RuleFile)
    requires Lists(entries, m) && i < |entries|
    ensures Lists(entries[i := ParsedEntry(entries[i].key, rf)], m[entries[i].key := rf])
  {
    var e' := entries[i := ParsedEntry(entries[i].key, rf)];
    forall k | k in m[entries[i].key := rf] ensures HasEntry(e', k) {
      assert HasEntry(entries, k);
      var j :| 0 <= j < |entries| && entries[j].key == k;
      assert e'[j].key == k;
    }
  }

  lemma AppendLists(entries: seq<ParsedEntry>, m: Table, key: MaskedKey, rf: RuleFile)
    requires Lists(entries, m) && forall i | 0 <= i < |entries| :: entries[i].key != key
    ensures Lists(entries + [ParsedEntry(key, rf)], m[key := rf])
  {
    var e' := entries + [ParsedEntry(key, rf)];
    forall k | k in m[key := rf] ensures HasEntry(e', k) {
      if k == key {
        assert e'[|entries|].key == k;
      } else {
        assert HasEntry(entries, k);
        var j :| 0 <= j < |entries| && entries[j].key == k;
        assert e'[j].key == k;
      }
    }
  }

  lemma ReplacePositions(c: KeyCodec, entries: seq<ParsedEntry>, index: map<string, nat>, i: nat, rf: RuleFile)
    requires Positions(c, entries, index) && i < |entries|
    ensures Positions(c, entries[i := ParsedEntry(entries[i].key, rf)], index)
  {
    var e' := entries[i := ParsedEntry(entries[i].key, rf)];
    forall j | 0 <= j < |e'| ensures PositionOf(c, e'[j].key, index, j) {
      assert PositionOf(c, entries[j].key, index, j);
    }
  }

  lemma AppendPositions(c: KeyCodec, entries: seq<ParsedEntry>, index: map<string, nat>, key: MaskedKey, rf: RuleFile)
    requires Positions(c, entries, index) && c.spell(key) !in index
    ensures Positions(c, entries + [ParsedEntry(key, rf)], index[c.spell(key) := |entries|])
    ensures forall i | 0 <= i < |entries| :: entries[i].key != key
  {
    var e' := entries + [ParsedEntry(key, rf)];
    var index' := index[c.spell(key) := |entries|];
    forall j | 0 <= j < |e'| ensures PositionOf(c, e'[j].key, index', j) {
      if j < |entries| { assert PositionOf(c, entries[j].key, index, j); }
    }
    forall i | 0 <= i < |entries| ensures entries[i].key != key {
      assert PositionOf(c, entries[i].key, index, i);
    }
  }

  /** One turn of the loop in parseDefaultRuleset. */
  method Keep(c: KeyCodec, entries: seq<ParsedEntry>, index: map<string, nat>, key: MaskedKey, rf: RuleFile,
              ghost m: Table)
    returns (entries': seq<ParsedEntry>, index': map<string, nat>)
    requires Sound(c) && Normal(key)
    requires AllNormal(entries) && Positions(c, entries, index) && Lists(entries, m)
    ensures AllNormal(entries') && Positions(c, entries', index') && Lists(entries', m[key := rf])
  {
    var canon := c.spell(key);
    if canon in index {
      var i := index[canon];
      SpellInjective(c, entries[i].key, key);
      ReplaceLists(entries, m, i, rf);
      ReplacePositions(c, entries, index, i, rf);
      entries', index' := entries[i := ParsedEntry(key, rf)], index;
    } else {
      AppendPositions(c, entries, index, key, rf);
      AppendLists(entries, m, key, rf);
      entries', index' := entries + [ParsedEntry(key, rf)], index[canon := |entries|];
    }
  }

  /** parseDefaultRuleset: lists exactly the table, or rejects exactly when it is none. */
  method ParseDefaultRuleset(c: KeyCodec, raw: seq<RawEntry>) returns (r: Option<seq<ParsedEntry>>)
    requires Sound(c)
    ensures r.Some? <==> TableOf(c, raw).Some?
    ensures r.Some? ==> AllNormal(r.value) && Lists(r.value, TableOf(c, raw).value)
  {
    var entries: seq<ParsedEntry> := [];
    var index: map<string, nat> := map[];
    for n := 0 to |raw|
      invariant TableOf(c, raw[..n]).Some?
      invariant AllNormal(entries) && Positions(c, entries, index)
      invariant Lists(entries, TableOf(c, raw[..n]).value)
    {
      assert raw[..n + 1][..n] == raw[..n];
      var key := c.read(raw[n].key);
      if key.None? || raw[n].value.None? {
        RejectedStays(c, raw, n + 1);
        return None;
      }
      entries, index := Keep(c, entries, index, key.value, raw[n].value.value, TableOf(c, raw[..n]).value);
    }
    assert raw[..|raw|] == raw;
    r := Some(entries);
  }

  lemma {:induction false} RejectedStays(c: KeyCodec, raw: seq<RawEntry>, n: nat)
    requires n <= |raw| && TableOf(c, raw[..n]) == None
    ensures TableOf(c, raw) == None
    decreases |raw|
  {
    if n == |raw| {
      assert raw[..n] == raw;
    } else {
      var front := raw[..|raw| - 1];
      assert front[..n] == raw[..n];
      RejectedStays(c, front, n);
    }
  }

  // ---- Writing the table back ----

  ghost predicate AllKeysNormal(m: Table) {
    forall k | k in m :: Normal(k)
  }

  ghost predicate WrittenUnder(c: KeyCodec, m: Table, s: string) {
    exists k | k in m :: s == c.spell(k)
  }

  /** j is the table m as a JSON object keyed by canonical keys. */
  ghost predicate Written(c: KeyCodec, j: map<string, RuleFile>, m: Table) {
    && (forall k | k in m :: c.spell(k) in j && j[c.spell(k)] == Marshalled(m[k]))
    && (forall s | s in j :: WrittenUnder(c, m, s))
  }

  lemma WriteOne(c: KeyCodec, j: map<string, RuleFile>, m: Table, key: MaskedKey, rf: RuleFile)
    requires Sound(c) && AllKeysNormal(m) && Normal(key) && Written(c, j, m)
    ensures Written(c, j[c.spell(key) := Marshalled(rf)], m[key := rf])
  {
    var name := c.spell(key);
    var j' := j[name := Marshalled(rf)];
    WriteKeys(c, j, m, key, rf);
    forall s | s in j' ensures WrittenUnder(c, m[key := rf], s) {
      if s == name {
        assert key in m[key := rf];
      } else {
        assert WrittenUnder(c, m, s);
        var k :| k in m && s == c.spell(k);
        assert k in m[key := rf];
      }
    }
  }

  lemma WriteKeys(c: KeyCodec, j: map<string, RuleFile>, m: Table, key: MaskedKey, rf: RuleFile)
    requires Sound(c) && AllKeysNormal(m) && Normal(key)
    requires forall k | k in m :: c.spell(k) in j && j[c.spell(k)] == Marshalled(m[k])
    ensures var j', m' := j[c.spell(key) := Marshalled(rf)], m[key := rf];
            forall k | k in m' :: c.spell(k) in j' && j'[c.spell(k)] == Marshalled(m'[k])
  {
    forall k | k in m && k != key ensures c.spell(k) != c.spell(key) {
      if c.spell(k) == c.spell(key) { SpellInjective(c, k, key); }
    }
  }

  /** marshalCanonical. */
  method MarshalCanonical(c: KeyCodec, entries: seq<ParsedEntry>, ghost m: Table) returns (j: map<string, RuleFile>)
    requires Sound(c) && AllNormal(entries) && Lists(entries, m)
    ensures Written(c, j, m)
  {
    j := map[];
    ghost var part: Table := map[];
    for n := 0 to |entries|
      invariant Written(c, j, part) && PartOf(part, m, entries, n)
    {
      WriteOne(c, j, part, entries[n].key, entries[n].rule);
      PartNext(part, m, entries, n);
      j := j[c.spell(entries[n].key) := Marshalled(entries[n].rule)];
      part := part[entries[n].key := entries[n].rule];
    }
    WholePart(part, m, entries);
  }

  /** part holds what the first n entries say. */
  ghost predicate PartOf(part: Table, m: Table, entries: seq<ParsedEntry>, n: nat)
    requires n <= |entries|
  {
    && AllKeysNormal(part)
    && Agrees(part, m)
    && (forall i | 0 <= i < n :: entries[i].key in part)
  }

  lemma PartNext(part: Table, m: Table, entries: seq<ParsedEntry>, n: nat)
    requires n < |entries| && AllNormal(entries) && Lists(entries, m) && PartOf(part, m, entries, n)
    ensures PartOf(part[entries[n].key := entries[n].rule], m, entries, n + 1)
  {
    ListedEntry(entries, m, n);
    PartAgrees(part, m, entries[n].key);
    PartNormal(part, entries[n].key, entries[n].rule);
  }

  ghost predicate Agrees(part: Table, m: Table) {
    forall k | k in part :: k in m && part[k] == m[k]
  }

  lemma PartAgrees(part: Table, m: Table, key: MaskedKey)
    requires Agrees(part, m) && key in m
    ensures Agrees(part[key := m[key]], m)
  {
  }

  lemma PartNormal(part: Table, key: MaskedKey, rf: RuleFile)
    requires AllKeysNormal(part) && Normal(key)
    ensures AllKeysNormal(part[key := rf])
  {
  }

  lemma ListedEntry(entries: seq<ParsedEntry>, m: Table, n: nat)
    requires n < |entries| && AllNormal(entries) && Lists(entries, m)
    ensures Normal(entries[n].key) && entries[n].key in m && m[entries[n].key] == entries[n].rule
  {
  }

  lemma WholePart(part: Table, m: Table, entries: seq<ParsedEntry>)
    requires Lists(entries, m) && PartOf(part, m, entries, |entries|)
    ensures part == m
  {
    forall k | k in m ensures k in part {
      assert HasEntry(entries, k);
    }
  }

  /** raw is a reading of the JSON object j: its members, each once, in any order. */
  ghost predicate Reads(raw: seq<RawEntry>, j: map<string, RuleFile>) {
    && (forall i | 0 <= i < |raw| :: raw[i].key in j && raw[i].value == Some(j[raw[i].key]))
    && (forall s | s in j :: exists i | 0 <= i < |raw| :: raw[i].key == s)
  }

  /** The table after a trip through JSON: empty egress lists become absent ones. */
  function MarshalledTable(m: Table): Table {
    map k | k in m :: Marshalled(m[k])
  }

  /** e stands for the entry of m under k. */
  ghost predicate StandsFor(c: KeyCodec, m: Table, e: RawEntry, k: MaskedKey) {
    k in m && e.key == c.spell(k) && e.value == Some(Marshalled(m[k]))
  }

  lemma ReadOne(c: KeyCodec, m: Table, j: map<string, RuleFile>, raw: seq<RawEntry>, i: nat) returns (k: MaskedKey)
    requires Sound(c) && AllKeysNormal(m) && Written(c, j, m) && Reads(raw, j) && i < |raw|
    ensures StandsFor(c, m, raw[i], k) && c.read(raw[i].key) == Some(k)
  {
    assert WrittenUnder(c, m, raw[i].key);
    k :| k in m && raw[i].key == c.spell(k);
    assert c.read(c.spell(k)) == Some(k);
  }

  /** A part of the table, read so far. */
  ghost predicate PartRead(c: KeyCodec, m: Table, raw: seq<RawEntry>, n: nat)
    requires n <= |raw|
  {
    && TableOf(c, raw[..n]).Some?
    && var got := TableOf(c, raw[..n]).value;
       && (forall k | k in got :: k in m && got[k] == Marshalled(m[k]))
       && (forall i | 0 <= i < n :: c.read(raw[i].key).Some? && c.read(raw[i].key).value in got)
  }

  lemma {:induction false} ReadPart(c: KeyCodec, m: Table, j: map<string, RuleFile>, raw: seq<RawEntry>, n: nat)
    requires Sound(c) && AllKeysNormal(m) && Written(c, j, m) && Reads(raw, j) && n <= |raw|
    ensures PartRead(c, m, raw, n)
    decreases n
  {
    if n > 0 {
      ReadPart(c, m, j, raw, n - 1);
      ReadStep(c, m, j, raw, n - 1);
    }
  }

  lemma ReadStep(c: KeyCodec, m: Table, j: map<string, RuleFile>, raw: seq<RawEntry>, n: nat)
    requires Sound(c) && AllKeysNormal(m) && Written(c, j, m) && Reads(raw, j) && n < |raw| && PartRead(c, m, raw, n)
    ensures PartRead(c, m, raw, n + 1)
  {
    var k := ReadOne(c, m, j, raw, n);
    ReadNext(c, m, raw, n, k);
  }

  lemma ReadNext(c: KeyCodec, m: Table, raw: seq<RawEntry>, n: nat, k: MaskedKey)
    requires n < |raw| && PartRead(c, m, raw, n)
    requires StandsFor(c, m, raw[n], k) && c.read(raw[n].key) == Some(k)
    ensures PartRead(c, m, raw, n + 1)
  {
    assert raw[..n + 1][..n] == raw[..n];
    assert TableOf(c, raw[..n + 1]) == Some(TableOf(c, raw[..n]).value[k := Marshalled(m[k])]);
  }

  /** Parsing, writing the canonical form and parsing that in any member order gives the
      same table, except that an empty egress list has become an absent one. */
  lemma MarshalRoundTrip(c: KeyCodec, m: Table, j: map<string, RuleFile>, raw: seq<RawEntry>)
    requires Sound(c) && AllKeysNormal(m) && Written(c, j, m) && Reads(raw, j)
    ensures TableOf(c, raw) == Some(MarshalledTable(m))
  {
    ReadPart(c, m, j, raw, |raw|);
    assert raw[..|raw|] == raw;
    var got := TableOf(c, raw).value;
    forall k | k in m ensures k in got {
      assert c.read(c.spell(k)) == Some(k);
      var i :| 0 <= i < |raw| && raw[i].key == c.spell(k);
    }
    assert got == MarshalledTable(m);
  }
}
