/** The compiled rules/default table: compileParsedEntries and DefaultRuleset.Lookup. */
module DefaultTable {
  import opened GoStrings
  import opened MaskedKeys
  import opened KeyMatching
  import opened KeyText
  import opened Coverage
  import opened RuleCompile
  import opened HostCompact
  import opened HostIndex
  import opened HostLookup
  import opened RuleFiles
  import opened DefaultParse

  /** hash stands for the content hash: the marshalled source rule file. */
  datatype Bucket = Bucket(key: MaskedKey, lab: string, rules: Rules, hash: RuleFile)

  datatype DefaultRuleset = DefaultRuleset(v4: seq<Bucket>, v6: seq<Bucket>)

  // ---- Compiling one bucket ----

  ghost predicate BucketOk(env: Compilers, b: Bucket) {
    Normal(b.key) && BucketRules(env, b.rules, b.hash)
  }

  ghost predicate AllOk(env: Compilers, bs: seq<Bucket>) {
    forall i | 0 <= i < |bs| :: BucketOk(env, bs[i])
  }

  ghost predicate TableOk(env: Compilers, d: DefaultRuleset) {
    AllOk(env, d.v4) && AllOk(env, d.v6)
  }

  ghost predicate PreviousOk(env: Compilers, prev: map<string, Bucket>) {
    forall s | s in prev :: BucketOk(env, prev[s])
  }

  /** bucketByLabel. */
  method BucketByLabel(env: Compilers, d: Option<DefaultRuleset>) returns (m: map<string, Bucket>)
    requires d.Some? ==> TableOk(env, d.value)
    ensures PreviousOk(env, m)
    ensures d.Some? ==> ByLabel(m, d.value.v4 + d.value.v6)
    ensures d.None? ==> m == map[]
  {
    m := map[];
    if d.Some? {
      m := AddLabels(env, m, [], d.value.v4);
      m := AddLabels(env, m, [] + d.value.v4, d.value.v6);
      assert [] + d.value.v4 == d.value.v4;
    }
  }

  /** Every label of bs is in m, with the last bucket of bs that has it. */
  ghost predicate ByLabel(m: map<string, Bucket>, bs: seq<Bucket>) {
    && (forall i | 0 <= i < |bs| :: bs[i].lab in m)
    && forall s | s in m :: exists i :: LastLabelled(bs, i, s) && bs[i] == m[s]
  }

  ghost predicate LastLabelled(bs: seq<Bucket>, i: int, s: string) {
    0 <= i < |bs| && bs[i].lab == s && forall k | i < k < |bs| :: bs[k].lab != s
  }

  lemma LabelNext(m: map<string, Bucket>, bs: seq<Bucket>, b: Bucket)
    requires ByLabel(m, bs)
    ensures ByLabel(m[b.lab := b], bs + [b])
  {
    var m', bs' := m[b.lab := b], bs + [b];
    forall s | s in m' ensures exists i :: LastLabelled(bs', i, s) && bs'[i] == m'[s] {
      if s == b.lab {
        assert LastLabelled(bs', |bs|, s);
      } else {
        var i :| LastLabelled(bs, i, s) && bs[i] == m[s];
        assert LastLabelled(bs', i, s);
      }
    }
  }

  /** The buckets in before and the first i of bs are in m. */
  ghost predicate Added(env: Compilers, m: map<string, Bucket>, before: seq<Bucket>, bs: seq<Bucket>, i: nat)
    requires i <= |bs|
  {
    PreviousOk(env, m) && ByLabel(m, before + bs[..i])
  }

  lemma AddNext(env: Compilers, m: map<string, Bucket>, before: seq<Bucket>, bs: seq<Bucket>, i: nat)
    requires i < |bs| && Added(env, m, before, bs, i) && BucketOk(env, bs[i])
    ensures Added(env, m[bs[i].lab := bs[i]], before, bs, i + 1)
  {
    assert before + bs[..i] + [bs[i]] == before + bs[..i + 1];
    LabelNext(m, before + bs[..i], bs[i]);
  }

  lemma AddEnds(env: Compilers, m: map<string, Bucket>, before: seq<Bucket>, bs: seq<Bucket>)
    ensures Added(env, m, before, bs, 0) <==> PreviousOk(env, m) && ByLabel(m, before)
    ensures Added(env, m, before, bs, |bs|) <==> PreviousOk(env, m) && ByLabel(m, before + bs)
  {
    assert before + bs[..0] == before && bs[..|bs|] == bs;
  }

  method AddLabels(env: Compilers, m: map<string, Bucket>, ghost before: seq<Bucket>, bs: seq<Bucket>)
    returns (m': map<string, Bucket>)
    requires PreviousOk(env, m) && AllOk(env, bs) && ByLabel(m, before)
    ensures PreviousOk(env, m') && ByLabel(m', before + bs)
  {
    m' := m;
    AddEnds(env, m, before, bs);
    for i := 0 to |bs|
      invariant Added(env, m', before, bs, i)
    {
      AddNext(env, m', before, bs, i);
      m' := m'[bs[i].lab := bs[i]];
    }
    AddEnds(env, m', before, bs);
  }

  /** An http[] policy compiled and indexed once for all the buckets that repeat it. */
  datatype Policy = Policy(rules: seq<CompiledRule>, index: Index)

  ghost predicate PoliciesOk(env: Compilers, ps: map<seq<Rule>, Policy>) {
    forall http | http in ps ::
      Compile(env.lib, http) == Some(ps[http].rules) && IndexOf(ps[http].index, ps[http].rules)
  }

  /** Compile and index an http[] policy, or reuse the result for an identical one. */
  method PolicyFor(env: Compilers, http: seq<Rule>, ps: map<seq<Rule>, Policy>)
    returns (p: Option<Policy>, ps': map<seq<Rule>, Policy>)
    requires PoliciesOk(env, ps)
    ensures PoliciesOk(env, ps')
    ensures p.Some? <==> Compile(env.lib, http).Some?
    ensures p.Some? ==> Compile(env.lib, http) == Some(p.value.rules) && IndexOf(p.value.index, p.value.rules)
  {
    if http in ps {
      return Some(ps[http]), ps;
    }
    var compiled := Compile(env.lib, http);
    if compiled.None? {
      return None, ps;
    }
    var ix := Build(compiled.value);
    return Some(Policy(compiled.value, ix)), ps[http := Policy(compiled.value, ix)];
  }

  /** The body of the loop in compileParsedEntries: reuse the previous bucket with the
      same label and content hash, or compile this one. */
  method CompileBucket(env: Compilers, c: KeyCodec, e: ParsedEntry, prev: map<string, Bucket>,
                       ps: map<seq<Rule>, Policy>)
    returns (b: Option<Bucket>, ps': map<seq<Rule>, Policy>)
    requires Normal(e.key) && PreviousOk(env, prev) && PoliciesOk(env, ps)
    ensures PoliciesOk(env, ps')
    ensures b.Some? <==> BucketCompiles(env, e.rule)
    ensures b.Some? ==> BucketOk(env, b.value) && b.value.key == e.key && b.value.hash == Marshalled(e.rule)
  {
    var lab := c.spell(e.key);
    var hash := Marshalled(e.rule);
    if lab in prev && prev[lab].hash == hash {
      BucketOfMarshalled(env, prev[lab].rules, e.rule);
      return Some(Bucket(e.key, lab, prev[lab].rules, hash)), ps;
    }
    var auth := CompileAuth(env, e.rule.auth);
    if auth.None? {
      return None, ps;
    }
    var policy;
    policy, ps' := PolicyFor(env, e.rule.http, ps);
    if policy.None? {
      return None, ps';
    }
    var egress := CompileEgress(env, BucketEgress(e.rule));
    if egress.None? {
      return None, ps';
    }
    var rs: Rules := RuleSet(policy.value.rules, Some(policy.value.index), egress.value, e.rule.uuid, auth.value);
    BucketOfMarshalled(env, rs, e.rule);
    return Some(Bucket(e.key, lab, rs, hash)), ps';
  }

  // ---- The coverage obligation ----

  /** Some plain-prefix entry of the family matches ab. */
  ghost predicate PrefixEntryFor(entries: seq<ParsedEntry>, is4: bool, ab: Bytes)
    requires AllNormal(entries) && |ab| == Width(is4)
  {
    exists i | 0 <= i < |entries| ::
      entries[i].key.is4 == is4 && PrefixLength(entries[i].key.mask).Some? && Contains(entries[i].key, ab)
  }

  ghost predicate FamilyCovered(entries: seq<ParsedEntry>, is4: bool)
    requires AllNormal(entries)
  {
    forall ab: Bytes | |ab| == Width(is4) :: PrefixEntryFor(entries, is4, ab)
  }

  /** The intervals of the plain-prefix entries of a family, in order. */
  function Spans(entries: seq<ParsedEntry>, is4: bool): (r: seq<Span>)
    requires forall i | 0 <= i < |entries| :: Normal(entries[i].key)
  {
    if entries == [] then []
    else
      var k := entries[|entries| - 1].key;
      assert Normal(k);
      var r := Spans(entries[..|entries| - 1], is4);
      if k.is4 == is4 && PrefixLength(k.mask).Some? then r + [PrefixRange(k, PrefixLength(k.mask).value)] else r
  }

  lemma {:induction false} SpansInSpace(entries: seq<ParsedEntry>, is4: bool)
    requires AllNormal(entries)
    ensures forall i | 0 <= i < |Spans(entries, is4)| ::
              Spans(entries, is4)[i].start < Spans(entries, is4)[i].end <= Pow2(8 * Width(is4))
    decreases |entries|
  {
    if entries != [] {
      SpansInSpace(entries[..|entries| - 1], is4);
      var k := entries[|entries| - 1].key;
      if k.is4 == is4 && PrefixLength(k.mask).Some? { RangeInSpace(k, PrefixLength(k.mask).value); }
    }
  }

  /** Entry k contributes the point Value(ab) exactly when it matches ab. */
  lemma {:induction false} SpansCover(entries: seq<ParsedEntry>, is4: bool, ab: Bytes)
    requires AllNormal(entries) && |ab| == Width(is4)
    ensures Covers(Spans(entries, is4), Value(ab)) <==> PrefixEntryFor(entries, is4, ab)
    decreases |entries|
  {
    if entries != [] {
      var front := entries[..|entries| - 1];
      SpansCover(front, is4, ab);
      var k := entries[|entries| - 1].key;
      var r, r' := Spans(front, is4), Spans(entries, is4);
      PrefixEntryStep(entries, is4, ab);
      if k.is4 == is4 && PrefixLength(k.mask).Some? {
        ContainsIffInRange(k, PrefixLength(k.mask).value, ab);
        CoversStep(r, PrefixRange(k, PrefixLength(k.mask).value), Value(ab));
      }
    }
  }

  lemma CoversStep(r: seq<Span>, s: Span, x: nat)
    ensures Covers(r + [s], x) <==> Covers(r, x) || InSpan(s, x)
  {
    if Covers(r, x) {
      var i :| 0 <= i < |r| && InSpan(r[i], x);
      assert InSpan((r + [s])[i], x);
    }
    if InSpan(s, x) { assert InSpan((r + [s])[|r|], x); }
  }

  lemma PrefixEntryStep(entries: seq<ParsedEntry>, is4: bool, ab: Bytes)
    requires AllNormal(entries) && |ab| == Width(is4) && entries != []
    ensures var k := entries[|entries| - 1].key;
            PrefixEntryFor(entries, is4, ab)
            <==> PrefixEntryFor(entries[..|entries| - 1], is4, ab)
                 || (k.is4 == is4 && PrefixLength(k.mask).Some? && Contains(k, ab))
  {
    var front := entries[..|entries| - 1];
    if PrefixEntryFor(front, is4, ab) {
      var i :| 0 <= i < |front| && front[i].key.is4 == is4
               && PrefixLength(front[i].key.mask).Some? && Contains(front[i].key, ab);
      assert entries[i] == front[i];
    }
  }

  lemma Divide(x: nat, p: nat) returns (q: nat, r: nat)
    requires p > 0
    ensures q * p + r == x && r < p
  {
    q, r := x / p, x % p;
  }

  /** Every number below 256^w is the value of some w bytes. */
  lemma {:induction false} BytesOf(x: nat, w: nat) returns (b: Bytes)
    requires x < Pow2(8 * w)
    ensures |b| == w && Value(b) == x
    decreases w
  {
    if w == 0 {
      b := [];
    } else {
      var p := Pow2(8 * (w - 1));
      Pow2Byte(8 * (w - 1));
      var q, r := Divide(x, p);
      TimesBelow(q, 256, p);
      var rest := BytesOf(r, w - 1);
      b := [q] + rest;
      assert b[1..] == rest;
    }
  }

  /** The integer check and the byte-wise obligation are the same. */
  lemma CoverageIff(entries: seq<ParsedEntry>, is4: bool)
    requires AllNormal(entries)
    ensures FamilyCovered(entries, is4) <==> Total(Spans(entries, is4), Pow2(8 * Width(is4)))
  {
    var spans := Spans(entries, is4);
    if FamilyCovered(entries, is4) {
      forall x: nat | x < Pow2(8 * Width(is4)) ensures Covers(spans, x) {
        var ab := BytesOf(x, Width(is4));
        SpansCover(entries, is4, ab);
        assert PrefixEntryFor(entries, is4, ab);
      }
    }
    if Total(spans, Pow2(8 * Width(is4))) {
      forall ab: Bytes | |ab| == Width(is4) ensures PrefixEntryFor(entries, is4, ab) {
        ValueBound(ab);
        assert Covers(spans, Value(ab));
        SpansCover(entries, is4, ab);
      }
    }
  }

  // ---- Compiling the table ----

  /** What compileParsedEntries demands, with no mention of any earlier table. */
  ghost predicate TableCompiles(env: Compilers, entries: seq<ParsedEntry>)
    requires AllNormal(entries)
  {
    && (forall i | 0 <= i < |entries| :: BucketCompiles(env, entries[i].rule))
    && FamilyCovered(entries, true) && FamilyCovered(entries, false)
  }

  /** Bucket b is entry e, compiled. */
  ghost predicate Compiled(env: Compilers, b: Bucket, e: ParsedEntry) {
    b.key == e.key && b.hash == Marshalled(e.rule) && BucketOk(env, b)
  }

  /** bs holds one compiled bucket for each entry of the family among the first n. */
  ghost predicate Buckets(env: Compilers, bs: seq<Bucket>, entries: seq<ParsedEntry>, n: nat, is4: bool)
    requires n <= |entries|
  {
    && (forall b | b in bs :: b.key.is4 == is4 && IsCompiledEntry(env, b, entries, n))
    && (forall i | 0 <= i < n && entries[i].key.is4 == is4 :: HasBucket(bs, entries[i].key))
  }

  ghost predicate IsCompiledEntry(env: Compilers, b: Bucket, entries: seq<ParsedEntry>, n: nat)
    requires n <= |entries|
  {
    exists i | 0 <= i < n :: Compiled(env, b, entries[i])
  }

  ghost predicate HasBucket(bs: seq<Bucket>, k: MaskedKey) {
    exists b | b in bs :: b.key == k
  }

  lemma AddBucket(env: Compilers, bs: seq<Bucket>, entries: seq<ParsedEntry>, n: nat, is4: bool, b: Bucket)
    requires n < |entries| && Buckets(env, bs, entries, n, is4)
    requires Compiled(env, b, entries[n]) && b.key.is4 == is4
    ensures Buckets(env, bs + [b], entries, n + 1, is4)
  {
    var bs' := bs + [b];
    forall x | x in bs' ensures x.key.is4 == is4 && IsCompiledEntry(env, x, entries, n + 1) {
      if x in bs {
        assert IsCompiledEntry(env, x, entries, n);
        var i :| 0 <= i < n && Compiled(env, x, entries[i]);
        assert Compiled(env, x, entries[i]) && i < n + 1;
      } else {
        assert Compiled(env, x, entries[n]);
      }
    }
    forall i | 0 <= i < n + 1 && entries[i].key.is4 == is4 ensures HasBucket(bs', entries[i].key) {
      if i < n {
        assert HasBucket(bs, entries[i].key);
        var x :| x in bs && x.key == entries[i].key;
        assert x in bs';
      } else {
        assert b in bs';
      }
    }
  }

  lemma SkipBucket(env: Compilers, bs: seq<Bucket>, entries: seq<ParsedEntry>, n: nat, is4: bool)
    requires n < |entries| && Buckets(env, bs, entries, n, is4) && entries[n].key.is4 != is4
    ensures Buckets(env, bs, entries, n + 1, is4)
  {
    forall x | x in bs ensures x.key.is4 == is4 && IsCompiledEntry(env, x, entries, n + 1) {
      assert IsCompiledEntry(env, x, entries, n);
      var i :| 0 <= i < n && Compiled(env, x, entries[i]);
      assert Compiled(env, x, entries[i]) && i < n + 1;
    }
  }

  ghost predicate MaskDescending(bs: seq<Bucket>) {
    forall i, j | 0 <= i < j < |bs| :: Value(bs[i].key.mask) >= Value(bs[j].key.mask)
  }

  lemma Inserted(r: seq<Bucket>, k: nat, b: Bucket)
    requires MaskDescending(r) && k <= |r|
    requires forall i | 0 <= i < k :: Value(r[i].key.mask) >= Value(b.key.mask)
    requires k < |r| ==> Value(b.key.mask) >= Value(r[k].key.mask)
    ensures MaskDescending(r[..k] + [b] + r[k..])
    ensures multiset(r[..k] + [b] + r[k..]) == multiset(r) + multiset{b}
  {
    assert multiset(r[..k] + [b] + r[k..]) == multiset(r) + multiset{b} by { assert r == r[..k] + r[k..]; }
    var r' := r[..k] + [b] + r[k..];
    forall i | 0 <= i < |r'| ensures r'[i] == if i < k then r[i] else if i == k then b else r[i - 1] {}
    forall i, j | 0 <= i < j < |r'| ensures Value(r'[i].key.mask) >= Value(r'[j].key.mask) {
      if i == k { assert Value(r[k].key.mask) >= Value(r[j - 1].key.mask); }
    }
  }

  method InsertByMask(r: seq<Bucket>, b: Bucket) returns (r': seq<Bucket>)
    requires MaskDescending(r) && forall x | x in r :: |x.key.mask| == |b.key.mask|
    ensures MaskDescending(r') && multiset(r') == multiset(r) + multiset{b}
  {
    var k := 0;
    while k < |r| && Greater(r[k].key.mask, b.key.mask)
      invariant 0 <= k <= |r|
      invariant forall i | 0 <= i < k :: Value(r[i].key.mask) >= Value(b.key.mask)
    {
      GreaterIsValue(r[k].key.mask, b.key.mask);
      k := k + 1;
    }
    if k < |r| { GreaterIsValue(r[k].key.mask, b.key.mask); }
    Inserted(r, k, b);
    r' := r[..k] + [b] + r[k..];
  }

  /** sortByMaskDescending; how it orders equal masks does not matter below. */
  method SortByMask(bs: seq<Bucket>, width: nat) returns (r: seq<Bucket>)
    requires forall b | b in bs :: |b.key.mask| == width
    ensures MaskDescending(r) && multiset(r) == multiset(bs)
  {
    r := [];
    for n := 0 to |bs|
      invariant MaskDescending(r) && multiset(r) == multiset(bs[..n])
    {
      assert forall b | b in r :: b in multiset(bs[..n]);
      assert bs[..n + 1] == bs[..n] + [bs[n]];
      r := InsertByMask(r, bs[n]);
    }
    assert bs[..|bs|] == bs;
  }

  /** d is the compiled form of entries. */
  ghost predicate TableFor(env: Compilers, d: DefaultRuleset, entries: seq<ParsedEntry>) {
    && MaskDescending(d.v4) && Buckets(env, d.v4, entries, |entries|, true)
    && MaskDescending(d.v6) && Buckets(env, d.v6, entries, |entries|, false)
  }

  lemma SortedBuckets(env: Compilers, bs: seq<Bucket>, r: seq<Bucket>, entries: seq<ParsedEntry>, is4: bool)
    requires multiset(r) == multiset(bs) && Buckets(env, bs, entries, |entries|, is4)
    ensures Buckets(env, r, entries, |entries|, is4)
  {
    forall b | b in r ensures b in bs { assert b in multiset(r); }
    forall i | 0 <= i < |entries| && entries[i].key.is4 == is4 ensures HasBucket(r, entries[i].key) {
      assert HasBucket(bs, entries[i].key);
      var x :| x in bs && x.key == entries[i].key;
      assert x in multiset(bs);
      assert x in r;
    }
  }

  lemma BucketWidths(env: Compilers, bs: seq<Bucket>, entries: seq<ParsedEntry>, n: nat, is4: bool)
    requires n <= |entries| && Buckets(env, bs, entries, n, is4)
    ensures forall b | b in bs :: BucketOk(env, b) && |b.key.mask| == Width(is4)
  {
    forall b | b in bs ensures BucketOk(env, b) && |b.key.mask| == Width(is4) {
      assert IsCompiledEntry(env, b, entries, n);
    }
  }

  lemma TableForOk(env: Compilers, d: DefaultRuleset, entries: seq<ParsedEntry>)
    requires TableFor(env, d, entries)
    ensures TableOk(env, d)
  {
    BucketWidths(env, d.v4, entries, |entries|, true);
    BucketWidths(env, d.v6, entries, |entries|, false);
  }

  /** What the loop has gathered for one family. */
  datatype Family = Family(buckets: seq<Bucket>, spans: seq<Span>)

  ghost predicate Gathered(env: Compilers, f: Family, entries: seq<ParsedEntry>, n: nat, is4: bool)
    requires AllNormal(entries) && n <= |entries|
  {
    Buckets(env, f.buckets, entries, n, is4) && f.spans == Spans(entries[..n], is4)
  }

  method AddToFamily(env: Compilers, f: Family, entries: seq<ParsedEntry>, n: nat, b: Bucket) returns (f': Family)
    requires AllNormal(entries) && n < |entries| && Compiled(env, b, entries[n])
    requires Gathered(env, f, entries, n, b.key.is4)
    ensures Gathered(env, f', entries, n + 1, b.key.is4)
  {
    var len := ContiguousPrefixLen(b.key.mask);
    assert Normal(b.key);
    assert entries[..n + 1][..n] == entries[..n];
    AddBucket(env, f.buckets, entries, n, b.key.is4, b);
    f' := Family(f.buckets + [b],
                 if len.Some? then f.spans + [PrefixRange(b.key, len.value)] else f.spans);
  }

  lemma SkipFamily(env: Compilers, f: Family, entries: seq<ParsedEntry>, n: nat, is4: bool)
    requires AllNormal(entries) && n < |entries| && entries[n].key.is4 != is4
    requires Gathered(env, f, entries, n, is4)
    ensures Gathered(env, f, entries, n + 1, is4)
  {
    assert entries[..n + 1][..n] == entries[..n];
    SkipBucket(env, f.buckets, entries, n, is4);
  }

  /** The coverage check of one family, and its buckets in lookup order. */
  method FinishFamily(env: Compilers, f: Family, entries: seq<ParsedEntry>, is4: bool) returns (r: Option<seq<Bucket>>)
    requires AllNormal(entries) && Gathered(env, f, entries, |entries|, is4)
    ensures r.Some? <==> FamilyCovered(entries, is4)
    ensures r.Some? ==> MaskDescending(r.value) && Buckets(env, r.value, entries, |entries|, is4)
  {
    assert entries[..|entries|] == entries;
    SpansInSpace(entries, is4);
    CoverageIff(entries, is4);
    var v := CheckCoverage(f.spans, 8 * Width(is4));
    assert v.Covered? <==> FamilyCovered(entries, is4);
    if !v.Covered? {
      return None;
    }
    BucketWidths(env, f.buckets, entries, |entries|, is4);
    var sorted := SortByMask(f.buckets, Width(is4));
    SortedBuckets(env, f.buckets, sorted, entries, is4);
    return Some(sorted);
  }

  /** compileParsedEntries: whatever table came before, it accepts exactly the entries
      that compile on their own, and yields exactly what they compile to. */
  method CompileParsedEntries(env: Compilers, c: KeyCodec, entries: seq<ParsedEntry>, prev: Option<DefaultRuleset>)
    returns (r: Option<DefaultRuleset>)
    requires AllNormal(entries) && (prev.Some? ==> TableOk(env, prev.value))
    ensures r.Some? <==> TableCompiles(env, entries)
    ensures r.Some? ==> TableFor(env, r.value, entries) && TableOk(env, r.value)
  {
    var previous := BucketByLabel(env, prev);
    var policies: map<seq<Rule>, Policy> := map[];
    var v4, v6 := Family([], []), Family([], []);
    for n := 0 to |entries|
      invariant PoliciesOk(env, policies)
      invariant forall i | 0 <= i < n :: BucketCompiles(env, entries[i].rule)
      invariant Gathered(env, v4, entries, n, true) && Gathered(env, v6, entries, n, false)
    {
      var b;
      b, policies := CompileBucket(env, c, entries[n], previous, policies);
      if b.None? {
        return None;
      }
      if b.value.key.is4 {
        SkipFamily(env, v6, entries, n, false);
        v4 := AddToFamily(env, v4, entries, n, b.value);
      } else {
        SkipFamily(env, v4, entries, n, true);
        v6 := AddToFamily(env, v6, entries, n, b.value);
      }
    }
    var b4 := FinishFamily(env, v4, entries, true);
    if b4.None? {
      return None;
    }
    var b6 := FinishFamily(env, v6, entries, false);
    if b6.None? {
      return None;
    }
    r := Some(DefaultRuleset(b4.value, b6.value));
    TableForOk(env, r.value, entries);
  }

  // ---- Lookup ----

  /** k matches ab. */
  ghost predicate Matching(m: Table, is4: bool, ab: Bytes, k: MaskedKey) {
    k in m && k.is4 == is4 && |k.addr| == |k.mask| == |ab| && Contains(k, ab)
  }

  /** k is the key that governs ab: it matches, and every other match has a lower mask. */
  ghost predicate Best(m: Table, is4: bool, ab: Bytes, k: MaskedKey) {
    && Matching(m, is4, ab, k)
    && forall k' | Matching(m, is4, ab, k') && k' != k :: Value(k'.mask) < Value(k.mask)
  }

  /** The bucket at position i is the first of bs that matches. */
  ghost predicate FirstAt(bs: seq<Bucket>, ab: Bytes, i: nat)
    requires forall b | b in bs :: |b.key.addr| == |b.key.mask| == |ab|
  {
    i < |bs| && Contains(bs[i].key, ab) && forall j | 0 <= j < i :: !Contains(bs[j].key, ab)
  }

  /** The scan of DefaultRuleset.Lookup over one family. */
  method Scan(bs: seq<Bucket>, ab: Bytes) returns (r: Option<nat>)
    requires forall b | b in bs :: |b.key.addr| == |b.key.mask| == |ab|
    ensures r.None? ==> forall b | b in bs :: !Contains(b.key, ab)
    ensures r.Some? ==> FirstAt(bs, ab, r.value)
  {
    for i := 0 to |bs|
      invariant forall j | 0 <= j < i :: !Contains(bs[j].key, ab)
    {
      if Contains(bs[i].key, ab) {
        return Some(i);
      }
    }
    return None;
  }

  lemma KeyOfBucket(env: Compilers, bs: seq<Bucket>, entries: seq<ParsedEntry>, m: Table, is4: bool, b: Bucket)
    requires Buckets(env, bs, entries, |entries|, is4) && Lists(entries, m) && b in bs
    ensures Normal(b.key) && b.key in m && BucketRules(env, b.rules, m[b.key])
  {
    assert IsCompiledEntry(env, b, entries, |entries|);
    var i :| 0 <= i < |entries| && Compiled(env, b, entries[i]);
    BucketOfMarshalled(env, b.rules, m[b.key]);
  }

  lemma BucketOfKey(env: Compilers, bs: seq<Bucket>, entries: seq<ParsedEntry>, m: Table, is4: bool, k: MaskedKey)
    returns (j: nat)
    requires Buckets(env, bs, entries, |entries|, is4) && Lists(entries, m) && k in m && k.is4 == is4
    ensures j < |bs| && bs[j].key == k
  {
    assert HasEntry(entries, k);
    var i :| 0 <= i < |entries| && entries[i].key == k;
    assert HasBucket(bs, k);
    var b :| b in bs && b.key == k;
    j :| 0 <= j < |bs| && bs[j] == b;
  }

  lemma FirstIsBest(env: Compilers, bs: seq<Bucket>, entries: seq<ParsedEntry>, m: Table, is4: bool, ab: Bytes, i: nat)
    requires MaskDescending(bs) && Buckets(env, bs, entries, |entries|, is4) && Lists(entries, m)
    requires |ab| == Width(is4) && forall b | b in bs :: |b.key.addr| == |b.key.mask| == |ab|
    requires FirstAt(bs, ab, i)
    ensures Best(m, is4, ab, bs[i].key)
  {
    KeyOfBucket(env, bs, entries, m, is4, bs[i]);
    var k := bs[i].key;
    forall k' | Matching(m, is4, ab, k') && k' != k ensures Value(k'.mask) < Value(k.mask) {
      var j := BucketOfKey(env, bs, entries, m, is4, k');
      assert i < j;
      KeyOfBucket(env, bs, entries, m, is4, bs[j]);
      GreaterIsValue(k'.mask, k.mask);
      if k'.mask == k.mask { SameMaskSameKey(k', k, ab); }
    }
  }

  lemma FamilyWidths(env: Compilers, bs: seq<Bucket>, entries: seq<ParsedEntry>, is4: bool)
    requires Buckets(env, bs, entries, |entries|, is4)
    ensures forall b | b in bs :: |b.key.addr| == |b.key.mask| == Width(is4)
  {
    BucketWidths(env, bs, entries, |entries|, is4);
  }

  /** DefaultRuleset.Lookup: the rules of the one key that governs the address, whatever
      the source order was and however the sort placed equal masks. */
  method Lookup(d: DefaultRuleset, is4: bool, ab: Bytes,
                ghost env: Compilers, ghost entries: seq<ParsedEntry>, ghost m: Table)
    returns (r: Option<Rules>)
    requires |ab| == Width(is4) && TableFor(env, d, entries) && Lists(entries, m)
    ensures r.Some? <==> exists k :: Matching(m, is4, ab, k)
    ensures r.Some? ==> exists k :: Best(m, is4, ab, k) && BucketRules(env, r.value, m[k])
  {
    var bs := if is4 then d.v4 else d.v6;
    FamilyWidths(env, bs, entries, is4);
    var i := Scan(bs, ab);
    if i.None? {
      forall k ensures !Matching(m, is4, ab, k) {
        if Matching(m, is4, ab, k) { var j := BucketOfKey(env, bs, entries, m, is4, k); }
      }
      return None;
    }
    FirstIsBest(env, bs, entries, m, is4, ab, i.value);
    KeyOfBucket(env, bs, entries, m, is4, bs[i.value]);
    return Some(bs[i.value].rules);
  }

  lemma BestUnique(m: Table, is4: bool, ab: Bytes, a: MaskedKey, b: MaskedKey)
    requires Best(m, is4, ab, a) && Best(m, is4, ab, b)
    ensures a == b
  {
  }

  /** The same policy: every connection, message, address and credential is answered alike. */
  ghost predicate Alike(a: Rules, b: Rules) {
    a.rules == b.rules && a.egress == b.egress && a.auth == b.auth && a.uuid == b.uuid
  }

  /** Two tables compiled from the same entries, whatever each reused, answer alike. */
  method LookupBoth(a: DefaultRuleset, b: DefaultRuleset, is4: bool, ab: Bytes,
                    ghost env: Compilers, ghost entries: seq<ParsedEntry>, ghost m: Table)
    returns (x: Option<Rules>, y: Option<Rules>)
    requires |ab| == Width(is4) && TableFor(env, a, entries) && TableFor(env, b, entries) && Lists(entries, m)
    ensures x.Some? <==> y.Some?
    ensures x.Some? ==> Alike(x.value, y.value)
  {
    x := Lookup(a, is4, ab, env, entries, m);
    y := Lookup(b, is4, ab, env, entries, m);
    if x.Some? {
      ghost var k :| Best(m, is4, ab, k) && BucketRules(env, x.value, m[k]);
      ghost var j :| Best(m, is4, ab, j) && BucketRules(env, y.value, m[j]);
      BestUnique(m, is4, ab, k, j);
    }
  }

  /** r is what entries compile to, or None because they do not. */
  ghost predicate Exact(env: Compilers, entries: seq<ParsedEntry>, r: Option<DefaultRuleset>)
    requires AllNormal(entries)
  {
    (r.Some? <==> TableCompiles(env, entries)) && (r.Some? ==> TableFor(env, r.value, entries))
  }

  /** After any sequence of hot reloads, each reusing what the last good one left, the next
      table is accepted or rejected, and compiled, as if it came alone. */
  method AfterReloads(env: Compilers, c: KeyCodec, before: seq<seq<ParsedEntry>>, entries: seq<ParsedEntry>)
    returns (r: Option<DefaultRuleset>)
    requires AllNormal(entries) && forall n | 0 <= n < |before| :: AllNormal(before[n])
    ensures Exact(env, entries, r)
  {
    var prev: Option<DefaultRuleset> := None;
    for n := 0 to |before|
      invariant prev.Some? ==> TableOk(env, prev.value)
    {
      var d := CompileParsedEntries(env, c, before[n], prev);
      prev := if d.Some? then d else prev;
    }
    r := CompileParsedEntries(env, c, entries, prev);
  }

  lemma PrefixEntryMatches(entries: seq<ParsedEntry>, m: Table, is4: bool, ab: Bytes) returns (k: MaskedKey)
    requires AllNormal(entries) && Lists(entries, m) && |ab| == Width(is4) && PrefixEntryFor(entries, is4, ab)
    ensures Matching(m, is4, ab, k)
  {
    var i :| 0 <= i < |entries| && entries[i].key.is4 == is4
             && PrefixLength(entries[i].key.mask).Some? && Contains(entries[i].key, ab);
    k := entries[i].key;
  }

  /** Every address of a covered family is governed by some key, sparse masks and all. */
  lemma CoveredIsMatched(entries: seq<ParsedEntry>, m: Table, is4: bool, ab: Bytes)
    requires AllNormal(entries) && Lists(entries, m) && FamilyCovered(entries, is4) && |ab| == Width(is4)
    ensures exists k :: Matching(m, is4, ab, k)
  {
    var k := PrefixEntryMatches(entries, m, is4, ab);
  }

  // ---- Longest prefix match ----

  lemma ValueCons(x: Byte, r: Bytes)
    ensures Value([x] + r) == x * Pow2(8 * |r|) + Value(r)
  {
    assert ([x] + r)[1..] == r;
  }

  lemma {:induction false} PrefixMaskValue(n: nat, w: nat)
    requires n <= 8 * w
    ensures Value(PrefixMask(n, w)) + Pow2(8 * w - n) == Pow2(8 * w)
    decreases w
  {
    if w > 0 {
      if n >= 8 {
        PrefixMaskValue(n - 8, w - 1);
        HighStep(n, w);
      } else {
        PrefixMaskValue(0, w - 1);
        LowStep(n, w);
      }
    }
  }

  lemma HighStep(n: nat, w: nat)
    requires 8 <= n <= 8 * w
    requires Value(PrefixMask(n - 8, w - 1)) + Pow2(8 * (w - 1) - (n - 8)) == Pow2(8 * (w - 1))
    ensures Value(PrefixMask(n, w)) + Pow2(8 * w - n) == Pow2(8 * w)
  {
    Pow2Byte(8 * (w - 1));
    ValueCons(LeadByte(8), PrefixMask(n - 8, w - 1));
    AndAll(0);
  }

  lemma LowStep(n: nat, w: nat)
    requires n < 8 && w > 0 && Value(PrefixMask(0, w - 1)) + Pow2(8 * (w - 1)) == Pow2(8 * (w - 1))
    ensures Value(PrefixMask(n, w)) + Pow2(8 * w - n) == Pow2(8 * w)
  {
    Pow2Byte(8 * (w - 1));
    ValueCons(LeadByte(n), PrefixMask(0, w - 1));
    LowMaskValue(n, 8 * (w - 1));
  }

  lemma LowMaskValue(n: nat, k: nat)
    requires n <= 8
    ensures LeadByte(n) * Pow2(k) + Pow2(8 - n + k) == 256 * Pow2(k)
  {
    Pow2Sum(8 - n, k);
    Regroup(LeadByte(n), Pow2(8 - n), Pow2(k));
  }

  lemma {:induction false} Pow2Strict(a: nat, b: nat)
    requires a < b
    ensures Pow2(a) < Pow2(b)
  {
    Pow2Grows(a + 1, b);
  }

  /** On a table of plain prefixes the governing key is the longest matching prefix. */
  lemma BestIsLongestPrefix(m: Table, is4: bool, ab: Bytes, k: MaskedKey)
    requires |ab| == Width(is4)
    requires forall x | x in m :: Normal(x) && PrefixLength(x.mask).Some?
    ensures Best(m, is4, ab, k)
            <==> Matching(m, is4, ab, k)
                 && forall x | Matching(m, is4, ab, x) && x != k ::
                      PrefixLength(x.mask).value < PrefixLength(k.mask).value
  {
    if Matching(m, is4, ab, k) {
      forall x | Matching(m, is4, ab, x) && x != k
        ensures Value(x.mask) < Value(k.mask) <==> PrefixLength(x.mask).value < PrefixLength(k.mask).value
      {
        MaskOrderIsLength(x.mask, k.mask);
      }
    }
  }

  lemma MaskValue(mask: Bytes, n: nat)
    requires n <= 8 * |mask| && mask == PrefixMask(n, |mask|)
    ensures Value(mask) + Pow2(8 * |mask| - n) == Pow2(8 * |mask|)
  {
    PrefixMaskValue(n, |mask|);
  }

  lemma MaskOrderIsLength(a: Bytes, b: Bytes)
    requires |a| == |b| && PrefixLength(a).Some? && PrefixLength(b).Some?
    ensures Value(a) < Value(b) <==> PrefixLength(a).value < PrefixLength(b).value
  {
    PrefixLengthIff(a, PrefixLength(a).value);
    PrefixLengthIff(b, PrefixLength(b).value);
    MaskValue(a, PrefixLength(a).value);
    MaskValue(b, PrefixLength(b).value);
    LongerIsGreater(Value(a), Value(b), 8 * |a|, PrefixLength(a).value, PrefixLength(b).value);
  }

  lemma LongerIsGreater(a: nat, b: nat, w: nat, m: nat, n: nat)
    requires m <= w && n <= w && a + Pow2(w - m) == Pow2(w) && b + Pow2(w - n) == Pow2(w)
    ensures a < b <==> m < n
  {
    if m < n { Pow2Strict(w - n, w - m); }
    if n < m { Pow2Strict(w - m, w - n); }
  }
}
