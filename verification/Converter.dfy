/** The back end of adblock_to_mitmania.py: prioritised filter sets become an ordered
    first-match rule list, which means what the filters mean once the proxy has
    compiled it. */
module Converter {
  import opened GoStrings
  import opened Globs
  import opened SuffixRegex
  import opened RuleCompile
  import opened FilterLists

  // ---- Chunks ----

  function Flat(chunks: seq<seq<string>>): seq<string> {
    if chunks == [] then [] else Flat(chunks[..|chunks| - 1]) + chunks[|chunks| - 1]
  }

  /** The length of the alternation a chunk is printed as. */
  function Size(chunk: seq<string>): nat {
    |Join(Atoms(chunk), '|')|
  }

  lemma {:induction false} AtomsAppend(hosts: seq<string>, h: string)
    ensures Atoms(hosts + [h]) == Atoms(hosts) + [RegexAtom(h)]
  {
  }

  lemma SizeAppend(chunk: seq<string>, h: string)
    ensures Size(chunk + [h]) == if chunk == [] then |RegexAtom(h)| else Size(chunk) + |RegexAtom(h)| + 1
  {
    AtomsAppend(chunk, h);
    if chunk == [] {
      assert Atoms(chunk) + [RegexAtom(h)] == [RegexAtom(h)];
    } else {
      JoinAppend(Atoms(chunk), [RegexAtom(h)], '|');
    }
  }

  /** A finished chunk: not empty, and over the limit only when one host alone is. */
  predicate Fits(chunk: seq<string>, maxChars: nat) {
    chunk != [] && (|chunk| == 1 || Size(chunk) <= maxChars)
  }

  predicate AllFit(chunks: seq<seq<string>>, maxChars: nat) {
    forall k | 0 <= k < |chunks| :: Fits(chunks[k], maxChars)
  }

  lemma FlatAppend(chunks: seq<seq<string>>, chunk: seq<string>)
    ensures Flat(chunks + [chunk]) == Flat(chunks) + chunk
  {
    assert (chunks + [chunk])[..|chunks|] == chunks;
  }

  lemma Regrouped(chunks: seq<seq<string>>, current: seq<string>, hosts: seq<string>, n: nat)
    requires n < |hosts| && Flat(chunks) + current == hosts[..n]
    ensures Flat(chunks) + (current + [hosts[n]]) == hosts[..n + 1]
    ensures Flat(chunks + [current]) + ([] + [hosts[n]]) == hosts[..n + 1]
  {
    FlatAppend(chunks, current);
    assert hosts[..n + 1] == hosts[..n] + [hosts[n]];
    assert Flat(chunks) + (current + [hosts[n]]) == Flat(chunks) + current + [hosts[n]];
    assert [] + [hosts[n]] == [hosts[n]];
  }

  /** chunk_domains: the sorted domains cut, in order, into chunks that fit. The running
      size counts one separator too many from the second chunk on. */
  method ChunkDomains(domains: set<string>, maxChars: nat) returns (chunks: seq<seq<string>>)
    ensures StrictlySorted(Flat(chunks)) && Elements(Flat(chunks)) == domains
    ensures AllFit(chunks, maxChars)
  {
    chunks := [];
    var current: seq<string> := [];
    var size := 0;
    var hosts := SortedStrings(domains);
    for n := 0 to |hosts|
      invariant Flat(chunks) + current == hosts[..n]
      invariant AllFit(chunks, maxChars) && (current == [] || Fits(current, maxChars))
      invariant size == Size(current) + if chunks == [] then 0 else 1
      invariant n > 0 ==> current != []
      invariant n == 0 ==> chunks == []
    {
      var host := hosts[n];
      var atomSize := |RegexAtom(host)| + if current != [] then 1 else 0;
      Regrouped(chunks, current, hosts, n);
      if current != [] && size + atomSize > maxChars {
        chunks := chunks + [current];
        current, size := [], 0;
      }
      SizeAppend(current, host);
      current := current + [host];
      size := size + atomSize;
    }
    assert hosts[..|hosts|] == hosts;
    FlatAppend(chunks, current);
    if current != [] {
      chunks := chunks + [current];
    }
  }

  // ---- Rules ----

  /** What a generated rule does with its hosts: pass them through uninspected, refuse
      the connection, or intercept and answer with a request action. */
  datatype Kind = Pass | Refuse | Raise(params: string)

  function HostOnly(host: string): Match {
    Match(host, "", "", "", "", map[])
  }

  function RequestOf(kind: Kind): seq<Action> {
    if kind.Raise? then [Action("raise", kind.params)] else []
  }

  /** allow_rule and block_rule. */
  function RuleFor(kind: Kind, chunk: seq<string>): Rule {
    var m := HostOnly(REGEX + HostRegex(chunk));
    match kind
    case Pass => Rule(m, None, Some(false), [], [])
    case Refuse => Rule(m, Some(Some(false)), None, [], [])
    case Raise(_) => Rule(m, None, None, RequestOf(kind), [])
  }

  const CATCHALL := Rule(HostOnly(""), None, Some(false), [], [])

  function Tier(kind: Kind, chunks: seq<seq<string>>): (r: seq<Rule>)
    ensures |r| == |chunks| && forall k | 0 <= k < |chunks| :: r[k] == RuleFor(kind, chunks[k])
  {
    seq(|chunks|, k requires 0 <= k < |chunks| => RuleFor(kind, chunks[k]))
  }

  lemma TierNext(kind: Kind, chunks: seq<seq<string>>, n: nat)
    requires n < |chunks|
    ensures Tier(kind, chunks[..n + 1]) == Tier(kind, chunks[..n]) + [RuleFor(kind, chunks[n])]
  {
  }

  /** One of the loops of build_http_rules. */
  method AppendTier(rules: seq<Rule>, kind: Kind, domains: set<string>, maxChars: nat)
    returns (rules': seq<Rule>, ghost chunks: seq<seq<string>>)
    ensures rules' == rules + Tier(kind, chunks)
    ensures Elements(Flat(chunks)) == domains && AllFit(chunks, maxChars)
  {
    var cut := ChunkDomains(domains, maxChars);
    chunks := cut;
    rules' := rules;
    for n := 0 to |cut|
      invariant rules' == rules + Tier(kind, cut[..n])
    {
      TierNext(kind, cut, n);
      rules' := rules' + [RuleFor(kind, cut[n])];
    }
    assert cut[..|cut|] == cut;
  }

  /** The list build_http_rules puts together from four lists of chunks. */
  function Layout(block: Kind, a: seq<seq<string>>, b: seq<seq<string>>, c: seq<seq<string>>, d: seq<seq<string>>,
                  catchAll: bool): seq<Rule>
  {
    Tier(Pass, a) + (Tier(block, b) + (Tier(Pass, c) + (Tier(block, d) + if catchAll then [CATCHALL] else [])))
  }

  // ---- What the compiled rules match ----

  function Compiled(kind: Kind, host: Matcher): CompiledRule {
    CompiledRule(host, Always, Always, Always, Always, map[], kind.Raise?, kind.Refuse?, false, RequestOf(kind), [])
  }

  lemma CompileHost(lib: Library, chunk: seq<string>)
    requires chunk != [] && forall i | 0 <= i < |chunk| :: ValidHost(chunk[i])
    ensures CompileMatcher(lib, REGEX + HostRegex(chunk)) == Some(Suffixes(chunk))
  {
    RecogniseHostRegex(chunk);
    var p := REGEX + HostRegex(chunk);
    assert p[..3] == REGEX && p[3..] == HostRegex(chunk);
  }

  /** Every generated rule compiles, to a suffix matcher over its chunk. */
  lemma CompileRuleFor(lib: Library, kind: Kind, chunk: seq<string>)
    requires chunk != [] && forall i | 0 <= i < |chunk| :: ValidHost(chunk[i])
    ensures CompileRule(lib, RuleFor(kind, chunk)) == Some(Compiled(kind, Suffixes(chunk)))
  {
    CompileHost(lib, chunk);
    var r := RuleFor(kind, chunk);
    assert !HasMessageFields(r.match_) && CompileRule(lib, r).Some?;
    assert CompileRule(lib, r).value.header == map[];
  }

  lemma CompileCatchAll(lib: Library)
    ensures CompileRule(lib, CATCHALL) == Some(Compiled(Pass, Always))
  {
    assert !HasMessageFields(CATCHALL.match_) && CompileRule(lib, CATCHALL).Some?;
    assert CompileRule(lib, CATCHALL).value.header == map[];
  }

  lemma CompileEnd(lib: Library, catchAll: bool)
    ensures Compile(lib, if catchAll then [CATCHALL] else []) == Some(if catchAll then [Compiled(Pass, Always)] else [])
  {
    CompileCatchAll(lib);
    if catchAll {
      assert Compile(lib, [CATCHALL]).Some?;
      assert Compile(lib, [CATCHALL]).value == [Compiled(Pass, Always)];
    }
  }

  lemma CompileConcat(lib: Library, a: seq<Rule>, b: seq<Rule>)
    ensures Compile(lib, a + b).Some? <==> Compile(lib, a).Some? && Compile(lib, b).Some?
    ensures Compile(lib, a + b).Some? ==> Compile(lib, a + b).value == Compile(lib, a).value + Compile(lib, b).value
  {
    ConcatCompiles(lib, a, b);
    if Compile(lib, a + b).Some? { ConcatEach(lib, a, b); }
  }

  lemma ConcatCompiles(lib: Library, a: seq<Rule>, b: seq<Rule>)
    ensures Compile(lib, a + b).Some? <==> Compile(lib, a).Some? && Compile(lib, b).Some?
  {
    var ab := a + b;
    assert forall i | 0 <= i < |a| :: ab[i] == a[i];
    assert forall i | 0 <= i < |b| :: ab[|a| + i] == b[i];
    assert forall i | |a| <= i < |ab| :: ab[i] == b[i - |a|];
  }

  lemma ConcatEach(lib: Library, a: seq<Rule>, b: seq<Rule>)
    requires Compile(lib, a + b).Some? && Compile(lib, a).Some? && Compile(lib, b).Some?
    ensures Compile(lib, a + b).value == Compile(lib, a).value + Compile(lib, b).value
  {
    var ab, x, y := a + b, Compile(lib, a).value, Compile(lib, b).value;
    forall i | 0 <= i < |ab| ensures Compile(lib, ab).value[i] == (x + y)[i] {
      assert ab[i] == if i < |a| then a[i] else b[i - |a|];
    }
  }

  lemma {:induction false} ConnAnswerConcat(a: seq<CompiledRule>, b: seq<CompiledRule>, i: ConnInput)
    ensures ConnAnswer(a + b, i) == if ConnAnswer(a, i).matched then ConnAnswer(a, i) else ConnAnswer(b, i)
    decreases |a|
  {
    if a == [] {
      assert a + b == b;
    } else {
      ConnAnswerConcat(a[1..], b, i);
      assert (a + b)[1..] == a[1..] + b;
    }
  }

  predicate ValidChunks(chunks: seq<seq<string>>) {
    forall k | 0 <= k < |chunks| :: chunks[k] != [] && forall i | 0 <= i < |chunks[k]| :: ValidHost(chunks[k][i])
  }

  function CompiledTier(kind: Kind, chunks: seq<seq<string>>): (r: seq<CompiledRule>)
    ensures |r| == |chunks| && forall k | 0 <= k < |chunks| :: r[k] == Compiled(kind, Suffixes(chunks[k]))
  {
    seq(|chunks|, k requires 0 <= k < |chunks| => Compiled(kind, Suffixes(chunks[k])))
  }

  lemma CompileTier(lib: Library, kind: Kind, chunks: seq<seq<string>>)
    requires ValidChunks(chunks)
    ensures Compile(lib, Tier(kind, chunks)) == Some(CompiledTier(kind, chunks))
  {
    forall k | 0 <= k < |chunks|
      ensures CompileRule(lib, Tier(kind, chunks)[k]) == Some(CompiledTier(kind, chunks)[k])
    {
      CompileRuleFor(lib, kind, chunks[k]);
    }
    assert Compile(lib, Tier(kind, chunks)).value == CompiledTier(kind, chunks);
  }

  ghost predicate TierMatches(chunks: seq<seq<string>>, s: string) {
    exists k | 0 <= k < |chunks| :: SuffixMatches(chunks[k], s)
  }

  lemma {:induction false} InFlat(chunks: seq<seq<string>>, k: nat, d: string)
    requires k < |chunks| && d in chunks[k]
    ensures d in Flat(chunks)
    decreases |chunks|
  {
    if k < |chunks| - 1 { InFlat(chunks[..|chunks| - 1], k, d); }
  }

  lemma {:induction false} FromFlat(chunks: seq<seq<string>>, d: string) returns (k: nat)
    requires d in Flat(chunks)
    ensures k < |chunks| && d in chunks[k]
    decreases |chunks|
  {
    if d in chunks[|chunks| - 1] {
      k := |chunks| - 1;
    } else {
      k := FromFlat(chunks[..|chunks| - 1], d);
    }
  }

  /** Cutting a set of domains into chunks does not change which hosts it matches. */
  lemma ChunksMatchTheSet(chunks: seq<seq<string>>, s: string)
    ensures TierMatches(chunks, s) <==> UnderAny(s, Elements(Flat(chunks)))
  {
    if TierMatches(chunks, s) {
      var k :| 0 <= k < |chunks| && SuffixMatches(chunks[k], s);
      var i :| 0 <= i < |chunks[k]| && HostUnder(s, chunks[k][i]);
      InFlat(chunks, k, chunks[k][i]);
    }
    if UnderAny(s, Elements(Flat(chunks))) {
      var d :| d in Elements(Flat(chunks)) && HostUnder(s, d);
      var k := FromFlat(chunks, d);
      assert SuffixMatches(chunks[k], s);
    }
  }

  function AnswerOf(kind: Kind): ConnDecision {
    ConnDecision(kind.Raise?, kind.Refuse?, true)
  }

  lemma {:induction false} TierAnswer(kind: Kind, chunks: seq<seq<string>>, i: ConnInput)
    ensures ConnAnswer(CompiledTier(kind, chunks), i)
            == if TierMatches(chunks, i.host) then AnswerOf(kind) else NOMATCH
    decreases |chunks|
  {
    if chunks != [] {
      TierAnswer(kind, chunks[1..], i);
      assert CompiledTier(kind, chunks)[1..] == CompiledTier(kind, chunks[1..]);
      assert TierMatches(chunks, i.host) <==> SuffixMatches(chunks[0], i.host) || TierMatches(chunks[1..], i.host) by {
        TierMatchesFirst(chunks, i.host);
      }
    }
  }

  lemma TierMatchesFirst(chunks: seq<seq<string>>, s: string)
    requires chunks != []
    ensures TierMatches(chunks, s) <==> SuffixMatches(chunks[0], s) || TierMatches(chunks[1..], s)
  {
    if TierMatches(chunks, s) {
      var k :| 0 <= k < |chunks| && SuffixMatches(chunks[k], s);
      assert k > 0 ==> chunks[1..][k - 1] == chunks[k];
    }
    if TierMatches(chunks[1..], s) {
      var k :| 0 <= k < |chunks[1..]| && SuffixMatches(chunks[1..][k], s);
      assert chunks[k + 1] == chunks[1..][k];
    }
  }

  // ---- Meaning is preserved ----

  ghost function Expected(ruling: Ruling, block: Kind, catchAll: bool): ConnDecision {
    match ruling
    case Exempt => AnswerOf(Pass)
    case Reject => AnswerOf(block)
    case Unlisted => if catchAll then AnswerOf(Pass) else NOMATCH
  }

  function CompiledLayout(block: Kind, a: seq<seq<string>>, b: seq<seq<string>>, c: seq<seq<string>>,
                          d: seq<seq<string>>, catchAll: bool): seq<CompiledRule>
  {
    CompiledTier(Pass, a) + (CompiledTier(block, b) + LastTiers(block, c, d, catchAll))
  }

  /** The lower two tiers and the catch-all. */
  function LastTiers(block: Kind, c: seq<seq<string>>, d: seq<seq<string>>, catchAll: bool): seq<CompiledRule> {
    CompiledTier(Pass, c) + (CompiledTier(block, d) + if catchAll then [Compiled(Pass, Always)] else [])
  }

  lemma CompileBefore(lib: Library, kind: Kind, chunks: seq<seq<string>>, rest: seq<Rule>, compiled: seq<CompiledRule>)
    requires ValidChunks(chunks) && Compile(lib, rest) == Some(compiled)
    ensures Compile(lib, Tier(kind, chunks) + rest) == Some(CompiledTier(kind, chunks) + compiled)
  {
    CompileTier(lib, kind, chunks);
    CompileConcat(lib, Tier(kind, chunks), rest);
  }

  /** Whatever the chunks, the generated list always loads. */
  lemma CompileLayout(lib: Library, block: Kind, a: seq<seq<string>>, b: seq<seq<string>>, c: seq<seq<string>>,
                      d: seq<seq<string>>, catchAll: bool)
    requires ValidChunks(a) && ValidChunks(b) && ValidChunks(c) && ValidChunks(d)
    ensures Compile(lib, Layout(block, a, b, c, d, catchAll)) == Some(CompiledLayout(block, a, b, c, d, catchAll))
  {
    var end, end' := if catchAll then [CATCHALL] else [], if catchAll then [Compiled(Pass, Always)] else [];
    CompileEnd(lib, catchAll);
    CompileBefore(lib, block, d, end, end');
    CompileBefore(lib, Pass, c, Tier(block, d) + end, CompiledTier(block, d) + end');
    var last2 := Tier(Pass, c) + (Tier(block, d) + end);
    var last2' := CompiledTier(Pass, c) + (CompiledTier(block, d) + end');
    CompileBefore(lib, block, b, last2, last2');
    CompileBefore(lib, Pass, a, Tier(block, b) + last2, CompiledTier(block, b) + last2');
  }

  lemma AnswerBefore(kind: Kind, chunks: seq<seq<string>>, rest: seq<CompiledRule>, i: ConnInput)
    ensures ConnAnswer(CompiledTier(kind, chunks) + rest, i)
            == if UnderAny(i.host, Elements(Flat(chunks))) then AnswerOf(kind) else ConnAnswer(rest, i)
  {
    ConnAnswerConcat(CompiledTier(kind, chunks), rest, i);
    TierAnswer(kind, chunks, i);
    ChunksMatchTheSet(chunks, i.host);
  }

  /** First match over the list is the priority rule over the sets. */
  lemma LayoutAnswer(block: Kind, a: seq<seq<string>>, b: seq<seq<string>>, c: seq<seq<string>>,
                     d: seq<seq<string>>, catchAll: bool, i: ConnInput)
    ensures ConnAnswer(CompiledLayout(block, a, b, c, d, catchAll), i)
            == Expected(Priority(i.host, Elements(Flat(a)), Elements(Flat(b)), Elements(Flat(c)), Elements(Flat(d))),
                        block, catchAll)
  {
    ExpectedIs(i.host, Elements(Flat(a)), Elements(Flat(b)), Elements(Flat(c)), Elements(Flat(d)), block, catchAll);
    TiersAnswer(block, a, b, c, d, catchAll, i);
  }

  /** What is expected of a host that is, or is not, under each of the four sets. */
  function ByTier(a: bool, b: bool, c: bool, d: bool, block: Kind, catchAll: bool): ConnDecision {
    if a then AnswerOf(Pass)
    else if b then AnswerOf(block)
    else if c then AnswerOf(Pass)
    else if d then AnswerOf(block)
    else if catchAll then AnswerOf(Pass) else NOMATCH
  }

  lemma ExpectedIs(host: string, a: set<string>, b: set<string>, c: set<string>, d: set<string>, block: Kind,
                   catchAll: bool)
    ensures Expected(Priority(host, a, b, c, d), block, catchAll)
            == ByTier(UnderAny(host, a), UnderAny(host, b), UnderAny(host, c), UnderAny(host, d), block, catchAll)
  {
  }

  lemma TiersAnswer(block: Kind, a: seq<seq<string>>, b: seq<seq<string>>, c: seq<seq<string>>,
                    d: seq<seq<string>>, catchAll: bool, i: ConnInput)
    ensures ConnAnswer(CompiledLayout(block, a, b, c, d, catchAll), i)
            == ByTier(UnderAny(i.host, Elements(Flat(a))), UnderAny(i.host, Elements(Flat(b))),
                      UnderAny(i.host, Elements(Flat(c))), UnderAny(i.host, Elements(Flat(d))), block, catchAll)
  {
    LastTiersAnswer(block, c, d, catchAll, i);
    TwoTiersAnswer(block, a, b, LastTiers(block, c, d, catchAll), i);
  }

  lemma TwoTiersAnswer(block: Kind, a: seq<seq<string>>, b: seq<seq<string>>, rest: seq<CompiledRule>, i: ConnInput)
    ensures ConnAnswer(CompiledTier(Pass, a) + (CompiledTier(block, b) + rest), i)
            == if UnderAny(i.host, Elements(Flat(a))) then AnswerOf(Pass)
               else if UnderAny(i.host, Elements(Flat(b))) then AnswerOf(block)
               else ConnAnswer(rest, i)
  {
    AnswerBefore(block, b, rest, i);
    AnswerBefore(Pass, a, CompiledTier(block, b) + rest, i);
  }

  lemma LastTiersAnswer(block: Kind, c: seq<seq<string>>, d: seq<seq<string>>, catchAll: bool, i: ConnInput)
    ensures ConnAnswer(LastTiers(block, c, d, catchAll), i)
            == if UnderAny(i.host, Elements(Flat(c))) then AnswerOf(Pass)
               else if UnderAny(i.host, Elements(Flat(d))) then AnswerOf(block)
               else if catchAll then AnswerOf(Pass) else NOMATCH
  {
    var end := if catchAll then [Compiled(Pass, Always)] else [];
    assert ConnAnswer(end, i) == if catchAll then AnswerOf(Pass) else NOMATCH;
    TwoTiersAnswer(block, c, d, end, i);
  }

  /** The rules mean what the filters fs mean, for every host. */
  ghost predicate Means(rules: seq<CompiledRule>, fs: seq<Filter>, block: Kind, catchAll: bool) {
    forall i: ConnInput :: ConnAnswer(rules, i) == Expected(Decision(fs, i.host), block, catchAll)
  }

  lemma {:induction false} ChunksValid(chunks: seq<seq<string>>, maxChars: nat)
    requires AllFit(chunks, maxChars) && forall h | h in Elements(Flat(chunks)) :: ValidHost(h)
    ensures ValidChunks(chunks)
  {
    forall k, i | 0 <= k < |chunks| && 0 <= i < |chunks[k]| ensures ValidHost(chunks[k][i]) {
      InFlat(chunks, k, chunks[k][i]);
    }
  }

  lemma Regroup(a: seq<Rule>, b: seq<Rule>, c: seq<Rule>, d: seq<Rule>, e: seq<Rule>)
    ensures [] + a + b + c + d + e == a + (b + (c + (d + e)))
    ensures [] + a + b + c + d + [] == [] + a + b + c + d
  {
  }

  /** build_http_rules. */
  method BuildHttpRules(p: ParsedFilters, block: Kind, maxChars: nat, catchAll: bool)
    returns (rules: seq<Rule>, ghost a: seq<seq<string>>, ghost b: seq<seq<string>>,
             ghost c: seq<seq<string>>, ghost d: seq<seq<string>>)
    ensures rules == Layout(block, a, b, c, d, catchAll)
    ensures Elements(Flat(a)) == p.importantExceptions && AllFit(a, maxChars)
    ensures Elements(Flat(b)) == p.important && AllFit(b, maxChars)
    ensures Elements(Flat(c)) == p.exceptions && AllFit(c, maxChars)
    ensures Elements(Flat(d)) == p.blocked && AllFit(d, maxChars)
  {
    rules, a := AppendTier([], Pass, p.importantExceptions, maxChars);
    rules, b := AppendTier(rules, block, p.important, maxChars);
    rules, c := AppendTier(rules, Pass, p.exceptions, maxChars);
    rules, d := AppendTier(rules, block, p.blocked, maxChars);
    Regroup(Tier(Pass, a), Tier(block, b), Tier(Pass, c), Tier(block, d), if catchAll then [CATCHALL] else []);
    if catchAll {
      rules := rules + [CATCHALL];
    }
  }

  // ---- The message phase under --action raise ----

  /** The request actions of the first rule that matches a message. */
  function RequestActions(rules: seq<CompiledRule>, m: MsgInput): Option<seq<Action>> {
    match MsgAnswer(rules, m) case None => None case Some(r) => Some(r.request)
  }

  ghost function ExpectedActions(ruling: Ruling, params: string, catchAll: bool): Option<seq<Action>> {
    match ruling
    case Exempt => Some([])
    case Reject => Some([Action("raise", params)])
    case Unlisted => if catchAll then Some([]) else None
  }

  /** A request is answered with the raise action exactly when the filters reject its host. */
  ghost predicate Raises(rules: seq<CompiledRule>, fs: seq<Filter>, params: string, catchAll: bool) {
    forall m: MsgInput :: RequestActions(rules, m) == ExpectedActions(Decision(fs, m.conn.host), params, catchAll)
  }

  lemma {:induction false} MsgAnswerConcat(a: seq<CompiledRule>, b: seq<CompiledRule>, m: MsgInput)
    ensures MsgAnswer(a + b, m) == if MsgAnswer(a, m).Some? then MsgAnswer(a, m) else MsgAnswer(b, m)
    decreases |a|
  {
    if a == [] {
      assert a + b == b;
    } else {
      MsgAnswerConcat(a[1..], b, m);
      assert (a + b)[1..] == a[1..] + b;
    }
  }

  lemma {:induction false} TierActions(kind: Kind, chunks: seq<seq<string>>, m: MsgInput)
    requires !kind.Refuse?
    ensures RequestActions(CompiledTier(kind, chunks), m)
            == if TierMatches(chunks, m.conn.host) then Some(RequestOf(kind)) else None
    decreases |chunks|
  {
    if chunks != [] {
      TierActions(kind, chunks[1..], m);
      assert CompiledTier(kind, chunks)[1..] == CompiledTier(kind, chunks[1..]);
      TierMatchesFirst(chunks, m.conn.host);
    }
  }

  lemma ActionsBefore(kind: Kind, chunks: seq<seq<string>>, rest: seq<CompiledRule>, m: MsgInput)
    requires !kind.Refuse?
    ensures RequestActions(CompiledTier(kind, chunks) + rest, m)
            == if UnderAny(m.conn.host, Elements(Flat(chunks))) then Some(RequestOf(kind)) else RequestActions(rest, m)
  {
    MsgAnswerConcat(CompiledTier(kind, chunks), rest, m);
    TierActions(kind, chunks, m);
    ChunksMatchTheSet(chunks, m.conn.host);
  }

  /** An intercepted request is answered with the raise action exactly when the priority
      rule rejects its host. */
  lemma LayoutActions(params: string, a: seq<seq<string>>, b: seq<seq<string>>, c: seq<seq<string>>,
                      d: seq<seq<string>>, catchAll: bool, m: MsgInput)
    ensures RequestActions(CompiledLayout(Raise(params), a, b, c, d, catchAll), m)
            == ExpectedActions(Priority(m.conn.host, Elements(Flat(a)), Elements(Flat(b)), Elements(Flat(c)),
                                        Elements(Flat(d))),
                               params, catchAll)
  {
    var end, block := if catchAll then [Compiled(Pass, Always)] else [], Raise(params);
    assert RequestActions(end, m) == if catchAll then Some([]) else None;
    ActionsBefore(block, d, end, m);
    ActionsBefore(Pass, c, CompiledTier(block, d) + end, m);
    var last2 := CompiledTier(Pass, c) + (CompiledTier(block, d) + end);
    ActionsBefore(block, b, last2, m);
    ActionsBefore(Pass, a, CompiledTier(block, b) + last2, m);
  }

  /** The converter end to end: for every list of filters over valid hosts, every action,
      chunk size and choice of catch-all, the output loads and every connection gets
      the decision the filters ask for. */
  method Convert(ghost lib: Library, fs: seq<Filter>, block: Kind, maxChars: nat, catchAll: bool)
    returns (rules: seq<Rule>)
    requires forall f | f in fs :: ValidHost(f.host)
    ensures Compile(lib, rules).Some? && Means(Compile(lib, rules).value, fs, block, catchAll)
    ensures block.Raise? ==> Raises(Compile(lib, rules).value, fs, block.params, catchAll)
  {
    var p := ParseSources(fs);
    ghost var a, b, c, d;
    rules, a, b, c, d := BuildHttpRules(p, block, maxChars, catchAll);
    ChunksValid(a, maxChars);
    ChunksValid(b, maxChars);
    ChunksValid(c, maxChars);
    ChunksValid(d, maxChars);
    CompileLayout(lib, block, a, b, c, d, catchAll);
    forall i: ConnInput
      ensures ConnAnswer(Compile(lib, rules).value, i) == Expected(Decision(fs, i.host), block, catchAll)
    {
      LayoutAnswer(block, a, b, c, d, catchAll, i);
    }
    if block.Raise? {
      forall m: MsgInput
        ensures RequestActions(Compile(lib, rules).value, m)
                == ExpectedActions(Decision(fs, m.conn.host), block.params, catchAll)
      {
        LayoutActions(block.params, a, b, c, d, catchAll, m);
      }
    }
  }

  // ---- Merging into a live table ----

  /** One bucket: its http list, and everything else it holds. */
  datatype Bucket<T> = Bucket(http: seq<Rule>, rest: T)

  const BOUNDARYHOST := "adblock-to" + ("-mitmania." + ("generation" + ("-boundary." + "invalid")))

  const BOUNDARY := Rule(HostOnly(BOUNDARYHOST), None, Some(false), [], [])

  /** The rules after the last boundary, all of them when there is none. */
  function TrueBase(rules: seq<Rule>): (r: seq<Rule>)
    ensures BOUNDARY !in r
    ensures |r| <= |rules| && r == rules[|rules| - |r|..]
    ensures BOUNDARY in rules ==> |r| < |rules| && rules[|rules| - |r| - 1] == BOUNDARY
    decreases |rules|
  {
    if BOUNDARY !in rules then rules else TrueBase(rules[1..])
  }

  /** strip_previous_generation. */
  method StripPreviousGeneration(rules: seq<Rule>) returns (r: seq<Rule>)
    ensures r == TrueBase(rules)
  {
    var boundaryAt := -1;
    for i := 0 to |rules|
      invariant -1 <= boundaryAt < i
      invariant boundaryAt >= 0 ==> rules[boundaryAt] == BOUNDARY
      invariant forall k | boundaryAt < k < i :: rules[k] != BOUNDARY
    {
      if rules[i] == BOUNDARY {
        boundaryAt := i;
      }
    }
    AfterLast(rules, boundaryAt + 1);
    return if boundaryAt < 0 then rules else rules[boundaryAt + 1..];
  }

  lemma {:induction false} AfterLast(rules: seq<Rule>, n: nat)
    requires n <= |rules| && (n > 0 ==> rules[n - 1] == BOUNDARY)
    requires forall k | n <= k < |rules| :: rules[k] != BOUNDARY
    ensures TrueBase(rules) == rules[n..]
    decreases n
  {
    if n > 0 {
      if n > 1 { assert rules[1..][n - 2] == BOUNDARY; }
      AfterLast(rules[1..], n - 1);
    }
  }

  function WithFilters<T>(bucket: Bucket<T>, filters: seq<Rule>): Bucket<T> {
    Bucket(filters + [BOUNDARY] + TrueBase(bucket.http), bucket.rest)
  }

  function Merged<T>(base: map<string, Bucket<T>>, filters: seq<Rule>): map<string, Bucket<T>> {
    map name | name in base :: WithFilters(base[name], filters)
  }

  /** merge_base_ruleset. */
  method MergeBaseRuleset<T>(base: map<string, Bucket<T>>, filters: seq<Rule>) returns (merged: map<string, Bucket<T>>)
    ensures merged == Merged(base, filters)
  {
    merged := map[];
    var todo := base.Keys;
    ghost var want := Merged(base, filters);
    while todo != {}
      invariant todo <= base.Keys && DoneExcept(want, todo, merged)
    {
      var name :| name in todo;
      var trueBase := StripPreviousGeneration(base[name].http);
      Wanted(base, filters, name);
      DoOne(want, todo, merged, name);
      merged := merged[name := Bucket(filters + [BOUNDARY] + trueBase, base[name].rest)];
      todo := todo - {name};
    }
  }

  lemma Wanted<T>(base: map<string, Bucket<T>>, filters: seq<Rule>, name: string)
    requires name in base
    ensures name in Merged(base, filters)
    ensures Merged(base, filters)[name] == Bucket(filters + [BOUNDARY] + TrueBase(base[name].http), base[name].rest)
  {
  }

  /** merged is want except for the names still to do. */
  ghost predicate DoneExcept<T>(want: map<string, Bucket<T>>, todo: set<string>, merged: map<string, Bucket<T>>) {
    merged.Keys == want.Keys - todo && forall name | name in merged :: merged[name] == want[name]
  }

  lemma DoOne<T>(want: map<string, Bucket<T>>, todo: set<string>, merged: map<string, Bucket<T>>, name: string)
    requires name in todo && todo <= want.Keys && DoneExcept(want, todo, merged)
    ensures DoneExcept(want, todo - {name}, merged[name := want[name]])
  {
  }

  lemma FiltersReplaced<T>(bucket: Bucket<T>, first: seq<Rule>, second: seq<Rule>)
    ensures WithFilters(WithFilters(bucket, first), second) == WithFilters(bucket, second)
  {
    AfterLast(first + [BOUNDARY] + TrueBase(bucket.http), |first| + 1);
  }

  /** A later run replaces the earlier one's rules, whatever either generated: tables do
      not grow, and the operator's own rules and settings survive every run. */
  lemma MergeReplaces<T>(base: map<string, Bucket<T>>, first: seq<Rule>, second: seq<Rule>)
    ensures Merged(Merged(base, first), second) == Merged(base, second)
  {
    forall name | name in base
      ensures WithFilters(WithFilters(base[name], first), second) == WithFilters(base[name], second)
    {
      FiltersReplaced(base[name], first, second);
    }
  }

  lemma PlainConcat(a: string, b: string)
    requires Plain(a) && Plain(b)
    ensures Plain(a + b)
  {
  }

  lemma BoundaryIsPlain()
    ensures Plain(BOUNDARYHOST) && !HasPrefix(BOUNDARYHOST, REGEX) && BOUNDARYHOST != ""
  {
    PlainConcat("-boundary.", "invalid");
    PlainConcat("generation", "-boundary." + "invalid");
    PlainConcat("-mitmania.", "generation" + ("-boundary." + "invalid"));
    PlainConcat("adblock-to", "-mitmania." + ("generation" + ("-boundary." + "invalid")));
    assert BOUNDARYHOST[0] == 'a' && REGEX[0] == 'r';
  }

  lemma CompileBoundary(lib: Library)
    ensures CompileRule(lib, BOUNDARY) == Some(Compiled(Pass, GlobOf(BOUNDARYHOST)))
  {
    BoundaryIsPlain();
    assert !HasMessageFields(BOUNDARY.match_) && CompileRule(lib, BOUNDARY).Some?;
    assert CompileRule(lib, BOUNDARY).value.header == map[];
  }

  lemma BoundaryAnswer(lib: Library, i: ConnInput)
    ensures Compile(lib, [BOUNDARY]).Some?
    ensures ConnAnswer(Compile(lib, [BOUNDARY]).value, i) == if i.host == BOUNDARYHOST then AnswerOf(Pass) else NOMATCH
  {
    CompileBoundary(lib);
    BoundaryIsPlain();
    PlainGlob(BOUNDARYHOST, i.host);
    assert Compile(lib, [BOUNDARY]).value == [Compiled(Pass, GlobOf(BOUNDARYHOST))];
  }

  /** A merged bucket loads when its two parts do, and except for the reserved name it
      answers with the filters first and then as the operator's rules did. */
  lemma MergedAnswer(lib: Library, filters: seq<Rule>, base: seq<Rule>, i: ConnInput)
    requires Compile(lib, filters).Some? && Compile(lib, base).Some?
    ensures Compile(lib, filters + [BOUNDARY] + base).Some?
    ensures var own := ConnAnswer(Compile(lib, filters).value, i);
            ConnAnswer(Compile(lib, filters + [BOUNDARY] + base).value, i)
            == if own.matched then own
               else if i.host == BOUNDARYHOST then AnswerOf(Pass)
               else ConnAnswer(Compile(lib, base).value, i)
  {
    BoundaryAnswer(lib, i);
    CompileConcat(lib, filters, [BOUNDARY]);
    CompileConcat(lib, filters + [BOUNDARY], base);
    var f, m, b := Compile(lib, filters).value, Compile(lib, [BOUNDARY]).value, Compile(lib, base).value;
    ConnAnswerConcat(f, m, i);
    ConnAnswerConcat(f + m, b, i);
  }

  lemma BoundaryMessage(lib: Library, m: MsgInput)
    ensures Compile(lib, [BOUNDARY]).Some?
    ensures MsgAnswer(Compile(lib, [BOUNDARY]).value, m)
            == if m.conn.host == BOUNDARYHOST then Some(Compiled(Pass, GlobOf(BOUNDARYHOST))) else None
  {
    CompileBoundary(lib);
    BoundaryIsPlain();
    PlainGlob(BOUNDARYHOST, m.conn.host);
    assert Compile(lib, [BOUNDARY]).value == [Compiled(Pass, GlobOf(BOUNDARYHOST))];
  }

  /** The same for requests: the filters' rule if one matches, then the operator's. */
  lemma MergedMessage(lib: Library, filters: seq<Rule>, base: seq<Rule>, m: MsgInput)
    requires Compile(lib, filters).Some? && Compile(lib, base).Some?
    ensures Compile(lib, filters + [BOUNDARY] + base).Some?
    ensures var own := MsgAnswer(Compile(lib, filters).value, m);
            MsgAnswer(Compile(lib, filters + [BOUNDARY] + base).value, m)
            == if own.Some? then own
               else if m.conn.host == BOUNDARYHOST then Some(Compiled(Pass, GlobOf(BOUNDARYHOST)))
               else MsgAnswer(Compile(lib, base).value, m)
  {
    BoundaryMessage(lib, m);
    CompileConcat(lib, filters, [BOUNDARY]);
    CompileConcat(lib, filters + [BOUNDARY], base);
    var f, b, o := Compile(lib, filters).value, Compile(lib, [BOUNDARY]).value, Compile(lib, base).value;
    MsgAnswerConcat(f, b, m);
    MsgAnswerConcat(f + b, o, m);
  }
}
