/** Lookups through the compact index, and why they answer as a scan over the whole
    rule list would: appendCandidates, LookupConn and LookupRequest. */
module HostLookup {
  import opened GoStrings
  import opened Globs
  import opened SuffixRegex
  import opened RuleCompile
  import opened HostTree
  import opened HostCompact
  import opened HostIndex

  // ---- findChild ----

  /** The binary search over one node's edges finds the edge with this label, if any. */
  method FindChild(ix: Index, nodeID: nat, lab: string, ghost places: seq<Path>, ghost m: Contents)
    returns (child: Option<nat>)
    requires Represents(ix, places, m) && nodeID < |places|
    ensures child.Some? ==> child.value < |places| && places[child.value] == Under(places[nodeID], lab)
    ensures child.Some? <==> Under(places[nodeID], lab) in m
  {
    assert Describes(ix, places, m, nodeID);
    var node := ix.nodes[nodeID];
    var lo := node.edgeStart;
    var hi := lo + node.edgeCount;
    while lo < hi
      invariant node.edgeStart <= lo <= hi <= node.edgeStart + node.edgeCount
      invariant forall k | node.edgeStart <= k < lo :: Less(ix.edges[k].lab, lab)
      invariant forall k | hi <= k < node.edgeStart + node.edgeCount :: !Less(ix.edges[k].lab, lab)
    {
      var mid := (lo + hi) / 2;
      if Less(ix.edges[mid].lab, lab) {
        forall k | node.edgeStart <= k < mid ensures Less(ix.edges[k].lab, lab) {
          LessTransitive(ix.edges[k].lab, ix.edges[mid].lab, lab);
        }
        lo := mid + 1;
      } else {
        forall k | mid < k < node.edgeStart + node.edgeCount ensures !Less(ix.edges[k].lab, lab) {
          if Less(ix.edges[k].lab, lab) { LessTransitive(ix.edges[mid].lab, ix.edges[k].lab, lab); }
        }
        hi := mid;
      }
    }
    var end := node.edgeStart + node.edgeCount;
    if lo == end || ix.edges[lo].lab != lab {
      NoEdge(ix, node, lo, lab);
      return None;
    }
    assert LeadsTo(ix.edges[lo], places, places[nodeID]);
    assert Describes(ix, places, m, ix.edges[lo].child);
    return Some(ix.edges[lo].child);
  }

  lemma NoEdge(ix: Index, n: IndexNode, lo: nat, lab: string)
    requires n.edgeStart + n.edgeCount <= |ix.edges| && n.edgeStart <= lo <= n.edgeStart + n.edgeCount
    requires EdgesSorted(ix.edges, n.edgeStart, n.edgeStart + n.edgeCount)
    requires forall k | n.edgeStart <= k < lo :: Less(ix.edges[k].lab, lab)
    requires lo < n.edgeStart + n.edgeCount ==> !Less(ix.edges[lo].lab, lab) && ix.edges[lo].lab != lab
    ensures !HasEdge(ix.edges, n, lab)
  {
    LessIrreflexive(lab);
    if lo < n.edgeStart + n.edgeCount {
      LessTotal(ix.edges[lo].lab, lab);
      forall k | lo < k < n.edgeStart + n.edgeCount ensures ix.edges[k].lab != lab {
        LessTransitive(lab, ix.edges[lo].lab, ix.edges[k].lab);
      }
    }
  }

  // ---- appendCandidates ----

  /** The host as the index reads it. */
  function Canonical(host: string): string {
    Lower(TrimDot(host))
  }

  /** Rule x is kept at the place of one of the first j prefixes of labels. */
  ghost predicate Gathered(m: Contents, labels: seq<string>, j: nat, x: nat) {
    exists i | 1 <= i <= j && i <= |labels| :: Holds(m, Walk(Root, labels[..i]), x)
  }

  ghost predicate Collected(result: seq<nat>, ix: Index, m: Contents, labels: seq<string>, j: nat) {
    forall x: nat :: x in result <==> x in ix.fallback || Gathered(m, labels, j, x)
  }

  lemma GatherStep(m: Contents, labels: seq<string>, j: nat, x: nat)
    requires j < |labels|
    ensures Gathered(m, labels, j + 1, x)
            <==> Gathered(m, labels, j, x) || Holds(m, Walk(Root, labels[..j + 1]), x)
  {
    if Gathered(m, labels, j, x) {
      var i :| 1 <= i <= j && i <= |labels| && Holds(m, Walk(Root, labels[..i]), x);
      assert i <= j + 1;
    }
  }

  lemma {:induction false} NothingBelow(m: Contents, labels: seq<string>, j: nat, i: nat)
    requires Closed(m) && j <= i <= |labels| && Walk(Root, labels[..j]) !in m
    ensures Walk(Root, labels[..i]) !in m
    decreases i
  {
    if j < i {
      NothingBelow(m, labels, j, i - 1);
      assert labels[..i] == labels[..i - 1] + [labels[i - 1]];
      WalkLast(Root, labels[..i - 1], labels[i - 1]);
      assert Walk(Root, labels[..i]).parent == Walk(Root, labels[..i - 1]);
    }
  }

  lemma GatherStops(m: Contents, labels: seq<string>, j: nat, x: nat)
    requires Closed(m) && j < |labels| && Walk(Root, labels[..j + 1]) !in m
    ensures Gathered(m, labels, |labels|, x) <==> Gathered(m, labels, j, x)
  {
    if Gathered(m, labels, |labels|, x) {
      var i :| 1 <= i <= |labels| && Holds(m, Walk(Root, labels[..i]), x);
      if i > j { NothingBelow(m, labels, j + 1, i); }
    }
    if Gathered(m, labels, j, x) {
      var i :| 1 <= i <= j && i <= |labels| && Holds(m, Walk(Root, labels[..i]), x);
    }
  }

  /** One turn of the walk: the rules found at the next node. */
  lemma CollectStep(result: seq<nat>, ix: Index, m: Contents, labels: seq<string>, j: nat, more: seq<nat>)
    requires Collected(result, ix, m, labels, j) && j < |labels|
    requires Walk(Root, labels[..j + 1]) in m && m[Walk(Root, labels[..j + 1])] == more
    ensures Collected(result + more, ix, m, labels, j + 1)
  {
    forall x: nat ensures x in result + more <==> x in ix.fallback || Gathered(m, labels, j + 1, x) {
      GatherStep(m, labels, j, x);
      assert x in result <==> x in ix.fallback || Gathered(m, labels, j, x);
    }
  }

  lemma CollectStops(result: seq<nat>, ix: Index, m: Contents, labels: seq<string>, j: nat)
    requires Closed(m) && Collected(result, ix, m, labels, j) && j < |labels|
    requires Walk(Root, labels[..j + 1]) !in m
    ensures Collected(result, ix, m, labels, |labels|)
  {
    forall x: nat ensures x in result <==> x in ix.fallback || Gathered(m, labels, |labels|, x) {
      GatherStops(m, labels, j, x);
      assert x in result <==> x in ix.fallback || Gathered(m, labels, j, x);
    }
  }

  /** The state of the walk: end characters of host are unread, and the j labels read
      so far lead to the node at hand. */
  ghost predicate Walking(host: string, end: nat, j: nat, p: Path) {
    var labels := RevLabels(host);
    && end <= |host| && j <= |labels|
    && labels == labels[..j] + RevLabels(host[..end])
    && p == Walk(Root, labels[..j])
  }

  lemma WalkingStep(host: string, end: nat, start: nat, j: nat, p: Path)
    requires Walking(host, end, j, p) && end > 0 && start == AfterLastDot(host[..end])
    ensures j < |RevLabels(host)|
    ensures Walking(host, if start == 0 then 0 else start - 1, j + 1, Under(p, host[start..end]))
    ensures Walk(Root, RevLabels(host)[..j + 1]) == Under(p, host[start..end])
  {
    var labels := RevLabels(host);
    var next := if start == 0 then 0 else start - 1;
    WalkStep(host, end, start, p);
    NextLabel(labels, j, host[start..end], RevLabels(host[..next]));
    WalkLast(Root, labels[..j], host[start..end]);
  }

  lemma NextLabel(labels: seq<string>, j: nat, lab: string, rest: seq<string>)
    requires j <= |labels| && labels == labels[..j] + ([lab] + rest)
    ensures j < |labels| && labels[..j + 1] == labels[..j] + [lab] && labels == labels[..j + 1] + rest
  {
    assert |labels| == j + 1 + |rest|;
    assert labels[j] == lab;
  }

  /** The walk of appendCandidates, before sorting. */
  method Collect(ix: Index, host: string, ghost places: seq<Path>, ghost m: Contents) returns (result: seq<nat>)
    requires Represents(ix, places, m) && Closed(m)
    ensures Collected(result, ix, m, RevLabels(host), |RevLabels(host)|)
  {
    result := ix.fallback;
    var nodeID := 0;
    var end := |host|;
    ghost var j := 0;
    assert host[..end] == host;
    while end > 0
      invariant 0 <= end && 0 <= nodeID < |places| && Walking(host, end, j, places[nodeID])
      invariant Collected(result, ix, m, RevLabels(host), j)
      decreases end
    {
      var start := AfterLastDot(host[..end]);
      WalkingStep(host, end, start, j, places[nodeID]);
      var child := FindChild(ix, nodeID, host[start..end], places, m);
      if child.None? {
        CollectStops(result, ix, m, RevLabels(host), j);
        return;
      }
      nodeID := child.value;
      assert Describes(ix, places, m, nodeID);
      var node := ix.nodes[nodeID];
      CollectStep(result, ix, m, RevLabels(host), j, ix.ruleIDs[node.ruleStart..node.ruleStart + node.ruleCount]);
      result := result + ix.ruleIDs[node.ruleStart..node.ruleStart + node.ruleCount];
      j := j + 1;
      end := if start == 0 then 0 else start - 1;
    }
    assert RevLabels(host) == RevLabels(host)[..j];
  }

  /** A list without the repeats that stand next to each other. */
  function WithoutRepeats(s: seq<nat>): (r: seq<nat>)
    ensures s != [] ==> r != [] && r[|r| - 1] == s[|s| - 1]
  {
    if s == [] then []
    else
      var r := WithoutRepeats(s[..|s| - 1]);
      var last := s[|s| - 1];
      if r != [] && r[|r| - 1] == last then r else r + [last]
  }

  lemma {:induction false} WithoutRepeatsAscends(s: seq<nat>)
    requires Ascending(s)
    ensures StrictlyAscending(WithoutRepeats(s))
    ensures forall x :: x in WithoutRepeats(s) <==> x in s
    decreases |s|
  {
    if s != [] {
      var t := s[..|s| - 1];
      WithoutRepeatsAscends(t);
      assert s == t + [s[|s| - 1]];
      var r := WithoutRepeats(t);
      if r != [] { assert r[|r| - 1] == t[|t| - 1] <= s[|s| - 1]; }
    }
  }

  lemma RepeatsNext(s: seq<nat>, n: nat)
    requires 0 < n < |s|
    ensures var r := WithoutRepeats(s[..n]);
            r != [] && WithoutRepeats(s[..n + 1]) == if r[|r| - 1] == s[n] then r else r + [s[n]]
  {
    assert s[..n + 1][..n] == s[..n];
  }

  /** One more element is kept, over whatever was there. */
  method StoreAt(a: array<nat>, out: nat, x: nat, ghost kept: seq<nat>)
    requires out < a.Length && a[..out] == kept
    modifies a
    ensures a[..out + 1] == kept + [x]
    ensures forall i | out < i < a.Length :: a[i] == old(a[i])
  {
    a[out] := x;
    assert a[..out] == kept;
  }

  lemma OneHasNone(s: seq<nat>)
    requires |s| < 2
    ensures WithoutRepeats(s) == s
  {
    if s != [] { assert s[..0] == []; }
  }

  /** The loop that moves what is no repeat to the front. */
  method MoveUp(a: array<nat>, ghost sorted: seq<nat>) returns (out: nat)
    requires a.Length > 0 && a[..] == sorted
    modifies a
    ensures out <= a.Length && a[..out] == WithoutRepeats(sorted)
  {
    out := 1;
    ghost var kept := sorted[..1];
    OneHasNone(kept);
    for n := 1 to a.Length
      invariant 1 <= out <= n && out == |kept| && a[..out] == kept
      invariant forall i | n <= i < a.Length :: a[i] == sorted[i]
      invariant kept == WithoutRepeats(sorted[..n])
    {
      RepeatsNext(sorted, n);
      assert a[out - 1] == kept[out - 1];
      if a[n] != a[out - 1] {
        StoreAt(a, out, a[n], kept);
        kept := kept + [sorted[n]];
        out := out + 1;
      }
    }
    assert sorted[..|sorted|] == sorted;
  }

  /** The in-place removal of repeats from sorted rule numbers. */
  method Dedup(sorted: seq<nat>) returns (r: seq<nat>)
    ensures r == WithoutRepeats(sorted)
  {
    if |sorted| < 2 {
      OneHasNone(sorted);
      return sorted;
    }
    var a := new nat[|sorted|](i requires 0 <= i < |sorted| => sorted[i]);
    assert a[..] == sorted;
    var out := MoveUp(a, sorted);
    r := a[..out];
  }

  /** appendCandidates on an index that holds the tree m. */
  method Gather(ix: Index, host: string, ghost places: seq<Path>, ghost m: Contents) returns (r: seq<nat>)
    requires Represents(ix, places, m) && Closed(m)
    ensures StrictlyAscending(r)
    ensures Collected(r, ix, m, RevLabels(Canonical(host)), |RevLabels(Canonical(host))|)
  {
    var result := Collect(ix, Canonical(host), places, m);
    var sorted := SortedInts(result);
    assert forall x: nat :: x in sorted <==> x in multiset(sorted);
    assert forall x: nat :: x in result <==> x in multiset(result);
    r := Dedup(sorted);
    WithoutRepeatsAscends(sorted);
  }

  // ---- The index never omits a rule that matches ----

  /** One of the suffixes is made of the last labels of the host. */
  ghost predicate EndsWithOneOf(host: string, suffixes: seq<string>) {
    exists k | 0 <= k < |suffixes| ::
      suffixes[k] != "" && RevLabels(suffixes[k]) <= RevLabels(Canonical(host))
  }

  /** A rule a lookup for host must consider: its pattern is not indexed, or the host
      ends with one of the suffixes it is indexed under. */
  ghost predicate Candidate(rules: seq<CompiledRule>, host: string, x: nat) {
    && x < |rules|
    && (IndexedUnder(rules[x].host) == [] || EndsWithOneOf(host, IndexedUnder(rules[x].host)))
  }

  lemma GatheredEnds(m: Contents, rules: seq<CompiledRule>, host: string, x: nat)
    requires Keeps(m, rules, |rules|, 0)
    requires Gathered(m, RevLabels(Canonical(host)), |RevLabels(Canonical(host))|, x)
    ensures x < |rules| && EndsWithOneOf(host, IndexedUnder(rules[x].host))
  {
    var labels := RevLabels(Canonical(host));
    var i :| 1 <= i <= |labels| && Holds(m, Walk(Root, labels[..i]), x);
    assert Kept(rules, |rules|, 0, x, Walk(Root, labels[..i]));
    var under := IndexedUnder(rules[x].host);
    var k :| 0 <= k < |under| && Walk(Root, labels[..i]) == Place(under[k]);
    WalkInjective(labels[..i], RevLabels(under[k]));
  }

  lemma EndsGathered(m: Contents, rules: seq<CompiledRule>, host: string, x: nat)
    requires Keeps(m, rules, |rules|, 0)
    requires x < |rules| && EndsWithOneOf(host, IndexedUnder(rules[x].host))
    ensures Gathered(m, RevLabels(Canonical(host)), |RevLabels(Canonical(host))|, x)
  {
    var labels := RevLabels(Canonical(host));
    var under := IndexedUnder(rules[x].host);
    var k :| 0 <= k < |under| && under[k] != "" && RevLabels(under[k]) <= labels;
    var i := |RevLabels(under[k])|;
    assert labels[..i] == RevLabels(under[k]);
    assert IndexedAt(rules[x].host, |under|, Place(under[k]));
    assert Kept(rules, |rules|, 0, x, Walk(Root, labels[..i]));
    assert Holds(m, Walk(Root, labels[..i]), x);
  }

  /** appendCandidates: in ascending order, exactly the candidates. */
  method AppendCandidates(ix: Index, rules: seq<CompiledRule>, host: string) returns (r: seq<nat>)
    requires IndexOf(ix, rules)
    ensures StrictlyAscending(r)
    ensures forall x :: x in r <==> Candidate(rules, host, x)
  {
    ghost var places, m :| Represents(ix, places, m) && Keeps(m, rules, |rules|, 0);
    r := Gather(ix, host, places, m);
    ghost var labels := RevLabels(Canonical(host));
    forall x: nat ensures x in r <==> Candidate(rules, host, x) {
      if Gathered(m, labels, |labels|, x) { GatheredEnds(m, rules, host, x); }
      if x < |rules| && EndsWithOneOf(host, IndexedUnder(rules[x].host)) { EndsGathered(m, rules, host, x); }
    }
  }

  lemma LowerOfHostChars(t: string)
    requires HostChars(t)
    ensures Lower(t) == t
  {
  }

  lemma CanonicalTail(host: string, t: string)
    requires HostChars(t) && DotFreeEnds(t) && |t| <= |host|
    requires Lower(host[|host| - |t|..]) == t
    requires |host| == |t| || host[|host| - |t| - 1] == '.'
    ensures IsLabelSuffix(Canonical(host), t)
  {
    LastCharacter(host, t);
    TailOf(Lower(host), host, t);
  }

  lemma TailOf(lower: string, host: string, t: string)
    requires |lower| == |host| && forall k | 0 <= k < |host| :: lower[k] == LowerChar(host[k])
    requires |t| <= |host| && Lower(host[|host| - |t|..]) == t
    requires |host| == |t| || host[|host| - |t| - 1] == '.'
    ensures IsLabelSuffix(lower, t)
  {
    var start := |host| - |t|;
    forall k | 0 <= k < |t| ensures lower[start..][k] == t[k] {
      assert host[start..][k] == host[start + k];
    }
    assert lower[start..] == t;
  }

  lemma LastCharacter(host: string, t: string)
    requires DotFreeEnds(t) && |t| <= |host| && Lower(host[|host| - |t|..]) == t
    ensures TrimDot(host) == host
  {
    var tail := host[|host| - |t|..];
    assert Lower(tail)[|t| - 1] == LowerChar(tail[|t| - 1]);
    assert tail[|t| - 1] == host[|host| - 1];
  }

  /** A host that ends with t, whatever its case, has t's labels last. */
  lemma TailLabels(host: string, t: string)
    requires HostChars(t) && DotFreeEnds(t) && |t| <= |host|
    requires Lower(host[|host| - |t|..]) == t
    requires |host| == |t| || host[|host| - |t| - 1] == '.'
    ensures RevLabels(t) <= RevLabels(Canonical(host))
  {
    CanonicalTail(host, t);
    LabelSuffixIsPrefix(Canonical(host), t);
  }

  lemma SuffixIsCandidate(host: string, t: string)
    requires ValidHost(t) && HostUnder(host, t)
    ensures t != "" && RevLabels(t) <= RevLabels(Canonical(host))
  {
    ValidHostChars(t);
    LowerOfHostChars(t);
    if |host| == |t| { assert host[0..] == host; }
    TailLabels(host, t);
  }

  /** A glob splits at its literal suffix; what precedes it ends with a dot. */
  lemma GlobSplits(p: string)
    requires LiteralSuffix(p) != ""
    ensures HostChars(LiteralSuffix(p)) && DotFreeEnds(LiteralSuffix(p))
    ensures p == LiteralSuffix(p) || exists pre: string :: p == pre + ("." + LiteralSuffix(p))
  {
    var labels := Split(p, '.');
    var first := LiteralFrom(labels);
    JoinOfSplit(p, '.');
    JoinChars(labels[first..]);
    if first == 0 {
      assert labels[0..] == labels;
    } else if first < |labels| {
      JoinAt(labels, first);
      assert p == Join(labels[..first], '.') + ("." + LiteralSuffix(p));
    }
  }

  lemma JoinAt(labels: seq<string>, k: nat)
    requires 0 < k < |labels|
    ensures Join(labels, '.') == Join(labels[..k], '.') + ("." + Join(labels[k..], '.'))
  {
    JoinAppend(labels[..k], labels[k..], '.');
    assert labels[..k] + labels[k..] == labels;
    Reassociate(Join(labels[..k], '.'), ".", Join(labels[k..], '.'), "");
  }

  lemma GlobEnds(p: string, host: string)
    requires LiteralSuffix(p) != "" && Glob(p, host)
    ensures IsLabelSuffix(host, LiteralSuffix(p))
  {
    var t := LiteralSuffix(p);
    GlobSplits(p);
    HostIsPlain(t);
    if p == t {
      PlainGlob(t, host);
    } else {
      var pre: string :| p == pre + ("." + t);
      TailEnds(p, pre, t, host);
    }
  }

  lemma HostIsPlain(t: string)
    requires HostChars(t)
    ensures Plain(t) && Plain("." + t)
  {
  }

  lemma TailEnds(p: string, pre: string, t: string, host: string)
    requires p == pre + ("." + t) && Plain("." + t) && Glob(p, host)
    ensures IsLabelSuffix(host, t)
  {
    GlobTail(pre, "." + t, host);
    DottedSuffix(host, t);
  }

  lemma DottedSuffix(host: string, t: string)
    requires HasSuffix(host, "." + t)
    ensures IsLabelSuffix(host, t)
  {
    var start := |host| - |t|;
    assert host[start - 1..] == "." + t;
    assert host[start..] == host[start - 1..][1..] == t;
  }

  lemma GlobIsCandidate(p: string, host: string)
    requires LiteralSuffix(p) != "" && Glob(p, host)
    ensures RevLabels(LiteralSuffix(p)) <= RevLabels(Canonical(host))
  {
    GlobSplits(p);
    GlobEnds(p, host);
    TailIsCandidate(host, LiteralSuffix(p));
  }

  lemma TailIsCandidate(host: string, t: string)
    requires t != "" && HostChars(t) && DotFreeEnds(t) && IsLabelSuffix(host, t)
    ensures RevLabels(t) <= RevLabels(Canonical(host))
  {
    LowerOfHostChars(t);
    TailLabels(host, t);
  }

  /** The index never omits a rule whose host pattern accepts the host. */
  lemma MatchIsCandidate(rules: seq<CompiledRule>, host: string, x: nat)
    requires x < |rules| && WellFormedRule(rules[x]) && rules[x].host.Accepts(host)
    ensures Candidate(rules, host, x)
  {
    var m := rules[x].host;
    match m {
      case Suffixes(ss) =>
        var k :| 0 <= k < |ss| && HostUnder(host, ss[k]);
        SuffixIsCandidate(host, ss[k]);
      case GlobOf(p) =>
        if LiteralSuffix(p) != "" {
          GlobIsCandidate(p, host);
          assert IndexedUnder(m)[0] == LiteralSuffix(p);
        }
      case _ =>
    }
  }

  // ---- Rule sets ----

  /** One client's compiled rules. Without an index (the empty set an unknown client
      gets) lookups scan the list. */
  datatype RuleSet<E, A> = RuleSet(rules: seq<CompiledRule>, index: Option<Index>,
                                   egress: seq<E>, uuid: string, auth: Option<A>)

  ghost predicate Usable<E, A>(rs: RuleSet<E, A>) {
    && (forall i | 0 <= i < |rs.rules| :: WellFormedRule(rs.rules[i]))
    && (rs.index.Some? ==> IndexOf(rs.index.value, rs.rules))
  }

  /** newRuleSet. */
  method NewRuleSet<E, A>(rules: seq<CompiledRule>, egress: seq<E>, uuid: string, auth: Option<A>)
    returns (rs: RuleSet<E, A>)
    requires forall i | 0 <= i < |rules| :: WellFormedRule(rules[i])
    ensures Usable(rs)
    ensures rs.rules == rules && rs.egress == egress && rs.uuid == uuid && rs.auth == auth
  {
    var ix := Build(rules);
    rs := RuleSet(rules, Some(ix), egress, uuid, auth);
  }

  /** RuleSet.LookupConn: through the index or not, the first rule that matches. */
  method LookupConn<E, A>(rs: RuleSet<E, A>, i: ConnInput) returns (d: ConnDecision)
    requires Usable(rs)
    ensures d == ConnAnswer(rs.rules, i)
  {
    if rs.index.None? {
      for n := 0 to |rs.rules|
        invariant forall k | 0 <= k < n :: !ConnMatches(rs.rules[k], i)
      {
        if ConnMatches(rs.rules[n], i) {
          ConnAnswerAt(rs.rules, i, n);
          return ConnDecision(rs.rules[n].mitm, rs.rules[n].deny, true);
        }
      }
      ConnAnswerNone(rs.rules, i);
      return NOMATCH;
    }
    var candidates := AppendCandidates(rs.index.value, rs.rules, i.host);
    for n := 0 to |candidates|
      invariant forall k | 0 <= k < n ::
                  candidates[k] < |rs.rules| && !ConnMatches(rs.rules[candidates[k]], i)
    {
      var id := candidates[n];
      assert id in candidates;
      if ConnMatches(rs.rules[id], i) {
        forall k | 0 <= k < id ensures !ConnMatches(rs.rules[k], i) {
          if ConnMatches(rs.rules[k], i) {
            MatchIsCandidate(rs.rules, i.host, k);
            EarlierCandidate(candidates, n, k);
          }
        }
        ConnAnswerAt(rs.rules, i, id);
        return ConnDecision(rs.rules[id].mitm, rs.rules[id].deny, true);
      }
    }
    forall k | 0 <= k < |rs.rules| ensures !ConnMatches(rs.rules[k], i) {
      if ConnMatches(rs.rules[k], i) {
        MatchIsCandidate(rs.rules, i.host, k);
      }
    }
    ConnAnswerNone(rs.rules, i);
    return NOMATCH;
  }

  lemma EarlierCandidate(candidates: seq<nat>, n: nat, k: nat)
    requires StrictlyAscending(candidates) && n < |candidates| && k in candidates && k < candidates[n]
    ensures k in candidates[..n]
  {
    var j :| 0 <= j < |candidates| && candidates[j] == k;
    assert j < n;
    assert candidates[..n][j] == k;
  }

  /** RuleSet.LookupRequest: through the index or not, the first rule that matches. */
  method LookupRequest<E, A>(rs: RuleSet<E, A>, i: MsgInput) returns (r: Option<CompiledRule>)
    requires Usable(rs)
    ensures r == MsgAnswer(rs.rules, i)
  {
    if rs.index.None? {
      for n := 0 to |rs.rules|
        invariant forall k | 0 <= k < n :: !MsgMatches(rs.rules[k], i)
      {
        if MsgMatches(rs.rules[n], i) {
          MsgAnswerAt(rs.rules, i, n);
          return Some(rs.rules[n]);
        }
      }
      MsgAnswerNone(rs.rules, i);
      return None;
    }
    var candidates := AppendCandidates(rs.index.value, rs.rules, i.conn.host);
    for n := 0 to |candidates|
      invariant forall k | 0 <= k < n ::
                  candidates[k] < |rs.rules| && !MsgMatches(rs.rules[candidates[k]], i)
    {
      var id := candidates[n];
      assert id in candidates;
      if MsgMatches(rs.rules[id], i) {
        forall k | 0 <= k < id ensures !MsgMatches(rs.rules[k], i) {
          if MsgMatches(rs.rules[k], i) {
            MatchIsCandidate(rs.rules, i.conn.host, k);
            EarlierCandidate(candidates, n, k);
          }
        }
        MsgAnswerAt(rs.rules, i, id);
        return Some(rs.rules[id]);
      }
    }
    forall k | 0 <= k < |rs.rules| ensures !MsgMatches(rs.rules[k], i) {
      if MsgMatches(rs.rules[k], i) {
        MatchIsCandidate(rs.rules, i.conn.host, k);
      }
    }
    MsgAnswerNone(rs.rules, i);
    return None;
  }
}
