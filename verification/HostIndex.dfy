/** host_index.go: which rules can match a host at all, found through the compact
    index instead of a scan over the whole rule list. */
module HostIndex {
  import opened GoStrings
  import opened SuffixRegex
  import opened RuleCompile
  import opened HostTree
  import opened HostCompact

  // ---- What a host pattern is indexed under ----

  /** The first of the trailing literal labels. */
  function LiteralFrom(labels: seq<string>): (first: nat)
    ensures first <= |labels|
    ensures forall i | first <= i < |labels| :: LiteralLabel(labels[i])
    ensures first > 0 ==> !LiteralLabel(labels[first - 1])
  {
    if labels == [] || !LiteralLabel(labels[|labels| - 1]) then |labels|
    else LiteralFrom(labels[..|labels| - 1])
  }

  /** The complete lowercase labels that end a glob, or the empty string. */
  function LiteralSuffix(glob: string): string {
    var labels := Split(glob, '.');
    Join(labels[LiteralFrom(labels)..], '.')
  }

  /** literalGlobSuffix. */
  method LiteralGlobSuffix(m: Matcher) returns (r: string)
    ensures r == if m.GlobOf? then LiteralSuffix(m.pattern) else ""
  {
    if !m.GlobOf? {
      return "";
    }
    var labels := Split(m.pattern, '.');
    var first := |labels|;
    while first > 0 && LiteralLabel(labels[first - 1])
      invariant 0 <= first <= |labels|
      invariant forall i | first <= i < |labels| :: LiteralLabel(labels[i])
    {
      first := first - 1;
    }
    LiteralFromUnique(labels, first);
    return Join(labels[first..], '.');
  }

  lemma LiteralFromUnique(labels: seq<string>, first: nat)
    requires first <= |labels|
    requires forall i | first <= i < |labels| :: LiteralLabel(labels[i])
    requires first > 0 ==> !LiteralLabel(labels[first - 1])
    ensures LiteralFrom(labels) == first
  {
  }

  /** The suffixes under which the index keeps a pattern; none means it is a fallback
      rule that every lookup must consider. */
  function IndexedUnder(m: Matcher): seq<string> {
    match m
    case Suffixes(ss) => ss
    case GlobOf(p) => if LiteralSuffix(p) == "" then [] else [LiteralSuffix(p)]
    case _ => []
  }

  // ---- The index of a rule list ----

  /** One of the first part suffixes of m has its place at p. */
  ghost predicate IndexedAt(m: Matcher, part: nat, p: Path) {
    exists k | 0 <= k < part && k < |IndexedUnder(m)| :: p == Place(IndexedUnder(m)[k])
  }

  /** Rule x is kept at p: every suffix of an earlier rule than id counts, and the
      first part suffixes of rule id itself. */
  ghost predicate Kept(rules: seq<CompiledRule>, id: nat, part: nat, x: nat, p: Path)
    requires id <= |rules|
  {
    || (x < id && IndexedAt(rules[x].host, |IndexedUnder(rules[x].host)|, p))
    || (x == id < |rules| && IndexedAt(rules[x].host, part, p))
  }

  ghost predicate Holds(m: Contents, p: Path, x: nat) {
    p in m && x in m[p]
  }

  /** m keeps exactly those rules. */
  ghost predicate Keeps(m: Contents, rules: seq<CompiledRule>, id: nat, part: nat)
    requires id <= |rules|
  {
    && Closed(m)
    && forall p: Path, x: nat :: Holds(m, p, x) <==> Kept(rules, id, part, x, p)
  }

  ghost predicate Fallback(fallback: seq<nat>, rules: seq<CompiledRule>, count: nat)
    requires count <= |rules|
  {
    forall x: nat :: x in fallback <==> x < count && IndexedUnder(rules[x].host) == []
  }

  ghost predicate IndexOf(ix: Index, rules: seq<CompiledRule>) {
    && Fallback(ix.fallback, rules, |rules|)
    && exists places, m :: Represents(ix, places, m) && Keeps(m, rules, |rules|, 0)
  }

  lemma KeepsOneMore(m: Contents, rules: seq<CompiledRule>, id: nat, part: nat)
    requires id < |rules| && part < |IndexedUnder(rules[id].host)|
    requires Keeps(m, rules, id, part)
    ensures Keeps(Insert(m, Place(IndexedUnder(rules[id].host)[part]), id), rules, id, part + 1)
  {
    var q := Place(IndexedUnder(rules[id].host)[part]);
    InsertClosed(m, q, id);
    forall p: Path, x: nat
      ensures Holds(Insert(m, q, id), p, x) <==> Kept(rules, id, part + 1, x, p)
    {
      InsertMembers(m, q, id, p, x);
      assert Holds(m, p, x) <==> Kept(rules, id, part, x, p);
      KeptStep(rules, id, part, x, p);
    }
  }

  lemma KeptStep(rules: seq<CompiledRule>, id: nat, part: nat, x: nat, p: Path)
    requires id < |rules| && part < |IndexedUnder(rules[id].host)|
    ensures Kept(rules, id, part + 1, x, p)
            <==> Kept(rules, id, part, x, p) || (x == id && p == Place(IndexedUnder(rules[id].host)[part]))
  {
    if x == id && IndexedAt(rules[x].host, part, p) {
      var k :| 0 <= k < part && k < |IndexedUnder(rules[id].host)| && p == Place(IndexedUnder(rules[id].host)[k]);
      assert k < part + 1;
    }
  }

  lemma KeptWhole(rules: seq<CompiledRule>, id: nat, x: nat, p: Path)
    requires id < |rules|
    ensures Kept(rules, id + 1, 0, x, p) <==> Kept(rules, id, |IndexedUnder(rules[id].host)|, x, p)
  {
  }

  lemma KeepsWholeRule(m: Contents, rules: seq<CompiledRule>, id: nat, part: nat)
    requires id < |rules| && part == |IndexedUnder(rules[id].host)|
    requires Keeps(m, rules, id, part)
    ensures Keeps(m, rules, id + 1, 0)
  {
    forall p: Path, x: nat ensures Holds(m, p, x) <==> Kept(rules, id + 1, 0, x, p) {
      KeptWhole(rules, id, x, p);
      assert Holds(m, p, x) <==> Kept(rules, id, part, x, p);
    }
  }

  lemma KeepsNothing(rules: seq<CompiledRule>)
    ensures Keeps(map[Root := []], rules, 0, 0)
  {
    var m: Contents := map[Root := []];
    forall p: Path, x: nat ensures !Holds(m, p, x) && !Kept(rules, 0, 0, x, p) {
    }
  }

  /** Files rule id under each of its suffixes. */
  method InsertAll(tree: Tree, rules: seq<CompiledRule>, id: nat, suffixes: seq<string>)
    requires tree.Valid() && id < |rules| && suffixes == IndexedUnder(rules[id].host)
    requires Keeps(tree.contents, rules, id, 0)
    modifies tree, tree.repr
    ensures tree.Valid() && fresh(tree.repr - old(tree.repr))
    ensures Keeps(tree.contents, rules, id + 1, 0)
  {
    var part := 0;
    while part < |suffixes|
      invariant 0 <= part <= |suffixes|
      invariant tree.Valid() && fresh(tree.repr - old(tree.repr))
      invariant Keeps(tree.contents, rules, id, part)
    {
      KeepsOneMore(tree.contents, rules, id, part);
      tree.InsertHostSuffix(suffixes[part], id);
      part := part + 1;
    }
    KeepsWholeRule(tree.contents, rules, id, part);
  }

  /** One rule of the loop in buildHostCandidateIndex. */
  method FileRule(tree: Tree, rules: seq<CompiledRule>, id: nat, fallback: seq<nat>) returns (fallback': seq<nat>)
    requires tree.Valid() && id < |rules|
    requires Keeps(tree.contents, rules, id, 0) && Fallback(fallback, rules, id)
    modifies tree, tree.repr
    ensures tree.Valid() && fresh(tree.repr - old(tree.repr))
    ensures Keeps(tree.contents, rules, id + 1, 0) && Fallback(fallback', rules, id + 1)
  {
    var m := rules[id].host;
    fallback' := fallback;
    if m.Suffixes? && m.suffixes != [] {
      InsertAll(tree, rules, id, m.suffixes);
    } else {
      var suffix := LiteralGlobSuffix(m);
      if suffix != "" {
        InsertAll(tree, rules, id, [suffix]);
      } else {
        KeepsWholeRule(tree.contents, rules, id, 0);
        fallback' := fallback + [id];
      }
    }
  }

  /** buildHostCandidateIndex. */
  method Build(rules: seq<CompiledRule>) returns (ix: Index)
    ensures IndexOf(ix, rules)
  {
    var tree := new Tree();
    var fallback: seq<nat> := [];
    KeepsNothing(rules);
    for id := 0 to |rules|
      invariant tree.Valid() && fresh(tree) && fresh(tree.repr)
      invariant Keeps(tree.contents, rules, id, 0) && Fallback(fallback, rules, id)
    {
      fallback := FileRule(tree, rules, id, fallback);
    }
    ghost var places;
    ix, places := Compact(tree, fallback);
  }
}
