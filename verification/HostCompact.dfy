/** compactHostIndex: the breadth-first flattening of the label tree into the
    arrays that lookups search. */
module HostCompact {
  import opened GoStrings
  import opened HostTree

  // ---- The compact index ----

  datatype IndexNode = IndexNode(edgeStart: nat, edgeCount: nat, ruleStart: nat, ruleCount: nat)

  datatype IndexEdge = IndexEdge(lab: string, child: nat)

  datatype Index = Index(nodes: seq<IndexNode>, edges: seq<IndexEdge>, ruleIDs: seq<nat>, fallback: seq<nat>)

  ghost predicate NodeInBounds(ix: Index, n: IndexNode) {
    n.edgeStart + n.edgeCount <= |ix.edges| && n.ruleStart + n.ruleCount <= |ix.ruleIDs|
  }

  ghost predicate EdgesSorted(edges: seq<IndexEdge>, lo: nat, hi: nat)
    requires lo <= hi <= |edges|
  {
    forall j, k | lo <= j < k < hi :: Less(edges[j].lab, edges[k].lab)
  }

  /** Edge e of the slot for p leads to the place one label below it. */
  ghost predicate LeadsTo(e: IndexEdge, places: seq<Path>, p: Path) {
    e.child < |places| && places[e.child] == Under(p, e.lab)
  }

  ghost predicate HasEdge(edges: seq<IndexEdge>, n: IndexNode, l: string)
    requires n.edgeStart + n.edgeCount <= |edges|
  {
    exists k | n.edgeStart <= k < n.edgeStart + n.edgeCount :: edges[k].lab == l
  }

  /** Slot i of the index describes places[i]: its rules, and in label order an edge to
      every place one label below it. */
  ghost predicate Describes(ix: Index, places: seq<Path>, m: Contents, i: nat)
    requires |ix.nodes| == |places| && i < |places|
  {
    var n := ix.nodes[i];
    && NodeInBounds(ix, n)
    && places[i] in m
    && ix.ruleIDs[n.ruleStart..n.ruleStart + n.ruleCount] == m[places[i]]
    && EdgesSorted(ix.edges, n.edgeStart, n.edgeStart + n.edgeCount)
    && (forall k | n.edgeStart <= k < n.edgeStart + n.edgeCount :: LeadsTo(ix.edges[k], places, places[i]))
    && (forall l | Under(places[i], l) in m :: HasEdge(ix.edges, n, l))
  }

  /** The index holds the tree m, slot i standing for places[i]. */
  ghost predicate Represents(ix: Index, places: seq<Path>, m: Contents) {
    && |ix.nodes| == |places| > 0 && places[0] == Root
    && forall i | 0 <= i < |places| :: Describes(ix, places, m, i)
  }

  // ---- Breadth-first numbering ----

  /** The nodes met so far, each with the number of its position. */
  ghost predicate Numbered(tree: Tree, builders: seq<Node>, ids: map<Node, nat>)
    reads tree, tree.repr
  {
    && (forall i | 0 <= i < |builders| :: builders[i] in ids && ids[builders[i]] == i)
    && (forall n | n in ids :: ids[n] < |builders| && builders[ids[n]] == n)
    && (forall n | n in ids :: n in tree.repr && n.place in tree.at && tree.at[n.place] == n)
    && |ids| == |builders| > 0 && builders[0] == tree.root
  }

  /** The node at position i has its labels sorted in childLabels, and its children are
      numbered after it. */
  ghost predicate Expanded(builders: seq<Node>, ids: map<Node, nat>, childLabels: seq<seq<string>>, i: nat)
    requires i < |builders|
    reads builders[i]
  {
    && i < |childLabels|
    && StrictlySorted(childLabels[i]) && Elements(childLabels[i]) == builders[i].children.Keys
    && forall l | l in builders[i].children :: builders[i].children[l] in ids && i < ids[builders[i].children[l]]
  }

  ghost predicate AllExpanded(builders: seq<Node>, ids: map<Node, nat>, childLabels: seq<seq<string>>)
    reads builders
  {
    |childLabels| <= |builders| && forall i | 0 <= i < |childLabels| :: Expanded(builders, ids, childLabels, i)
  }

  /** Only places below an expanded node, or below the one at hand through one of the
      labels already taken, have been numbered. */
  ghost predicate Reached(tree: Tree, ids: map<Node, nat>, pos: nat, taken: set<string>)
    reads tree, tree.repr
  {
    forall n | n in ids && n.place.Under? ::
      && n.place.parent in tree.at && tree.at[n.place.parent] in ids
      && (ids[tree.at[n.place.parent]] < pos
          || (ids[tree.at[n.place.parent]] == pos && n.place.lab in taken))
  }

  lemma SubsetSize<T>(a: set<T>, b: set<T>)
    requires a <= b
    ensures |a| <= |b|
  {
    assert b == a + (b - a);
  }

  lemma NumberedBound(tree: Tree, builders: seq<Node>, ids: map<Node, nat>)
    requires Numbered(tree, builders, ids)
    ensures |builders| <= |tree.repr|
  {
    SubsetSize(ids.Keys, tree.repr);
  }

  /** A child not yet taken has no number yet. */
  lemma ChildUnnumbered(tree: Tree, builders: seq<Node>, ids: map<Node, nat>, pos: nat, taken: set<string>, l: string)
    requires tree.Valid() && Numbered(tree, builders, ids) && pos < |builders|
    requires Reached(tree, ids, pos, taken) && l !in taken && l in builders[pos].children
    ensures builders[pos].children[l] !in ids
    ensures var c := builders[pos].children[l];
            c in tree.repr && c.place == Under(builders[pos].place, l) && c.place in tree.at && tree.at[c.place] == c
  {
    var node := builders[pos];
    assert tree.NodeAt(node.place);
    var c := node.children[l];
    assert tree.NodeAt(Under(node.place, l));
  }

  lemma NumberChild(tree: Tree, builders: seq<Node>, ids: map<Node, nat>, pos: nat, taken: set<string>, l: string)
    requires tree.Valid() && Numbered(tree, builders, ids) && pos < |builders|
    requires Reached(tree, ids, pos, taken) && l !in taken && l in builders[pos].children
    ensures var c := builders[pos].children[l];
            c !in ids && Numbered(tree, builders + [c], ids[c := |builders|])
  {
    ChildUnnumbered(tree, builders, ids, pos, taken, l);
  }

  lemma ReachChild(tree: Tree, builders: seq<Node>, ids: map<Node, nat>, pos: nat, taken: set<string>, l: string)
    requires tree.Valid() && Numbered(tree, builders, ids) && pos < |builders|
    requires Reached(tree, ids, pos, taken) && l !in taken && l in builders[pos].children
    ensures Reached(tree, ids[builders[pos].children[l] := |builders|], pos, taken + {l})
  {
    ChildUnnumbered(tree, builders, ids, pos, taken, l);
  }

  lemma TakeLabel(labels: seq<string>, k: nat)
    requires StrictlySorted(labels) && k < |labels|
    ensures labels[k] !in Elements(labels[..k])
    ensures Elements(labels[..k + 1]) == Elements(labels[..k]) + {labels[k]}
  {
    forall i | 0 <= i < k ensures labels[i] != labels[k] { LessIrreflexive(labels[k]); }
    assert labels[..k + 1] == labels[..k] + [labels[k]];
  }

  /** Numbers the children of one node, in label order. */
  method Expand(tree: Tree, builders: seq<Node>, ids: map<Node, nat>, pos: nat, labels: seq<string>)
    returns (builders': seq<Node>, ids': map<Node, nat>)
    requires tree.Valid() && Numbered(tree, builders, ids) && pos < |builders|
    requires Reached(tree, ids, pos, {})
    requires StrictlySorted(labels) && Elements(labels) == builders[pos].children.Keys
    ensures Numbered(tree, builders', ids')
    ensures builders <= builders' && Extends(ids, ids')
    ensures Reached(tree, ids', pos + 1, {})
    ensures After(builders[pos], labels, |labels|, ids', pos)
  {
    builders', ids' := builders, ids;
    var node := builders[pos];
    for k := 0 to |labels|
      invariant Numbered(tree, builders', ids')
      invariant builders <= builders' && Extends(ids, ids')
      invariant Reached(tree, ids', pos, Elements(labels[..k]))
      invariant After(node, labels, k, ids', pos)
    {
      assert labels[k] in Elements(labels);
      NumberNext(tree, builders, ids, builders', ids', pos, labels, k);
      OneAfter(node, labels, k, ids', pos, |builders'|);
      var child := node.children[labels[k]];
      ids' := ids'[child := |builders'|];
      builders' := builders' + [child];
    }
    assert labels[..|labels|] == labels;
    AllReached(tree, builders', ids', pos);
  }

  lemma NumberNext(tree: Tree, builders: seq<Node>, ids: map<Node, nat>, builders': seq<Node>, ids': map<Node, nat>,
                   pos: nat, labels: seq<string>, k: nat)
    requires tree.Valid() && Numbered(tree, builders', ids') && pos < |builders'| && k < |labels|
    requires builders <= builders' && Extends(ids, ids') && Reached(tree, ids', pos, Elements(labels[..k]))
    requires StrictlySorted(labels) && labels[k] in builders'[pos].children
    ensures var c := builders'[pos].children[labels[k]];
            var ids'' := ids'[c := |builders'|];
            && Numbered(tree, builders' + [c], ids'') && builders <= builders' + [c] && Extends(ids, ids'')
            && Reached(tree, ids'', pos, Elements(labels[..k + 1]))
  {
    TakeLabel(labels, k);
    NumberChild(tree, builders', ids', pos, Elements(labels[..k]), labels[k]);
    ReachChild(tree, builders', ids', pos, Elements(labels[..k]), labels[k]);
  }

  lemma AllReached(tree: Tree, builders: seq<Node>, ids: map<Node, nat>, pos: nat)
    requires pos < |builders| && Numbered(tree, builders, ids)
    requires Reached(tree, ids, pos, builders[pos].children.Keys)
    ensures Reached(tree, ids, pos + 1, {})
  {
  }

  /** The node's children under the first k labels are numbered after pos. */
  ghost predicate After(node: Node, labels: seq<string>, k: nat, ids: map<Node, nat>, pos: nat)
    requires k <= |labels|
    reads node
  {
    forall i | 0 <= i < k ::
      labels[i] in node.children && node.children[labels[i]] in ids && pos < ids[node.children[labels[i]]]
  }

  lemma OneAfter(node: Node, labels: seq<string>, k: nat, ids: map<Node, nat>, pos: nat, n: nat)
    requires k < |labels| && After(node, labels, k, ids, pos) && labels[k] in node.children && pos < n
    ensures After(node, labels, k + 1, ids[node.children[labels[k]] := n], pos)
  {
  }

  ghost predicate Extends(ids: map<Node, nat>, ids': map<Node, nat>) {
    forall n | n in ids :: n in ids' && ids'[n] == ids[n]
  }

  lemma ExpandedStays(builders: seq<Node>, ids: map<Node, nat>, childLabels: seq<seq<string>>,
                      builders': seq<Node>, ids': map<Node, nat>, labels: seq<string>, i: nat)
    requires i < |builders| && Expanded(builders, ids, childLabels, i)
    requires builders <= builders' && Extends(ids, ids')
    ensures Expanded(builders', ids', childLabels + [labels], i)
  {
    assert builders'[i] == builders[i];
  }

  /** One turn of that loop: the labels of the next node, and numbers for its children. */
  method ExpandOne(tree: Tree, builders: seq<Node>, ids: map<Node, nat>, childLabels: seq<seq<string>>)
    returns (builders': seq<Node>, ids': map<Node, nat>, childLabels': seq<seq<string>>)
    requires tree.Valid() && Numbered(tree, builders, ids) && |childLabels| < |builders|
    requires Reached(tree, ids, |childLabels|, {}) && AllExpanded(builders, ids, childLabels)
    ensures Numbered(tree, builders', ids') && |builders'| <= |tree.repr| && |childLabels'| == |childLabels| + 1
    ensures Reached(tree, ids', |childLabels'|, {}) && AllExpanded(builders', ids', childLabels')
  {
    var pos := |childLabels|;
    var labels := SortedStrings(builders[pos].children.Keys);
    builders', ids' := Expand(tree, builders, ids, pos, labels);
    NumberedBound(tree, builders', ids');
    ExpandNext(builders, ids, childLabels, builders', ids', labels);
    childLabels' := childLabels + [labels];
  }

  /** The first loop of compactHostIndex. */
  method Enumerate(tree: Tree)
    returns (builders: seq<Node>, ids: map<Node, nat>, childLabels: seq<seq<string>>)
    requires tree.Valid()
    ensures Numbered(tree, builders, ids)
    ensures |childLabels| == |builders| && AllExpanded(builders, ids, childLabels)
  {
    builders := [tree.root];
    ids := map[tree.root := 0];
    childLabels := [];
    NumberedRoot(tree);
    while |childLabels| < |builders|
      invariant Numbered(tree, builders, ids)
      invariant Reached(tree, ids, |childLabels|, {})
      invariant AllExpanded(builders, ids, childLabels)
      decreases |tree.repr| - |childLabels|
    {
      builders, ids, childLabels := ExpandOne(tree, builders, ids, childLabels);
    }
  }

  lemma ExpandNext(builders: seq<Node>, ids: map<Node, nat>, childLabels: seq<seq<string>>,
                   builders': seq<Node>, ids': map<Node, nat>, labels: seq<string>)
    requires |childLabels| < |builders| && builders <= builders' && Extends(ids, ids')
    requires AllExpanded(builders, ids, childLabels)
    requires StrictlySorted(labels) && Elements(labels) == builders[|childLabels|].children.Keys
    requires After(builders[|childLabels|], labels, |labels|, ids', |childLabels|)
    ensures AllExpanded(builders', ids', childLabels + [labels])
  {
    forall i | 0 <= i < |childLabels| ensures Expanded(builders', ids', childLabels + [labels], i) {
      ExpandedStays(builders, ids, childLabels, builders', ids', labels, i);
    }
    NewlyExpanded(builders', ids', childLabels, labels);
  }

  lemma NumberedRoot(tree: Tree)
    requires tree.Valid()
    ensures Numbered(tree, [tree.root], map[tree.root := 0])
    ensures Reached(tree, map[tree.root := 0], 0, {})
  {
    assert tree.NodeAt(Root);
  }

  lemma NewlyExpanded(builders: seq<Node>, ids: map<Node, nat>, childLabels: seq<seq<string>>, labels: seq<string>)
    requires |childLabels| < |builders|
    requires StrictlySorted(labels) && Elements(labels) == builders[|childLabels|].children.Keys
    requires After(builders[|childLabels|], labels, |labels|, ids, |childLabels|)
    ensures Expanded(builders, ids, childLabels + [labels], |childLabels|)
  {
    forall l | l in builders[|childLabels|].children
      ensures var c := builders[|childLabels|].children[l]; c in ids && |childLabels| < ids[c]
    {
      assert l in Elements(labels);
    }
  }

  // ---- Flattening ----

  ghost predicate EdgeTo(e: IndexEdge, node: Node, l: string, ids: map<Node, nat>)
    reads node
  {
    l in node.children && node.children[l] in ids && e == IndexEdge(l, ids[node.children[l]])
  }

  /** n locates, in edges and ruleIDs, the labelled children and the rules of node. */
  ghost predicate Packed(n: IndexNode, edges: seq<IndexEdge>, ruleIDs: seq<nat>,
                         node: Node, labels: seq<string>, ids: map<Node, nat>)
    reads node
  {
    && n.edgeCount == |labels|
    && n.edgeStart + n.edgeCount <= |edges| && n.ruleStart + n.ruleCount <= |ruleIDs|
    && (forall k | n.edgeStart <= k < n.edgeStart + n.edgeCount ::
          EdgeTo(edges[k], node, labels[k - n.edgeStart], ids))
    && ruleIDs[n.ruleStart..n.ruleStart + n.ruleCount] == node.rules
  }

  lemma PackedStays(n: IndexNode, edges: seq<IndexEdge>, ruleIDs: seq<nat>, edges': seq<IndexEdge>,
                    ruleIDs': seq<nat>, node: Node, labels: seq<string>, ids: map<Node, nat>)
    requires Packed(n, edges, ruleIDs, node, labels, ids)
    requires edges <= edges' && ruleIDs <= ruleIDs'
    ensures Packed(n, edges', ruleIDs', node, labels, ids)
  {
    forall k | n.edgeStart <= k < n.edgeStart + n.edgeCount
      ensures EdgeTo(edges'[k], node, labels[k - n.edgeStart], ids)
    {
      assert EdgeTo(edges[k], node, labels[k - n.edgeStart], ids);
    }
    assert ruleIDs'[..|ruleIDs|] == ruleIDs;
    assert ruleIDs'[n.ruleStart..n.ruleStart + n.ruleCount] == ruleIDs[n.ruleStart..n.ruleStart + n.ruleCount];
  }

  /** One turn of the second loop of compactHostIndex. */
  method Pack(node: Node, labels: seq<string>, ids: map<Node, nat>, edges: seq<IndexEdge>, ruleIDs: seq<nat>)
    returns (n: IndexNode, edges': seq<IndexEdge>, ruleIDs': seq<nat>)
    requires forall k | 0 <= k < |labels| :: labels[k] in node.children && node.children[labels[k]] in ids
    ensures edges <= edges' && ruleIDs <= ruleIDs'
    ensures Packed(n, edges', ruleIDs', node, labels, ids)
  {
    edges' := edges;
    for k := 0 to |labels|
      invariant |edges'| == |edges| + k && edges <= edges'
      invariant forall j | 0 <= j < k ::
                  edges'[|edges| + j] == IndexEdge(labels[j], ids[node.children[labels[j]]])
    {
      edges' := edges' + [IndexEdge(labels[k], ids[node.children[labels[k]]])];
    }
    ruleIDs' := ruleIDs + node.rules;
    n := IndexNode(|edges|, |edges'| - |edges|, |ruleIDs|, |ruleIDs'| - |ruleIDs|);
    forall k | n.edgeStart <= k < n.edgeStart + n.edgeCount
      ensures EdgeTo(edges'[k], node, labels[k - n.edgeStart], ids)
    {
      assert edges'[|edges| + (k - |edges|)] == edges'[k];
    }
  }

  ghost predicate AllPacked(nodes: seq<IndexNode>, edges: seq<IndexEdge>, ruleIDs: seq<nat>,
                            builders: seq<Node>, childLabels: seq<seq<string>>, ids: map<Node, nat>)
    requires |nodes| <= |builders| == |childLabels|
    reads builders
  {
    forall i | 0 <= i < |nodes| :: Packed(nodes[i], edges, ruleIDs, builders[i], childLabels[i], ids)
  }

  lemma PackNext(nodes: seq<IndexNode>, edges: seq<IndexEdge>, ruleIDs: seq<nat>,
                 builders: seq<Node>, childLabels: seq<seq<string>>, ids: map<Node, nat>,
                 n: IndexNode, edges': seq<IndexEdge>, ruleIDs': seq<nat>)
    requires |nodes| < |builders| == |childLabels|
    requires AllPacked(nodes, edges, ruleIDs, builders, childLabels, ids)
    requires edges <= edges' && ruleIDs <= ruleIDs'
    requires Packed(n, edges', ruleIDs', builders[|nodes|], childLabels[|nodes|], ids)
    ensures AllPacked(nodes + [n], edges', ruleIDs', builders, childLabels, ids)
  {
    forall i | 0 <= i < |nodes + [n]|
      ensures Packed((nodes + [n])[i], edges', ruleIDs', builders[i], childLabels[i], ids)
    {
      if i < |nodes| {
        PackedStays(nodes[i], edges, ruleIDs, edges', ruleIDs', builders[i], childLabels[i], ids);
      }
    }
  }

  lemma ExpandedLabels(builders: seq<Node>, ids: map<Node, nat>, childLabels: seq<seq<string>>, i: nat, k: nat)
    requires i < |builders| && Expanded(builders, ids, childLabels, i) && k < |childLabels[i]|
    ensures childLabels[i][k] in builders[i].children && builders[i].children[childLabels[i][k]] in ids
  {
    assert childLabels[i][k] in Elements(childLabels[i]);
  }

  /** The second loop of compactHostIndex. */
  method Flatten(builders: seq<Node>, ids: map<Node, nat>, childLabels: seq<seq<string>>)
    returns (nodes: seq<IndexNode>, edges: seq<IndexEdge>, ruleIDs: seq<nat>)
    requires |childLabels| == |builders| && AllExpanded(builders, ids, childLabels)
    ensures |nodes| == |builders|
    ensures AllPacked(nodes, edges, ruleIDs, builders, childLabels, ids)
  {
    nodes, edges, ruleIDs := [], [], [];
    while |nodes| < |builders|
      invariant |nodes| <= |builders|
      invariant AllPacked(nodes, edges, ruleIDs, builders, childLabels, ids)
      decreases |builders| - |nodes|
    {
      forall k | 0 <= k < |childLabels[|nodes|]|
        ensures childLabels[|nodes|][k] in builders[|nodes|].children
                && builders[|nodes|].children[childLabels[|nodes|][k]] in ids
      {
        ExpandedLabels(builders, ids, childLabels, |nodes|, k);
      }
      var n, edges', ruleIDs' := Pack(builders[|nodes|], childLabels[|nodes|], ids, edges, ruleIDs);
      PackNext(nodes, edges, ruleIDs, builders, childLabels, ids, n, edges', ruleIDs');
      nodes, edges, ruleIDs := nodes + [n], edges', ruleIDs';
    }
  }

  ghost function Places(builders: seq<Node>): (r: seq<Path>)
    ensures |r| == |builders|
    ensures forall i | 0 <= i < |builders| :: r[i] == builders[i].place
  {
    if builders == [] then [] else [builders[0].place] + Places(builders[1..])
  }

  lemma PackedEdge(tree: Tree, builders: seq<Node>, ids: map<Node, nat>, i: nat, e: IndexEdge, l: string)
    requires tree.Valid() && Numbered(tree, builders, ids) && i < |builders|
    requires EdgeTo(e, builders[i], l, ids)
    ensures LeadsTo(e, Places(builders), Places(builders)[i])
  {
    assert tree.NodeAt(builders[i].place);
    assert tree.NodeAt(Under(builders[i].place, l));
  }

  lemma PackedSorted(n: IndexNode, ix: Index, node: Node, labels: seq<string>, ids: map<Node, nat>)
    requires Packed(n, ix.edges, ix.ruleIDs, node, labels, ids) && StrictlySorted(labels)
    ensures EdgesSorted(ix.edges, n.edgeStart, n.edgeStart + n.edgeCount)
  {
    forall j, k | n.edgeStart <= j < k < n.edgeStart + n.edgeCount
      ensures Less(ix.edges[j].lab, ix.edges[k].lab)
    {
      assert EdgeTo(ix.edges[j], node, labels[j - n.edgeStart], ids);
      assert EdgeTo(ix.edges[k], node, labels[k - n.edgeStart], ids);
    }
  }

  lemma PackedComplete(n: IndexNode, ix: Index, node: Node, labels: seq<string>, ids: map<Node, nat>, l: string)
    requires Packed(n, ix.edges, ix.ruleIDs, node, labels, ids) && l in labels
    ensures HasEdge(ix.edges, n, l)
  {
    var j :| 0 <= j < |labels| && labels[j] == l;
    var k := n.edgeStart + j;
    assert EdgeTo(ix.edges[k], node, labels[k - n.edgeStart], ids);
  }

  lemma PackedEdges(tree: Tree, builders: seq<Node>, ids: map<Node, nat>, labels: seq<string>, ix: Index, i: nat)
    requires tree.Valid() && Numbered(tree, builders, ids) && i < |builders| == |ix.nodes|
    requires Packed(ix.nodes[i], ix.edges, ix.ruleIDs, builders[i], labels, ids)
    ensures var n, places := ix.nodes[i], Places(builders);
            forall k | n.edgeStart <= k < n.edgeStart + n.edgeCount :: LeadsTo(ix.edges[k], places, places[i])
  {
    var n, places := ix.nodes[i], Places(builders);
    forall k | n.edgeStart <= k < n.edgeStart + n.edgeCount ensures LeadsTo(ix.edges[k], places, places[i]) {
      PackedEdge(tree, builders, ids, i, ix.edges[k], labels[k - n.edgeStart]);
    }
  }

  lemma PackedDescribes(tree: Tree, builders: seq<Node>, ids: map<Node, nat>, childLabels: seq<seq<string>>,
                        ix: Index, i: nat)
    requires tree.Valid() && Numbered(tree, builders, ids) && i < |builders|
    requires Expanded(builders, ids, childLabels, i) && |ix.nodes| == |builders|
    requires Packed(ix.nodes[i], ix.edges, ix.ruleIDs, builders[i], childLabels[i], ids)
    ensures Describes(ix, Places(builders), tree.contents, i)
  {
    var n, node, places := ix.nodes[i], builders[i], Places(builders);
    assert tree.NodeAt(node.place);
    PackedSorted(n, ix, node, childLabels[i], ids);
    PackedEdges(tree, builders, ids, childLabels[i], ix, i);
    forall l | Under(places[i], l) in tree.contents ensures HasEdge(ix.edges, n, l) {
      assert l in Elements(childLabels[i]);
      PackedComplete(n, ix, node, childLabels[i], ids, l);
    }
  }

  /** compactHostIndex: the arrays hold exactly the tree. */
  method Compact(tree: Tree, fallback: seq<nat>) returns (ix: Index, ghost places: seq<Path>)
    requires tree.Valid()
    ensures ix.fallback == fallback
    ensures Represents(ix, places, tree.contents)
  {
    var builders, ids, childLabels := Enumerate(tree);
    var nodes, edges, ruleIDs := Flatten(builders, ids, childLabels);
    ix := Index(nodes, edges, ruleIDs, fallback);
    places := Places(builders);
    forall i | 0 <= i < |places| ensures Describes(ix, places, tree.contents, i) {
      PackedDescribes(tree, builders, ids, childLabels, ix, i);
    }
    assert tree.NodeAt(Root);
  }
}
