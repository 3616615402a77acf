/** The mutable half of host_index.go: the reversed-label tree that
    buildHostCandidateIndex grows while compiling. */
module HostTree {
  import opened GoStrings

  /** A node's place in the tree: the root, or a label under another place. */
  datatype Path = Root | Under(parent: Path, lab: string)

  /** The place reached by reading labels in order from p. */
  function Walk(p: Path, labels: seq<string>): Path
    decreases |labels|
  {
    if labels == [] then p else Walk(Under(p, labels[0]), labels[1..])
  }

  lemma {:induction false} WalkAppend(p: Path, a: seq<string>, b: seq<string>)
    ensures Walk(p, a + b) == Walk(Walk(p, a), b)
    decreases |a|
  {
    if a == [] {
      assert a + b == b;
    } else {
      assert (a + b)[1..] == a[1..] + b;
      WalkAppend(Under(p, a[0]), a[1..], b);
    }
  }

  lemma WalkLast(p: Path, labels: seq<string>, l: string)
    ensures Walk(p, labels + [l]) == Under(Walk(p, labels), l)
  {
    WalkAppend(p, labels, [l]);
    var q := Walk(p, labels);
    assert Walk(q, [l]) == Walk(Under(q, l), [l][1..]);
  }

  lemma {:induction false} WalkInjective(a: seq<string>, b: seq<string>)
    requires Walk(Root, a) == Walk(Root, b)
    ensures a == b
    decreases |a| + |b|
  {
    if a != [] { WalkLast(Root, a[..|a| - 1], a[|a| - 1]); assert a == a[..|a| - 1] + [a[|a| - 1]]; }
    if b != [] { WalkLast(Root, b[..|b| - 1], b[|b| - 1]); assert b == b[..|b| - 1] + [b[|b| - 1]]; }
    if a != [] && b != [] {
      WalkInjective(a[..|a| - 1], b[..|b| - 1]);
    }
  }

  /** Where a host name leads: its labels, last one first. */
  function Place(host: string): Path {
    Walk(Root, RevLabels(host))
  }

  class Node {
    var children: map<string, Node>
    var rules: seq<nat>
    ghost const place: Path

    constructor (ghost p: Path)
      ensures children == map[] && rules == [] && place == p
    {
      children, rules, place := map[], [], p;
    }
  }

  // ---- The tree as a value: the rule numbers kept at each place ----

  type Contents = map<Path, seq<nat>>

  /** Makes p and every place above it a node, empty where it was absent. */
  function Touch(m: Contents, p: Path): (r: Contents)
    ensures p in r
    ensures forall q | q in m :: q in r && r[q] == m[q]
    ensures forall q | q in r && q !in m :: r[q] == []
  {
    if p in m then m
    else match p
         case Root => m[p := []]
         case Under(parent, _) => Touch(m, parent)[p := []]
  }

  /** The rules of a node after one more insertion; a repeat of the last is dropped. */
  function AddRule(rules: seq<nat>, id: nat): seq<nat> {
    if rules == [] || rules[|rules| - 1] != id then rules + [id] else rules
  }

  /** insertHostSuffix on the tree as a value. */
  function Insert(m: Contents, p: Path, id: nat): Contents {
    var t := Touch(m, p);
    t[p := AddRule(t[p], id)]
  }

  /** A place in the tree has everything above it there too. */
  ghost predicate Closed(m: Contents) {
    && Root in m
    && forall p {:trigger p.parent} | p in m && p.Under? :: p.parent in m
  }

  lemma {:induction false} TouchClosed(m: Contents, p: Path)
    requires Closed(m)
    ensures Closed(Touch(m, p))
  {
    if p !in m && p.Under? { TouchClosed(m, p.parent); }
  }

  lemma InsertClosed(m: Contents, p: Path, id: nat)
    requires Closed(m)
    ensures Closed(Insert(m, p, id))
  {
    TouchClosed(m, p);
  }

  /** Inserting adds exactly one rule at exactly one place. */
  lemma InsertMembers(m: Contents, p: Path, id: nat, q: Path, x: nat)
    ensures q in Insert(m, p, id) && x in Insert(m, p, id)[q]
            <==> (q in m && x in m[q]) || (q == p && x == id)
  {
  }

  /** Touching one label further, as each turn of insertHostSuffix does. */
  lemma TouchStep(m: Contents, p: Path, l: string)
    requires Closed(m)
    ensures Touch(m, Under(p, l)) ==
            var t := Touch(m, p);
            if Under(p, l) in t then t else t[Under(p, l) := []]
  {
    var q := Under(p, l);
    assert q.parent == p;
    if q !in m && q in Touch(m, p) { TouchOnly(m, p, q); }
  }

  lemma {:induction false} TouchOnly(m: Contents, p: Path, q: Path)
    requires q !in m && q in Touch(m, p)
    ensures Size(q) <= Size(p)
  {
    if p !in m && p.Under? && q != p { TouchOnly(m, p.parent, q); }
  }

  ghost function Size(p: Path): nat {
    match p case Root => 0 case Under(q, _) => 1 + Size(q)
  }

  // ---- The tree in memory ----

  class Tree {
    var root: Node
    /** Where each place is, and what is kept there. */
    ghost var at: map<Path, Node>
    ghost var repr: set<Node>
    ghost var contents: Contents

    /** The node at p knows its place, and its children are exactly the places one
        label below it. */
    ghost predicate NodeAt(p: Path)
      requires p in at
      reads `at, at[p]
    {
      && at[p].place == p
      && (p.Under? ==> p.parent in at)
      && (forall l :: l in at[p].children <==> Under(p, l) in at)
      && (forall l | l in at[p].children :: at[p].children[l] == at[Under(p, l)])
    }

    ghost predicate Shape()
      reads `root, `at, `repr, repr
    {
      && Root in at && at[Root] == root
      && (forall p | p in at :: at[p] in repr)
      && (forall p | p in at :: NodeAt(p))
    }

    ghost predicate Valid()
      reads this, repr
    {
      && Shape()
      && contents.Keys == at.Keys
      && (forall p | p in at :: contents[p] == at[p].rules)
    }

    lemma ContentsClosed()
      requires Valid()
      ensures Closed(contents)
    {
      forall p {:trigger p.parent} | p in contents && p.Under? ensures p.parent in contents {
        assert NodeAt(p);
      }
    }

    constructor ()
      ensures Valid() && fresh(repr) && contents == map[Root := []]
    {
      var n := new Node(Root);
      root := n;
      at, repr, contents := map[Root := n], {n}, map[Root := []];
    }

    lemma FreshPlace(p: Path, l: string)
      requires Shape() && p in at && l !in at[p].children
      ensures Under(p, l) !in at && forall k :: Under(Under(p, l), k) !in at
    {
      assert NodeAt(p);
      forall k ensures Under(Under(p, l), k) !in at {
        assert Under(Under(p, l), k) in at ==> NodeAt(Under(Under(p, l), k));
      }
    }

    /** Gives node a new, empty child under lab. */
    method Grow(node: Node, lab: string, ghost p: Path) returns (child: Node)
      requires Shape() && p in at && at[p] == node && lab !in node.children
      modifies `at, `repr, node`children
      ensures Shape() && fresh(child) && repr == old(repr) + {child}
      ensures at == old(at)[Under(p, lab) := child] && child.rules == []
    {
      ghost var q := Under(p, lab);
      FreshPlace(p, lab);
      assert NodeAt(p);
      child := new Node(q);
      node.children := node.children[lab := child];
      at, repr := at[q := child], repr + {child};
      forall r | r in at && r != q ensures NodeAt(r) {
        assert old(NodeAt(r));
      }
    }

    /** The child of node under lab, grown if missing. */
    method Child(node: Node, lab: string, ghost p: Path) returns (child: Node)
      requires Valid() && p in at && at[p] == node
      modifies `at, `repr, `contents, node`children
      ensures Valid() && fresh(repr - old(repr))
      ensures Under(p, lab) in at && at[Under(p, lab)] == child
      ensures Under(p, lab) in old(contents) ==> contents == old(contents)
      ensures Under(p, lab) !in old(contents) ==> contents == old(contents)[Under(p, lab) := []]
    {
      assert NodeAt(p);
      if lab in node.children {
        child := node.children[lab];
      } else {
        child := Grow(node, lab, p);
        contents := contents[Under(p, lab) := []];
      }
    }

    method AppendRule(node: Node, id: nat, ghost p: Path)
      requires Valid() && p in at && at[p] == node
      modifies `contents, node`rules
      ensures Valid()
      ensures contents == old(contents)[p := AddRule(old(contents)[p], id)]
    {
      assert NodeAt(p);
      if |node.rules| == 0 || node.rules[|node.rules| - 1] != id {
        node.rules := node.rules + [id];
        contents := contents[p := node.rules];
        forall r | r in at ensures NodeAt(r) {
          assert old(NodeAt(r));
        }
      }
    }

    /** The descent: from the root along the labels of host, growing what is missing. */
    method Descend(host: string) returns (node: Node)
      requires Valid()
      modifies this, repr
      ensures Valid() && fresh(repr - old(repr))
      ensures Place(host) in at && at[Place(host)] == node
      ensures contents == Touch(old(contents), Place(host))
    {
      node := root;
      var end := |host|;
      ghost var p := Root;
      ghost var m := contents;
      ContentsClosed();
      assert host[..end] == host;
      while end > 0
        invariant Valid() && fresh(repr - old(repr))
        invariant 0 <= end <= |host|
        invariant p in at && at[p] == node
        invariant Walk(p, RevLabels(host[..end])) == Place(host)
        invariant contents == Touch(m, p)
        decreases end
      {
        var start := AfterLastDot(host[..end]);
        WalkStep(host, end, start, p);
        TouchStep(m, p, host[start..end]);
        node := Child(node, host[start..end], p);
        p := Under(p, host[start..end]);
        end := if start == 0 then 0 else start - 1;
      }
    }

    /** insertHostSuffix: descend, and append the rule number at the last node. */
    method InsertHostSuffix(host: string, id: nat)
      requires Valid()
      modifies this, repr
      ensures Valid() && fresh(repr - old(repr))
      ensures contents == Insert(old(contents), Place(host), id)
    {
      var node := Descend(host);
      AppendRule(node, id, Place(host));
    }
  }

  /** One turn of the right-to-left walk over a host's labels. */
  lemma WalkStep(host: string, end: nat, start: nat, p: Path)
    requires 0 < end <= |host| && start == AfterLastDot(host[..end])
    ensures var next := if start == 0 then 0 else start - 1;
            Walk(p, RevLabels(host[..end]))
            == Walk(Under(p, host[start..end]), RevLabels(host[..next]))
    ensures var next := if start == 0 then 0 else start - 1;
            RevLabels(host[..end]) == [host[start..end]] + RevLabels(host[..next])
  {
    var h := host[..end];
    assert h[start..] == host[start..end];
    if start > 0 {
      assert h[..start - 1] == host[..start - 1];
    }
  }
}
