/** Certificates as far as chains care, and putting a bag of them back in leaf-first
    order (cert/cache.go). */
module CertChain {
  import opened GoStrings

  type Name = string

  /** A key pair, named by its public half. */
  type Key = nat

  /** signer is the key whose private half made the signature; keyUsage is None when the
      extension is absent, otherwise whether it includes certificate signing. */
  datatype Cert = Cert(
    subject: Name, issuer: Name, serial: nat, key: Key, signer: Key,
    v3: bool, bcValid: bool, isCA: bool, maxPathLen: int, maxPathLenZero: bool, keyUsage: Option<bool>,
    notBefore: int, notAfter: int, sans: seq<string>)

  /** x509's CheckSignatureFrom: the parent may sign certificates and made this signature. */
  predicate SignedBy(c: Cert, parent: Cert) {
    && (parent.v3 ==> parent.bcValid) && (parent.bcValid ==> parent.isCA)
    && parent.keyUsage != Some(false)
    && c.signer == parent.key
  }

  // ---- Chains ----

  predicate Linked(chain: seq<Cert>) {
    forall i | 0 <= i < |chain| - 1 :: chain[i].issuer == chain[i + 1].subject
  }

  ghost predicate DistinctSubjects(chain: seq<Cert>) {
    forall i, j | 0 <= i < j < |chain| :: chain[i].subject != chain[j].subject
  }

  ghost predicate IssuesNone(name: Name, certs: seq<Cert>) {
    forall c | c in certs :: c.issuer != name
  }

  /** chain is the bag certs in leaf-first order. */
  ghost predicate Orders(chain: seq<Cert>, certs: seq<Cert>) {
    && chain != [] && multiset(chain) == multiset(certs)
    && Linked(chain) && DistinctSubjects(chain)
    && IssuesNone(chain[0].subject, certs)
  }

  // ---- The tables ----

  function BySubject(certs: seq<Cert>): (m: map<Name, Cert>)
    ensures forall n | n in m :: m[n].subject == n && m[n] in certs
    ensures forall c | c in certs :: c.subject in m
  {
    if certs == [] then map[]
    else
      var last := certs[|certs| - 1];
      BySubject(certs[..|certs| - 1])[last.subject := last]
  }

  function Issuers(certs: seq<Cert>): set<Name> {
    set c | c in certs :: c.issuer
  }

  /** The certificates met walking from cur through issuers until a name is unknown or
      has been seen. */
  function Walk(m: map<Name, Cert>, cur: Cert, seen: set<Name>): (r: seq<Cert>)
    requires forall n | n in m :: m[n].subject == n
    ensures r != [] && r[0] == cur
    decreases |m.Keys - seen - {cur.subject}|
  {
    var seen' := seen + {cur.subject};
    if cur.issuer !in m || cur.issuer in seen' then [cur]
    else
      assert m.Keys - seen' - {cur.issuer} < m.Keys - seen - {cur.subject} by {
        assert cur.issuer in m.Keys - seen - {cur.subject};
      }
      Smaller(m.Keys - seen' - {cur.issuer}, m.Keys - seen - {cur.subject});
      [cur] + Walk(m, m[cur.issuer], seen')
  }

  lemma Smaller<T>(a: set<T>, b: set<T>)
    requires a < b
    ensures |a| < |b|
  {
    assert exists x :: x in b && x !in a;
    var x :| x in b && x !in a;
    assert a + {x} <= b;
    Fewer(a + {x}, b);
  }

  lemma Fewer<T>(a: set<T>, b: set<T>)
    requires a <= b
    ensures |a| <= |b|
  {
    assert b == a + (b - a);
  }

  function FirstLeaf(certs: seq<Cert>, issuers: set<Name>): (r: Option<Cert>)
    ensures r.Some? ==> r.value in certs && r.value.subject !in issuers
    ensures r.None? ==> forall c | c in certs :: c.subject in issuers
  {
    if certs == [] then None
    else if certs[0].subject !in issuers then Some(certs[0])
    else FirstLeaf(certs[1..], issuers)
  }

  /** What orderChainLeafFirst returns. */
  function Ordered(certs: seq<Cert>): Option<seq<Cert>> {
    match FirstLeaf(certs, Issuers(certs))
    case None => None
    case Some(leaf) =>
      var r := Walk(BySubject(certs), leaf, {});
      if |r| == |certs| then Some(r) else None
  }

  // ---- The walk ----

  lemma {:induction false} WalkSound(m: map<Name, Cert>, cur: Cert, seen: set<Name>)
    requires forall n | n in m :: m[n].subject == n
    requires cur.subject !in seen
    ensures var r := Walk(m, cur, seen);
            && Linked(r) && DistinctSubjects(r)
            && (forall i | 0 <= i < |r| :: r[i].subject !in seen)
            && (forall i | 0 < i < |r| :: r[i].subject in m && m[r[i].subject] == r[i])
    decreases |m.Keys - seen - {cur.subject}|
  {
    var seen' := seen + {cur.subject};
    if cur.issuer in m && cur.issuer !in seen' {
      assert cur.issuer in m.Keys - seen - {cur.subject};
      Smaller(m.Keys - seen' - {cur.issuer}, m.Keys - seen - {cur.subject});
      WalkSound(m, m[cur.issuer], seen');
    }
  }

  /** Walking from any place of an ordered chain gives the rest of it. */
  lemma {:induction false} WalkComplete(m: map<Name, Cert>, chain: seq<Cert>, k: nat, seen: set<Name>)
    requires forall n | n in m :: m[n].subject == n && m[n] in chain
    requires k < |chain| && Linked(chain) && DistinctSubjects(chain)
    requires forall i | 0 <= i < |chain| :: chain[i].subject in m && m[chain[i].subject] == chain[i]
    requires forall i | 0 <= i < |chain| :: chain[i].subject in seen <==> i < k
    ensures Walk(m, chain[k], seen) == chain[k..]
    decreases |chain| - k
  {
    var cur, seen' := chain[k], seen + {chain[k].subject};
    if k + 1 < |chain| {
      WalkComplete(m, chain, k + 1, seen');
      assert chain[k..] == [cur] + chain[k + 1..];
    } else {
      assert cur.issuer in m ==> cur.issuer in seen';
    }
  }

  // ---- Permutations ----

  lemma {:induction false} AtMostOnce(s: seq<Cert>, c: Cert)
    requires DistinctSubjects(s)
    ensures multiset(s)[c] <= 1
    decreases |s|
  {
    if s != [] {
      var last := s[|s| - 1];
      AtMostOnce(s[..|s| - 1], c);
      assert s == s[..|s| - 1] + [last];
      assert last !in s[..|s| - 1];
    }
  }

  lemma SamePermutation(r: seq<Cert>, certs: seq<Cert>)
    requires DistinctSubjects(r) && |r| == |certs| && forall c | c in r :: c in certs
    ensures multiset(r) == multiset(certs)
  {
    forall c ensures multiset(r)[c] <= multiset(certs)[c] {
      AtMostOnce(r, c);
      if c in multiset(r) { assert c in r && c in certs; }
    }
    assert multiset(r) <= multiset(certs);
    assert |multiset(certs) - multiset(r)| == 0;
    assert multiset(certs) == multiset(r) + (multiset(certs) - multiset(r));
  }

  lemma SameMembers(chain: seq<Cert>, certs: seq<Cert>, c: Cert)
    requires multiset(chain) == multiset(certs)
    ensures c in chain <==> c in certs
  {
    assert c in chain <==> c in multiset(chain);
    assert c in certs <==> c in multiset(certs);
  }

  // ---- Ordering ----

  lemma OrderedIsSound(certs: seq<Cert>)
    requires Ordered(certs).Some?
    ensures Orders(Ordered(certs).value, certs)
  {
    var m, leaf := BySubject(certs), FirstLeaf(certs, Issuers(certs)).value;
    var r := Walk(m, leaf, {});
    WalkSound(m, leaf, {});
    forall c | c in r ensures c in certs {
      var i :| 0 <= i < |r| && r[i] == c;
      assert i > 0 ==> m[c.subject] == c;
    }
    SamePermutation(r, certs);
    forall c | c in certs ensures c.issuer != leaf.subject { assert c.issuer in Issuers(certs); }
  }

  lemma TableOfChain(chain: seq<Cert>, certs: seq<Cert>, i: nat)
    requires Orders(chain, certs) && i < |chain|
    ensures chain[i].subject in BySubject(certs) && BySubject(certs)[chain[i].subject] == chain[i]
  {
    SameMembers(chain, certs, chain[i]);
    var c := BySubject(certs)[chain[i].subject];
    SameMembers(chain, certs, c);
    var j :| 0 <= j < |chain| && chain[j] == c;
    SameSubject(chain, i, j);
  }

  lemma SameSubject(chain: seq<Cert>, i: nat, j: nat)
    requires DistinctSubjects(chain) && i < |chain| && j < |chain| && chain[i].subject == chain[j].subject
    ensures i == j
  {
  }

  lemma NonLeafIsIssuer(chain: seq<Cert>, certs: seq<Cert>, j: nat)
    requires Orders(chain, certs) && 0 < j < |chain|
    ensures chain[j].subject in Issuers(certs)
  {
    SameMembers(chain, certs, chain[j - 1]);
    assert chain[j - 1].issuer in Issuers(certs);
  }

  lemma LeafOfChain(chain: seq<Cert>, certs: seq<Cert>)
    requires Orders(chain, certs)
    ensures FirstLeaf(certs, Issuers(certs)) == Some(chain[0])
  {
    SameMembers(chain, certs, chain[0]);
    assert chain[0].subject !in Issuers(certs);
    var leaf := FirstLeaf(certs, Issuers(certs)).value;
    SameMembers(chain, certs, leaf);
    var j :| 0 <= j < |chain| && chain[j] == leaf;
    if j > 0 { NonLeafIsIssuer(chain, certs, j); }
  }

  lemma OrderedIsComplete(chain: seq<Cert>, certs: seq<Cert>)
    requires Orders(chain, certs)
    ensures Ordered(certs) == Some(chain)
  {
    LeafOfChain(chain, certs);
    var m := BySubject(certs);
    forall i | 0 <= i < |chain| ensures chain[i].subject in m && m[chain[i].subject] == chain[i] {
      TableOfChain(chain, certs, i);
    }
    forall n | n in m ensures m[n] in chain { SameMembers(chain, certs, m[n]); }
    WalkComplete(m, chain, 0, {});
    assert chain[0..] == chain;
    assert |chain| == |multiset(chain)| == |multiset(certs)| == |certs|;
  }

  /** The order found is the one order there is: a linked permutation with distinct
      subjects that starts where nothing was issued. */
  lemma OrderedIff(chain: seq<Cert>, certs: seq<Cert>)
    ensures Ordered(certs) == Some(chain) <==> Orders(chain, certs)
  {
    if Ordered(certs).Some? { OrderedIsSound(certs); }
    if Orders(chain, certs) { OrderedIsComplete(chain, certs); }
  }

  lemma IssuersNext(certs: seq<Cert>, c: Cert)
    ensures Issuers(certs + [c]) == Issuers(certs) + {c.issuer}
  {
    assert c in certs + [c];
    forall x | x in certs ensures x.issuer in Issuers(certs + [c]) { assert x in certs + [c]; }
  }

  lemma BySubjectNext(certs: seq<Cert>, c: Cert)
    ensures BySubject(certs + [c]) == BySubject(certs)[c.subject := c]
  {
    assert (certs + [c])[..|certs|] == certs;
  }

  method Tables(certs: seq<Cert>) returns (bySubject: map<Name, Cert>, isIssuer: set<Name>)
    ensures bySubject == BySubject(certs) && isIssuer == Issuers(certs)
  {
    bySubject, isIssuer := map[], {};
    for n := 0 to |certs|
      invariant bySubject == BySubject(certs[..n]) && isIssuer == Issuers(certs[..n])
    {
      IssuersNext(certs[..n], certs[n]);
      BySubjectNext(certs[..n], certs[n]);
      assert certs[..n + 1] == certs[..n] + [certs[n]];
      bySubject := bySubject[certs[n].subject := certs[n]];
      isIssuer := isIssuer + {certs[n].issuer};
    }
    assert certs[..|certs|] == certs;
  }

  method FindLeaf(certs: seq<Cert>, isIssuer: set<Name>) returns (leaf: Option<Cert>)
    ensures leaf == FirstLeaf(certs, isIssuer)
  {
    for n := 0 to |certs|
      invariant FirstLeaf(certs, isIssuer) == FirstLeaf(certs[n..], isIssuer)
    {
      if certs[n].subject !in isIssuer {
        return Some(certs[n]);
      }
    }
    return None;
  }

  /** orderChainLeafFirst. */
  method OrderChainLeafFirst(certs: seq<Cert>) returns (r: Result<seq<Cert>>)
    ensures forall chain :: r == Ok(chain) <==> Orders(chain, certs)
  {
    forall chain ensures Ordered(certs) == Some(chain) <==> Orders(chain, certs) { OrderedIff(chain, certs); }
    if certs == [] {
      return Err("empty chain");
    }
    var bySubject, isIssuer := Tables(certs);
    var leaf := FindLeaf(certs, isIssuer);
    if leaf.None? {
      return Err("no unique leaf");
    }
    var ordered := WalkFrom(bySubject, leaf.value);
    if |ordered| != |certs| {
      return Err("not all chain from the leaf");
    }
    return Ok(ordered);
  }

  lemma WalkStep(m: map<Name, Cert>, cur: Cert, seen: set<Name>)
    requires forall n | n in m :: m[n].subject == n
    requires cur.issuer in m && cur.issuer !in seen + {cur.subject}
    ensures Walk(m, cur, seen) == [cur] + Walk(m, m[cur.issuer], seen + {cur.subject})
    ensures |m.Keys - (seen + {cur.subject}) - {cur.issuer}| < |m.Keys - seen - {cur.subject}|
  {
    assert cur.issuer in m.Keys - seen - {cur.subject};
    Smaller(m.Keys - (seen + {cur.subject}) - {cur.issuer}, m.Keys - seen - {cur.subject});
  }

  lemma WalkMore(m: map<Name, Cert>, cur: Cert, seen: set<Name>, ordered: seq<Cert>)
    requires forall n | n in m :: m[n].subject == n
    requires cur.issuer in m && cur.issuer !in seen + {cur.subject}
    ensures ordered + Walk(m, cur, seen) == ordered + [cur] + Walk(m, m[cur.issuer], seen + {cur.subject})
    ensures |m.Keys - (seen + {cur.subject}) - {cur.issuer}| < |m.Keys - seen - {cur.subject}|
  {
    WalkStep(m, cur, seen);
  }

  method WalkFrom(m: map<Name, Cert>, leaf: Cert) returns (ordered: seq<Cert>)
    requires forall n | n in m :: m[n].subject == n
    ensures ordered == Walk(m, leaf, {})
  {
    ordered := [];
    var seen: set<Name> := {};
    var cur := leaf;
    ghost var whole := Walk(m, leaf, {});
    while cur.issuer in m && cur.issuer !in seen + {cur.subject}
      invariant ordered + Walk(m, cur, seen) == whole
      decreases |m.Keys - seen - {cur.subject}|
    {
      WalkMore(m, cur, seen, ordered);
      ordered := ordered + [cur];
      seen, cur := seen + {cur.subject}, m[cur.issuer];
    }
    ordered := ordered + [cur];
  }
}
