/** Cloning a real chain under the signing CA, keeping the clone and trusting it again
    later (cert/clone.go, cert/cache.go), and the signing CA's own chain (cert/ca.go). */
module CertClone {
  import opened GoStrings
  import opened CertChain

  // ---- The signing CA ----

  /** What validateSigningCert demands of the certificate that signs clones. */
  predicate CanSign(ca: Cert) {
    ca.v3 && ca.bcValid && ca.isCA && ca.keyUsage == Some(true)
  }

  /** issuanceBudget: how many intermediates may come below the CA, if it says. */
  function Budget(ca: Cert): Option<nat> {
    if ca.maxPathLenZero then Some(0)
    else if ca.maxPathLen >= 0 then Some(ca.maxPathLen)
    else None
  }

  /** DetKeyDeriver and serialFor: deterministic in what they are given. */
  datatype Deriver = Deriver(leaf: seq<string> -> Option<Key>, intermediate: (Name, nat) -> Option<Key>,
                             serial: (Name, nat) -> nat)

  // ---- CloneChain ----

  /** The part of the real chain that is cloned: all of it, or the leaf alone. */
  function Effective(ca: Cert, orig: seq<Cert>): (r: seq<Cert>)
    requires orig != []
    ensures r != [] && r <= orig
    ensures Budget(ca).Some? ==> |r| - 1 <= Budget(ca).value
  {
    if Budget(ca).Some? && |orig| - 1 > Budget(ca).value then orig[..1] else orig
  }

  function KeyFor(keys: Deriver, chain: seq<Cert>, i: nat): Option<Key>
    requires i < |chain|
  {
    if i == 0 then keys.leaf(chain[0].sans) else keys.intermediate(chain[i].issuer, chain[i].serial)
  }

  /** cloneTemplate signed by a parent. */
  function CloneOf(keys: Deriver, orig: Cert, key: Key, parent: Cert, notAfter: int): Cert {
    Cert(orig.subject, parent.subject, keys.serial(orig.issuer, orig.serial), key, parent.key,
         true, orig.bcValid || orig.isCA, orig.isCA, orig.maxPathLen, orig.maxPathLenZero,
         if orig.isCA then Some(true) else orig.keyUsage, orig.notBefore, notAfter, orig.sans)
  }

  /** Who signs element i. */
  function Parent(ca: Cert, out: seq<Cert>, i: nat): Cert
    requires i < |out|
  {
    if i + 1 < |out| then out[i + 1] else ca
  }

  /** Validity is copied, except that nothing the CA signs outlives it. */
  function Expiry(ca: Cert, chain: seq<Cert>, i: nat): int
    requires i < |chain|
  {
    if i == |chain| - 1 && chain[i].notAfter > ca.notAfter then ca.notAfter else chain[i].notAfter
  }

  /** out[j] is the clone of chain[n + j]. */
  ghost predicate IsClone(ca: Cert, keys: Deriver, chain: seq<Cert>, n: nat, out: seq<Cert>, j: nat)
    requires n + j < |chain| && j < |out|
  {
    && KeyFor(keys, chain, n + j).Some?
    && out[j] == CloneOf(keys, chain[n + j], KeyFor(keys, chain, n + j).value, Parent(ca, out, j),
                         Expiry(ca, chain, n + j))
  }

  /** out clones chain from position n on. */
  ghost predicate ClonedFrom(ca: Cert, keys: Deriver, chain: seq<Cert>, n: nat, out: seq<Cert>) {
    n + |out| == |chain| && forall j | 0 <= j < |out| :: IsClone(ca, keys, chain, n, out, j)
  }

  ghost predicate Cloned(ca: Cert, keys: Deriver, orig: seq<Cert>, out: seq<Cert>) {
    orig != [] && ClonedFrom(ca, keys, Effective(ca, orig), 0, out)
  }

  /** CloneChain, from the CA's end down to the leaf. */
  method CloneChain(ca: Cert, keys: Deriver, orig: seq<Cert>) returns (r: Result<seq<Cert>>)
    ensures r.Ok? ==> Cloned(ca, keys, orig, r.value)
    ensures r.Err? <==>
              orig == [] || exists i | 0 <= i < |Effective(ca, orig)| :: KeyFor(keys, Effective(ca, orig), i).None?
  {
    if orig == [] {
      return Err("empty real chain");
    }
    var chain := Effective(ca, orig);
    var certs: seq<Cert> := [];
    var i := |chain|;
    while i > 0
      invariant 0 <= i <= |chain| && ClonedFrom(ca, keys, chain, i, certs)
    {
      i := i - 1;
      var key := KeyFor(keys, chain, i);
      if key.None? {
        return Err("derive key");
      }
      var parent := if i != |chain| - 1 then certs[0] else ca;
      ghost var before := certs;
      certs := [CloneOf(keys, chain[i], key.value, parent, Expiry(ca, chain, i))] + certs;
      forall j | 0 < j < |certs| ensures IsClone(ca, keys, chain, i, certs, j) {
        assert IsClone(ca, keys, chain, i + 1, before, j - 1);
      }
    }
    forall k | 0 <= k < |chain| ensures KeyFor(keys, chain, k).Some? { assert IsClone(ca, keys, chain, 0, certs, k); }
    return Ok(certs);
  }

  // ---- What a clone is ----

  lemma ClonedLinks(ca: Cert, keys: Deriver, orig: seq<Cert>, out: seq<Cert>)
    requires Cloned(ca, keys, orig, out)
    ensures out != [] && Linked(out) && out[|out| - 1].issuer == ca.subject
    ensures forall i | 0 <= i < |out| ::
              out[i].subject == orig[i].subject && out[i].isCA == orig[i].isCA && out[i].sans == orig[i].sans
  {
    var chain := Effective(ca, orig);
    forall i | 0 <= i < |out|
      ensures out[i].subject == orig[i].subject && out[i].isCA == orig[i].isCA && out[i].sans == orig[i].sans
              && out[i].issuer == Parent(ca, out, i).subject
    {
      assert IsClone(ca, keys, chain, 0, out, i);
    }
  }

  /** The clone never exceeds the path length the CA allows (section 4.2.1.9 of RFC 5280),
      and expires with the original at every position but the one the CA itself signs. */
  lemma ClonedWithinBudget(ca: Cert, keys: Deriver, orig: seq<Cert>, out: seq<Cert>)
    requires Cloned(ca, keys, orig, out)
    ensures Budget(ca).Some? ==> |out| - 1 <= Budget(ca).value
    ensures |out| == |orig| || |out| == 1
    ensures forall i | 0 <= i < |out| - 1 ::
              out[i].notBefore == orig[i].notBefore && out[i].notAfter == orig[i].notAfter
    ensures var n := |out| - 1;
            out[n].notAfter <= ca.notAfter && out[n].notAfter <= orig[n].notAfter
            && (out[n].notAfter == orig[n].notAfter || out[n].notAfter == ca.notAfter)
  {
    var chain := Effective(ca, orig);
    forall i | 0 <= i < |out| ensures out[i].notBefore == orig[i].notBefore && out[i].notAfter == Expiry(ca, chain, i) {
      assert IsClone(ca, keys, chain, 0, out, i);
    }
  }

  /** The whole chain is cloned unless the CA allows fewer intermediates, and then the leaf
      alone is. */
  lemma ClonedLength(ca: Cert, keys: Deriver, orig: seq<Cert>, out: seq<Cert>)
    requires Cloned(ca, keys, orig, out)
    ensures |out| == if ca.maxPathLenZero && |orig| > 1 then 1
                     else if !ca.maxPathLenZero && 0 <= ca.maxPathLen < |orig| - 1 then 1
                     else |orig|
  {
  }

  /** Field by field: a clone has the name, the names and the limits of the original, a
      key and serial derived for it, and the next clone's name and key, or the CA's, as
      issuer and signer. */
  lemma CloneMeans(ca: Cert, keys: Deriver, orig: seq<Cert>, out: seq<Cert>, i: nat)
    requires Cloned(ca, keys, orig, out) && i < |out|
    ensures |out| <= |orig|
    ensures Some(out[i].key) == if i == 0 then keys.leaf(orig[0].sans)
                                else keys.intermediate(orig[i].issuer, orig[i].serial)
    ensures out[i].serial == keys.serial(orig[i].issuer, orig[i].serial)
    ensures out[i].issuer == (if i == |out| - 1 then ca.subject else out[i + 1].subject)
    ensures out[i].signer == (if i == |out| - 1 then ca.key else out[i + 1].key)
    ensures out[i].subject == orig[i].subject && out[i].sans == orig[i].sans
    ensures out[i].isCA == orig[i].isCA && out[i].maxPathLen == orig[i].maxPathLen
    ensures out[i].maxPathLenZero == orig[i].maxPathLenZero && out[i].v3
    ensures orig[i].isCA ==> out[i].bcValid && out[i].keyUsage == Some(true)
    ensures !orig[i].isCA ==> out[i].bcValid == orig[i].bcValid && out[i].keyUsage == orig[i].keyUsage
  {
    assert IsClone(ca, keys, Effective(ca, orig), 0, out, i);
  }

  // ---- verify ----

  /** The leaf has the key its names derive to, and every element is signed by the next,
      the last by the CA. */
  ghost predicate Trusted(ca: Cert, keys: Deriver, chain: seq<Cert>) {
    && chain != [] && keys.leaf(chain[0].sans) == Some(chain[0].key)
    && forall i | 0 <= i < |chain| :: SignedBy(chain[i], Parent(ca, chain, i))
  }

  /** verify. */
  method Verify(ca: Cert, keys: Deriver, chain: seq<Cert>) returns (ok: bool)
    ensures ok <==> Trusted(ca, keys, chain)
  {
    if chain == [] {
      return false;
    }
    var key := keys.leaf(chain[0].sans);
    if key.None? || key.value != chain[0].key {
      return false;
    }
    for i := 0 to |chain|
      invariant forall k | 0 <= k < i :: SignedBy(chain[k], Parent(ca, chain, k))
    {
      var parent := if i + 1 < |chain| then chain[i + 1] else ca;
      if !SignedBy(chain[i], parent) {
        return false;
      }
    }
    return true;
  }

  /** Nothing about the certificate keeps it from signing others. */
  predicate MaySign(c: Cert) {
    (c.v3 || c.bcValid ==> c.bcValid && c.isCA) && (c.keyUsage.Some? ==> c.keyUsage.value)
  }

  /** Trust is a matter of keys, not of names: the leaf's key is the derived one, and each
      signature was made by the key of the next certificate, the last by the CA's key. */
  lemma TrustedIff(ca: Cert, keys: Deriver, chain: seq<Cert>)
    ensures Trusted(ca, keys, chain) <==>
              && chain != [] && keys.leaf(chain[0].sans) == Some(chain[0].key)
              && MaySign(ca) && chain[|chain| - 1].signer == ca.key
              && forall i | 0 < i < |chain| :: MaySign(chain[i]) && chain[i - 1].signer == chain[i].key
  {
    if Trusted(ca, keys, chain) {
      assert SignedBy(chain[|chain| - 1], Parent(ca, chain, |chain| - 1));
      forall i | 0 < i < |chain| ensures MaySign(chain[i]) && chain[i - 1].signer == chain[i].key {
        assert SignedBy(chain[i - 1], Parent(ca, chain, i - 1));
      }
    }
  }

  /** A clone is never trusted under a CA with another key, whatever that CA is called. */
  lemma OtherKeyDistrusts(ca: Cert, keys: Deriver, orig: seq<Cert>, out: seq<Cert>, ca': Cert, keys': Deriver)
    requires Cloned(ca, keys, orig, out) && ca'.key != ca.key
    ensures !Trusted(ca', keys', out)
  {
    CloneMeans(ca, keys, orig, out, |out| - 1);
    TrustedIff(ca', keys', out);
  }

  lemma CloneSigned(ca: Cert, keys: Deriver, orig: seq<Cert>, out: seq<Cert>, i: nat)
    requires Cloned(ca, keys, orig, out) && CanSign(ca) && i < |out|
    ensures SignedBy(out[i], Parent(ca, out, i)) <==> i + 1 == |out| || orig[i + 1].isCA
  {
    var chain := Effective(ca, orig);
    assert IsClone(ca, keys, chain, 0, out, i);
    if i + 1 < |out| { assert IsClone(ca, keys, chain, 0, out, i + 1); }
  }

  /** A clone is trusted exactly when every cloned certificate above the leaf is a CA. */
  lemma CloneTrusted(ca: Cert, keys: Deriver, orig: seq<Cert>, out: seq<Cert>)
    requires Cloned(ca, keys, orig, out) && CanSign(ca)
    ensures Trusted(ca, keys, out) <==> forall i | 0 < i < |out| :: orig[i].isCA
  {
    var chain := Effective(ca, orig);
    assert IsClone(ca, keys, chain, 0, out, 0);
    forall i | 0 <= i < |out| ensures SignedBy(out[i], Parent(ca, out, i)) <==> i + 1 == |out| || orig[i + 1].isCA {
      CloneSigned(ca, keys, orig, out, i);
    }
    if Trusted(ca, keys, out) {
      forall i | 0 < i < |out| ensures orig[i].isCA { assert SignedBy(out[i - 1], Parent(ca, out, i - 1)); }
    }
  }

  // ---- Out of the bag again ----

  lemma Twice(s: seq<Cert>, i: nat, j: nat)
    requires i < j < |s| && s[i] == s[j]
    ensures multiset(s)[s[i]] >= 2
  {
    assert s == s[..j] + s[j..];
    assert s[..j][i] in multiset(s[..j]) && s[j..][0] in multiset(s[j..]);
  }

  lemma DistinctInAnyOrder(a: seq<Cert>, b: seq<Cert>)
    requires DistinctSubjects(a) && multiset(a) == multiset(b)
    ensures DistinctSubjects(b)
  {
    forall i, j | 0 <= i < j < |b| ensures b[i].subject != b[j].subject {
      SameMembers(a, b, b[i]);
      SameMembers(a, b, b[j]);
      var x :| 0 <= x < |a| && a[x] == b[i];
      var y :| 0 <= y < |a| && a[y] == b[j];
      if b[i].subject == b[j].subject {
        SameSubject(a, x, y);
        Twice(b, i, j);
        AtMostOnce(a, b[i]);
      }
    }
  }

  /** A bag can be put in order only if its subjects are distinct and nothing in it was
      issued under the leaf's name. */
  lemma OrderedNeeds(chain: seq<Cert>, bag: seq<Cert>, out: seq<Cert>)
    requires Orders(chain, bag) && multiset(bag) == multiset(out) && out != [] && Linked(out)
    ensures DistinctSubjects(out) && IssuesNone(out[0].subject, bag)
  {
    DistinctInAnyOrder(chain, out);
    SameMembers(out, bag, chain[0]);
    SameMembers(chain, bag, chain[0]);
    var j :| 0 <= j < |out| && out[j] == chain[0];
    if j > 0 { SameMembers(out, bag, out[j - 1]); }
  }

  /** The names of the real chain, as far as it is cloned, are distinct, and its leaf is not
      named as the CA. */
  ghost predicate Reloadable(ca: Cert, orig: seq<Cert>) {
    orig != [] && DistinctSubjects(Effective(ca, orig)) && orig[0].subject != ca.subject
  }

  lemma SameNames(ca: Cert, keys: Deriver, orig: seq<Cert>, out: seq<Cert>)
    requires Cloned(ca, keys, orig, out)
    ensures Reloadable(ca, orig) <==> DistinctSubjects(out) && out[0].subject != ca.subject
  {
    ClonedLinks(ca, keys, orig, out);
    var chain := Effective(ca, orig);
    assert forall i | 0 <= i < |out| :: out[i].subject == chain[i].subject;
  }

  lemma OutOfTheBag(ca: Cert, out: seq<Cert>, bag: seq<Cert>)
    requires out != [] && Linked(out) && out[|out| - 1].issuer == ca.subject && multiset(bag) == multiset(out)
    requires DistinctSubjects(out) && out[0].subject != ca.subject
    ensures Ordered(bag) == Some(out)
  {
    forall c | c in bag ensures c.issuer != out[0].subject {
      SameMembers(out, bag, c);
      var i :| 0 <= i < |out| && out[i] == c;
      assert i + 1 < |out| ==> c.issuer == out[i + 1].subject;
    }
    OrderedIsComplete(out, bag);
  }

  lemma StuckInTheBag(ca: Cert, out: seq<Cert>, bag: seq<Cert>)
    requires out != [] && Linked(out) && out[|out| - 1].issuer == ca.subject && multiset(bag) == multiset(out)
    requires Ordered(bag).Some?
    ensures DistinctSubjects(out) && out[0].subject != ca.subject
  {
    OrderedIsSound(bag);
    OrderedNeeds(Ordered(bag).value, bag, out);
    SameMembers(out, bag, out[|out| - 1]);
  }

  /** Mint, store in any order, load: the clone comes back exactly when the real chain is
      reloadable; otherwise nothing does. */
  lemma RoundTrip(ca: Cert, keys: Deriver, orig: seq<Cert>, out: seq<Cert>, bag: seq<Cert>)
    requires Cloned(ca, keys, orig, out) && multiset(bag) == multiset(out)
    ensures Ordered(bag) == if Reloadable(ca, orig) then Some(out) else None
  {
    ClonedLinks(ca, keys, orig, out);
    SameNames(ca, keys, orig, out);
    if Reloadable(ca, orig) {
      OutOfTheBag(ca, out, bag);
    } else if Ordered(bag).Some? {
      StuckInTheBag(ca, out, bag);
    }
  }

  // ---- The cache ----

  type Id = string

  class CertCache {
    const ca: Cert
    const keys: Deriver
    var hot: map<Id, seq<Cert>>
    /** The trust stores in storage; they keep no order. */
    var stored: map<Id, multiset<Cert>>

    constructor (ca: Cert, keys: Deriver, stored: map<Id, multiset<Cert>>)
      ensures this.ca == ca && this.keys == keys && hot == map[] && this.stored == stored
    {
      this.ca, this.keys, hot, this.stored := ca, keys, map[], stored;
    }

    /** put. */
    method Put(id: Id, chain: seq<Cert>)
      modifies this
      ensures hot == old(hot)[id := chain] && stored == old(stored)[id := multiset(chain)]
    {
      stored := stored[id := multiset(chain)];
      hot := hot[id := chain];
    }

    /** get: whatever it serves is trusted under the current CA and keys. A stored chain is
        served, missed or an error according to what its bag can be ordered to; bag is the
        order in which the trust store happened to give its certificates. */
    method Get(id: Id, bag: seq<Cert>) returns (r: Result<Option<seq<Cert>>>)
      requires id in stored ==> multiset(bag) == stored[id]
      modifies `hot
      ensures r.Ok? && r.value.Some? ==> Trusted(ca, keys, r.value.value)
      ensures id in old(hot) ==>
                r == Ok(if Trusted(ca, keys, old(hot[id])) then Some(old(hot[id])) else None) && hot == old(hot)
      ensures id !in old(hot) && id !in stored ==> r == Ok(None) && hot == old(hot)
      ensures id !in old(hot) && id in stored ==>
                match Ordered(bag)
                case None => r.Err? && hot == old(hot)
                case Some(chain) =>
                  if Trusted(ca, keys, chain) then r == Ok(Some(chain)) && hot == old(hot)[id := chain]
                  else r == Ok(None) && hot == old(hot)
    {
      if id in hot {
        var fine := Verify(ca, keys, hot[id]);
        return Ok(if fine then Some(hot[id]) else None);
      }
      if id !in stored {
        return Ok(None);
      }
      var ordered := OrderChainLeafFirst(bag);
      if Ordered(bag).Some? { OrderedIff(Ordered(bag).value, bag); }
      if ordered.Err? {
        return Err(ordered.reason);
      }
      OrderedIff(ordered.value, bag);
      var fine := Verify(ca, keys, ordered.value);
      if !fine {
        return Ok(None);
      }
      hot := hot[id := ordered.value];
      return Ok(Some(ordered.value));
    }
  }

  /** A chain minted and stored by one process and asked for by the next. */
  method MintAndReload(ca: Cert, keys: Deriver, orig: seq<Cert>, id: Id, bag: seq<Cert>)
    returns (minted: Result<seq<Cert>>, loaded: Result<Option<seq<Cert>>>)
    requires CanSign(ca)
    ensures minted.Ok? ==> Cloned(ca, keys, orig, minted.value)
    ensures minted.Err? <==>
              orig == [] || exists i | 0 <= i < |Effective(ca, orig)| :: KeyFor(keys, Effective(ca, orig), i).None?
    ensures minted.Ok? && multiset(bag) == multiset(minted.value) ==>
              var out := minted.value;
              && (loaded.Ok? <==> Reloadable(ca, orig))
              && (loaded.Ok? ==> loaded.value == if forall i | 0 < i < |out| :: orig[i].isCA then Some(out) else None)
  {
    minted := CloneChain(ca, keys, orig);
    loaded := Err("not minted");
    if minted.Ok? && multiset(bag) == multiset(minted.value) {
      var first := new CertCache(ca, keys, map[]);
      first.Put(id, minted.value);
      var second := new CertCache(ca, keys, first.stored);
      RoundTrip(ca, keys, orig, minted.value, bag);
      CloneTrusted(ca, keys, orig, minted.value);
      loaded := second.Get(id, bag);
    }
  }

  /** A chain minted before the CA's key was changed is never served after: the next process
      misses it, or cannot put it in order. */
  method MintAndRotate(ca: Cert, keys: Deriver, ca': Cert, keys': Deriver, orig: seq<Cert>, id: Id, bag: seq<Cert>)
    returns (minted: Result<seq<Cert>>, loaded: Result<Option<seq<Cert>>>)
    requires ca'.key != ca.key
    ensures minted.Ok? ==> Cloned(ca, keys, orig, minted.value)
    ensures minted.Ok? && multiset(bag) == multiset(minted.value) ==>
              if Reloadable(ca, orig) then loaded == Ok(None) else loaded.Err?
  {
    minted := CloneChain(ca, keys, orig);
    loaded := Err("not minted");
    if minted.Ok? && multiset(bag) == multiset(minted.value) {
      var first := new CertCache(ca, keys, map[]);
      first.Put(id, minted.value);
      var second := new CertCache(ca', keys', first.stored);
      RoundTrip(ca, keys, orig, minted.value, bag);
      OtherKeyDistrusts(ca, keys, orig, minted.value, ca', keys');
      loaded := second.Get(id, bag);
    }
  }

  /** A certificate named as the CA can be cloned, but its clone is its own issuer by name:
      it is stored and never found again. */
  method NamedAsTheCA(ca: Cert, keys: Deriver, leaf: Cert, id: Id)
    returns (minted: Result<seq<Cert>>, loaded: Result<Option<seq<Cert>>>)
    requires CanSign(ca) && leaf.subject == ca.subject && keys.leaf(leaf.sans).Some?
    ensures minted.Ok? && Cloned(ca, keys, [leaf], minted.value) && loaded.Err?
  {
    var chain := Effective(ca, [leaf]);
    assert chain == [leaf];
    var clone := CloneOf(keys, leaf, keys.leaf(leaf.sans).value, ca, Expiry(ca, chain, 0));
    minted, loaded := MintAndReload(ca, keys, [leaf], id, [clone]);
    assert IsClone(ca, keys, chain, 0, minted.value, 0);
    assert minted.value == [clone];
  }

  // ---- The CA's own chain ----

  predicate SelfSigned(c: Cert) {
    SignedBy(c, c)
  }

  predicate IssuedBy(c: Cert, parent: Cert) {
    parent.subject == c.issuer && SignedBy(c, parent)
  }

  /** findVerifiedParent: the first that fits. */
  method FindVerifiedParent(c: Cert, pool: seq<Cert>) returns (r: Option<Cert>)
    ensures r.Some? ==> r.value in pool && IssuedBy(c, r.value)
    ensures r.None? ==> forall p | p in pool :: !IssuedBy(c, p)
  {
    for n := 0 to |pool|
      invariant forall k | 0 <= k < n :: !IssuedBy(c, pool[k])
    {
      if IssuedBy(c, pool[n]) {
        return Some(pool[n]);
      }
    }
    return None;
  }

  function Below(c: Cert, path: seq<Cert>, i: nat): Cert
    requires i < |path|
  {
    if i == 0 then c else path[i - 1]
  }

  /** path leads from c through the pool, each step to a verified issuer that is not
      self-signed, never meeting a certificate twice. */
  ghost predicate Path(c: Cert, path: seq<Cert>, pool: seq<Cert>) {
    && (forall i | 0 <= i < |path| :: path[i] in pool && !SelfSigned(path[i]))
    && (forall i {:trigger Below(c, path, i)} | 0 <= i < |path| :: IssuedBy(Below(c, path, i), path[i]))
    && (forall i, j | 0 <= i < j < |path| :: path[i] != path[j])
    && c !in path
  }

  function End(c: Cert, path: seq<Cert>): Cert {
    if path == [] then c else path[|path| - 1]
  }

  /** The path stops just below a self-signed certificate of the pool. */
  ghost predicate Complete(c: Cert, path: seq<Cert>, pool: seq<Cert>) {
    Path(c, path, pool) && exists root | root in pool :: SelfSigned(root) && IssuedBy(End(c, path), root)
  }

  /** The path cannot be followed: no verified issuer, or one that was met before. */
  ghost predicate Stuck(c: Cert, path: seq<Cert>, pool: seq<Cert>) {
    && Path(c, path, pool)
    && ((forall p | p in pool :: !IssuedBy(End(c, path), p))
        || exists p | p in pool :: IssuedBy(End(c, path), p) && (p == c || p in path))
  }

  lemma PathStep(c: Cert, path: seq<Cert>, pool: seq<Cert>, parent: Cert)
    requires Path(c, path, pool) && parent in pool && IssuedBy(End(c, path), parent)
    requires !SelfSigned(parent) && parent != c && parent !in path
    ensures Path(c, path + [parent], pool)
  {
    var path' := path + [parent];
    forall i | 0 <= i < |path'| ensures IssuedBy(Below(c, path', i), path'[i]) {
      if i < |path| { assert IssuedBy(Below(c, path, i), path[i]); }
    }
  }

  /** resolveChain: always ends; what it returns is a verified path to just below a root
      in the pool, and it fails only where a path gets stuck. */
  method ResolveChain(c: Cert, pool: seq<Cert>) returns (r: Result<seq<Cert>>, ghost stuck: seq<Cert>)
    ensures r.Ok? ==> (if SelfSigned(c) then r.value == [] else Complete(c, r.value, pool))
    ensures r.Err? ==> !SelfSigned(c) && Stuck(c, stuck, pool)
  {
    stuck := [];
    if SelfSigned(c) {
      return Ok([]), stuck;
    }
    var chain: seq<Cert> := [];
    var current := c;
    var seen := {c};
    while true
      invariant Path(c, chain, pool) && current == End(c, chain)
      invariant seen == Elements(chain) + {c}
      decreases |Elements(pool) - seen|
    {
      var parent := FindVerifiedParent(current, pool);
      if parent.None? {
        return Err("no verifiable chain"), chain;
      }
      if parent.value in seen {
        return Err("cycle"), chain;
      }
      assert parent.value in Elements(pool) - seen;
      Smaller(Elements(pool) - (seen + {parent.value}), Elements(pool) - seen);
      seen := seen + {parent.value};
      if SelfSigned(parent.value) {
        return Ok(chain), stuck;
      }
      PathStep(c, chain, pool, parent.value);
      chain := chain + [parent.value];
      current := parent.value;
    }
  }

  // ---- What a resolved chain is ----

  /** A root is signed with its own key and may sign. */
  lemma SelfSignedIff(c: Cert)
    ensures SelfSigned(c) <==> MaySign(c) && c.signer == c.key
  {
  }

  lemma IssuedByIff(c: Cert, parent: Cert)
    ensures IssuedBy(c, parent) <==> MaySign(parent) && c.issuer == parent.subject && c.signer == parent.key
  {
  }

  /** Each certificate of a resolved chain may sign, is named as issuer below and made the
      signature below; the root in the pool did the same for the last one, and for itself. */
  lemma CompleteMeans(c: Cert, path: seq<Cert>, pool: seq<Cert>) returns (root: Cert)
    requires Complete(c, path, pool)
    ensures root in pool && MaySign(root) && root.signer == root.key
    ensures var chain := [c] + path + [root];
            forall i | 0 < i < |chain| ::
              && MaySign(chain[i]) && chain[i] in pool
              && chain[i - 1].issuer == chain[i].subject && chain[i - 1].signer == chain[i].key
  {
    root :| root in pool && SelfSigned(root) && IssuedBy(End(c, path), root);
    SelfSignedIff(root);
    IssuedByIff(End(c, path), root);
    var chain := [c] + path + [root];
    forall i | 0 < i < |chain|
      ensures && MaySign(chain[i]) && chain[i] in pool
              && chain[i - 1].issuer == chain[i].subject && chain[i - 1].signer == chain[i].key
    {
      if i <= |path| {
        assert IssuedBy(Below(c, path, i - 1), path[i - 1]);
        IssuedByIff(Below(c, path, i - 1), path[i - 1]);
      }
    }
  }

  /** Where it gets stuck, no certificate of the pool may sign, is named as issuer and made
      the signature; or one that was met before does. */
  lemma StuckMeans(c: Cert, path: seq<Cert>, pool: seq<Cert>)
    requires Stuck(c, path, pool)
    ensures var last := if path == [] then c else path[|path| - 1];
            || (forall p | p in pool :: !MaySign(p) || last.issuer != p.subject || last.signer != p.key)
            || (exists p | p in pool :: last.issuer == p.subject && last.signer == p.key && (p == c || p in path))
  {
    var last := End(c, path);
    forall p | p in pool
      ensures IssuedBy(last, p) <==> MaySign(p) && last.issuer == p.subject && last.signer == p.key
    {
      IssuedByIff(last, p);
    }
  }
}
