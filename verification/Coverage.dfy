/** checkCoverage: do the prefixes of one family leave no address out? */
module Coverage {
  import opened MaskedKeys
  import opened KeyMatching

  /** Gap names the first and the last address of a hole. */
  datatype Verdict = Covered | NoEntries | Gap(first: nat, last: nat)

  ghost predicate InSpan(s: Span, x: nat) {
    s.start <= x < s.end
  }

  ghost predicate Covers(spans: seq<Span>, x: nat) {
    exists i | 0 <= i < |spans| :: InSpan(spans[i], x)
  }

  /** No address of the space is left out. */
  ghost predicate Total(spans: seq<Span>, space: nat) {
    forall x: nat | x < space :: Covers(spans, x)
  }

  ghost predicate ByStart(spans: seq<Span>) {
    forall i, j | 0 <= i < j < |spans| :: spans[i].start <= spans[j].start
  }

  method InsertSpan(r: seq<Span>, s: Span) returns (r': seq<Span>)
    requires ByStart(r)
    ensures ByStart(r') && multiset(r') == multiset(r) + multiset{s}
  {
    var k := 0;
    while k < |r| && r[k].start < s.start
      invariant 0 <= k <= |r|
      invariant forall i | 0 <= i < k :: r[i].start < s.start
    {
      k := k + 1;
    }
    assert r == r[..k] + r[k..];
    r' := r[..k] + [s] + r[k..];
  }

  /** sort.Slice by start; how it orders equal starts does not matter below. */
  method SortSpans(spans: seq<Span>) returns (r: seq<Span>)
    ensures ByStart(r)
    ensures multiset(r) == multiset(spans)
  {
    r := [];
    for n := 0 to |spans|
      invariant ByStart(r)
      invariant multiset(r) == multiset(spans[..n])
    {
      assert spans[..n + 1] == spans[..n] + [spans[n]];
      r := InsertSpan(r, spans[n]);
    }
    assert spans[..|spans|] == spans;
  }

  lemma SamePoints(a: seq<Span>, b: seq<Span>, x: nat)
    requires multiset(a) == multiset(b) && Covers(a, x)
    ensures Covers(b, x)
  {
    var i :| 0 <= i < |a| && InSpan(a[i], x);
    assert a[i] in multiset(b);
  }

  /** The first hole: everything before it is covered, nothing in it is, and what comes
      right after it is covered again or lies outside the space. */
  ghost predicate FirstGap(spans: seq<Span>, space: nat, first: nat, last: nat) {
    && first <= last < space
    && (forall x: nat | x < first :: Covers(spans, x))
    && (forall x: nat | first <= x <= last :: !Covers(spans, x))
    && (last + 1 == space || Covers(spans, last + 1))
  }

  lemma GapTransfers(a: seq<Span>, b: seq<Span>, space: nat, first: nat, last: nat)
    requires multiset(a) == multiset(b) && FirstGap(a, space, first, last)
    ensures FirstGap(b, space, first, last)
  {
    forall x: nat ensures Covers(a, x) <==> Covers(b, x) {
      if Covers(a, x) { SamePoints(a, b, x); }
      if Covers(b, x) { SamePoints(b, a, x); }
    }
  }

  lemma GapAt(spans: seq<Span>, space: nat, n: nat, covered: nat)
    requires ByStart(spans) && n <= |spans| && covered < space
    requires forall i | 0 <= i < |spans| :: spans[i].start < spans[i].end <= space
    requires forall x: nat | x < covered :: Covers(spans, x)
    requires forall i | 0 <= i < n :: spans[i].end <= covered
    requires n < |spans| ==> covered < spans[n].start
    ensures FirstGap(spans, space, covered, if n < |spans| then spans[n].start - 1 else space - 1)
  {
    if n < |spans| { assert InSpan(spans[n], spans[n].start); }
  }

  /** checkCoverage: accepts exactly when every address of the space is covered, and
      otherwise names the first hole. */
  method CheckCoverage(spans: seq<Span>, bits: nat) returns (v: Verdict)
    requires forall i | 0 <= i < |spans| :: spans[i].start < spans[i].end <= Pow2(bits)
    ensures v.NoEntries? <==> spans == []
    ensures v.Covered? <==> Total(spans, Pow2(bits))
    ensures v.Gap? ==> FirstGap(spans, Pow2(bits), v.first, v.last)
  {
    if |spans| == 0 {
      assert !Covers(spans, 0);
      return NoEntries;
    }
    var sorted := SortSpans(spans);
    assert forall i | 0 <= i < |sorted| :: sorted[i] in multiset(spans);
    v := Sweep(sorted, bits);
    if v.Gap? {
      GapTransfers(sorted, spans, Pow2(bits), v.first, v.last);
      assert !Covers(spans, v.first);
    } else {
      forall x: nat | x < Pow2(bits) ensures Covers(spans, x) {
        SamePoints(sorted, spans, x);
      }
    }
  }

  /** The loop over the sorted spans; covered is one past the last covered address. */
  method Sweep(sorted: seq<Span>, bits: nat) returns (v: Verdict)
    requires ByStart(sorted)
    requires forall i | 0 <= i < |sorted| :: sorted[i].start < sorted[i].end <= Pow2(bits)
    ensures !v.NoEntries?
    ensures v.Covered? ==> Total(sorted, Pow2(bits))
    ensures v.Gap? ==> FirstGap(sorted, Pow2(bits), v.first, v.last)
  {
    var covered: nat := 0;
    for n := 0 to |sorted|
      invariant covered <= Pow2(bits)
      invariant forall x: nat | x < covered :: Covers(sorted, x)
      invariant forall i | 0 <= i < n :: sorted[i].end <= covered
    {
      var s := sorted[n];
      if s.start > covered {
        GapAt(sorted, Pow2(bits), n, covered);
        return Gap(covered, s.start - 1);
      }
      if s.end > covered {
        forall x: nat | covered <= x < s.end ensures Covers(sorted, x) {
          assert InSpan(sorted[n], x);
        }
        covered := s.end;
      }
    }
    if covered < Pow2(bits) {
      GapAt(sorted, Pow2(bits), |sorted|, covered);
      return Gap(covered, Pow2(bits) - 1);
    }
    return Covered;
  }
}
