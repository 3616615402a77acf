/** When an address matches an address/mask key, and how keys are written. */
module KeyMatching {
  import opened GoStrings
  import opened MaskedKeys

  // ---- Keys ----

  datatype MaskedKey = MaskedKey(is4: bool, addr: Bytes, mask: Bytes)

  function Width(is4: bool): nat {
    if is4 then 4 else 16
  }

  function Masked(b: Bytes, mask: Bytes): (r: Bytes)
    requires |b| == |mask|
    ensures |r| == |b|
    ensures forall i | 0 <= i < |b| :: r[i] == And(b[i], mask[i])
  {
    if b == [] then [] else [And(b[0], mask[0])] + Masked(b[1..], mask[1..])
  }

  /** What parseMaskedKey guarantees: family width, and no address bit outside the mask. */
  predicate Normal(k: MaskedKey) {
    |k.addr| == |k.mask| == Width(k.is4) && Masked(k.addr, k.mask) == k.addr
  }

  /** maskedKey.contains. */
  predicate Contains(k: MaskedKey, ab: Bytes)
    requires |ab| == |k.addr| == |k.mask|
  {
    forall i | 0 <= i < |ab| :: And(ab[i], k.mask[i]) == k.addr[i]
  }

  lemma ContainsIsMasked(k: MaskedKey, ab: Bytes)
    requires |ab| == |k.addr| == |k.mask|
    ensures Contains(k, ab) <==> Masked(ab, k.mask) == k.addr
  {
    if Contains(k, ab) { assert Masked(ab, k.mask) == k.addr; }
  }

  /** Two normal keys with the same mask that match one address are the same key. */
  lemma SameMaskSameKey(a: MaskedKey, b: MaskedKey, ab: Bytes)
    requires Normal(a) && Normal(b) && a.is4 == b.is4 && a.mask == b.mask && |ab| == Width(a.is4)
    requires Contains(a, ab) && Contains(b, ab)
    ensures a == b
  {
    ContainsIsMasked(a, ab);
    ContainsIsMasked(b, ab);
  }

  // ---- A key matches bit by bit ----

  predicate Bit(x: nat, i: nat) {
    if i == 0 then x % 2 == 1 else Bit(x / 2, i - 1)
  }

  lemma {:induction false} AndBit(x: nat, y: nat, k: nat, i: nat)
    requires i < k
    ensures Bit(AndBits(x, y, k), i) <==> Bit(x, i) && Bit(y, i)
    decreases k
  {
    if i > 0 {
      AndBit(x / 2, y / 2, k - 1, i - 1);
      assert AndBits(x, y, k) / 2 == AndBits(x / 2, y / 2, k - 1);
    }
  }

  lemma {:induction false} SameBits(x: nat, y: nat, k: nat)
    requires x < Pow2(k) && y < Pow2(k) && forall i | 0 <= i < k :: Bit(x, i) == Bit(y, i)
    ensures x == y
    decreases k
  {
    if k > 0 {
      forall i | 0 <= i < k - 1 ensures Bit(x / 2, i) == Bit(y / 2, i) {
        assert Bit(x, i + 1) == Bit(y, i + 1);
      }
      SameBits(x / 2, y / 2, k - 1);
      assert Bit(x, 0) == Bit(y, 0);
    }
  }

  /** x and y agree wherever mask has a bit. */
  ghost predicate AgreeUnder(x: Byte, y: Byte, mask: Byte) {
    forall j | 0 <= j < 8 && Bit(mask, j) :: Bit(x, j) == Bit(y, j)
  }

  lemma MaskedByteIff(x: Byte, addr: Byte, mask: Byte)
    requires And(addr, mask) == addr
    ensures And(x, mask) == addr <==> AgreeUnder(x, addr, mask)
  {
    forall j | 0 <= j < 8
      ensures Bit(And(x, mask), j) == (Bit(x, j) && Bit(mask, j)) && (Bit(addr, j) ==> Bit(mask, j))
    {
      AndBit(x, mask, 8, j);
      AndBit(addr, mask, 8, j);
    }
    EightBits();
    if AgreeUnder(x, addr, mask) { SameBits(And(x, mask), addr, 8); }
  }

  /** An address matches a key exactly if the two agree on every bit of its mask, wherever
      in the address the mask has bits. */
  lemma ContainsIffBits(k: MaskedKey, ab: Bytes)
    requires Normal(k) && |ab| == |k.addr|
    ensures Contains(k, ab) <==> forall i | 0 <= i < |ab| :: AgreeUnder(ab[i], k.addr[i], k.mask[i])
  {
    forall i | 0 <= i < |ab| ensures And(ab[i], k.mask[i]) == k.addr[i] <==> AgreeUnder(ab[i], k.addr[i], k.mask[i]) {
      assert Masked(k.addr, k.mask)[i] == k.addr[i];
      MaskedByteIff(ab[i], k.addr[i], k.mask[i]);
    }
  }

  // ---- A contiguous mask selects an interval ----

  /** a is x rounded down to a multiple of p. */
  ghost predicate RoundsDown(a: nat, x: nat, p: nat) {
    (exists q: nat :: a == q * p) && a <= x < a + p
  }

  lemma RoundsDownAt(q: nat, a: nat, x: nat, p: nat)
    requires a == q * p && a <= x < a + p
    ensures RoundsDown(a, x, p)
  {
  }

  lemma MultiplesApart(q: nat, r: nat, p: nat)
    requires p > 0 && q * p < r * p + p && r * p < q * p + p
    ensures q == r
  {
    assert q < r ==> (q + 1) * p <= r * p;
    assert r < q ==> (r + 1) * p <= q * p;
  }

  lemma Times(a: nat, b: nat, p: nat)
    requires a <= b
    ensures a * p <= b * p
  {
  }

  lemma TimesBelow(a: nat, b: nat, p: nat)
    requires a * p < b * p
    ensures a < b
  {
    assert b <= a ==> b * p <= a * p;
  }

  lemma Regroup(a: nat, b: nat, c: nat)
    ensures (a * b) * c == a * (b * c) && (a + b) * c == a * c + b * c
  {
  }

  lemma DoubleRounds(a: nat, x: nat, p: nat)
    requires RoundsDown(a, x / 2, p)
    ensures RoundsDown(2 * a, x, 2 * p)
  {
    var q: nat :| a == q * p;
    Regroup(q, p, 2);
    RoundsDownAt(q, 2 * a, x, 2 * p);
  }

  lemma RoundsDownUnique(a: nat, b: nat, x: nat, p: nat)
    requires p > 0 && RoundsDown(a, x, p) && RoundsDown(b, x, p)
    ensures a == b
  {
    var q: nat :| a == q * p;
    var r: nat :| b == r * p;
    MultiplesApart(q, r, p);
  }

  /** Clearing the low h of k bits, with the mask m that leaves the others, rounds down to a
      multiple of p = 2^h. */
  lemma {:induction false} AndLeadBits(x: nat, h: nat, k: nat, m: nat, p: nat)
    requires h <= k && x < Pow2(k) && p == Pow2(h) && m + p == Pow2(k)
    ensures RoundsDown(AndBits(x, m, k), x, p)
    decreases k
  {
    if h == 0 {
      LeadAll(x, k);
    } else {
      Halves(x, h, k, m, p);
      AndLeadBits(x / 2, h - 1, k - 1, m / 2, p / 2);
      LeadStep(x, m / 2, k, p / 2, m, p);
    }
  }

  lemma Halves(x: nat, h: nat, k: nat, m: nat, p: nat)
    requires 0 < h <= k && x < Pow2(k) && p == Pow2(h) && m + p == Pow2(k)
    ensures x / 2 < Pow2(k - 1) && p / 2 == Pow2(h - 1) && m / 2 + p / 2 == Pow2(k - 1)
    ensures m == 2 * (m / 2) && p == 2 * (p / 2)
  {
  }

  lemma LeadAll(x: nat, k: nat)
    requires x < Pow2(k)
    ensures RoundsDown(AndBits(x, Pow2(k) - 1, k), x, 1)
  {
    AndOnes(x, k);
    RoundsDownAt(x, x, x, 1);
  }

  lemma LeadStep(x: nat, m: nat, k: nat, p: nat, mask: nat, unit: nat)
    requires k > 0 && RoundsDown(AndBits(x / 2, m, k - 1), x / 2, p) && mask == 2 * m && unit == 2 * p
    ensures RoundsDown(AndBits(x, mask, k), x, unit)
  {
    AndEven(x, m, k);
    DoubleRounds(AndBits(x / 2, m, k - 1), x, p);
  }

  lemma AndEven(x: nat, m: nat, k: nat)
    requires k > 0
    ensures AndBits(x, 2 * m, k) == 2 * AndBits(x / 2, m, k - 1)
  {
  }

  lemma {:induction false} AndOnes(x: nat, k: nat)
    requires x < Pow2(k)
    ensures AndBits(x, Pow2(k) - 1, k) == x
    decreases k
  {
    if k > 0 {
      AndOnes(x / 2, k - 1);
      AndOdd(x, Pow2(k - 1) - 1, k);
    }
  }

  lemma AndOdd(x: nat, m: nat, k: nat)
    requires k > 0
    ensures AndBits(x, 2 * m + 1, k) == x % 2 + 2 * AndBits(x / 2, m, k - 1)
  {
    assert (2 * m + 1) / 2 == m && (2 * m + 1) % 2 == 1;
  }

  lemma AndLeadByte(b: Byte, n: nat)
    requires n <= 8
    ensures RoundsDown(And(b, LeadByte(n)), b, Pow2(8 - n))
  {
    EightBits();
    AndLeadBits(b, 8 - n, 8, LeadByte(n), Pow2(8 - n));
  }

  lemma {:induction false} MaskedByZero(b: Bytes)
    ensures Value(Masked(b, PrefixMask(0, |b|))) == 0
    decreases |b|
  {
    if b != [] {
      MaskedByZero(b[1..]);
      EightBits();
      assert PrefixMask(0, |b|)[0] == 0 && PrefixMask(0, |b|)[1..] == PrefixMask(0, |b| - 1);
      assert And(b[0], 0) == 0;
    }
  }

  /** Scaling a rounded byte by p, with a remainder below p. */
  lemma RoundHigh(a: nat, x: nat, s: nat, p: nat, v: nat)
    requires RoundsDown(a, x, s) && v < p
    ensures RoundsDown(a * p, x * p + v, s * p)
  {
    var q: nat :| a == q * s;
    Regroup(q, s, p);
    Times(a, x, p);
    Times(x + 1, a + s, p);
    Regroup(a, s, p);
    Regroup(x, 1, p);
    RoundsDownAt(q, a * p, x * p + v, s * p);
  }

  /** Adding a multiple of s * p above a part rounded to s. */
  lemma RoundLow(c: nat, s: nat, p: nat, a: nat, x: nat)
    requires RoundsDown(a, x, s)
    ensures RoundsDown(c * (p * s) + a, c * (p * s) + x, s)
  {
    var q: nat :| a == q * s;
    assert c * (p * s) + a == (c * p + q) * s by { assert (c * p) * s == c * (p * s); }
    RoundsDownAt(c * p + q, c * (p * s) + a, c * (p * s) + x, s);
  }

  /** Read as a number, an address masked by n leading ones is the address rounded down
      to a multiple of the block size. */
  lemma {:induction false} MaskRoundsDown(b: Bytes, n: nat)
    requires n <= 8 * |b|
    ensures RoundsDown(Value(Masked(b, PrefixMask(n, |b|))), Value(b), Pow2(8 * |b| - n))
    decreases |b|
  {
    if b == [] {
      RoundsDownAt(0, 0, 0, 1);
    } else if n >= 8 {
      MaskHigh(b, n);
    } else {
      MaskLow(b, n);
    }
  }

  lemma {:induction false} MaskHigh(b: Bytes, n: nat)
    requires b != [] && 8 <= n <= 8 * |b|
    ensures RoundsDown(Value(Masked(b, PrefixMask(n, |b|))), Value(b), Pow2(8 * |b| - n))
    decreases |b|, 0
  {
    var rest, w := b[1..], |b| - 1;
    MaskRoundsDown(rest, n - 8);
    var mask := PrefixMask(n, |b|);
    assert mask[0] == LeadByte(8) && mask[1..] == PrefixMask(n - 8, w);
    AndAll(b[0]);
    var h := 8 * |b| - n;
    Pow2Sum(8 * w - h, h);
    assert Value(Masked(b, mask)) == b[0] * Pow2(8 * w) + Value(Masked(rest, PrefixMask(n - 8, w)));
    RoundLow(b[0], Pow2(h), Pow2(8 * w - h), Value(Masked(rest, PrefixMask(n - 8, w))), Value(rest));
  }

  lemma AndAll(b: Byte)
    ensures LeadByte(8) == 255 && And(b, 255) == b
  {
    EightBits();
    AndOnes(b, 8);
  }

  lemma {:induction false} MaskLow(b: Bytes, n: nat)
    requires b != [] && n < 8
    ensures RoundsDown(Value(Masked(b, PrefixMask(n, |b|))), Value(b), Pow2(8 * |b| - n))
  {
    var rest, w := b[1..], |b| - 1;
    var mask := PrefixMask(n, |b|);
    assert mask[0] == LeadByte(n) && mask[1..] == PrefixMask(0, w);
    MaskedByZero(rest);
    AndLeadByte(b[0], n);
    ValueBound(rest);
    Pow2Sum(8 - n, 8 * w);
    assert Value(Masked(b, mask)) == And(b[0], LeadByte(n)) * Pow2(8 * w);
    RoundHigh(And(b[0], LeadByte(n)), b[0], Pow2(8 - n), Pow2(8 * w), Value(rest));
  }

  // ---- Values order addresses ----

  /** bytes.Compare(a, b) > 0 for equal lengths. */
  predicate Greater(a: Bytes, b: Bytes)
    requires |a| == |b|
  {
    a != [] && (a[0] > b[0] || (a[0] == b[0] && Greater(a[1..], b[1..])))
  }

  /** A mask compared byte by byte is a big-endian integer compared as such. */
  lemma {:induction false} GreaterIsValue(a: Bytes, b: Bytes)
    requires |a| == |b|
    ensures Greater(a, b) <==> Value(a) > Value(b)
    ensures Value(a) == Value(b) ==> a == b
    decreases |a|
  {
    if a != [] {
      GreaterIsValue(a[1..], b[1..]);
      ValueBound(a[1..]);
      ValueBound(b[1..]);
      var p := Pow2(8 * (|a| - 1));
      if a[0] > b[0] { BelowNext(b[0], a[0], p, Value(b[1..])); }
      if a[0] < b[0] { BelowNext(a[0], b[0], p, Value(a[1..])); }
      assert a == [a[0]] + a[1..] && b == [b[0]] + b[1..];
    }
  }

  /** The addresses a prefix covers: start included, end excluded. */
  datatype Span = Span(start: nat, end: nat)

  /** prefixRange, for a key whose mask is a prefix of n bits. */
  function PrefixRange(k: MaskedKey, n: nat): Span
    requires n <= 8 * |k.addr|
  {
    Span(Value(k.addr), Value(k.addr) + Pow2(8 * |k.addr| - n))
  }

  /** Byte-wise masking under n leading ones holds exactly on the prefix's interval. */
  lemma ContainsIffInRange(k: MaskedKey, n: nat, ab: Bytes)
    requires Normal(k) && |ab| == |k.addr|
    requires PrefixLength(k.mask) == Some(n)
    ensures Contains(k, ab) <==> PrefixRange(k, n).start <= Value(ab) < PrefixRange(k, n).end
  {
    ContainsIffSameValue(k, ab);
    MaskedRounds(k, n, ab);
    MaskedRounds(k, n, k.addr);
    RoundedIffBetween(Value(k.addr), Value(Masked(ab, k.mask)), Value(ab), Pow2(8 * |k.addr| - n));
  }

  lemma ContainsIffSameValue(k: MaskedKey, ab: Bytes)
    requires Normal(k) && |ab| == |k.addr|
    ensures Contains(k, ab) <==> Value(Masked(ab, k.mask)) == Value(k.addr)
  {
    ContainsIsMasked(k, ab);
    if Value(Masked(ab, k.mask)) == Value(k.addr) { GreaterIsValue(Masked(ab, k.mask), k.addr); }
  }

  lemma MaskedRounds(k: MaskedKey, n: nat, ab: Bytes)
    requires Normal(k) && PrefixLength(k.mask) == Some(n) && |ab| == |k.addr|
    ensures n <= 8 * |k.addr| && RoundsDown(Value(Masked(ab, k.mask)), Value(ab), Pow2(8 * |k.addr| - n))
  {
    PrefixLengthIff(k.mask, n);
    MaskRoundsDown(ab, n);
  }

  /** Among multiples of p, the one x rounds down to is the one just below it. */
  lemma RoundedIffBetween(start: nat, rounded: nat, x: nat, p: nat)
    requires p > 0 && RoundsDown(start, start, p) && RoundsDown(rounded, x, p)
    ensures rounded == start <==> start <= x < start + p
  {
    if start <= x < start + p {
      var q: nat :| start == q * p;
      RoundsDownAt(q, start, x, p);
      RoundsDownUnique(start, rounded, x, p);
    }
  }

  lemma RangeInSpace(k: MaskedKey, n: nat)
    requires Normal(k) && PrefixLength(k.mask) == Some(n)
    ensures PrefixRange(k, n).end <= Pow2(8 * |k.addr|)
  {
    PrefixLengthIff(k.mask, n);
    MaskRoundsDown(k.addr, n);
    ValueBound(k.addr);
    var w := 8 * |k.addr|;
    BlockInSpace(Value(k.addr), w, n);
    assert PrefixRange(k, n).end == Value(k.addr) + Pow2(w - n);
  }

  lemma BlockInSpace(v: nat, w: nat, n: nat)
    requires n <= w && RoundsDown(v, v, Pow2(w - n)) && v < Pow2(w)
    ensures v + Pow2(w - n) <= Pow2(w)
  {
    Pow2Sum(n, w - n);
    BlockFits(v, Pow2(w - n), n);
  }

  lemma BlockFits(v: nat, p: nat, n: nat)
    requires RoundsDown(v, v, p) && v < Pow2(n) * p
    ensures v + p <= Pow2(n) * p
  {
    var q: nat :| v == q * p;
    TimesBelow(q, Pow2(n), p);
    Times(q + 1, Pow2(n), p);
    Regroup(q, 1, p);
  }
}
