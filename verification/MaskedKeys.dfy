/** The address/mask keys of rules/default: defaultruleset.go's maskedKey algebra. */
module MaskedKeys {
  import opened GoStrings

  // ---- Powers of two ----

  function Pow2(n: nat): (r: nat)
    ensures r > 0
  {
    if n == 0 then 1 else 2 * Pow2(n - 1)
  }

  lemma {:induction false} Pow2Sum(a: nat, b: nat)
    ensures Pow2(a + b) == Pow2(a) * Pow2(b)
    decreases a
  {
    if a > 0 { Pow2Sum(a - 1, b); }
  }

  lemma {:induction false} Pow2Grows(a: nat, b: nat)
    requires a <= b
    ensures Pow2(a) <= Pow2(b)
    decreases b
  {
    if a < b { Pow2Grows(a, b - 1); }
  }

  // ---- Bytes ----

  type Byte = b: nat | b < 256

  type Bytes = seq<Byte>

  /** The low k bits of x & y. */
  function AndBits(x: nat, y: nat, k: nat): (r: nat)
    ensures r < Pow2(k) && r <= y
  {
    if k == 0 then 0
    else (if x % 2 == 1 && y % 2 == 1 then 1 else 0) + 2 * AndBits(x / 2, y / 2, k - 1)
  }

  /** The low k bits of x | y. */
  function OrBits(x: nat, y: nat, k: nat): (r: nat)
    ensures r < Pow2(k)
  {
    if k == 0 then 0
    else (if x % 2 == 1 || y % 2 == 1 then 1 else 0) + 2 * OrBits(x / 2, y / 2, k - 1)
  }

  lemma EightBits()
    ensures Pow2(8) == 256
  {
  }

  function And(x: Byte, y: Byte): Byte {
    EightBits();
    AndBits(x, y, 8)
  }

  function Or(x: Byte, y: Byte): Byte {
    EightBits();
    OrBits(x, y, 8)
  }

  /** The byte whose k leading bits are set. */
  function LeadByte(k: nat): Byte
    requires k <= 8
  {
    EightBits();
    Pow2Grows(8 - k, 8);
    256 - Pow2(8 - k)
  }

  /** Read most significant byte first. */
  function Value(b: Bytes): nat {
    if b == [] then 0 else b[0] * Pow2(8 * (|b| - 1)) + Value(b[1..])
  }

  lemma {:induction false} ValueBound(b: Bytes)
    ensures Value(b) < Pow2(8 * |b|)
    decreases |b|
  {
    if b != [] {
      ValueBound(b[1..]);
      Pow2Byte(8 * (|b| - 1));
      BelowNext(b[0], 256, Pow2(8 * (|b| - 1)), Value(b[1..]));
    }
  }

  lemma Pow2Byte(k: nat)
    ensures Pow2(8 + k) == 256 * Pow2(k)
  {
    Pow2Sum(8, k);
    EightBits();
  }

  lemma BelowNext(a: nat, c: nat, p: nat, v: nat)
    requires a < c && v < p
    ensures a * p + v < c * p
  {
    assert (a + 1) * p <= c * p;
  }

  // ---- Masks ----

  function PrefixMask(n: nat, width: nat): (m: Bytes)
    requires n <= 8 * width
    ensures |m| == width
    decreases width
  {
    if width == 0 then []
    else if n >= 8 then [LeadByte(8)] + PrefixMask(n - 8, width - 1)
    else [LeadByte(n)] + PrefixMask(0, width - 1)
  }

  /** The prefix length of a mask whose set bits lead, if it is one. */
  function PrefixLength(mask: Bytes): (n: Option<nat>)
    ensures n.Some? ==> n.value <= 8 * |mask|
  {
    if mask == [] then Some(0)
    else if mask[0] == 255 then
      match PrefixLength(mask[1..])
      case None => None
      case Some(n) => Some(8 + n)
    else if AllZero(mask[1..]) then LeadLength(mask[0])
    else None
  }

  predicate AllZero(mask: Bytes) {
    forall i | 0 <= i < |mask| :: mask[i] == 0
  }

  /** The number of leading ones of a byte that has no other bit set. */
  function LeadLength(b: Byte): (k: Option<nat>)
    requires b != 255
    ensures k.Some? ==> k.value < 8 && b == LeadByte(k.value)
    ensures forall j | 0 <= j < 8 && b == LeadByte(j) :: k == Some(j)
  {
    if b == 0 then Some(0)
    else if b == 128 then Some(1)
    else if b == 192 then Some(2)
    else if b == 224 then Some(3)
    else if b == 240 then Some(4)
    else if b == 248 then Some(5)
    else if b == 252 then Some(6)
    else if b == 254 then Some(7)
    else None
  }

  lemma {:induction false} ZeroMask(width: nat)
    ensures AllZero(PrefixMask(0, width))
    decreases width
  {
    if width > 0 { ZeroMask(width - 1); EightBits(); }
  }

  lemma {:induction false} ZeroMaskUnique(mask: Bytes)
    requires AllZero(mask)
    ensures mask == PrefixMask(0, |mask|)
  {
    ZeroMask(|mask|);
  }

  /** prefixMask and contiguousPrefixLen are inverse to each other: a mask has prefix
      length n exactly when it is the mask of n leading ones. */
  lemma {:induction false} PrefixLengthIff(mask: Bytes, n: nat)
    ensures PrefixLength(mask) == Some(n) <==> n <= 8 * |mask| && mask == PrefixMask(n, |mask|)
    decreases |mask|
  {
    if mask != [] {
      var rest := mask[1..];
      assert mask == [mask[0]] + rest;
      EightBits();
      if mask[0] == 255 {
        if n >= 8 { PrefixLengthIff(rest, n - 8); }
        if n < 8 && n <= 8 * |mask| { assert PrefixMask(n, |mask|)[0] == LeadByte(n); LeadNotFull(n); }
        if n >= 8 && n <= 8 * |mask| { assert PrefixMask(n, |mask|)[1..] == PrefixMask(n - 8, |rest|); }
      } else {
        if AllZero(rest) { ZeroMaskUnique(rest); }
        if n < 8 {
          ZeroMask(|rest|);
          assert PrefixMask(n, |mask|)[1..] == PrefixMask(0, |rest|);
        } else if n <= 8 * |mask| {
          assert PrefixMask(n, |mask|)[0] == 255;
        }
      }
    }
  }

  lemma LeadNotFull(n: nat)
    requires n < 8
    ensures LeadByte(n) < 255
  {
    Pow2Grows(1, 8 - n);
  }

  // ---- The loops that build and read masks ----

  lemma {:induction false} OrZero(x: nat, k: nat)
    requires x < Pow2(k)
    ensures OrBits(x, 0, k) == x
    decreases k
  {
    if k > 0 { OrZero(x / 2, k - 1); }
  }

  lemma {:induction false} OrUnsetBit(q: nat, j: nat, k: nat)
    requires j < k && q * Pow2(j + 1) < Pow2(k)
    ensures OrBits(q * Pow2(j + 1), Pow2(j), k) == q * Pow2(j + 1) + Pow2(j)
    decreases j
  {
    var x := q * Pow2(j + 1);
    assert x == 2 * (q * Pow2(j));
    if j == 0 {
      OrZero(x / 2, k - 1);
    } else {
      OrUnsetBit(q, j - 1, k - 1);
    }
  }

  /** Setting the next bit of a byte of leading ones adds one to them. */
  lemma SetNextBit(r: nat)
    requires r < 8
    ensures Pow2(7 - r) < 256 && Or(LeadByte(r), Pow2(7 - r)) == LeadByte(r + 1)
  {
    EightBits();
    Pow2Grows(7 - r, 7);
    Pow2Sum(r, 8 - r);
    assert LeadByte(r) == (Pow2(r) - 1) * Pow2(8 - r);
    OrUnsetBit(Pow2(r) - 1, 7 - r, 8);
  }

  /** One more leading one changes one byte. */
  lemma {:induction false} MaskNext(n: nat, q: nat, r: nat, width: nat)
    requires n == 8 * q + r && r < 8 && q < width
    ensures PrefixMask(n, width)[q] == LeadByte(r)
    ensures PrefixMask(n + 1, width) == PrefixMask(n, width)[q := LeadByte(r + 1)]
    decreases width
  {
    if q == 0 {
      MaskFirst(r, width);
    } else {
      MaskNext(n - 8, q - 1, r, width - 1);
      MaskRest(n, width);
      MaskRest(n + 1, width);
      SetTail(LeadByte(8), PrefixMask(n - 8, width - 1), PrefixMask(n - 7, width - 1), q, LeadByte(r + 1));
    }
  }

  lemma SetTail(first: Byte, rest: Bytes, rest': Bytes, q: nat, b: Byte)
    requires 0 < q <= |rest| && rest' == rest[q - 1 := b]
    ensures ([first] + rest)[q] == rest[q - 1] && [first] + rest' == ([first] + rest)[q := b]
  {
  }

  lemma MaskRest(n: nat, width: nat)
    requires 8 <= n <= 8 * width
    ensures PrefixMask(n, width) == [LeadByte(8)] + PrefixMask(n - 8, width - 1)
  {
  }

  lemma MaskFirst(r: nat, width: nat)
    requires r < 8 && width > 0
    ensures var m := PrefixMask(r, width);
            m[0] == LeadByte(r) && PrefixMask(r + 1, width) == m[0 := LeadByte(r + 1)]
  {
    assert PrefixMask(r, width) == [LeadByte(r)] + PrefixMask(0, width - 1);
    if r == 7 { MaskRest(8, width); }
    assert PrefixMask(r + 1, width) == [LeadByte(r + 1)] + PrefixMask(0, width - 1);
  }

  /** prefixMask: one bit at a time. */
  method BuildPrefixMask(n: nat, width: nat) returns (m: array<Byte>)
    requires n <= 8 * width
    ensures fresh(m) && m[..] == PrefixMask(n, width)
  {
    m := new Byte[width](_ => 0);
    ZeroMask(width);
    assert m[..] == PrefixMask(0, width);
    for i := 0 to n
      invariant m.Length == width
      invariant m[..] == PrefixMask(i, width)
    {
      var q, r := i / 8, i % 8;
      NextBit(i, q, r, width);
      m[q] := Or(m[q], Pow2(7 - r));
    }
  }

  lemma NextBit(i: nat, q: nat, r: nat, width: nat)
    requires i < 8 * width && q == i / 8 && r == i % 8
    ensures q < width && Pow2(7 - r) < 256
    ensures PrefixMask(i + 1, width) == PrefixMask(i, width)[q := Or(PrefixMask(i, width)[q], Pow2(7 - r))]
  {
    assert i == 8 * q + r;
    SetNextBit(r);
    MaskNext(i, q, r, width);
  }

  /** Testing one more bit of a byte whose first k bits are set. */
  lemma TestNextBit(b: Byte, k: nat)
    requires k < 8 && LeadByte(k) <= b
    ensures b / Pow2(7 - k) % 2 == 0 <==> b < LeadByte(k + 1)
  {
    if k == 0 {} else if k == 1 {} else if k == 2 {} else if k == 3 {}
    else if k == 4 {} else if k == 5 {} else if k == 6 {} else {}
  }

  lemma {:induction false} LeadMonotonic(j: nat, k: nat)
    requires j <= k <= 8
    ensures LeadByte(j) <= LeadByte(k)
  {
    Pow2Grows(8 - k, 8 - j);
  }

  /** The bit loop of contiguousPrefixLen: how many bits lead. */
  method CountLeading(b: Byte) returns (lead: nat)
    requires b != 255
    ensures lead < 8 && LeadByte(lead) <= b < LeadByte(lead + 1)
  {
    lead := 0;
    EightBits();
    while lead < 8
      invariant lead <= 8 && LeadByte(lead) <= b
    {
      TestNextBit(b, lead);
      if b / Pow2(7 - lead) % 2 == 0 {
        return;
      }
      lead := lead + 1;
    }
  }

  /** contiguousPrefixLen. */
  method ContiguousPrefixLen(mask: Bytes) returns (n: Option<nat>)
    ensures n == PrefixLength(mask)
  {
    var i := 0;
    assert mask[0..] == mask;
    while i < |mask| && mask[i] == 255
      invariant 0 <= i <= |mask|
      invariant PrefixLength(mask) == Plus(8 * i, PrefixLength(mask[i..]))
    {
      assert mask[i..][1..] == mask[i + 1..];
      i := i + 1;
    }
    if i == |mask| {
      return Some(8 * i);
    }
    var lead := CountLeading(mask[i]);
    var want := 255 * Pow2(8 - lead) % 256;
    ShiftedOnes(lead);
    assert mask[i..][1..] == mask[i + 1..];
    LeadOfCount(mask[i], lead);
    if mask[i] != want {
      return None;
    }
    for j := i + 1 to |mask|
      invariant forall k | i < k < j :: mask[k] == 0
    {
      if mask[j] != 0 {
        assert mask[i + 1..][j - i - 1] != 0;
        return None;
      }
    }
    assert AllZero(mask[i + 1..]);
    return Some(8 * i + lead);
  }

  ghost function Plus(k: nat, n: Option<nat>): Option<nat> {
    match n case None => None case Some(v) => Some(k + v)
  }

  lemma ShiftedOnes(lead: nat)
    requires lead < 8
    ensures 255 * Pow2(8 - lead) % 256 == LeadByte(lead)
  {
    if lead == 0 {} else if lead == 1 {} else if lead == 2 {} else if lead == 3 {}
    else if lead == 4 {} else if lead == 5 {} else if lead == 6 {} else {}
  }

  lemma LeadOfCount(b: Byte, lead: nat)
    requires b != 255 && lead < 8 && LeadByte(lead) <= b < LeadByte(lead + 1)
    ensures LeadLength(b) == if b == LeadByte(lead) then Some(lead) else None
  {
    match LeadLength(b) {
      case None =>
      case Some(k) =>
        if k < lead { LeadMonotonic(k + 1, lead); LeadStrict(k); }
        if lead < k { LeadMonotonic(lead + 1, k); }
    }
  }

  lemma LeadStrict(k: nat)
    requires k < 8
    ensures LeadByte(k) < LeadByte(k + 1)
  {
  }
}
