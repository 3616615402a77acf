/** The written form of address/mask keys: parseMaskedKey and canonical. */
module KeyText {
  import opened GoStrings
  import opened MaskedKeys
  import opened KeyMatching

  // ---- Decimal numbers ----

  predicate IsDigit(c: char) {
    '0' <= c <= '9'
  }

  /** isDecimal. */
  predicate IsDecimal(s: string) {
    s != "" && forall i | 0 <= i < |s| :: IsDigit(s[i])
  }

  /** strconv.Itoa for a natural number. */
  function Itoa(n: nat): (s: string)
    ensures IsDecimal(s)
  {
    var digit := [('0' as int + n % 10) as char];
    if n < 10 then digit else Itoa(n / 10) + digit
  }

  /** strconv.Atoi for a string of digits; a value out of range for an int is out of
      range for a prefix length too. */
  function Atoi(s: string): nat
    requires IsDecimal(s)
  {
    var digit := s[|s| - 1] as int - '0' as int;
    if |s| == 1 then digit else 10 * Atoi(s[..|s| - 1]) + digit
  }

  lemma {:induction false} AtoiOfItoa(n: nat)
    ensures Atoi(Itoa(n)) == n
  {
    if n >= 10 {
      AtoiOfItoa(n / 10);
      var s := Itoa(n);
      assert s[..|s| - 1] == Itoa(n / 10);
    }
  }

  lemma ItoaNext(x: nat, d: nat)
    requires x > 0 && d < 10
    ensures Itoa(10 * x + d) == Itoa(x) + [('0' as int + d) as char]
  {
    assert (10 * x + d) / 10 == x && (10 * x + d) % 10 == d;
  }

  /** And the other way: a number written without leading zeros is written by Itoa. */
  lemma {:induction false} ItoaOfAtoi(s: string)
    requires IsDecimal(s) && (|s| > 1 ==> s[0] != '0')
    ensures Itoa(Atoi(s)) == s && (s[0] != '0' ==> Atoi(s) > 0)
    decreases |s|
  {
    var d := s[|s| - 1] as int - '0' as int;
    if |s| > 1 {
      var init := s[..|s| - 1];
      ItoaOfAtoi(init);
      ItoaNext(Atoi(init), d);
      assert s == init + [s[|s| - 1]];
    } else {
      assert s == [s[0]];
    }
  }

  // ---- Addresses ----

  /** netip's text form of 4- and 16-byte addresses: printing then parsing is the
      identity, and no address prints as a number or with a slash. */
  datatype AddrText = AddrText(print_: Bytes -> string, parse: string -> Option<Bytes>)

  ghost predicate Faithful(t: AddrText) {
    && (forall b: Bytes | |b| == 4 || |b| == 16 ::
          t.parse(t.print_(b)) == Some(b) && '/' !in t.print_(b) && !IsDecimal(t.print_(b)))
    && (forall s: string | t.parse(s).Some? :: |t.parse(s).value| == 4 || |t.parse(s).value| == 16)
  }

  // ---- Keys ----

  /** strings.Cut at the first slash. */
  function Cut(s: string): (r: Option<(string, string)>)
    ensures r.Some? ==> s == r.value.0 + "/" + r.value.1 && '/' !in r.value.0
  {
    if s == "" then None
    else if s[0] == '/' then Some(("", s[1..]))
    else
      match Cut(s[1..])
      case None => None
      case Some((a, b)) => Some(([s[0]] + a, b))
  }

  lemma {:induction false} CutAtSlash(a: string, b: string)
    requires '/' !in a
    ensures Cut(a + "/" + b) == Some((a, b))
    decreases |a|
  {
    var s := a + "/" + b;
    if a == "" {
      assert s[1..] == b;
    } else {
      CutAtSlash(a[1..], b);
      assert s[1..] == a[1..] + "/" + b;
      assert [a[0]] + a[1..] == a;
    }
  }

  /** The mask a key's second half stands for. */
  function ParseMask(t: AddrText, s: string, width: nat): (m: Option<Bytes>)
    ensures m.Some? ==> |m.value| == width
  {
    if IsDecimal(s) then
      if Atoi(s) > 8 * width then None else Some(PrefixMask(Atoi(s), width))
    else
      match t.parse(s)
      case None => None
      case Some(m) => if |m| == width then Some(m) else None
  }

  /** parseMaskedKey; None is a rejected key. */
  function ParseMaskedKey(t: AddrText, s: string): (k: Option<MaskedKey>)
    ensures k.Some? && Faithful(t) ==> Normal(k.value)
  {
    match Cut(s)
    case None => None
    case Some((addrPart, maskPart)) =>
      match t.parse(addrPart)
      case None => None
      case Some(addr) =>
        match ParseMask(t, maskPart, |addr|)
        case None => None
        case Some(mask) =>
          MaskedTwice(addr, mask);
          Some(MaskedKey(|addr| == 4, Masked(addr, mask), mask))
  }

  /** canonical: a prefix length when the mask is one, else the mask itself. */
  function Canonical(t: AddrText, k: MaskedKey): string {
    t.print_(k.addr) + "/" +
    match PrefixLength(k.mask)
    case Some(n) => Itoa(n)
    case None => t.print_(k.mask)
  }

  lemma {:induction false} AndTwice(x: nat, y: nat, k: nat)
    ensures AndBits(AndBits(x, y, k), y, k) == AndBits(x, y, k)
    decreases k
  {
    if k > 0 { AndTwice(x / 2, y / 2, k - 1); }
  }

  lemma MaskedTwice(b: Bytes, mask: Bytes)
    requires |b| == |mask|
    ensures Masked(Masked(b, mask), mask) == Masked(b, mask)
  {
    forall i | 0 <= i < |b| ensures And(And(b[i], mask[i]), mask[i]) == And(b[i], mask[i]) {
      AndTwice(b[i], mask[i], 8);
    }
  }

  /** Writing a normal key and reading it back gives the same key. */
  lemma CanonicalRoundTrip(t: AddrText, k: MaskedKey)
    requires Faithful(t) && Normal(k)
    ensures ParseMaskedKey(t, Canonical(t, k)) == Some(k)
  {
    var n := PrefixLength(k.mask);
    var maskPart := if n.Some? then Itoa(n.value) else t.print_(k.mask);
    CutAtSlash(t.print_(k.addr), maskPart);
    MaskReads(t, k.mask);
  }

  lemma MaskReads(t: AddrText, mask: Bytes)
    requires Faithful(t) && (|mask| == 4 || |mask| == 16)
    ensures var n := PrefixLength(mask);
            ParseMask(t, if n.Some? then Itoa(n.value) else t.print_(mask), |mask|) == Some(mask)
  {
    var n := PrefixLength(mask);
    if n.Some? { PrefixReads(mask, n.value); }
  }

  lemma PrefixReads(mask: Bytes, n: nat)
    requires PrefixLength(mask) == Some(n)
    ensures IsDecimal(Itoa(n)) && Atoi(Itoa(n)) == n <= 8 * |mask| && PrefixMask(n, |mask|) == mask
  {
    AtoiOfItoa(n);
    PrefixLengthIff(mask, n);
  }

  /** Distinct normal keys are written differently. */
  lemma CanonicalInjective(t: AddrText, a: MaskedKey, b: MaskedKey)
    requires Faithful(t) && Normal(a) && Normal(b) && Canonical(t, a) == Canonical(t, b)
    ensures a == b
  {
    CanonicalRoundTrip(t, a);
    CanonicalRoundTrip(t, b);
  }

  /** Two spellings are one entry exactly when they select the same addresses through
      the same mask: "/8" and "/255.0.0.0" are the same key. */
  lemma PrefixSpelling(t: AddrText, addr: Bytes, n: nat)
    requires Faithful(t) && (|addr| == 4 || |addr| == 16) && n <= 8 * |addr|
    ensures ParseMaskedKey(t, t.print_(addr) + "/" + Itoa(n))
            == ParseMaskedKey(t, t.print_(addr) + "/" + t.print_(PrefixMask(n, |addr|)))
    ensures ParseMaskedKey(t, t.print_(addr) + "/" + Itoa(n)).Some?
  {
    AtoiOfItoa(n);
    CutAtSlash(t.print_(addr), Itoa(n));
    CutAtSlash(t.print_(addr), t.print_(PrefixMask(n, |addr|)));
  }

  // ---- What the table needs of the written form ----

  datatype KeyCodec = KeyCodec(spell: MaskedKey -> string, read: string -> Option<MaskedKey>)

  /** Reading undoes spelling, and only normal keys are read. */
  ghost predicate Sound(c: KeyCodec) {
    && (forall k | Normal(k) :: c.read(c.spell(k)) == Some(k))
    && (forall s | c.read(s).Some? :: Normal(c.read(s).value))
  }

  function Netip(t: AddrText): KeyCodec {
    KeyCodec(k => Canonical(t, k), s => ParseMaskedKey(t, s))
  }

  /** canonical and parseMaskedKey are such a pair. */
  lemma NetipSound(t: AddrText)
    requires Faithful(t)
    ensures Sound(Netip(t))
  {
    forall k | Normal(k) ensures Netip(t).read(Netip(t).spell(k)) == Some(k) {
      CanonicalRoundTrip(t, k);
    }
  }

  lemma SpellInjective(c: KeyCodec, a: MaskedKey, b: MaskedKey)
    requires Sound(c) && Normal(a) && Normal(b) && c.spell(a) == c.spell(b)
    ensures a == b
  {
    assert c.read(c.spell(a)) == Some(a) && c.read(c.spell(b)) == Some(b);
  }
}
