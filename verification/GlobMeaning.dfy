/** Globs written from what they should match, and that path.Match reads them so. */
module GlobMeaning {
  import opened GoStrings
  import opened Globs

  datatype Range = Range(lo: char, hi: char)

  datatype Piece = Exactly(c: char) | AnyOne | AnyMany | OneOf(negated: bool, ranges: seq<Range>)

  // ---- What pieces match ----

  predicate InRanges(ranges: seq<Range>, c: char) {
    ranges != [] && (ranges[0].lo <= c <= ranges[0].hi || InRanges(ranges[1..], c))
  }

  /** One character by most pieces; by AnyMany any stretch without a slash. */
  ghost predicate Denotes(ps: seq<Piece>, s: string)
    decreases |ps|
  {
    if ps == [] then s == ""
    else
      match ps[0]
      case Exactly(c) => s != "" && s[0] == c && Denotes(ps[1..], s[1..])
      case AnyOne => s != "" && s[0] != '/' && Denotes(ps[1..], s[1..])
      case OneOf(negated, ranges) => s != "" && InRanges(ranges, s[0]) == !negated && Denotes(ps[1..], s[1..])
      case AnyMany => exists k | 0 <= k <= |s| :: '/' !in s[..k] && Denotes(ps[1..], s[k..])
  }

  // ---- How they are written ----

  function InClass(c: char): (t: string)
    ensures t != ""
  {
    if c == '\\' || c == '-' || c == ']' || c == '^' then ['\\', c] else [c]
  }

  function Outside(c: char): string {
    if c == '*' || c == '?' || c == '[' || c == '\\' then ['\\', c] else [c]
  }

  function PrintRange(r: Range): string {
    if r.lo == r.hi then InClass(r.lo) else InClass(r.lo) + ("-" + InClass(r.hi))
  }

  function PrintRanges(ranges: seq<Range>): string {
    if ranges == [] then "" else PrintRange(ranges[0]) + PrintRanges(ranges[1..])
  }

  function PrintPiece(p: Piece): string {
    match p
    case Exactly(c) => Outside(c)
    case AnyOne => "?"
    case AnyMany => "*"
    case OneOf(negated, ranges) => (if negated then "[^" else "[") + (PrintRanges(ranges) + "]")
  }

  function Print(ps: seq<Piece>): string {
    if ps == [] then "" else PrintPiece(ps[0]) + Print(ps[1..])
  }

  /** A class cannot be written without a range in it. */
  predicate Writable(ps: seq<Piece>) {
    forall i | 0 <= i < |ps| :: ps[i].OneOf? ==> ps[i].ranges != []
  }

  // ---- Classes ----

  /** t is written in p from i on. */
  predicate WrittenAt(p: string, i: nat, t: string) {
    i + |t| <= |p| && forall j | 0 <= j < |t| :: t[j] == p[i + j]
  }

  lemma WrittenParts(p: string, i: nat, a: string, b: string)
    requires WrittenAt(p, i, a + b)
    ensures WrittenAt(p, i, a) && WrittenAt(p, i + |a|, b)
  {
    forall j | 0 <= j < |a| ensures a[j] == p[i + j] { assert (a + b)[j] == a[j]; }
    forall j | 0 <= j < |b| ensures b[j] == p[i + |a| + j] { assert (a + b)[|a| + j] == b[j]; }
  }

  lemma WrittenThen(p: string, i: nat, a: string, b: string, c: string)
    requires WrittenAt(p, i, a + b + c)
    ensures WrittenAt(p, i, a) && WrittenAt(p, i + |a|, b + c)
  {
    assert a + b + c == a + (b + c);
    WrittenParts(p, i, a, b + c);
  }

  lemma WrittenInside(a: string, b: string, c: string)
    ensures WrittenAt(a + b + c, |a|, b) && (a + b + c)[|a| + |b|..] == c
  {
  }

  lemma WrittenFirst(p: string, i: nat, t: string)
    requires WrittenAt(p, i, t) && t != ""
    ensures p[i] == t[0] && (|t| > 1 ==> p[i + 1] == t[1])
  {
    assert t[0] == p[i + 0];
  }

  lemma CharReads(p: string, i: nat, c: char)
    requires WrittenAt(p, i, InClass(c)) && i + |InClass(c)| < |p|
    ensures ClassChar(p, i) == Some((c, i + |InClass(c)|))
    ensures p[i] != '-' && p[i] != ']' && p[i] != '^'
  {
    WrittenFirst(p, i, InClass(c));
  }

  /** From i on a class reads as ranges that hold c, or do not, and ends before end. */
  ghost predicate ReadsTo(p: string, i: nat, any: bool, c: char, m: bool, end: nat) {
    ClassRanges(p, i, any, c) == Some((m, end))
  }

  /** Where the range written at i ends. */
  lemma RangeReads(p: string, i: nat, r: Range) returns (j: nat)
    requires WrittenAt(p, i, PrintRange(r)) && i + |PrintRange(r)| < |p| && p[i + |PrintRange(r)|] != '-'
    ensures i < |p| && p[i] != ']' && ClassChar(p, i) == Some((r.lo, j))
    ensures if p[j] == '-' then ClassChar(p, j + 1) == Some((r.hi, i + |PrintRange(r)|))
            else r.hi == r.lo && j == i + |PrintRange(r)|
  {
    j := i + |InClass(r.lo)|;
    if r.lo == r.hi {
      CharReads(p, i, r.lo);
    } else {
      WrittenParts(p, i, InClass(r.lo), "-" + InClass(r.hi));
      WrittenParts(p, j, "-", InClass(r.hi));
      WrittenFirst(p, j, "-");
      CharReads(p, i, r.lo);
      CharReads(p, j + 1, r.hi);
    }
  }

  lemma OneMore(p: string, i: nat, any: bool, c: char, r: Range, k: nat, m: bool, end: nat)
    requires WrittenAt(p, i, PrintRange(r)) && k == i + |PrintRange(r)| < |p| && p[k] != '-'
    requires ReadsTo(p, k, true, c, m, end)
    ensures ReadsTo(p, i, any, c, r.lo <= c <= r.hi || m, end)
  {
    var j := RangeReads(p, i, r);
    RangeAndRest(p, i, any, c, r.lo, r.hi, j, k, m, end);
  }

  lemma RangesStart(ranges: seq<Range>)
    ensures var t := PrintRanges(ranges) + "]"; t != "" && t[0] != '-' && t[0] != '^'
  {
  }

  lemma RangesParts(p: string, i: nat, first: string, rest: string)
    requires WrittenAt(p, i, first + rest + "]") && (rest + "]")[0] != '-'
    ensures WrittenAt(p, i, first) && WrittenAt(p, i + |first|, rest + "]")
    ensures i + |first| < |p| && p[i + |first|] != '-'
  {
    WrittenThen(p, i, first, rest, "]");
    WrittenFirst(p, i + |first|, rest + "]");
  }

  lemma ClassEnds(p: string, i: nat, c: char)
    requires WrittenAt(p, i, "]")
    ensures ReadsTo(p, i, true, c, false, i + 1)
  {
    WrittenFirst(p, i, "]");
  }

  lemma PrintNext(ranges: seq<Range>)
    requires ranges != []
    ensures PrintRanges(ranges) == PrintRange(ranges[0]) + PrintRanges(ranges[1..])
    ensures (PrintRanges(ranges[1..]) + "]")[0] != '-'
  {
    RangesStart(ranges[1..]);
  }

  /** The ranges are written in p from i on, and the class ends there. */
  ghost predicate ClassAt(p: string, i: nat, ranges: seq<Range>) {
    WrittenAt(p, i, PrintRanges(ranges) + "]")
  }

  lemma ClassAtNext(p: string, i: nat, ranges: seq<Range>, k: nat)
    requires ClassAt(p, i, ranges) && ranges != [] && k == i + |PrintRange(ranges[0])|
    ensures WrittenAt(p, i, PrintRange(ranges[0])) && k < |p| && p[k] != '-' && ClassAt(p, k, ranges[1..])
    ensures |PrintRanges(ranges)| == |PrintRange(ranges[0])| + |PrintRanges(ranges[1..])|
  {
    PrintNext(ranges);
    RangesParts(p, i, PrintRange(ranges[0]), PrintRanges(ranges[1..]));
  }

  /** The ranges of a class read as its ranges. */
  lemma {:induction false} RangesRead(p: string, i: nat, ranges: seq<Range>, any: bool, c: char, end: nat)
    requires ClassAt(p, i, ranges) && (any || ranges != []) && end == i + |PrintRanges(ranges)| + 1
    ensures ReadsTo(p, i, any, c, InRanges(ranges, c), end)
    decreases |ranges|
  {
    if ranges == [] {
      assert "" + "]" == "]";
      ClassEnds(p, i, c);
    } else {
      var k := i + |PrintRange(ranges[0])|;
      ClassAtNext(p, i, ranges, k);
      RangesRead(p, k, ranges[1..], true, c, end);
      OneMore(p, i, any, c, ranges[0], k, InRanges(ranges[1..], c), end);
    }
  }

  // ---- Pieces ----

  /** The first k characters have no slash and p matches the rest. */
  ghost predicate Spans(p: string, s: string, k: nat) {
    k <= |s| && '/' !in s[..k] && Meant(p, s[k..])
  }

  /** A star stands for any stretch without a slash. */
  lemma {:induction false} StarSpans(p: string, s: string)
    ensures Meant("*" + p, s) <==> exists k: nat :: Spans(p, s, k)
    decreases |s|
  {
    var star := "*" + p;
    assert star[0] == '*' && star[1..] == p && s[0..] == s && s[..0] == "";
    assert Spans(p, s, 0) <==> Meant(p, s);
    if s != "" {
      StarSpans(p, s[1..]);
      if s[0] != '/' && Meant(star, s[1..]) {
        var k: nat :| Spans(p, s[1..], k);
        OneFurther(s, k);
        assert Spans(p, s, k + 1);
      }
      if k: nat :| k > 0 && Spans(p, s, k) {
        OneFurther(s, k - 1);
        assert s[0] in s[..k] && Spans(p, s[1..], k - 1);
      }
    }
  }

  lemma ClassText(negated: bool, ranges: seq<Range>, p: string)
    ensures var q, i := PrintPiece(OneOf(negated, ranges)) + p, if negated then 2 else 1;
            && |q| > 1 && q[0] == '[' && (q[1] == '^' <==> negated)
            && WrittenAt(q, i, PrintRanges(ranges) + "]")
            && i + |PrintRanges(ranges)| + 1 <= |q| && q[i + |PrintRanges(ranges)| + 1..] == p
  {
    var open, body := if negated then "[^" else "[", PrintRanges(ranges) + "]";
    RangesStart(ranges);
    WrittenInside(open, body, p);
    WrittenFirst(open + body + p, |open|, body);
  }

  lemma ClassStep(q: string, s: string, m: bool, end: nat)
    requires |q| > 1 && q[0] == '[' && s != "" && end <= |q|
    requires ReadsTo(q, if q[1] == '^' then 2 else 1, false, s[0], m, end)
    ensures Meant(q, s) <==> m != (q[1] == '^') && Meant(q[end..], s[1..])
  {
  }

  lemma ClassMeans(negated: bool, ranges: seq<Range>, p: string, s: string)
    requires ranges != []
    ensures Meant(PrintPiece(OneOf(negated, ranges)) + p, s)
            <==> s != "" && InRanges(ranges, s[0]) == !negated && Meant(p, s[1..])
  {
    var q, i := PrintPiece(OneOf(negated, ranges)) + p, if negated then 2 else 1;
    ClassText(negated, ranges, p);
    if s != "" {
      RangesRead(q, i, ranges, false, s[0], i + |PrintRanges(ranges)| + 1);
      ClassStep(q, s, InRanges(ranges, s[0]), i + |PrintRanges(ranges)| + 1);
    }
  }

  lemma CharMeans(c: char, p: string, s: string)
    ensures Meant(Outside(c) + p, s) <==> s != "" && s[0] == c && Meant(p, s[1..])
  {
    var q := Outside(c) + p;
    if |Outside(c)| == 2 {
      assert q[0] == '\\' && q[1] == c && q[2..] == p;
    } else {
      assert q[0] == c && q[1..] == p;
    }
  }

  /** A pattern written from pieces means exactly what the pieces stand for. */
  lemma {:induction false} PrintedMeans(ps: seq<Piece>, s: string)
    requires Writable(ps)
    ensures Meant(Print(ps), s) <==> Denotes(ps, s)
    decreases |ps|
  {
    if ps != [] {
      var rest := Print(ps[1..]);
      match ps[0] {
        case Exactly(c) =>
          CharMeans(c, rest, s);
          if s != "" { PrintedMeans(ps[1..], s[1..]); }
        case AnyOne =>
          assert ("?" + rest)[1..] == rest;
          if s != "" { PrintedMeans(ps[1..], s[1..]); }
        case OneOf(negated, ranges) =>
          ClassMeans(negated, ranges, rest, s);
          if s != "" { PrintedMeans(ps[1..], s[1..]); }
        case AnyMany =>
          StarSpans(rest, s);
          forall k: nat | k <= |s| ensures Meant(rest, s[k..]) <==> Denotes(ps[1..], s[k..]) {
            PrintedMeans(ps[1..], s[k..]);
          }
          if k: nat :| Spans(rest, s, k) { assert '/' !in s[..k] && Denotes(ps[1..], s[k..]); }
          if k: nat :| k <= |s| && '/' !in s[..k] && Denotes(ps[1..], s[k..]) { assert Spans(rest, s, k); }
      }
    }
  }

  // ---- path.Match ----

  /** No class takes a slash. */
  predicate NoSlashClass(ps: seq<Piece>) {
    forall i | 0 <= i < |ps| && ps[i].OneOf? :: InRanges(ps[i].ranges, '/') == ps[i].negated
  }

  lemma ClassLength(negated: bool, ranges: seq<Range>, rest: string)
    requires ranges != []
    ensures var t := PrintPiece(OneOf(negated, ranges));
            Length(t + rest) == Some(|t|) && (Take(t + rest, '/').None? <==> InRanges(ranges, '/') == negated)
  {
    var q, i := PrintPiece(OneOf(negated, ranges)) + rest, if negated then 2 else 1;
    ClassText(negated, ranges, rest);
    RangesRead(q, i, ranges, false, '/', i + |PrintRanges(ranges)| + 1);
    LengthStep(q, InRanges(ranges, '/'), i + |PrintRanges(ranges)| + 1);
  }

  lemma LengthStep(q: string, m: bool, end: nat)
    requires |q| > 1 && q[0] == '[' && ReadsTo(q, if q[1] == '^' then 2 else 1, false, '/', m, end)
    ensures Length(q) == Some(end) && (Take(q, '/').None? <==> m == (q[1] == '^'))
  {
  }

  lemma PieceIsLength(p: Piece, rest: string)
    requires p.OneOf? ==> p.ranges != []
    ensures Length(PrintPiece(p) + rest) == Some(|PrintPiece(p)|)
    ensures (PrintPiece(p) + rest)[0] == '[' <==> p.OneOf?
  {
    var t := PrintPiece(p);
    if p.OneOf? {
      ClassText(p.negated, p.ranges, rest);
      ClassLength(p.negated, p.ranges, rest);
    } else {
      assert (t + rest)[0] == t[0] && (|t| == 2 <==> t[0] == '\\');
    }
  }

  lemma {:induction false} PrintSlashFree(ps: seq<Piece>)
    requires Writable(ps) && NoSlashClass(ps)
    ensures SlashFree(Print(ps))
    decreases |ps|
  {
    if ps != [] {
      var t, rest := PrintPiece(ps[0]), Print(ps[1..]);
      PrintSlashFree(ps[1..]);
      PieceIsLength(ps[0], rest);
      assert (t + rest)[|t|..] == rest;
      if ps[0].OneOf? { ClassLength(ps[0].negated, ps[0].ranges, rest); }
    }
  }

  /** Whatever path.Match accepts is what the pieces stand for; and all of that is accepted,
      unless a class takes a slash. */
  lemma GlobMeans(ps: seq<Piece>, s: string)
    requires Writable(ps)
    ensures Glob(Print(ps), s) ==> Denotes(ps, s)
    ensures NoSlashClass(ps) ==> (Glob(Print(ps), s) <==> Denotes(ps, s))
  {
    PrintedMeans(ps, s);
    if Glob(Print(ps), s) { GlobIsMeant(Print(ps), s); }
    if NoSlashClass(ps) {
      PrintSlashFree(ps);
      GlobIff(Print(ps), s);
    }
  }

  lemma SlashClass(p: string, c: char)
    requires p == "[a/]" || p == "[a/]*b"
    ensures ClassRanges(p, 1, false, c) == Some((c == 'a' || c == '/', 4))
  {
    assert ClassRanges(p, 3, true, c) == Some((false, 4));
    assert ClassRanges(p, 2, true, c) == Some((c == '/', 4));
  }

  lemma SlashMeant(p: string, rest: string)
    requires rest == "[a/]*b" && p == "*" + rest
    ensures Meant(p, "xa/b")
  {
    SlashClass(rest, '/');
    assert rest[4..] == "*b" && "/b"[1..] == "b" && "*b"[1..] == "b";
    PlainMeant("b", "b");
    assert Meant(rest, "/b");
    assert p[1..] == rest;
    StarTakes(p, "xa", "/b");
    assert "xa" + "/b" == "xa/b";
  }

  lemma SlashTaken(chunk: string, s: string)
    requires chunk == "[a/]" && s != ""
    ensures MatchChunk(chunk, s) == if s[0] == 'a' || s[0] == '/' then Some(s[1..]) else None
  {
    SlashClass(chunk, s[0]);
    ClassAlone(chunk, s, s[0] == 'a' || s[0] == '/');
  }

  lemma ClassAlone(chunk: string, s: string, m: bool)
    requires |chunk| > 1 && chunk[0] == '[' && chunk[1] != '^' && s != ""
    requires ClassRanges(chunk, 1, false, s[0]) == Some((m, |chunk|))
    ensures MatchChunk(chunk, s) == if m then Some(s[1..]) else None
  {
    assert chunk[|chunk|..] == "";
  }

  lemma PlacedNext(chunk: string, s: string, t: string)
    requires s != "" && s[0] != '/' && MatchChunk(chunk, s) == None && MatchChunk(chunk, s[1..]) == Some(t)
    ensures PlaceChunk(chunk, s, true, false) == Some(t)
  {
  }

  lemma SlashPlaced(chunk: string, s: string)
    requires chunk == "[a/]" && s == "xa/b"
    ensures PlaceChunk(chunk, s, true, false) == Some("/b")
  {
    SlashTaken(chunk, s);
    assert s[1..] == "a/b";
    SlashTaken(chunk, s[1..]);
    assert s[1..][1..] == "/b";
    PlacedNext(chunk, s, "/b");
  }

  lemma ChunkOf(p: string)
    requires p == "[a/]*b"
    ensures ChunkEnd(p, 0, false) == 4
  {
    assert ChunkEnd(p, 3, true) == ChunkEnd(p, 4, false) == 4;
    assert ChunkEnd(p, 2, true) == 4;
    assert ChunkEnd(p, 1, true) == 4;
  }

  lemma NotAfterSlash(p: string, s: string)
    requires p == "*b" && s == "/b"
    ensures !Glob(p, s)
  {
    assert p[1..] == "b";
    PlainMeant("b", s);
    if Glob(p, s) { GlobIsMeant(p, s); }
  }

  lemma NotFound(p: string, s: string, rest: string, n: nat, t: string)
    requires p == "*" + rest && rest != "" && rest[0] != '*' && n == ChunkEnd(rest, 0, false) < |rest|
    requires PlaceChunk(rest[..n], s, true, false) == Some(t) && !Glob(rest[n..], t)
    ensures !Glob(p, s)
  {
    assert p[1..] == rest && Stars(rest) == 0;
    GlobStep(p, s, rest, n);
  }

  /** If one does, it need not be: *[a/]*b stands for xa/b, and path.Match does not find it. */
  lemma SlashInClass(p: string, s: string)
    requires p == "*" + "[a/]*b" && s == "xa/b"
    ensures Meant(p, s) && !Glob(p, s)
  {
    var rest: string := "[a/]*b";
    SlashMeant(p, rest);
    ChunkOf(rest);
    assert rest[..4] == "[a/]" && rest[4..] == "*b";
    SlashPlaced(rest[..4], s);
    NotAfterSlash(rest[4..], "/b");
    NotFound(p, s, rest, 4, "/b");
  }
}
