/** Go's path.Match, which compile.go runs on every glob field, and what its patterns mean.
    A malformed pattern matches nothing, because matcher.match discards the error. */
module Globs {
  import opened GoStrings

  /** The possibly escaped character at p[i] inside a class, and the position after
      it. A pattern that ends here is malformed. */
  function ClassChar(p: string, i: nat): (r: Option<(char, nat)>)
    ensures r.Some? ==> i < r.value.1 < |p|
  {
    if i >= |p| || p[i] == '-' || p[i] == ']' then None
    else if p[i] == '\\' then (if i + 2 >= |p| then None else Some((p[i + 1], i + 2)))
    else if i + 1 >= |p| then None
    else Some((p[i], i + 1))
  }

  /** Reads the ranges of a class up to its closing bracket: whether one of them
      holds c, and the position after the bracket. A class has at least one range. */
  function ClassRanges(p: string, i: nat, any: bool, c: char): (r: Option<(bool, nat)>)
    ensures r.Some? ==> i < r.value.1 <= |p| && p[r.value.1 - 1] == ']'
    decreases |p| - i
  {
    if any && i < |p| && p[i] == ']' then Some((false, i + 1))
    else
      match ClassChar(p, i)
      case None => None
      case Some((lo, j)) =>
        match (if p[j] == '-' then ClassChar(p, j + 1) else Some((lo, j)))
        case None => None
        case Some((hi, k)) =>
          match ClassRanges(p, k, true, c)
          case None => None
          case Some((m, end)) => Some((lo <= c <= hi || m, end))
  }

  /** The first piece of p, a star aside, takes c: how long it is. '?' takes no '/', a class
      may. */
  function Take(p: string, c: char): (n: Option<nat>)
    ensures n.Some? ==> 0 < n.value <= |p|
  {
    if p == "" then None
    else if p[0] == '?' then (if c == '/' then None else Some(1))
    else if p[0] == '[' then
      var negated := |p| > 1 && p[1] == '^';
      match ClassRanges(p, if negated then 2 else 1, false, c)
      case None => None
      case Some((m, end)) => if m == negated then None else Some(end)
    else if p[0] == '\\' then (if |p| > 1 && p[1] == c then Some(2) else None)
    else if p[0] == c then Some(1)
    else None
  }

  // ---- path.Match ----

  /** matchChunk: what is left of s after a match of the chunk at its start. */
  function MatchChunk(chunk: string, s: string): (t: Option<string>)
    ensures t.Some? ==> |t.value| <= |s| && s[|s| - |t.value|..] == t.value
    decreases |chunk|
  {
    if chunk == "" then Some(s)
    else if s == "" then None
    else
      match Take(chunk, s[0])
      case None => None
      case Some(n) => MatchChunk(chunk[n..], s[1..])
  }

  /** scanChunk: the stars in front, and where the next one outside a class is. */
  function Stars(p: string): (n: nat)
    ensures n <= |p| && (n < |p| ==> p[n] != '*') && (p != "" && p[0] == '*' ==> n > 0)
    ensures forall i | 0 <= i < n :: p[i] == '*'
  {
    if p != "" && p[0] == '*' then 1 + Stars(p[1..]) else 0
  }

  function ChunkEnd(p: string, i: nat, inClass: bool): (n: nat)
    requires i <= |p|
    ensures i <= n <= |p| && (n < |p| ==> p[n] == '*') && (i < |p| && p[i] != '*' ==> i < n)
    decreases |p| - i
  {
    if i == |p| then i
    else if p[i] == '\\' && i + 1 < |p| then ChunkEnd(p, i + 2, inClass)
    else if p[i] == '[' then ChunkEnd(p, i + 1, true)
    else if p[i] == ']' then ChunkEnd(p, i + 1, false)
    else if p[i] == '*' && !inClass then i
    else ChunkEnd(p, i + 1, inClass)
  }

  /** Where the chunk goes: here, or after a star at the first place it fits without passing
      a slash. The last chunk has to reach the end. */
  function PlaceChunk(chunk: string, s: string, star: bool, last: bool): (t: Option<string>)
    decreases |s|
  {
    var here := MatchChunk(chunk, s);
    if here.Some? && (here.value == "" || !last) then here
    else if star && s != "" && s[0] != '/' then PlaceChunk(chunk, s[1..], star, last)
    else None
  }

  /** path.Match(p, s). */
  predicate Glob(p: string, s: string)
    decreases |p|
  {
    if p == "" then s == ""
    else
      var stars := Stars(p);
      var rest := p[stars..];
      var n := ChunkEnd(rest, 0, false);
      if rest == "" then '/' !in s
      else
        match PlaceChunk(rest[..n], s, stars > 0, n == |rest|)
        case None => false
        case Some(t) => Glob(rest[n..], t)
  }

  // ---- What a pattern means ----

  /** Some way of filling in the stars, with no '/', makes p match s. */
  predicate Meant(p: string, s: string)
    decreases |p| + |s|
  {
    if p == "" then s == ""
    else if p[0] == '*' then Meant(p[1..], s) || (s != "" && s[0] != '/' && Meant(p, s[1..]))
    else s != "" && match Take(p, s[0]) case None => false case Some(n) => Meant(p[n..], s[1..])
  }

  /** No character of t has a meaning of its own in a pattern. */
  predicate Plain(t: string) {
    forall i | 0 <= i < |t| ::
      t[i] != '*' && t[i] != '?' && t[i] != '[' && t[i] != ']' && t[i] != '\\'
  }

  lemma {:induction false} PlainMeant(t: string, s: string)
    requires Plain(t)
    ensures Meant(t, s) <==> t == s
    decreases |t|
  {
    if t != "" && s != "" {
      PlainMeant(t[1..], s[1..]);
      assert t == [t[0]] + t[1..] && s == [s[0]] + s[1..];
    }
  }

  lemma SuffixStep(s: string, t: string)
    requires s != "" && HasSuffix(s[1..], t)
    ensures HasSuffix(s, t)
  {
  }

  /** A piece that closes does so before a plain tail, which holds no bracket; but an escape
      may reach into it. */
  lemma PieceBefore(p: string, t: string, c: char)
    requires p != "" && Plain(t) && Take(p + t, c).Some?
    ensures Take(p + t, c).value <= |p| || (p == "\\" && t != "" && t[0] == c && Take(p + t, c).value == 2)
  {
    var q, n := p + t, Take(p + t, c).value;
    if q[0] == '[' {
      assert q[n - 1] == ']';
      assert forall i | |p| <= i < |q| :: q[i] == t[i - |p|];
    }
  }

  /** Whatever comes before it, a plain tail of a pattern ends everything that is meant. */
  lemma {:induction false} MeantTail(p: string, t: string, s: string)
    requires Plain(t) && Meant(p + t, s)
    ensures HasSuffix(s, t)
    decreases |p| + |s|
  {
    var q := p + t;
    if p == "" {
      assert q == t;
      PlainMeant(t, s);
    } else if p[0] == '*' {
      assert q[1..] == p[1..] + t;
      if Meant(q[1..], s) {
        MeantTail(p[1..], t, s);
      } else {
        MeantTail(p, t, s[1..]);
        SuffixStep(s, t);
      }
    } else {
      MeantTailPiece(p, t, s);
    }
  }

  lemma {:induction false} MeantTailPiece(p: string, t: string, s: string)
    requires Plain(t) && Meant(p + t, s) && p != "" && p[0] != '*'
    ensures HasSuffix(s, t)
    decreases |p| + |s|, 0
  {
    var q := p + t;
    assert q[0] == p[0];
    var n := Take(q, s[0]).value;
    PieceBefore(p, t, s[0]);
    if n <= |p| {
      assert q[n..] == p[n..] + t;
      MeantTail(p[n..], t, s[1..]);
      SuffixStep(s, t);
    } else {
      assert q[2..] == t[1..];
      PlainMeant(t[1..], s[1..]);
      assert s == t;
    }
  }

  // ---- What the algorithm finds is meant ----

  lemma CharExtends(a: string, b: string, i: nat)
    requires ClassChar(a, i).Some?
    ensures ClassChar(a + b, i) == ClassChar(a, i)
  {
  }

  /** A class that closes within a reads the same with more after it. */
  lemma {:induction false} ClassExtends(a: string, b: string, i: nat, any: bool, c: char)
    requires ClassRanges(a, i, any, c).Some?
    ensures ClassRanges(a + b, i, any, c) == ClassRanges(a, i, any, c)
    decreases |a| - i
  {
    if !(any && a[i] == ']') {
      CharExtends(a, b, i);
      var (lo, j) := ClassChar(a, i).value;
      if a[j] == '-' { CharExtends(a, b, j + 1); }
      var (_, k) := if a[j] == '-' then ClassChar(a, j + 1).value else (lo, j);
      ClassExtends(a, b, k, true, c);
    }
  }

  lemma PieceExtends(a: string, b: string, c: char)
    requires Take(a, c).Some?
    ensures Take(a + b, c) == Take(a, c) && (a + b)[Take(a, c).value..] == a[Take(a, c).value..] + b
  {
    if a[0] == '[' { ClassExtends(a, b, if |a| > 1 && a[1] == '^' then 2 else 1, false, c); }
  }

  lemma ChunkNext(chunk: string, s: string) returns (n: nat)
    requires chunk != "" && MatchChunk(chunk, s).Some?
    ensures s != "" && Take(chunk, s[0]) == Some(n) && MatchChunk(chunk[n..], s[1..]) == MatchChunk(chunk, s)
  {
    n := Take(chunk, s[0]).value;
  }

  lemma {:induction false} ChunkIsMeant(chunk: string, rest: string, s: string)
    requires MatchChunk(chunk, s).Some? && Meant(rest, MatchChunk(chunk, s).value)
    ensures Meant(chunk + rest, s)
    decreases |chunk|
  {
    if chunk == "" {
      assert chunk + rest == rest;
    } else {
      var n := ChunkNext(chunk, s);
      PieceExtends(chunk, rest, s[0]);
      ChunkIsMeant(chunk[n..], rest, s[1..]);
      MeantNext(chunk + rest, s, n);
    }
  }

  lemma MeantNext(p: string, s: string, n: nat)
    requires s != "" && Take(p, s[0]) == Some(n) && Meant(p[n..], s[1..])
    ensures Meant(p, s)
  {
    if p[0] == '*' { assert Meant(p, s[1..]); }
  }

  /** A star may stand for more, up to a slash. */
  lemma {:induction false} StarTakes(p: string, x: string, s: string)
    requires p != "" && p[0] == '*' && '/' !in x && Meant(p, s)
    ensures Meant(p, x + s)
    decreases |x|
  {
    if x == "" {
      assert x + s == s;
    } else {
      StarTakes(p, x[1..], s);
      assert (x + s)[1..] == x[1..] + s;
    }
  }

  lemma {:induction false} StarsMean(p: string, n: nat, s: string)
    requires n <= |p| && (forall i | 0 <= i < n :: p[i] == '*') && Meant(p[n..], s)
    ensures Meant(p, s)
    decreases n
  {
    if n == 0 {
      assert p[0..] == p;
    } else {
      assert p[1..][n - 1..] == p[n..];
      StarsMean(p[1..], n - 1, s);
    }
  }

  lemma {:induction false} StarsOnly(p: string, s: string)
    requires p != "" && (forall i | 0 <= i < |p| :: p[i] == '*')
    ensures Meant(p, s) <==> '/' !in s
    decreases |p| + |s|
  {
    if |p| > 1 { StarsOnly(p[1..], s); }
    if s != "" {
      StarsOnly(p, s[1..]);
      assert s == [s[0]] + s[1..];
    }
  }

  lemma OneFurther(s: string, k: nat)
    requires s != "" && k <= |s[1..]|
    ensures s[1..][k..] == s[k + 1..] && s[..k + 1] == [s[0]] + s[1..][..k]
  {
  }

  /** What PlaceChunk leaves comes after the chunk, at some place no slash away. */
  lemma {:induction false} PlaceSkips(chunk: string, s: string, star: bool, last: bool) returns (k: nat)
    requires PlaceChunk(chunk, s, star, last).Some?
    ensures k <= |s| && MatchChunk(chunk, s[k..]) == PlaceChunk(chunk, s, star, last)
    ensures '/' !in s[..k] && (k > 0 ==> star) && (last ==> PlaceChunk(chunk, s, star, last) == Some(""))
    decreases |s|
  {
    var here := MatchChunk(chunk, s);
    if here.Some? && (here.value == "" || !last) {
      k := 0;
      assert s[0..] == s;
    } else {
      k := PlaceSkips(chunk, s[1..], star, last);
      OneFurther(s, k);
      k := k + 1;
    }
  }

  lemma StarsTake(p: string, n: nat, s: string, k: nat)
    requires n <= |p| && (forall i | 0 <= i < n :: p[i] == '*') && k <= |s| && '/' !in s[..k] && (k > 0 ==> n > 0)
    requires Meant(p[n..], s[k..])
    ensures Meant(p, s)
  {
    StarsMean(p, n, s[k..]);
    assert s[..k] + s[k..] == s;
    if k > 0 { StarTakes(p, s[..k], s[k..]); }
  }

  lemma PlacedIsMeant(p: string, stars: nat, chunk: string, tail: string, s: string, last: bool)
    requires stars <= |p| && (forall i | 0 <= i < stars :: p[i] == '*') && p[stars..] == chunk + tail
    requires PlaceChunk(chunk, s, stars > 0, last).Some?
    requires Meant(tail, PlaceChunk(chunk, s, stars > 0, last).value)
    ensures Meant(p, s)
  {
    var k := PlaceSkips(chunk, s, stars > 0, last);
    ChunkIsMeant(chunk, tail, s[k..]);
    StarsTake(p, stars, s, k);
  }

  lemma GlobStep(p: string, s: string, rest: string, n: nat)
    requires p != "" && rest == p[Stars(p)..] && rest != "" && n == ChunkEnd(rest, 0, false)
    ensures 0 < n <= |rest|
    ensures var t := PlaceChunk(rest[..n], s, Stars(p) > 0, n == |rest|);
            Glob(p, s) <==> t.Some? && Glob(rest[n..], t.value)
  {
  }

  /** Whatever path.Match accepts is meant. */
  lemma {:induction false} GlobIsMeant(p: string, s: string)
    requires Glob(p, s)
    ensures Meant(p, s)
    decreases |p|
  {
    if p != "" {
      var rest := p[Stars(p)..];
      if rest == "" {
        StarsOnly(p, s);
      } else {
        var n := ChunkEnd(rest, 0, false);
        GlobStep(p, s, rest, n);
        GlobIsMeant(rest[n..], PlaceChunk(rest[..n], s, Stars(p) > 0, n == |rest|).value);
        assert rest[..n] + rest[n..] == rest;
        PlacedIsMeant(p, Stars(p), rest[..n], rest[n..], s, n == |rest|);
      }
    }
  }

  /** So a plain tail of a pattern ends everything it matches. */
  lemma GlobTail(p: string, t: string, s: string)
    requires Plain(t) && Glob(p + t, s)
    ensures HasSuffix(s, t)
  {
    GlobIsMeant(p + t, s);
    MeantTail(p, t, s);
  }

  // ---- What is meant is found, unless a class takes a slash ----

  /** The first piece of p is this long, whatever it takes. */
  function Length(p: string): (n: Option<nat>)
    ensures n.Some? ==> 0 < n.value <= |p|
  {
    if p == "" || p == "\\" then None
    else if p[0] == '[' then
      match ClassRanges(p, if |p| > 1 && p[1] == '^' then 2 else 1, false, '/')
      case None => None
      case Some((_, end)) => Some(end)
    else if p[0] == '\\' then Some(2)
    else Some(1)
  }

  /** No class of p takes a slash. */
  predicate SlashFree(p: string) {
    match Length(p)
    case None => true
    case Some(n) => (p[0] == '[' ==> Take(p, '/').None?) && SlashFree(p[n..])
  }

  lemma {:induction false} SameClassEnd(p: string, i: nat, any: bool, c: char, d: char)
    requires ClassRanges(p, i, any, c).Some?
    ensures ClassRanges(p, i, any, d).Some? && ClassRanges(p, i, any, d).value.1 == ClassRanges(p, i, any, c).value.1
    decreases |p| - i
  {
    if !(any && p[i] == ']') {
      var (lo, j) := ClassChar(p, i).value;
      var (_, k) := if p[j] == '-' then ClassChar(p, j + 1).value else (lo, j);
      SameClassEnd(p, k, true, c, d);
    }
  }

  lemma PieceLength(p: string, c: char)
    requires Take(p, c).Some?
    ensures Length(p) == Take(p, c)
  {
    if p[0] == '[' { SameClassEnd(p, if |p| > 1 && p[1] == '^' then 2 else 1, false, c, '/'); }
  }

  ghost predicate SlashesAlike(a: string, b: string, n: nat) {
    n <= |a| && n <= |b| && forall j | 0 <= j < n :: a[j] == '/' <==> b[j] == '/'
  }

  lemma AlikeFurther(a: string, b: string, n: nat)
    requires a != "" && b != "" && (a[0] == '/' <==> b[0] == '/') && SlashesAlike(a[1..], b[1..], n)
    ensures SlashesAlike(a, b, n + 1) && a[1..][n..] == a[n + 1..] && b[1..][n..] == b[n + 1..]
  {
    forall j | 1 <= j < n + 1 ensures a[j] == '/' <==> b[j] == '/' {
      assert a[j] == a[1..][j - 1] && b[j] == b[1..][j - 1];
    }
  }

  /** Two matches of one chunk are as long, and have their slashes in the same places. */
  lemma {:induction false} SameSlashes(chunk: string, rest: string, a: string, b: string) returns (n: nat)
    requires MatchChunk(chunk, a).Some? && MatchChunk(chunk, b).Some? && SlashFree(chunk + rest)
    ensures SlashesAlike(a, b, n) && MatchChunk(chunk, a).value == a[n..] && MatchChunk(chunk, b).value == b[n..]
    decreases |chunk|
  {
    if chunk == "" {
      n := 0;
    } else {
      var k := ChunkNext(chunk, a);
      var _ := ChunkNext(chunk, b);
      PieceTakes(chunk, rest, a[0], b[0]);
      n := SameSlashes(chunk[k..], rest, a[1..], b[1..]);
      AlikeFurther(a, b, n);
      n := n + 1;
    }
  }

  lemma {:induction false} RestSlashFree(chunk: string, rest: string, s: string)
    requires MatchChunk(chunk, s).Some? && SlashFree(chunk + rest)
    ensures SlashFree(rest)
    decreases |chunk|
  {
    if chunk == "" {
      assert chunk + rest == rest;
    } else {
      var k := ChunkNext(chunk, s);
      PieceTakes(chunk, rest, s[0], s[0]);
      RestSlashFree(chunk[k..], rest, s[1..]);
    }
  }

  lemma PieceTakes(chunk: string, rest: string, c: char, d: char)
    requires Take(chunk, c).Some? && Take(chunk, d).Some? && SlashFree(chunk + rest)
    ensures Take(chunk, c) == Take(chunk, d) && (c == '/' <==> d == '/')
    ensures SlashFree(chunk[Take(chunk, c).value..] + rest)
  {
    PieceExtends(chunk, rest, c);
    PieceLength(chunk, c);
    PieceLength(chunk, d);
    PieceLength(chunk + rest, c);
    if Take(chunk, '/').Some? { PieceExtends(chunk, rest, '/'); }
  }

  // The scan for chunks and the reading of classes agree.

  /** The first range of a class, and the class after it. */
  lemma FirstRange(p: string, i: nat, any: bool, c: char)
    returns (lo: char, hi: char, j: nat, k: nat, m: bool, end: nat)
    requires ClassRanges(p, i, any, c).Some? && !(any && p[i] == ']')
    ensures ClassChar(p, i) == Some((lo, j)) && k < |p|
    ensures if p[j] == '-' then ClassChar(p, j + 1) == Some((hi, k)) else hi == lo && k == j
    ensures ClassRanges(p, k, true, c) == Some((m, end))
    ensures ClassRanges(p, i, any, c) == Some((lo <= c <= hi || m, end))
  {
    lo, j := ClassChar(p, i).value.0, ClassChar(p, i).value.1;
    hi, k := lo, j;
    if p[j] == '-' {
      hi, k := ClassChar(p, j + 1).value.0, ClassChar(p, j + 1).value.1;
    }
    m, end := ClassRanges(p, k, true, c).value.0, ClassRanges(p, k, true, c).value.1;
  }

  lemma RangeAndRest(p: string, i: nat, any: bool, c: char, lo: char, hi: char, j: nat, k: nat, m: bool, end: nat)
    requires i < |p| && p[i] != ']' && ClassChar(p, i) == Some((lo, j)) && k < |p|
    requires if p[j] == '-' then ClassChar(p, j + 1) == Some((hi, k)) else hi == lo && k == j
    requires ClassRanges(p, k, true, c) == Some((m, end))
    ensures ClassRanges(p, i, any, c) == Some((lo <= c <= hi || m, end))
  {
  }

  lemma CharScan(p: string, i: nat)
    requires ClassChar(p, i).Some?
    ensures ChunkEnd(p, i, true) == ChunkEnd(p, ClassChar(p, i).value.1, true)
  {
  }

  lemma {:induction false} ClassScan(p: string, i: nat, any: bool, c: char, end: nat)
    requires ClassRanges(p, i, any, c).Some? && ClassRanges(p, i, any, c).value.1 == end
    ensures ChunkEnd(p, i, true) == ChunkEnd(p, end, false)
    decreases |p| - i
  {
    if !(any && p[i] == ']') {
      var lo, hi, j, k, m, e := FirstRange(p, i, any, c);
      CharScan(p, i);
      if p[j] == '-' { CharScan(p, j + 1); }
      ClassScan(p, k, true, c, end);
    }
  }

  lemma PieceScan(p: string, c: char)
    requires Take(p, c).Some? && p[0] != '*'
    ensures ChunkEnd(p, 0, false) == ChunkEnd(p, Take(p, c).value, false)
  {
    if p[0] == '[' {
      var i := if |p| > 1 && p[1] == '^' then 2 else 1;
      assert ChunkEnd(p, 1, true) == ChunkEnd(p, i, true);
      ClassScan(p, i, false, c, Take(p, c).value);
    }
  }

  lemma {:induction false} ScanFrom(p: string, k: nat, i: nat, inClass: bool)
    requires k + i <= |p|
    ensures ChunkEnd(p, k + i, inClass) == k + ChunkEnd(p[k..], i, inClass)
    decreases |p| - k - i
  {
    if k + i < |p| {
      assert p[k..][i] == p[k + i];
      if p[k + i] == '\\' && k + i + 1 < |p| {
        ScanFrom(p, k, i + 2, inClass);
      } else {
        ScanFrom(p, k, i + 1, if p[k + i] == '[' then true else if p[k + i] == ']' then false else inClass);
      }
    }
  }

  lemma CharPrefix(p: string, e: nat, i: nat)
    requires ClassChar(p, i).Some? && ClassChar(p, i).value.1 < e <= |p|
    ensures ClassChar(p[..e], i) == ClassChar(p, i)
  {
  }

  lemma {:induction false} ClassPrefix(p: string, e: nat, i: nat, any: bool, c: char)
    requires ClassRanges(p, i, any, c).Some? && ClassRanges(p, i, any, c).value.1 <= e <= |p|
    ensures ClassRanges(p[..e], i, any, c) == ClassRanges(p, i, any, c)
    decreases |p| - i
  {
    if !(any && p[i] == ']') {
      var lo, hi, j, k, m, end := FirstRange(p, i, any, c);
      ClassPrefix(p, e, k, true, c);
      CharPrefix(p, e, i);
      if p[j] == '-' { CharPrefix(p, e, j + 1); }
      RangeAndRest(p[..e], i, any, c, lo, hi, j, k, m, end);
    }
  }

  lemma PiecePrefix(p: string, e: nat, c: char)
    requires Take(p, c).Some? && Take(p, c).value <= e <= |p|
    ensures Take(p[..e], c) == Take(p, c)
  {
    if p[0] == '[' { ClassPrefix(p, e, if |p| > 1 && p[1] == '^' then 2 else 1, false, c); }
  }

  lemma Slices(p: string, n: nat, k: nat)
    requires k <= n <= |p|
    ensures p[..n][k..] == p[k..][..n - k] && p[k..][n - k..] == p[n..]
  {
  }

  lemma MeantPiece(p: string, s: string) returns (k: nat)
    requires Meant(p, s) && p != "" && p[0] != '*'
    ensures s != "" && Take(p, s[0]) == Some(k) && Meant(p[k..], s[1..])
  {
    k := Take(p, s[0]).value;
  }

  lemma ChunkFirst(chunk: string, s: string, k: nat)
    requires chunk != "" && s != "" && Take(chunk, s[0]) == Some(k)
    ensures MatchChunk(chunk, s) == MatchChunk(chunk[k..], s[1..])
  {
  }

  /** The first piece is within the first chunk, and the rest of that chunk is the first of the
      rest. */
  lemma FirstPiece(p: string, c: char, n: nat, k: nat)
    requires Take(p, c) == Some(k) && p[0] != '*' && n == ChunkEnd(p, 0, false)
    ensures k <= n && Take(p[..n], c) == Some(k) && n - k == ChunkEnd(p[k..], 0, false)
  {
    PieceScan(p, c);
    PiecePrefix(p, n, c);
    ScanFrom(p, k, 0, false);
  }

  /** What is meant begins with a match of the first chunk. */
  lemma {:induction false} MeantIsChunk(p: string, s: string, n: nat)
    requires Meant(p, s) && n == ChunkEnd(p, 0, false)
    ensures MatchChunk(p[..n], s).Some? && Meant(p[n..], MatchChunk(p[..n], s).value)
    decreases |p|
  {
    if n == 0 {
      assert p[0..] == p;
    } else {
      var k := MeantPiece(p, s);
      FirstPiece(p, s[0], n, k);
      MeantIsChunk(p[k..], s[1..], n - k);
      Slices(p, n, k);
      ChunkFirst(p[..n], s, k);
    }
  }

  /** Of two places for a chunk with no slash between them, nothing up to the end of the
      later one is a slash. */
  lemma {:induction false} NoSlashUpTo(s: string, k: nat, n: nat, j: nat)
    requires k > 0 && k <= |s| && '/' !in s[..k] && SlashesAlike(s, s[k..], n) && j < n + k
    ensures s[j] != '/'
    decreases j
  {
    if j < k {
      assert s[j] == s[..k][j];
    } else {
      NoSlashUpTo(s, k, n, j - k);
      assert s[k..][j - k] == s[j];
    }
  }

  lemma NoSlashBetween(s: string, k: nat, n: nat)
    requires k > 0 && k <= |s| && '/' !in s[..k] && SlashesAlike(s, s[k..], n)
    ensures n + k <= |s| && '/' !in s[n..n + k] && s[n..] == s[n..n + k] + s[k..][n..]
  {
    forall j | n <= j < n + k ensures s[j] != '/' { NoSlashUpTo(s, k, n, j); }
  }

  /** The first place serves as well as any later one. */
  lemma FirstPlaceServes(chunk: string, rest: string, s: string, k: nat, t: string)
    requires SlashFree(chunk + rest) && rest != "" && rest[0] == '*' && 0 < k <= |s| && '/' !in s[..k]
    requires MatchChunk(chunk, s).Some? && MatchChunk(chunk, s[k..]) == Some(t) && Meant(rest, t)
    ensures Meant(rest, MatchChunk(chunk, s).value)
  {
    var n := SameSlashes(chunk, rest, s, s[k..]);
    NoSlashBetween(s, k, n);
    StarTakes(rest, s[n..n + k], t);
  }

  lemma PlacedHere(chunk: string, s: string, star: bool, last: bool)
    requires MatchChunk(chunk, s).Some? && (MatchChunk(chunk, s).value == "" || !last)
    ensures PlaceChunk(chunk, s, star, last) == MatchChunk(chunk, s)
  {
  }

  lemma PlacedLater(chunk: string, s: string, last: bool)
    requires MatchChunk(chunk, s).None? || (MatchChunk(chunk, s).value != "" && last)
    requires s != "" && s[0] != '/'
    ensures PlaceChunk(chunk, s, true, last) == PlaceChunk(chunk, s[1..], true, last)
  {
  }

  /** The chunk goes somewhere, and what comes after it is meant there. */
  ghost predicate Found(chunk: string, rest: string, s: string, star: bool) {
    var t := PlaceChunk(chunk, s, star, rest == ""); t.Some? && Meant(rest, t.value)
  }

  lemma FoundHere(chunk: string, rest: string, s: string, star: bool, t: string)
    requires MatchChunk(chunk, s) == Some(t) && Meant(rest, t)
    ensures Found(chunk, rest, s, star)
  {
    PlacedHere(chunk, s, star, rest == "");
  }

  lemma FoundLater(chunk: string, rest: string, s: string, k: nat, t: string)
    requires SlashFree(chunk + rest) && (rest != "" ==> rest[0] == '*') && 0 < k <= |s| && '/' !in s[..k]
    requires MatchChunk(chunk, s[k..]) == Some(t) && Meant(rest, t) && Found(chunk, rest, s[1..], true)
    ensures Found(chunk, rest, s, true)
  {
    var here := MatchChunk(chunk, s);
    assert s[0] in s[..k];
    if here.None? || (here.value != "" && rest == "") {
      PlacedLater(chunk, s, rest == "");
    } else if rest != "" {
      FirstPlaceServes(chunk, rest, s, k, t);
      FoundHere(chunk, rest, s, true, here.value);
    } else {
      FoundHere(chunk, rest, s, true, "");
    }
  }

  lemma {:induction false} PlaceFinds(chunk: string, rest: string, s: string, star: bool, k: nat, t: string)
    requires SlashFree(chunk + rest) && (rest != "" ==> rest[0] == '*')
    requires k <= |s| && '/' !in s[..k] && (k > 0 ==> star)
    requires MatchChunk(chunk, s[k..]) == Some(t) && Meant(rest, t)
    ensures Found(chunk, rest, s, star)
    decreases k
  {
    if k == 0 {
      assert s[0..] == s;
      FoundHere(chunk, rest, s, star, t);
    } else {
      OneFurther(s, k - 1);
      PlaceFinds(chunk, rest, s[1..], star, k - 1, t);
      FoundLater(chunk, rest, s, k, t);
    }
  }

  /** Stars in front stand for some stretch without a slash. */
  lemma {:induction false} StarsSkip(p: string, n: nat, s: string) returns (k: nat)
    requires n <= |p| && (forall i | 0 <= i < n :: p[i] == '*') && Meant(p, s)
    ensures k <= |s| && '/' !in s[..k] && (k > 0 ==> n > 0) && Meant(p[n..], s[k..])
    decreases n, |s|
  {
    if n == 0 {
      k := 0;
      assert p[0..] == p && s[0..] == s;
    } else if Meant(p[1..], s) {
      k := StarsSkip(p[1..], n - 1, s);
      assert p[1..][n - 1..] == p[n..];
    } else {
      k := StarsSkip(p, n, s[1..]);
      OneFurther(s, k);
      k := k + 1;
    }
  }

  lemma {:induction false} StarsSlashFree(p: string, n: nat)
    requires n <= |p| && (forall i | 0 <= i < n :: p[i] == '*') && SlashFree(p)
    ensures SlashFree(p[n..])
    decreases n
  {
    if n == 0 {
      assert p[0..] == p;
    } else {
      StarsSlashFree(p[1..], n - 1);
      assert p[1..][n - 1..] == p[n..];
    }
  }

  lemma ChunkIsPlaced(chunk: string, tail: string, s: string, star: bool, k: nat)
    requires SlashFree(chunk + tail) && |chunk| == ChunkEnd(chunk + tail, 0, false)
    requires k <= |s| && '/' !in s[..k] && (k > 0 ==> star) && Meant(chunk + tail, s[k..])
    ensures var t := PlaceChunk(chunk, s, star, tail == "");
            t.Some? && Meant(tail, t.value) && SlashFree(tail)
  {
    MeantIsChunk(chunk + tail, s[k..], |chunk|);
    assert (chunk + tail)[..|chunk|] == chunk && (chunk + tail)[|chunk|..] == tail;
    RestSlashFree(chunk, tail, s[k..]);
    assert tail != "" ==> (chunk + tail)[|chunk|] == tail[0];
    PlaceFinds(chunk, tail, s, star, k, MatchChunk(chunk, s[k..]).value);
  }

  lemma MeantIsPlaced(p: string, s: string, rest: string, n: nat)
    requires p != "" && rest == p[Stars(p)..] && rest != "" && n == ChunkEnd(rest, 0, false)
    requires SlashFree(p) && Meant(p, s)
    ensures var t := PlaceChunk(rest[..n], s, Stars(p) > 0, n == |rest|);
            t.Some? && Meant(rest[n..], t.value) && SlashFree(rest[n..])
  {
    var k := StarsSkip(p, Stars(p), s);
    StarsSlashFree(p, Stars(p));
    assert rest[..n] + rest[n..] == rest;
    ChunkIsPlaced(rest[..n], rest[n..], s, Stars(p) > 0, k);
  }

  /** path.Match never goes back on the place it gave a chunk. Still, unless a class takes a
      slash, it accepts everything that is meant. */
  lemma {:induction false} MeantIsFound(p: string, s: string)
    requires SlashFree(p) && Meant(p, s)
    ensures Glob(p, s)
    decreases |p|
  {
    if p != "" {
      var rest := p[Stars(p)..];
      if rest == "" {
        StarsOnly(p, s);
      } else {
        var n := ChunkEnd(rest, 0, false);
        GlobStep(p, s, rest, n);
        MeantIsPlaced(p, s, rest, n);
        MeantIsFound(rest[n..], PlaceChunk(rest[..n], s, Stars(p) > 0, n == |rest|).value);
      }
    }
  }

  lemma GlobIff(p: string, s: string)
    requires SlashFree(p)
    ensures Glob(p, s) <==> Meant(p, s)
  {
    if Glob(p, s) { GlobIsMeant(p, s); }
    if Meant(p, s) { MeantIsFound(p, s); }
  }

  lemma {:induction false} PlainSlashFree(t: string)
    requires Plain(t)
    ensures SlashFree(t)
    decreases |t|
  {
    if t != "" { PlainSlashFree(t[1..]); }
  }

  /** A plain pattern matches itself alone. */
  lemma PlainGlob(t: string, s: string)
    requires Plain(t)
    ensures Glob(t, s) <==> t == s
  {
    PlainSlashFree(t);
    GlobIff(t, s);
    PlainMeant(t, s);
  }
}
