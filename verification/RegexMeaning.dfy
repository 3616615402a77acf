/** What the converter's regular expression means: a small regular-expression
    language with RE2's reading of its text, enough for the shape that
    parseImportedSuffixRegex replaces by suffix matching. */
module RegexMeaning {
  import opened GoStrings
  import opened SuffixRegex

  datatype Re =
    | Empty
    | Begin
    | End
    | Char(c: char)
    | Cat(first: Re, rest: Re)
    | Alt(left: Re, right: Re)

  // ---- Reading the text ----

  /** A character that RE2 reads as itself outside a class. */
  predicate Ordinary(c: char) {
    c != '\\' && c != '.' && c != '+' && c != '*' && c != '?' && c != '(' && c != ')' && c != '|'
    && c != '[' && c != ']' && c != '{' && c != '}' && c != '^' && c != '$'
  }

  const GROUP := "(?:"

  function ParseAtom(p: string): (r: Option<(Re, string)>)
    ensures r.Some? ==> |r.value.1| < |p|
    decreases |p|, 0
  {
    if p == "" then None
    else if p[0] == '^' then Some((Begin, p[1..]))
    else if p[0] == '$' then Some((End, p[1..]))
    else if p[0] == '\\' then
      // RE2 takes a backslash before punctuation as that character.
      if |p| > 1 && !Ordinary(p[1]) then Some((Char(p[1]), p[2..])) else None
    else if HasPrefix(p, GROUP) then
      match ParseAlt(p[3..])
      case None => None
      case Some((re, rest)) =>
        if rest != "" && rest[0] == ')' then Some((re, rest[1..])) else None
    else if Ordinary(p[0]) then Some((Char(p[0]), p[1..]))
    else None
  }

  function ParseCat(p: string): (r: Option<(Re, string)>)
    ensures r.Some? ==> |r.value.1| <= |p|
    decreases |p|, 1
  {
    if p == "" || p[0] == '|' || p[0] == ')' then Some((Empty, p))
    else
      match ParseAtom(p)
      case None => None
      case Some((a, rest)) =>
        match ParseCat(rest)
        case None => None
        case Some((b, rest')) => Some((Cat(a, b), rest'))
  }

  function ParseAlt(p: string): (r: Option<(Re, string)>)
    ensures r.Some? ==> |r.value.1| <= |p|
    decreases |p|, 2
  {
    match ParseCat(p)
    case None => None
    case Some((a, rest)) =>
      if rest == "" || rest[0] != '|' then Some((a, rest))
      else
        match ParseAlt(rest[1..])
        case None => None
        case Some((b, rest')) => Some((Alt(a, b), rest'))
  }

  const FOLD := "(?i)"

  /** A whole expression: whether it ignores case, and its tree. */
  function Parse(p: string): Option<(bool, Re)> {
    var fold := HasPrefix(p, FOLD);
    match ParseAlt(if fold then p[4..] else p)
    case None => None
    case Some((re, rest)) => if rest == "" then Some((fold, re)) else None
  }

  // ---- Meaning ----

  /** re can consume s[i..j]. */
  ghost predicate Consumes(re: Re, fold: bool, s: string, i: nat, j: nat)
    requires i <= j <= |s|
  {
    match re
    case Empty => i == j
    case Begin => i == j == 0
    case End => i == j == |s|
    case Char(c) => j == i + 1 && (s[i] == c || (fold && LowerChar(s[i]) == LowerChar(c)))
    case Cat(a, b) =>
      exists k :: i <= k <= j && Consumes(a, fold, s, i, k) && Consumes(b, fold, s, k, j)
    case Alt(a, b) => Consumes(a, fold, s, i, j) || Consumes(b, fold, s, i, j)
  }

  /** regexp.MatchString: an unanchored search. */
  ghost predicate Matches(pattern: string, s: string) {
    Parse(pattern).Some? &&
    exists i, j :: 0 <= i <= j <= |s| && Consumes(Parse(pattern).value.1, Parse(pattern).value.0, s, i, j)
  }

  // ---- The tree of the converter's pattern ----

  function Literal(h: string): Re {
    if h == "" then Empty else Cat(Char(h[0]), Literal(h[1..]))
  }

  function AnyOf(hosts: seq<string>): Re
    requires hosts != []
  {
    if |hosts| == 1 then Literal(hosts[0]) else Alt(Literal(hosts[0]), AnyOf(hosts[1..]))
  }

  const ATLABEL := Alt(Cat(Begin, Empty), Cat(Char('.'), Empty))

  function Tree(hosts: seq<string>): Re
    requires hosts != []
  {
    Cat(ATLABEL, Cat(AnyOf(hosts), Cat(End, Empty)))
  }

  predicate Stops(rest: string) {
    rest != "" && (rest[0] == '|' || rest[0] == ')')
  }

  lemma ParseDot(tail: string)
    ensures ParseAtom("\\." + tail) == Some((Char('.'), tail))
  {
    assert ("\\." + tail)[2..] == tail;
  }

  lemma ParseOrdinary(c: char, tail: string)
    requires LabelChar(c)
    ensures ParseAtom([c] + tail) == Some((Char(c), tail))
  {
    assert ([c] + tail)[1..] == tail;
  }

  lemma ParseStep(p: string, a: Re, tail: string, b: Re, rest: string)
    requires p != "" && p[0] != '|' && p[0] != ')'
    requires ParseAtom(p) == Some((a, tail))
    requires ParseCat(tail) == Some((b, rest))
    ensures ParseCat(p) == Some((Cat(a, b), rest))
  {
  }

  lemma AtomAhead(h: string, rest: string)
    requires h != ""
    ensures RegexAtom(h) + rest == (if h[0] == '.' then "\\." else [h[0]]) + (RegexAtom(h[1..]) + rest)
  {
    Reassociate(if h[0] == '.' then "\\." else [h[0]], RegexAtom(h[1..]), rest, "");
  }

  lemma ParseFirst(h: string, rest: string)
    requires h != "" && HostChars(h)
    ensures var p := RegexAtom(h) + rest;
            p != "" && p[0] != '|' && p[0] != ')' && ParseAtom(p) == Some((Char(h[0]), RegexAtom(h[1..]) + rest))
  {
    AtomAhead(h, rest);
    if h[0] == '.' {
      ParseDot(RegexAtom(h[1..]) + rest);
    } else {
      ParseOrdinary(h[0], RegexAtom(h[1..]) + rest);
    }
  }

  lemma {:induction false} ParseLiteral(h: string, rest: string)
    requires HostChars(h) && Stops(rest)
    ensures ParseCat(RegexAtom(h) + rest) == Some((Literal(h), rest))
    decreases |h|
  {
    if h == "" {
      assert RegexAtom(h) + rest == rest;
    } else {
      ParseLiteral(h[1..], rest);
      ParseFirst(h, rest);
      ParseStep(RegexAtom(h) + rest, Char(h[0]), RegexAtom(h[1..]) + rest, Literal(h[1..]), rest);
    }
  }

  lemma {:induction false} ParseAnyOf(hosts: seq<string>, rest: string)
    requires hosts != [] && forall i | 0 <= i < |hosts| :: HostChars(hosts[i])
    requires rest != "" && rest[0] == ')'
    ensures ParseAlt(Join(Atoms(hosts), '|') + rest) == Some((AnyOf(hosts), rest))
    decreases |hosts|
  {
    if |hosts| == 1 {
      ParseLiteral(hosts[0], rest);
    } else {
      ParseAnyOf(hosts[1..], rest);
      var tail := Join(Atoms(hosts[1..]), '|') + rest;
      JoinFirst(hosts, rest);
      ParseLiteral(hosts[0], "|" + tail);
      ParseAltStep(RegexAtom(hosts[0]) + ("|" + tail), Literal(hosts[0]), tail, AnyOf(hosts[1..]), rest);
    }
  }

  lemma JoinFirst(hosts: seq<string>, rest: string)
    requires |hosts| > 1
    ensures Join(Atoms(hosts), '|') + rest == RegexAtom(hosts[0]) + ("|" + (Join(Atoms(hosts[1..]), '|') + rest))
  {
    var atoms := Atoms(hosts);
    assert atoms[1..] == Atoms(hosts[1..]);
    assert Join(atoms, '|') == atoms[0] + "|" + Join(atoms[1..], '|');
    Reassociate(atoms[0], "|", Join(atoms[1..], '|'), rest);
  }

  lemma ParseAltStep(p: string, a: Re, tail: string, b: Re, rest: string)
    requires ParseCat(p) == Some((a, "|" + tail)) && ParseAlt(tail) == Some((b, rest))
    ensures ParseAlt(p) == Some((Alt(a, b), rest))
  {
    assert ("|" + tail)[1..] == tail;
  }

  lemma ParseAtLabel(rest: string)
    ensures ParseAtom("(?:^|\\.)" + rest) == Some((ATLABEL, rest))
  {
    var p := "(?:^|\\.)" + rest;
    var close := ")" + rest;
    assert p[3..] == "^|\\." + close;
    assert ("^|\\." + close)[1..] == "|\\." + close;
    assert ParseCat("|\\." + close) == Some((Empty, "|\\." + close));
    assert ("|\\." + close)[1..] == "\\." + close;
    assert ("\\." + close)[2..] == close;
    assert ParseCat(close) == Some((Empty, close));
    assert ParseAtom("\\." + close) == Some((Char('.'), close));
    assert ParseCat("\\." + close) == Some((Cat(Char('.'), Empty), close));
    assert ParseAlt("\\." + close) == Some((Cat(Char('.'), Empty), close));
    assert ParseCat("^|\\." + close) == Some((Cat(Begin, Empty), "|\\." + close));
    assert ParseAlt("^|\\." + close) == Some((ATLABEL, close));
    assert close[1..] == rest;
  }

  lemma ParseGroup(body: string, re: Re, rest: string)
    requires ParseAlt(body + ")" + rest) == Some((re, ")" + rest))
    ensures ParseAtom(GROUP + body + ")" + rest) == Some((re, rest))
  {
    var p := GROUP + body + ")" + rest;
    assert p[..3] == GROUP && p[0] == '(';
    assert p[3..] == body + ")" + rest;
    assert (")" + rest)[1..] == rest;
  }

  lemma ParseDollar()
    ensures ParseCat("$") == Some((Cat(End, Empty), ""))
  {
    assert "$"[1..] == "";
    ParseStep("$", End, "", Empty, "");
  }

  lemma ParseAnchoredGroup(body: string, re: Re)
    requires ParseAlt(body + ")$") == Some((re, ")$"))
    ensures ParseCat(GROUP + body + ")$") == Some((Cat(re, Cat(End, Empty)), ""))
  {
    assert body + ")" + "$" == body + ")$" && ")" + "$" == ")$";
    assert GROUP + body + ")" + "$" == GROUP + body + ")$";
    ParseGroup(body, re, "$");
    ParseDollar();
    ParseStep(GROUP + body + ")$", re, "$", Cat(End, Empty), "");
  }

  /** RE2 reads the printed pattern as the tree above, ignoring case. */
  lemma ParseHostRegex(hosts: seq<string>)
    requires hosts != [] && forall i | 0 <= i < |hosts| :: HostChars(hosts[i])
    ensures Parse(HostRegex(hosts)) == Some((true, Tree(hosts)))
  {
    var p := HostRegex(hosts);
    var alternatives := "(?:" + Join(Atoms(hosts), '|') + ")$";
    var q := "(?:^|\\.)" + alternatives;
    assert p == FOLD + q;
    assert p[..4] == FOLD && p[4..] == q;
    ParseAtLabel(alternatives);
    ParseAnyOf(hosts, ")$");
    ParseAnchoredGroup(Join(Atoms(hosts), '|'), AnyOf(hosts));
    ParseStep(q, ATLABEL, alternatives, Cat(AnyOf(hosts), Cat(End, Empty)), "");
  }

  // ---- Its meaning is suffix matching ----

  lemma CatSplit(a: Re, b: Re, fold: bool, s: string, i: nat, j: nat) returns (k: nat)
    requires i <= j <= |s| && Consumes(Cat(a, b), fold, s, i, j)
    ensures i <= k <= j && Consumes(a, fold, s, i, k) && Consumes(b, fold, s, k, j)
  {
    k :| i <= k <= j && Consumes(a, fold, s, i, k) && Consumes(b, fold, s, k, j);
  }

  lemma CatJoin(a: Re, b: Re, fold: bool, s: string, i: nat, k: nat, j: nat)
    requires i <= k <= j <= |s| && Consumes(a, fold, s, i, k) && Consumes(b, fold, s, k, j)
    ensures Consumes(Cat(a, b), fold, s, i, j)
  {
  }

  lemma {:induction false} ConsumesLiteral(h: string, s: string, i: nat, j: nat)
    requires i <= j <= |s|
    ensures Consumes(Literal(h), true, s, i, j) <==> j - i == |h| && EqualFold(s[i..j], h)
    decreases |h|
  {
    if h == "" {
      if i == j { assert s[i..j] == ""; }
    } else {
      if i < j {
        ConsumesLiteral(h[1..], s, i + 1, j);
        assert s[i..j] == [s[i]] + s[i + 1..j];
        assert h == [h[0]] + h[1..];
        FoldCons(s[i], s[i + 1..j], h[0], h[1..]);
      }
      if Consumes(Literal(h), true, s, i, j) {
        var k := CatSplit(Char(h[0]), Literal(h[1..]), true, s, i, j);
      }
      if j - i == |h| && EqualFold(s[i..j], h) {
        CatJoin(Char(h[0]), Literal(h[1..]), true, s, i, i + 1, j);
      }
    }
  }

  lemma FoldCons(a: char, s: string, b: char, t: string)
    ensures EqualFold([a] + s, [b] + t) <==> LowerChar(a) == LowerChar(b) && EqualFold(s, t)
  {
    var x, y := Lower([a] + s), Lower([b] + t);
    assert ([a] + s)[1..] == s && ([b] + t)[1..] == t;
    assert x == [LowerChar(a)] + Lower(s) && y == [LowerChar(b)] + Lower(t);
    if x == y { assert x[0] == y[0] && x[1..] == y[1..]; }
  }

  lemma {:induction false} ConsumesAnyOf(hosts: seq<string>, s: string, i: nat, j: nat)
    requires hosts != [] && i <= j <= |s|
    ensures Consumes(AnyOf(hosts), true, s, i, j)
            <==> exists k | 0 <= k < |hosts| :: j - i == |hosts[k]| && EqualFold(s[i..j], hosts[k])
    decreases |hosts|
  {
    ConsumesLiteral(hosts[0], s, i, j);
    if |hosts| > 1 {
      ConsumesAnyOf(hosts[1..], s, i, j);
      if exists k | 0 <= k < |hosts| :: j - i == |hosts[k]| && EqualFold(s[i..j], hosts[k]) {
        var k :| 0 <= k < |hosts| && j - i == |hosts[k]| && EqualFold(s[i..j], hosts[k]);
        if k > 0 { assert hosts[1..][k - 1] == hosts[k]; }
      }
      if exists k | 0 <= k < |hosts| - 1 :: j - i == |hosts[1..][k]| && EqualFold(s[i..j], hosts[1..][k]) {
        var k :| 0 <= k < |hosts| - 1 && j - i == |hosts[1..][k]| && EqualFold(s[i..j], hosts[1..][k]);
        assert hosts[1..][k] == hosts[k + 1];
      }
    }
  }

  lemma ConsumesAtLabel(s: string, i: nat, j: nat)
    requires i <= j <= |s|
    ensures Consumes(ATLABEL, true, s, i, j)
            <==> (i == 0 && j == 0) || (j == i + 1 && s[i] == '.')
  {
    if Consumes(Cat(Begin, Empty), true, s, i, j) {
      var k := CatSplit(Begin, Empty, true, s, i, j);
    }
    if Consumes(Cat(Char('.'), Empty), true, s, i, j) {
      var k := CatSplit(Char('.'), Empty, true, s, i, j);
    }
    if i == 0 && j == 0 { CatJoin(Begin, Empty, true, s, 0, 0, 0); }
    if j == i + 1 && s[i] == '.' { CatJoin(Char('.'), Empty, true, s, i, j, j); }
  }

  lemma ConsumesEnd(s: string, i: nat, j: nat)
    requires i <= j <= |s|
    ensures Consumes(Cat(End, Empty), true, s, i, j) <==> i == j == |s|
  {
    if Consumes(Cat(End, Empty), true, s, i, j) {
      var k := CatSplit(End, Empty, true, s, i, j);
    }
    if i == j == |s| { CatJoin(End, Empty, true, s, i, i, j); }
  }

  lemma ConsumesHosts(hosts: seq<string>, s: string, i: nat, j: nat)
    requires hosts != [] && i <= j <= |s|
    ensures Consumes(Cat(AnyOf(hosts), Cat(End, Empty)), true, s, i, j)
            <==> j == |s| && exists k | 0 <= k < |hosts| :: |s| - i == |hosts[k]| && EqualFold(s[i..], hosts[k])
  {
    assert s[i..] == s[i..|s|];
    ConsumesAnyOf(hosts, s, i, |s|);
    ConsumesEnd(s, |s|, |s|);
    if Consumes(Cat(AnyOf(hosts), Cat(End, Empty)), true, s, i, j) {
      var m := CatSplit(AnyOf(hosts), Cat(End, Empty), true, s, i, j);
      ConsumesEnd(s, m, j);
    }
    if Consumes(AnyOf(hosts), true, s, i, |s|) {
      CatJoin(AnyOf(hosts), Cat(End, Empty), true, s, i, |s|, |s|);
    }
  }

  lemma TreeToSuffix(hosts: seq<string>, s: string, i: nat, j: nat)
    requires hosts != [] && i <= j <= |s|
    requires Consumes(Tree(hosts), true, s, i, j)
    ensures SuffixMatches(hosts, s)
  {
    var rest := Cat(AnyOf(hosts), Cat(End, Empty));
    var m := CatSplit(ATLABEL, rest, true, s, i, j);
    ConsumesAtLabel(s, i, m);
    ConsumesHosts(hosts, s, m, j);
    var k :| 0 <= k < |hosts| && |s| - m == |hosts[k]| && EqualFold(s[m..], hosts[k]);
    if m == 0 { assert s[0..] == s; }
    assert HostUnder(s, hosts[k]);
  }

  lemma SuffixToTree(hosts: seq<string>, s: string) returns (i: nat)
    requires hosts != [] && SuffixMatches(hosts, s)
    ensures i <= |s| && Consumes(Tree(hosts), true, s, i, |s|)
  {
    var k :| 0 <= k < |hosts| && HostUnder(s, hosts[k]);
    var m := |s| - |hosts[k]|;
    i := if m == 0 then 0 else m - 1;
    if m == 0 { assert s[0..] == s; }
    ConsumesAtLabel(s, i, m);
    ConsumesHosts(hosts, s, m, |s|);
    CatJoin(ATLABEL, Cat(AnyOf(hosts), Cat(End, Empty)), true, s, i, m, |s|);
  }

  /** The recogniser is an optimisation only: on every host, the suffix matcher it
      builds accepts exactly what the regular expression accepts. */
  lemma SuffixMatcherIsTheRegex(pattern: string, s: string)
    requires RecognisedHosts(pattern).Some?
    ensures Matches(pattern, s) <==> SuffixMatches(RecognisedHosts(pattern).value, s)
  {
    var hosts := RecognisedHosts(pattern).value;
    RecognisedIffPrinted(pattern, hosts);
    forall i | 0 <= i < |hosts| ensures HostChars(hosts[i]) { ValidHostChars(hosts[i]); }
    ParseHostRegex(hosts);
    if Matches(pattern, s) {
      var i, j :| 0 <= i <= j <= |s| && Consumes(Tree(hosts), true, s, i, j);
      TreeToSuffix(hosts, s, i, j);
    }
    if SuffixMatches(hosts, s) {
      var i := SuffixToTree(hosts, s);
    }
  }
}
