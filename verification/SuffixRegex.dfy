/** The one regular-expression shape shared by the list converter, which prints it
    (host_regex), and the rule compiler, which recognises it and replaces it by
    plain suffix matching (parseImportedSuffixRegex). */
module SuffixRegex {
  import opened GoStrings

  // ---- Host names ----

  predicate LabelChar(c: char) {
    'a' <= c <= 'z' || '0' <= c <= '9' || c == '-'
  }

  /** isLiteralDNSLabel. */
  predicate LiteralLabel(l: string) {
    l != "" && l[0] != '-' && l[|l| - 1] != '-' && forall i | 0 <= i < |l| :: LabelChar(l[i])
  }

  /** A name the converter emits and the compiler accepts: two or more literal labels. */
  predicate ValidHost(h: string) {
    var labels := Split(h, '.');
    |labels| >= 2 && forall i | 0 <= i < |labels| :: LiteralLabel(labels[i])
  }

  predicate HostChars(h: string) {
    forall i | 0 <= i < |h| :: h[i] == '.' || LabelChar(h[i])
  }

  lemma {:induction false} JoinChars(labels: seq<string>)
    requires forall i | 0 <= i < |labels| :: LiteralLabel(labels[i])
    ensures HostChars(Join(labels, '.'))
    ensures labels != [] ==> DotFreeEnds(Join(labels, '.'))
    decreases |labels|
  {
    if |labels| > 1 { JoinChars(labels[1..]); }
  }

  predicate DotFreeEnds(h: string) {
    h != "" && h[0] != '.' && h[|h| - 1] != '.'
  }

  lemma ValidHostChars(h: string)
    requires ValidHost(h)
    ensures HostChars(h) && DotFreeEnds(h)
  {
    JoinOfSplit(h, '.');
    JoinChars(Split(h, '.'));
  }

  // ---- Printing ----

  /** regex_atom: every dot escaped. */
  function RegexAtom(h: string): string {
    if h == "" then "" else (if h[0] == '.' then "\\." else [h[0]]) + RegexAtom(h[1..])
  }

  function Atoms(hosts: seq<string>): (r: seq<string>)
    ensures |r| == |hosts|
    ensures forall i | 0 <= i < |hosts| :: r[i] == RegexAtom(hosts[i])
  {
    if hosts == [] then [] else [RegexAtom(hosts[0])] + Atoms(hosts[1..])
  }

  const PREFIX := "(?i)(?:^|\\.)(?:"
  const SUFFIX := ")$"

  /** host_regex, without its "re:" marker. */
  function HostRegex(hosts: seq<string>): string {
    PREFIX + Join(Atoms(hosts), '|') + SUFFIX
  }

  // ---- Recognising ----

  /** The inverse of RegexAtom, on the characters the recogniser lets through. */
  function Unescape(atom: string): Option<string>
    decreases |atom|
  {
    if atom == "" then Some("")
    else if atom[0] == '\\' && |atom| > 1 && atom[1] == '.' then Cons('.', Unescape(atom[2..]))
    else if LabelChar(atom[0]) then Cons(atom[0], Unescape(atom[1..]))
    else None
  }

  function Cons(c: char, rest: Option<string>): Option<string> {
    match rest case None => None case Some(s) => Some([c] + s)
  }

  function HostOfAtom(atom: string): Option<string> {
    match Unescape(atom)
    case None => None
    case Some(h) => if ValidHost(h) then Some(h) else None
  }

  function HostsOfAtoms(atoms: seq<string>): (r: Option<seq<string>>)
    ensures r.Some? ==> |r.value| == |atoms|
    ensures r.Some? <==> forall i | 0 <= i < |atoms| :: HostOfAtom(atoms[i]).Some?
    ensures r.Some? ==> forall i | 0 <= i < |atoms| :: HostOfAtom(atoms[i]) == Some(r.value[i])
  {
    if atoms == [] then Some([])
    else
      match HostOfAtom(atoms[0])
      case None => None
      case Some(h) =>
        match HostsOfAtoms(atoms[1..])
        case None => None
        case Some(hs) => Some([h] + hs)
  }

  /** The text between the fixed prefix and suffix of a pattern that has both. */
  function Body(pattern: string): Option<string> {
    if !HasPrefix(pattern, PREFIX) || !HasSuffix(pattern, SUFFIX) then None
    else
      var rest := pattern[|PREFIX|..];
      Some(if HasSuffix(rest, SUFFIX) then rest[..|rest| - |SUFFIX|] else rest)
  }

  /** What parseImportedSuffixRegex returns. */
  function RecognisedHosts(pattern: string): Option<seq<string>> {
    match Body(pattern)
    case None => None
    case Some(body) => if body == "" then None else HostsOfAtoms(Split(body, '|'))
  }

  /** The byte loop over one atom. */
  method ScanAtom(atom: string) returns (r: Option<string>)
    ensures r == Unescape(atom)
  {
    var host := "";
    var pos := 0;
    assert atom[0..] == atom;
    assert Unescape(atom).Some? ==> "" + Unescape(atom).value == Unescape(atom).value;
    while pos < |atom|
      invariant 0 <= pos <= |atom|
      invariant Unescape(atom) == Prepend(host, Unescape(atom[pos..]))
    {
      var c := atom[pos];
      if c == '\\' && pos + 1 < |atom| && atom[pos + 1] == '.' {
        PrependCons(host, '.', Unescape(atom[pos + 2..]));
        assert atom[pos..][2..] == atom[pos + 2..];
        host := host + ".";
        pos := pos + 2;
      } else if LabelChar(c) {
        PrependCons(host, c, Unescape(atom[pos + 1..]));
        assert atom[pos..][1..] == atom[pos + 1..];
        host := host + [c];
        pos := pos + 1;
      } else {
        return None;
      }
    }
    assert atom[pos..] == "" && host + "" == host;
    return Some(host);
  }

  /** parseImportedSuffixRegex, with its loops over atoms, bytes and labels. */
  method ParseImportedSuffixRegex(pattern: string) returns (r: Option<seq<string>>)
    ensures r == RecognisedHosts(pattern)
  {
    if !HasPrefix(pattern, PREFIX) || !HasSuffix(pattern, SUFFIX) {
      return None;
    }
    var body := pattern[|PREFIX|..];
    if HasSuffix(body, SUFFIX) {
      body := body[..|body| - |SUFFIX|];
    }
    if body == "" {
      return None;
    }
    var atoms := Split(body, '|');
    var hosts: seq<string> := [];
    for n := 0 to |atoms|
      invariant |hosts| == n
      invariant forall i | 0 <= i < n :: HostOfAtom(atoms[i]) == Some(hosts[i])
    {
      var host := ScanAtom(atoms[n]);
      if host == None {
        return None;
      }
      var labels := Split(host.value, '.');
      if |labels| < 2 {
        return None;
      }
      for i := 0 to |labels|
        invariant forall k | 0 <= k < i :: LiteralLabel(labels[k])
      {
        if !LiteralLabel(labels[i]) {
          return None;
        }
      }
      hosts := hosts + [host.value];
    }
    assert HostsOfAtoms(atoms).value == hosts;
    return Some(hosts);
  }

  ghost function Prepend(s: string, rest: Option<string>): Option<string> {
    match rest case None => None case Some(t) => Some(s + t)
  }

  lemma PrependCons(s: string, c: char, rest: Option<string>)
    ensures Prepend(s, Cons(c, rest)) == Prepend(s + [c], rest)
  {
    if rest.Some? { assert s + ([c] + rest.value) == s + [c] + rest.value; }
  }

  // ---- Printing and recognising are inverse ----

  lemma {:induction false} UnescapeAtom(h: string)
    requires HostChars(h)
    ensures Unescape(RegexAtom(h)) == Some(h)
    ensures '|' !in RegexAtom(h)
    ensures h != "" ==> RegexAtom(h) != ""
    decreases |h|
  {
    if h != "" {
      UnescapeAtom(h[1..]);
      UnescapeFirst(h[0], RegexAtom(h[1..]));
      assert [h[0]] + h[1..] == h;
    }
  }

  lemma UnescapeFirst(c: char, rest: string)
    requires c == '.' || LabelChar(c)
    ensures Unescape((if c == '.' then "\\." else [c]) + rest) == Cons(c, Unescape(rest))
  {
    assert ("\\." + rest)[2..] == rest && ([c] + rest)[1..] == rest;
  }

  lemma {:induction false} AtomOfUnescape(atom: string)
    requires Unescape(atom).Some?
    ensures RegexAtom(Unescape(atom).value) == atom
    decreases |atom|
  {
    if atom == "" {
    } else {
      var k := if atom[0] == '\\' then 2 else 1;
      AtomOfUnescape(atom[k..]);
      var h := Unescape(atom[k..]).value;
      var c := if k == 2 then '.' else atom[0];
      assert Unescape(atom).value == [c] + h;
      assert ([c] + h)[1..] == h;
      assert atom == atom[..k] + atom[k..];
      if k == 2 { assert atom[..2] == "\\."; } else { assert atom[..1] == [atom[0]]; }
    }
  }

  lemma BodyOfHostRegex(body: string)
    ensures Body(PREFIX + body + SUFFIX) == Some(body)
  {
    var p := PREFIX + body + SUFFIX;
    assert p[|PREFIX|..] == body + SUFFIX;
    assert p[|p| - 2..] == SUFFIX;
    assert (body + SUFFIX)[|body|..] == SUFFIX;
    assert p[..|PREFIX|] == PREFIX;
  }

  lemma HostRegexOfBody(pattern: string)
    requires Body(pattern).Some?
    ensures pattern == PREFIX + Body(pattern).value + SUFFIX
  {
    assert pattern[|pattern| - 2..] == SUFFIX;
    assert PREFIX[|PREFIX| - 1] == ':' && pattern[..|PREFIX|] == PREFIX;
    assert |pattern| >= |PREFIX| + 2;
    var rest := pattern[|PREFIX|..];
    assert rest[|rest| - 2..] == SUFFIX;
  }

  /** Every list of valid hosts is recognised in its printed form. */
  lemma RecogniseHostRegex(hosts: seq<string>)
    requires hosts != [] && forall i | 0 <= i < |hosts| :: ValidHost(hosts[i])
    ensures RecognisedHosts(HostRegex(hosts)) == Some(hosts)
  {
    var atoms := Atoms(hosts);
    var body := Join(atoms, '|');
    BodyOfHostRegex(body);
    forall i | 0 <= i < |hosts|
      ensures '|' !in atoms[i] && HostOfAtom(atoms[i]) == Some(hosts[i]) && atoms[i] != ""
    {
      ValidHostChars(hosts[i]);
      UnescapeAtom(hosts[i]);
    }
    SplitOfJoin(atoms, '|');
    assert body != "";
    assert HostsOfAtoms(atoms).value == hosts;
  }

  /** A pattern is recognised exactly when it is the printed form of a non-empty list
      of valid hosts, and then that list is the answer. */
  lemma RecognisedIffPrinted(pattern: string, hosts: seq<string>)
    ensures RecognisedHosts(pattern) == Some(hosts)
            <==> hosts != [] && (forall i | 0 <= i < |hosts| :: ValidHost(hosts[i]))
                 && pattern == HostRegex(hosts)
  {
    if RecognisedHosts(pattern) == Some(hosts) {
      var body := Body(pattern).value;
      var atoms := Split(body, '|');
      HostRegexOfBody(pattern);
      JoinOfSplit(body, '|');
      forall i | 0 <= i < |atoms| ensures ValidHost(hosts[i]) && RegexAtom(hosts[i]) == atoms[i] {
        assert HostOfAtom(atoms[i]) == Some(hosts[i]);
        AtomOfUnescape(atoms[i]);
      }
      assert Atoms(hosts) == atoms;
    }
    if hosts != [] && (forall i | 0 <= i < |hosts| :: ValidHost(hosts[i])) && pattern == HostRegex(hosts) {
      RecogniseHostRegex(hosts);
    }
  }

  /** Distinct host lists print differently. */
  lemma HostRegexInjective(a: seq<string>, b: seq<string>)
    requires a != [] && forall i | 0 <= i < |a| :: ValidHost(a[i])
    requires b != [] && forall i | 0 <= i < |b| :: ValidHost(b[i])
    requires HostRegex(a) == HostRegex(b)
    ensures a == b
  {
    RecogniseHostRegex(a);
    RecogniseHostRegex(b);
  }

  // ---- Suffix matching ----

  /** s is the suffix itself or ends with it right after a dot, whatever the case. */
  predicate HostUnder(s: string, suffix: string) {
    var start := |s| - |suffix|;
    (start == 0 && EqualFold(s, suffix))
    || (start > 0 && s[start - 1] == '.' && EqualFold(s[start..], suffix))
  }

  /** matcher.match for a recognised pattern. */
  predicate SuffixMatches(suffixes: seq<string>, s: string) {
    exists k | 0 <= k < |suffixes| :: HostUnder(s, suffixes[k])
  }
}
