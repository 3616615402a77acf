/** What a source rule says, read off its own fields (rules/schema.go, rules/compile.go):
    which connections and messages it fits, when it loads and what it decides. */
module RuleMeaning {
  import opened GoStrings
  import opened Globs
  import opened SuffixRegex
  import opened RuleCompile
  import RegexMeaning

  // ---- Patterns ----

  predicate IsRegex(pattern: string) {
    |pattern| >= 3 && pattern[0] == 'r' && pattern[1] == 'e' && pattern[2] == ':'
  }

  /** The pattern fits the text: no pattern fits all, "re:" takes what follows as a regular
      expression, anything else is a glob. Printed suffix lists have the meaning of
      RegexMeaning, other expressions that of the library. */
  ghost predicate Fits(lib: Library, pattern: string, s: string) {
    if pattern == "" then true
    else if !IsRegex(pattern) then Glob(pattern, s)
    else if RecognisedHosts(pattern[3..]).Some? then RegexMeaning.Matches(pattern[3..], s)
    else lib.regex(pattern[3..]).Some? && lib.regex(pattern[3..]).value(s)
  }

  predicate Readable(lib: Library, pattern: string) {
    IsRegex(pattern) ==> RecognisedHosts(pattern[3..]).Some? || lib.regex(pattern[3..]).Some?
  }

  lemma RegexPrefix(pattern: string)
    ensures HasPrefix(pattern, REGEX) <==> IsRegex(pattern)
  {
    if |pattern| >= 3 { assert pattern[..3] == [pattern[0], pattern[1], pattern[2]]; }
  }

  lemma MatcherFits(lib: Library, pattern: string, s: string)
    ensures CompileMatcher(lib, pattern).Some? <==> Readable(lib, pattern)
    ensures CompileMatcher(lib, pattern).Some?
            ==> (CompileMatcher(lib, pattern).value.Accepts(s) <==> Fits(lib, pattern, s))
  {
    RegexPrefix(pattern);
    if IsRegex(pattern) && RecognisedHosts(pattern[3..]).Some? {
      RegexMeaning.SuffixMatcherIsTheRegex(pattern[3..], s);
    }
  }

  // ---- Header names ----

  predicate HeaderName(name: string) {
    forall i | 0 <= i < |name| :: NameChar(name[i])
  }

  /** A canonical name has capitals at the start and after hyphens, small letters elsewhere. */
  lemma {:induction false} CapitalisedAt(s: string, start: bool, i: nat)
    requires i < |s|
    ensures Capitalised(s, start)[i]
            == if (if i == 0 then start else s[i - 1] == '-') then Capital(s[i]) else LowerChar(s[i])
    decreases |s|
  {
    if i > 0 { CapitalisedAt(s[1..], s[0] == '-', i - 1); }
  }

  lemma LetterCase(c: char, d: char)
    ensures LowerChar(Capital(c)) == LowerChar(c) == LowerChar(LowerChar(c))
    ensures LowerChar(c) == LowerChar(d) ==> Capital(c) == Capital(d) && (c == '-' <==> d == '-')
  {
  }

  lemma {:induction false} LowerCapitalised(s: string, start: bool)
    ensures Lower(Capitalised(s, start)) == Lower(s)
    decreases |s|
  {
    if s != "" {
      LowerCapitalised(s[1..], s[0] == '-');
      LetterCase(s[0], s[0]);
      LowerAppend([if start then Capital(s[0]) else LowerChar(s[0])], Capitalised(s[1..], s[0] == '-'));
    }
  }

  lemma {:induction false} CapitalisedAlike(a: string, b: string, start: bool)
    requires Lower(a) == Lower(b)
    ensures Capitalised(a, start) == Capitalised(b, start)
    decreases |a|
  {
    if a != "" {
      assert Lower(a)[0] == Lower(b)[0];
      LetterCase(a[0], b[0]);
      LowerTails(a, b);
      CapitalisedAlike(a[1..], b[1..], a[0] == '-');
    }
  }

  lemma LowerTails(a: string, b: string)
    requires Lower(a) == Lower(b) && a != ""
    ensures Lower(a[1..]) == Lower(b[1..])
  {
    forall k | 0 <= k < |a[1..]| ensures Lower(a[1..])[k] == Lower(b[1..])[k] {
      assert Lower(a)[k + 1] == Lower(b)[k + 1];
    }
  }

  /** Two header names are one exactly if they differ in letter case alone. */
  lemma SameHeaderIff(a: string, b: string)
    requires HeaderName(a) && HeaderName(b)
    ensures CanonicalHeader(a) == CanonicalHeader(b) <==> Lower(a) == Lower(b)
  {
    LowerCapitalised(a, true);
    LowerCapitalised(b, true);
    if Lower(a) == Lower(b) { CapitalisedAlike(a, b, true); }
  }

  // ---- Rules ----

  predicate Refuses(r: Rule) {
    r.connection == Some(Some(false))
  }

  ghost predicate FitsConn(lib: Library, r: Rule, i: ConnInput) {
    && Fits(lib, r.match_.host, i.host) && Fits(lib, r.match_.port, i.port) && Fits(lib, r.match_.proto, i.proto)
  }

  /** The first value a message has under a header's canonical name, or nothing. */
  function FirstValue(header: map<string, seq<string>>, name: string): string {
    if CanonicalHeader(name) !in header then ""
    else if |header[CanonicalHeader(name)]| == 0 then ""
    else header[CanonicalHeader(name)][0]
  }

  ghost predicate FitsHeaders(lib: Library, patterns: map<string, string>, header: map<string, seq<string>>) {
    forall n | n in patterns :: Fits(lib, patterns[n], FirstValue(header, n))
  }

  ghost predicate FitsMessage(lib: Library, r: Rule, m: MsgInput) {
    && !Refuses(r) && FitsConn(lib, r, m.conn)
    && Fits(lib, r.match_.path, m.path) && Fits(lib, r.match_.verb, m.verb)
    && FitsHeaders(lib, r.match_.header, m.header)
  }

  predicate LooksAtMessages(r: Rule) {
    |r.match_.path| > 0 || |r.match_.verb| > 0 || |r.match_.header.Keys| > 0
  }

  /** What load-time validation lets through. */
  ghost predicate Loads(lib: Library, r: Rule) {
    && Readable(lib, r.match_.host) && Readable(lib, r.match_.port) && Readable(lib, r.match_.proto)
    && Readable(lib, r.match_.path) && Readable(lib, r.match_.verb)
    && (forall n | n in r.match_.header :: Readable(lib, r.match_.header[n]))
    && (LooksAtMessages(r) ==> r.mitm != Some(false) && !Refuses(r))
    && (r.connection.Some? ==> r.connection.value.Some?)
    && (Refuses(r) ==> r.mitm.None? && r.request == [] && r.response == [])
    && (forall a | a in r.request ::
          a.name in {"header.add", "header.set", "raise", "block", "webhook", "header.fetch"}
          && (a.name in {"webhook", "header.fetch"} ==> lib.outcall(a)))
    && (forall a | a in r.response :: a.name in {"header.add", "header.set", "body.replace", "status.set"})
  }

  lemma NoHeaders(r: Rule)
    ensures |r.match_.header.Keys| > 0 <==> r.match_.header != map[]
  {
    if r.match_.header != map[] {
      var n :| n in r.match_.header;
      assert n in r.match_.header.Keys;
    }
  }

  lemma HeadersFit(lib: Library, r: Rule)
    ensures (forall n | n in r.match_.header :: CompileMatcher(lib, r.match_.header[n]).Some?)
            <==> forall n | n in r.match_.header :: Readable(lib, r.match_.header[n])
  {
    forall n | n in r.match_.header
      ensures CompileMatcher(lib, r.match_.header[n]).Some? <==> Readable(lib, r.match_.header[n])
    {
      MatcherFits(lib, r.match_.header[n], "");
    }
  }

  lemma ActionsLoad(lib: Library, r: Rule)
    ensures (exists i | 0 <= i < |r.request| :: !ValidRequest(lib, r.request[i]))
            <==> !(forall a | a in r.request ::
                     a.name in {"header.add", "header.set", "raise", "block", "webhook", "header.fetch"}
                     && (a.name in {"webhook", "header.fetch"} ==> lib.outcall(a)))
    ensures (exists i | 0 <= i < |r.response| :: !ResponseAction(r.response[i].name))
            <==> !(forall a | a in r.response :: a.name in {"header.add", "header.set", "body.replace", "status.set"})
  {
  }

  /** A rule loads exactly if nothing is wrong with it. */
  lemma LoadsIff(lib: Library, r: Rule)
    ensures CompileRule(lib, r).Some? <==> Loads(lib, r)
  {
    MatcherFits(lib, r.match_.host, "");
    MatcherFits(lib, r.match_.port, "");
    MatcherFits(lib, r.match_.proto, "");
    MatcherFits(lib, r.match_.path, "");
    MatcherFits(lib, r.match_.verb, "");
    NoHeaders(r);
    HeadersFit(lib, r);
    ActionsLoad(lib, r);
  }

  /** Each field of a loaded rule is matched against what it is named for. */
  lemma RuleFitsConn(lib: Library, r: Rule, i: ConnInput)
    requires CompileRule(lib, r).Some?
    ensures ConnMatches(CompileRule(lib, r).value, i) <==> FitsConn(lib, r, i)
  {
    MatcherFits(lib, r.match_.host, i.host);
    MatcherFits(lib, r.match_.port, i.port);
    MatcherFits(lib, r.match_.proto, i.proto);
  }

  lemma RuleFitsHeaders(lib: Library, r: Rule, header: map<string, seq<string>>)
    requires CompileRule(lib, r).Some?
    ensures var c := CompileRule(lib, r).value;
            (forall n | n in c.header :: c.header[n].Accepts(HeaderGet(header, n)))
            <==> FitsHeaders(lib, r.match_.header, header)
  {
    forall n | n in r.match_.header
      ensures CompileRule(lib, r).value.header[n].Accepts(HeaderGet(header, n))
              <==> Fits(lib, r.match_.header[n], FirstValue(header, n))
    {
      MatcherFits(lib, r.match_.header[n], HeaderGet(header, n));
    }
  }

  lemma RuleFitsMessage(lib: Library, r: Rule, m: MsgInput)
    requires CompileRule(lib, r).Some?
    ensures MsgMatches(CompileRule(lib, r).value, m) <==> FitsMessage(lib, r, m)
  {
    RuleFitsConn(lib, r, m.conn);
    RuleFitsHeaders(lib, r, m.header);
    MatcherFits(lib, r.match_.path, m.path);
    MatcherFits(lib, r.match_.verb, m.verb);
  }

  /** What it decides: refuse if it says so, else intercept unless it says not to; its
      actions are its own, in order. */
  lemma RuleDecides(lib: Library, r: Rule)
    requires CompileRule(lib, r).Some?
    ensures var c := CompileRule(lib, r).value;
            && (c.deny <==> Refuses(r)) && (c.mitm <==> !Refuses(r) && r.mitm != Some(false))
            && c.request == r.request && c.response == r.response && (c.hasMsg <==> LooksAtMessages(r))
  {
    NoHeaders(r);
  }

  // ---- Rule lists ----

  /** cs are these source rules, compiled. */
  ghost predicate CompiledEach(lib: Library, rules: seq<Rule>, cs: seq<CompiledRule>) {
    |cs| == |rules| && forall k | 0 <= k < |rules| :: CompileRule(lib, rules[k]) == Some(cs[k])
  }

  /** The first source rule that fits a connection decides it; none that fits, no match. */
  lemma FirstRuleDecides(lib: Library, rules: seq<Rule>, cs: seq<CompiledRule>, i: ConnInput, n: nat)
    requires CompiledEach(lib, rules, cs) && n <= |rules| && (n < |rules| ==> FitsConn(lib, rules[n], i))
    requires forall k | 0 <= k < n :: !FitsConn(lib, rules[k], i)
    ensures ConnAnswer(cs, i)
            == if n == |rules| then NOMATCH
               else ConnDecision(!Refuses(rules[n]) && rules[n].mitm != Some(false), Refuses(rules[n]), true)
  {
    forall k | 0 <= k < |rules| ensures ConnMatches(cs[k], i) <==> FitsConn(lib, rules[k], i) {
      RuleFitsConn(lib, rules[k], i);
    }
    if n < |rules| {
      ConnAnswerAt(cs, i, n);
      RuleDecides(lib, rules[n]);
    } else {
      ConnAnswerNone(cs, i);
    }
  }

  /** The first source rule that fits a message, refusing ones aside, gives its actions. */
  lemma FirstRuleActs(lib: Library, rules: seq<Rule>, cs: seq<CompiledRule>, m: MsgInput, n: nat)
    requires CompiledEach(lib, rules, cs) && n <= |rules| && (n < |rules| ==> FitsMessage(lib, rules[n], m))
    requires forall k | 0 <= k < n :: !FitsMessage(lib, rules[k], m)
    ensures if n == |rules| then MsgAnswer(cs, m) == None
            else && MsgAnswer(cs, m).Some? && MsgAnswer(cs, m).value.request == rules[n].request
                 && MsgAnswer(cs, m).value.response == rules[n].response
  {
    forall k | 0 <= k < |rules| ensures MsgMatches(cs[k], m) <==> FitsMessage(lib, rules[k], m) {
      RuleFitsMessage(lib, rules[k], m);
    }
    if n < |rules| {
      MsgAnswerAt(cs, m, n);
      RuleDecides(lib, rules[n]);
    } else {
      MsgAnswerNone(cs, m);
    }
  }

  // ---- Plain rules ----

  predicate Literal(t: string) {
    t != "" && Plain(t) && !IsRegex(t)
  }

  lemma LiteralFits(lib: Library, t: string, s: string)
    requires Literal(t)
    ensures Fits(lib, t, s) <==> s == t
  {
    PlainGlob(t, s);
  }

  /** A rule of plain texts loads, and matches exactly the connection that has them. */
  lemma PlainConn(lib: Library, h: string, p: string, q: string, i: ConnInput)
    requires Literal(h) && Literal(p) && Literal(q)
    ensures var c := CompileRule(lib, Rule(Match(h, p, q, "", "", map[]), None, None, [], []));
            c.Some? && (ConnMatches(c.value, i) <==> i == ConnInput(h, p, q))
  {
    var r := Rule(Match(h, p, q, "", "", map[]), None, None, [], []);
    LoadsIff(lib, r);
    RuleFitsConn(lib, r, i);
    LiteralFits(lib, h, i.host);
    LiteralFits(lib, p, i.port);
    LiteralFits(lib, q, i.proto);
  }

  /** And with a path, a verb and a header, exactly the messages that have those too. */
  lemma PlainMessage(lib: Library, t: Match, name: string, value: string, m: MsgInput)
    requires Literal(t.host) && Literal(t.port) && Literal(t.proto)
    requires Literal(t.path) && Literal(t.verb) && Literal(value) && t.header == map[name := value]
    ensures var c := CompileRule(lib, Rule(t, None, None, [], []));
            c.Some? && (MsgMatches(c.value, m)
                        <==> && m.conn == ConnInput(t.host, t.port, t.proto) && m.path == t.path && m.verb == t.verb
                             && FirstValue(m.header, name) == value)
  {
    var r := Rule(t, None, None, [], []);
    LoadsIff(lib, r);
    RuleFitsMessage(lib, r, m);
    LiteralFits(lib, t.host, m.conn.host);
    LiteralFits(lib, t.port, m.conn.port);
    LiteralFits(lib, t.proto, m.conn.proto);
    LiteralFits(lib, t.path, m.path);
    LiteralFits(lib, t.verb, m.verb);
    LiteralFits(lib, value, FirstValue(m.header, name));
    OneHeader(lib, name, value, m.header);
  }

  lemma OneHeader(lib: Library, name: string, value: string, header: map<string, seq<string>>)
    ensures FitsHeaders(lib, map[name := value], header)
            <==> Fits(lib, value, FirstValue(header, name))
  {
    assert name in map[name := value] && map[name := value][name] == value;
  }
}
