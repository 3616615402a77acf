/** What one rule means once compiled: compile.go's matchers and its load-time
    validation, over the fields of schema.go. */
module RuleCompile {
  import opened GoStrings
  import opened Globs
  import opened SuffixRegex

  // ---- Source rules ----

  /** Header names are taken in their canonical form. */
  datatype Match = Match(host: string, port: string, proto: string,
                         path: string, verb: string, header: map<string, string>)

  datatype Action = Action(name: string, params: string)

  /** connection is absent, present without accept, or present with it; mitm absent
      means true. */
  datatype Rule = Rule(match_: Match, connection: Option<Option<bool>>, mitm: Option<bool>,
                       request: seq<Action>, response: seq<Action>)

  predicate HasMessageFields(m: Match) {
    m.path != "" || m.verb != "" || m.header != map[]
  }

  /** The library calls behind compilation: regexp.Compile and compileOutcallAction. */
  datatype Library = Library(regex: string -> Option<string -> bool>, outcall: Action -> bool)

  // ---- Matchers ----

  datatype Matcher =
    | Always
    | Suffixes(suffixes: seq<string>)
    | Regex(accepts: string -> bool)
    | GlobOf(pattern: string)
  {
    /** matcher.match. */
    predicate Accepts(s: string) {
      match this
      case Always => true
      case Suffixes(ss) => SuffixMatches(ss, s)
      case Regex(accepts) => accepts(s)
      case GlobOf(p) => Glob(p, s)
    }

    predicate WellFormed() {
      match this
      case Suffixes(ss) => ss != [] && forall i | 0 <= i < |ss| :: ValidHost(ss[i])
      case GlobOf(p) => p != ""
      case _ => true
    }
  }

  const REGEX := "re:"

  function CompileMatcher(lib: Library, pattern: string): (r: Option<Matcher>)
    ensures r.Some? ==> r.value.WellFormed()
  {
    if pattern == "" then Some(Always)
    else if HasPrefix(pattern, REGEX) then
      var rest := pattern[3..];
      match RecognisedHosts(rest)
      case Some(hosts) =>
        RecognisedIffPrinted(rest, hosts);
        Some(Suffixes(hosts))
      case None =>
        match lib.regex(rest)
        case None => None
        case Some(accepts) => Some(Regex(accepts))
    else Some(GlobOf(pattern))
  }

  // ---- Rules ----

  datatype CompiledRule = CompiledRule(
    host: Matcher, port: Matcher, proto: Matcher, path: Matcher, verb: Matcher,
    header: map<string, Matcher>,
    mitm: bool, deny: bool, hasMsg: bool, request: seq<Action>, response: seq<Action>)

  /** What validation leaves: a denied connection decides no mitm and reaches no
      message phase, and only an intercepting rule looks at messages. */
  predicate WellFormedRule(r: CompiledRule) {
    && r.host.WellFormed()
    && (r.deny ==> !r.mitm && !r.hasMsg && r.request == [] && r.response == [])
    && (!r.mitm ==> !r.hasMsg)
  }

  predicate RequestAction(name: string) {
    name == "header.add" || name == "header.set" || name == "raise" || name == "block"
    || name == "webhook" || name == "header.fetch"
  }

  predicate ResponseAction(name: string) {
    name == "header.add" || name == "header.set" || name == "body.replace" || name == "status.set"
  }

  predicate ValidRequest(lib: Library, a: Action) {
    RequestAction(a.name) && (a.name == "webhook" || a.name == "header.fetch" ==> lib.outcall(a))
  }

  /** compileRule; None is a load-time rejection. */
  function CompileRule(lib: Library, r: Rule): (c: Option<CompiledRule>)
    ensures c.Some? ==> WellFormedRule(c.value)
  {
    var host := CompileMatcher(lib, r.match_.host);
    var port := CompileMatcher(lib, r.match_.port);
    var proto := CompileMatcher(lib, r.match_.proto);
    var path := CompileMatcher(lib, r.match_.path);
    var verb := CompileMatcher(lib, r.match_.verb);
    var hasMsg := HasMessageFields(r.match_);
    var mitm := r.mitm.None? || r.mitm.value;
    var deny := r.connection.Some? && r.connection.value == Some(false);
    if host.None? || port.None? || proto.None? || path.None? || verb.None? then None
    else if exists n | n in r.match_.header :: CompileMatcher(lib, r.match_.header[n]).None? then None
    else if !mitm && hasMsg then None
    else if r.connection == Some(None) then None
    else if deny && (r.mitm.Some? || hasMsg || r.request != [] || r.response != []) then None
    else if exists i | 0 <= i < |r.request| :: !ValidRequest(lib, r.request[i]) then None
    else if exists i | 0 <= i < |r.response| :: !ResponseAction(r.response[i].name) then None
    else
      Some(CompiledRule(host.value, port.value, proto.value, path.value, verb.value,
                        map n | n in r.match_.header :: CompileMatcher(lib, r.match_.header[n]).value,
                        mitm && !deny, deny, hasMsg, r.request, r.response))
  }

  /** Compile: a rule list compiles when every rule does. */
  function Compile(lib: Library, rules: seq<Rule>): (c: Option<seq<CompiledRule>>)
    ensures c.Some? <==> forall i | 0 <= i < |rules| :: CompileRule(lib, rules[i]).Some?
    ensures c.Some? ==> |c.value| == |rules|
    ensures c.Some? ==> forall i | 0 <= i < |rules| :: CompileRule(lib, rules[i]) == Some(c.value[i])
    ensures c.Some? ==> forall i | 0 <= i < |rules| :: WellFormedRule(c.value[i])
  {
    if rules == [] then Some([])
    else
      match CompileRule(lib, rules[0])
      case None => None
      case Some(first) =>
        match Compile(lib, rules[1..])
        case None => None
        case Some(rest) => Some([first] + rest)
  }

  // ---- Inputs and the linear first-match scan ----

  datatype ConnInput = ConnInput(host: string, port: string, proto: string)

  datatype MsgInput = MsgInput(conn: ConnInput, path: string, verb: string, header: map<string, seq<string>>)

  /** A character of a header name: tchar in section 5.6.2 of RFC 9110. */
  predicate NameChar(c: char) {
    '0' <= c <= '9' || 'a' <= c <= 'z' || 'A' <= c <= 'Z' || c in "!#$%&'*+-.^_`|~"
  }

  function Capital(c: char): char {
    if 'a' <= c <= 'z' then (c as int - 32) as char else c
  }

  function Capitalised(s: string, start: bool): (r: string)
    ensures |r| == |s|
  {
    if s == "" then ""
    else [if start then Capital(s[0]) else LowerChar(s[0])] + Capitalised(s[1..], s[0] == '-')
  }

  /** textproto.CanonicalMIMEHeaderKey: capitals at the start and after each hyphen; what is no
      header name stays as it is. */
  function CanonicalHeader(name: string): string {
    if forall i | 0 <= i < |name| :: NameChar(name[i]) then Capitalised(name, true) else name
  }

  predicate ConnMatches(r: CompiledRule, i: ConnInput) {
    r.host.Accepts(i.host) && r.port.Accepts(i.port) && r.proto.Accepts(i.proto)
  }

  /** http.Header.Get: the first value under the canonical name, or the empty string. */
  function HeaderGet(h: map<string, seq<string>>, name: string): string {
    var key := CanonicalHeader(name);
    if key in h && h[key] != [] then h[key][0] else ""
  }

  predicate MsgMatches(r: CompiledRule, i: MsgInput) {
    && !r.deny
    && ConnMatches(r, i.conn)
    && r.path.Accepts(i.path) && r.verb.Accepts(i.verb)
    && forall n | n in r.header :: r.header[n].Accepts(HeaderGet(i.header, n))
  }

  datatype ConnDecision = ConnDecision(mitm: bool, deny: bool, matched: bool)

  const NOMATCH := ConnDecision(false, false, false)

  /** The connection-phase answer, by definition: the first rule that matches. */
  function ConnAnswer(rules: seq<CompiledRule>, i: ConnInput): ConnDecision {
    if rules == [] then NOMATCH
    else if ConnMatches(rules[0], i) then ConnDecision(rules[0].mitm, rules[0].deny, true)
    else ConnAnswer(rules[1..], i)
  }

  /** The message-phase answer, by definition: the first rule that is not a deny rule
      and matches. */
  function MsgAnswer(rules: seq<CompiledRule>, i: MsgInput): Option<CompiledRule> {
    if rules == [] then None
    else if MsgMatches(rules[0], i) then Some(rules[0])
    else MsgAnswer(rules[1..], i)
  }

  lemma {:induction false} ConnAnswerAt(rules: seq<CompiledRule>, i: ConnInput, n: nat)
    requires n < |rules| && ConnMatches(rules[n], i)
    requires forall k | 0 <= k < n :: !ConnMatches(rules[k], i)
    ensures ConnAnswer(rules, i) == ConnDecision(rules[n].mitm, rules[n].deny, true)
    decreases n
  {
    if n > 0 { ConnAnswerAt(rules[1..], i, n - 1); }
  }

  lemma {:induction false} ConnAnswerNone(rules: seq<CompiledRule>, i: ConnInput)
    requires forall k | 0 <= k < |rules| :: !ConnMatches(rules[k], i)
    ensures ConnAnswer(rules, i) == NOMATCH
    decreases |rules|
  {
    if rules != [] { ConnAnswerNone(rules[1..], i); }
  }

  lemma {:induction false} MsgAnswerAt(rules: seq<CompiledRule>, i: MsgInput, n: nat)
    requires n < |rules| && MsgMatches(rules[n], i)
    requires forall k | 0 <= k < n :: !MsgMatches(rules[k], i)
    ensures MsgAnswer(rules, i) == Some(rules[n])
    decreases n
  {
    if n > 0 { MsgAnswerAt(rules[1..], i, n - 1); }
  }

  lemma {:induction false} MsgAnswerNone(rules: seq<CompiledRule>, i: MsgInput)
    requires forall k | 0 <= k < |rules| :: !MsgMatches(rules[k], i)
    ensures MsgAnswer(rules, i) == None
    decreases |rules|
  {
    if rules != [] { MsgAnswerNone(rules[1..], i); }
  }
}
