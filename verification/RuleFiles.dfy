/** Rule documents (schema.go) and what compiling one of them yields. */
module RuleFiles {
  import opened GoStrings
  import opened MaskedKeys
  import opened RuleCompile
  import opened HostLookup
  import opened RuleMeaning

  datatype EgressRule = EgressRule(cidr: string, port: string, proto: string, action: string)

  /** An auth.http_proxy block. */
  datatype AuthConfig = AuthConfig(text: string)

  /** egress is None when the key is absent and Some([]) when it is present but empty. */
  datatype RuleFile = RuleFile(uuid: string, auth: Option<AuthConfig>, http: seq<Rule>,
                               egress: Option<seq<EgressRule>>)

  datatype CompiledEgress = CompiledEgress(matches: (Bytes, nat, string) -> bool, allow: bool)

  datatype CompiledAuth = CompiledAuth(required: bool, accepts: string -> bool, broker: bool)

  /** The leaf compilers: regular expressions and outcalls, one egress entry, one auth block. */
  datatype Compilers = Compilers(lib: Library,
                                 egress: EgressRule -> Option<CompiledEgress>,
                                 auth: AuthConfig -> Option<CompiledAuth>)

  type Rules = RuleSet<CompiledEgress, CompiledAuth>

  const EMPTY: Rules := RuleSet([], None, [], "", None)

  /** CompileEgress. */
  function CompileEgress(c: Compilers, rules: seq<EgressRule>): (r: Option<seq<CompiledEgress>>)
    ensures r.Some? ==> |r.value| == |rules|
  {
    if rules == [] then Some([])
    else
      match c.egress(rules[0])
      case None => None
      case Some(first) =>
        match CompileEgress(c, rules[1..])
        case None => None
        case Some(rest) => Some([first] + rest)
  }

  /** An egress list compiles exactly if every entry does, each to the entry in its place. */
  lemma {:induction false} EgressEach(c: Compilers, rules: seq<EgressRule>)
    ensures CompileEgress(c, rules).Some? <==> forall i | 0 <= i < |rules| :: c.egress(rules[i]).Some?
    ensures CompileEgress(c, rules).Some? ==>
              forall i | 0 <= i < |rules| :: c.egress(rules[i]) == Some(CompileEgress(c, rules).value[i])
    decreases |rules|
  {
    if rules != [] {
      EgressEach(c, rules[1..]);
      forall i | 1 <= i < |rules| ensures rules[i] == rules[1..][i - 1] {}
    }
  }

  /** CompileAuth: no block compiles to no gate. */
  function CompileAuth(c: Compilers, auth: Option<AuthConfig>): Option<Option<CompiledAuth>> {
    match auth
    case None => Some(None)
    case Some(a) => match c.auth(a) case None => None case Some(g) => Some(Some(g))
  }

  // ---- JSON ----

  /** What a rule file becomes when marshalled and read back: "omitempty" drops an empty
      egress list. The content hash is taken over this form, and hashing is injective. */
  function Marshalled(rf: RuleFile): RuleFile {
    if rf.egress == Some([]) then rf.(egress := None) else rf
  }

  // ---- One rules/default bucket ----

  function BucketEgress(rf: RuleFile): seq<EgressRule> {
    if rf.egress.Some? then rf.egress.value else []
  }

  predicate BucketCompiles(c: Compilers, rf: RuleFile) {
    CompileAuth(c, rf.auth).Some? && Compile(c.lib, rf.http).Some? && CompileEgress(c, BucketEgress(rf)).Some?
  }

  /** rs is what a default-table bucket with content rf compiles to; how the index was
      laid out is not part of it. */
  ghost predicate BucketRules(c: Compilers, rs: Rules, rf: RuleFile) {
    && Usable(rs)
    && Compile(c.lib, rf.http) == Some(rs.rules)
    && CompileEgress(c, BucketEgress(rf)) == Some(rs.egress)
    && CompileAuth(c, rf.auth) == Some(rs.auth)
    && rs.uuid == rf.uuid
  }

  /** For a bucket, an absent and an empty egress list are the same thing. */
  lemma BucketOfMarshalled(c: Compilers, rs: Rules, rf: RuleFile)
    ensures BucketRules(c, rs, rf) <==> BucketRules(c, rs, Marshalled(rf))
    ensures BucketRules(c, rs, rf) ==> BucketCompiles(c, rf)
  {
  }

  /** Two results of compiling the same bucket answer every lookup alike. */
  lemma BucketRulesAgree(c: Compilers, a: Rules, b: Rules, rf: RuleFile, conn: ConnInput, msg: MsgInput)
    requires BucketRules(c, a, rf) && BucketRules(c, b, rf)
    ensures ConnAnswer(a.rules, conn) == ConnAnswer(b.rules, conn)
    ensures MsgAnswer(a.rules, msg) == MsgAnswer(b.rules, msg)
    ensures a.egress == b.egress && a.auth == b.auth && a.uuid == b.uuid
  {
  }

  // ---- What compiled rules say of their file ----

  /** The gate is the file's auth block, compiled; no block, no gate. */
  ghost predicate Gates(c: Compilers, gate: Option<CompiledAuth>, auth: Option<AuthConfig>) {
    if auth.None? then gate.None? else gate.Some? && c.auth(auth.value) == gate
  }

  ghost predicate EgressOf(c: Compilers, egress: seq<CompiledEgress>, rules: seq<EgressRule>) {
    |egress| == |rules| && forall i | 0 <= i < |rules| :: c.egress(rules[i]) == Some(egress[i])
  }

  /** What rs says beside its egress list is what rf says. */
  ghost predicate Speaks(c: Compilers, rs: Rules, rf: RuleFile) {
    rs.uuid == rf.uuid && CompiledEach(c.lib, rf.http, rs.rules) && Gates(c, rs.auth, rf.auth)
  }

  /** An auth block compiles exactly if there is none or its compiler takes it, and then to
      that gate. */
  lemma AuthMeans(c: Compilers, auth: Option<AuthConfig>)
    ensures CompileAuth(c, auth).Some? <==> auth.None? || c.auth(auth.value).Some?
    ensures CompileAuth(c, auth).Some? ==> Gates(c, CompileAuth(c, auth).value, auth)
  {
  }

  /** A bucket's rules are its own in every part; an absent egress list is an empty one. */
  lemma BucketMeans(c: Compilers, rs: Rules, rf: RuleFile)
    requires BucketRules(c, rs, rf)
    ensures Speaks(c, rs, rf) && EgressOf(c, rs.egress, if rf.egress.Some? then rf.egress.value else [])
  {
    AuthMeans(c, rf.auth);
    EgressEach(c, BucketEgress(rf));
  }
}
