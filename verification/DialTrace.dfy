/** What has to happen before the proxy opens a connection upstream: the CONNECT,
    absolute-form and transparent paths as runs of one machine that logs its decisions
    (proxy/http1.go, proxy/http2.go, proxy/transparent.go, proxy/egress.go). Every answer
    the environment gives is an argument, so a statement about the methods is a statement
    about every run. */
module DialTrace {
  import opened GoStrings
  import opened MaskedKeys
  import opened KeyText
  import opened RuleCompile
  import opened HostLookup
  import opened RuleFiles
  import opened Authority

  // ---- A connection ----

  /** Who connects: explicitly or transparently, with what Proxy-Authorization header, and
      what an auth broker would say of that header. */
  datatype Client = Client(isExplicit: bool, header: string, brokerAccepts: bool)

  /** What is asked for: the connection-phase input, the host and port to go to, and the
      protocol name the egress rules see. */
  datatype Route = Route(input: ConnInput, host: string, port: string, proto: string)

  /** The text form of addresses, the ASCII form of names, and the resolver's answer to the
      one lookup there is. */
  datatype Net = Net(text: AddrText, ascii: string -> Option<string>, answer: Option<seq<Bytes>>)
  {
    function Naming(): Names {
      Names(text, ascii)
    }
  }

  datatype Context = Context(client: Client, route: Route, net: Net)

  datatype Target = Target(addr: Bytes, port: string)

  /** strconv.ParseUint(port, 10, 16). */
  function ParsePort(port: string): Option<nat> {
    if IsDecimal(port) && Atoi(port) < 0x10000 then Some(Atoi(port)) else None
  }

  /** A literal address stands for itself; any other host for what it resolves to. */
  function Addresses(net: Net, host: string): Option<seq<Bytes>> {
    var literal := net.text.parse(host);
    if literal.Some? then Some([literal.value]) else net.answer
  }

  // ---- The decisions ----

  /** The auth gate of rs lets the client through: nothing is required, or it can present
      credentials and they, or the broker, check out. */
  predicate Admits(rs: Rules, c: Client) {
    match rs.auth
    case None => true
    case Some(gate) =>
      !gate.required || (c.isExplicit && (gate.accepts(c.header) || (gate.broker && c.brokerAccepts)))
  }

  predicate Accepts(rs: Rules, input: ConnInput) {
    ConnAnswer(rs.rules, input).matched && !ConnAnswer(rs.rules, input).deny
  }

  /** LookupEgress: the first entry that matches decides; none means no. */
  predicate Allows(egress: seq<CompiledEgress>, addr: Bytes, port: nat, proto: string) {
    if egress == [] then false
    else if egress[0].matches(addr, port, proto) then egress[0].allow
    else Allows(egress[1..], addr, port, proto)
  }

  /** rs allows every address behind the route's host, on the route's port. */
  predicate Approves(rs: Rules, r: Route, net: Net) {
    && ParsePort(r.port).Some? && Addresses(net, r.host).Some? && Addresses(net, r.host).value != []
    && forall a | a in Addresses(net, r.host).value :: Allows(rs.egress, a, ParsePort(r.port).value, r.proto)
  }

  function TargetOf(r: Route, net: Net): Target
    requires Addresses(net, r.host).Some? && Addresses(net, r.host).value != []
  {
    Target(Addresses(net, r.host).value[0], r.port)
  }

  // ---- Traces ----

  datatype Event =
    | Found(rs: Rules)                        // a rule lookup succeeded
    | Authorised(rs: Rules)                   // its auth gate was passed
    | Matched(rs: Rules, input: ConnInput)    // its connection phase accepted
    | Resolved(host: string)                  // the resolver was asked
    | Pinned(rs: Rules, dst: Target)          // its egress rules approved
    | Dialed(dst: Target)
    | Terminated(name: string)                // the client's TLS ends here, under this name
    | Forwarded(rs: Rules, authority: string, message: MsgInput) // a request went upstream

  ghost predicate Authed(t: seq<Event>, x: Context, rs: Rules) {
    Admits(rs, x.client) && exists a | 0 <= a < |t| :: t[a] == Authorised(rs) && Found(rs) in t[..a]
  }

  ghost predicate Allowed(t: seq<Event>, x: Context, rs: Rules) {
    && Accepts(rs, x.route.input)
    && exists m | 0 <= m < |t| :: t[m] == Matched(rs, x.route.input) && Authed(t[..m], x, rs)
  }

  ghost predicate ApprovedAt(t: seq<Event>, x: Context, dst: Target, p: nat)
    requires p < |t|
  {
    && t[p].Pinned? && t[p].dst == dst && Allowed(t[..p], x, t[p].rs)
    && Approves(t[p].rs, x.route, x.net) && dst == TargetOf(x.route, x.net)
  }

  /** A rule set was found, it admitted the client, accepted the route's input and approved
      every address the route leads to, in that order; dst is the first of them. */
  ghost predicate Approved(t: seq<Event>, x: Context, dst: Target) {
    exists p | 0 <= p < |t| :: ApprovedAt(t, x, dst, p)
  }

  /** The rules rs have gone through all of that for this connection. */
  ghost predicate Decided(t: seq<Event>, x: Context, rs: Rules) {
    exists p | 0 <= p < |t| :: t[p].Pinned? && t[p].rs == rs && ApprovedAt(t, x, t[p].dst, p)
  }

  ghost predicate Dials(t: seq<Event>) {
    exists n | 0 <= n < |t| :: t[n].Dialed?
  }

  ghost predicate Terminates(t: seq<Event>) {
    exists n | 0 <= n < |t| :: t[n].Terminated?
  }

  /** The name is the connection's host, as written or in canonical form. */
  predicate NamesHost(x: Context, name: string) {
    name == x.route.input.host || SameHost(x.net.Naming(), name, x.route.input.host)
  }

  /** TLS is terminated only under the name of the connection's host, and only if the rules
      that were decided on ask for interception. A request goes upstream only after those
      decisions and a dial, over TLS only once that is terminated; only if the authority it
      names is the connection's; and only if the rules just looked up have a rule for it. */
  ghost predicate Ruled(t: seq<Event>, x: Context, e: Event) {
    match e
    case Terminated(name) =>
      && NamesHost(x, name) && Dials(t)
      && exists rs: Rules :: Decided(t, x, rs) && ConnAnswer(rs.rules, x.route.input).mitm
    case Forwarded(rs, authority, message) =>
      && Dials(t) && (x.route.input.proto == "https" ==> Terminates(t)) && (exists d: Rules :: Decided(t, x, d))
      && AuthorityMatches(x.net.Naming(), authority, x.route.input) && message.conn == x.route.input
      && Found(rs) in t && MsgAnswer(rs.rules, message).Some?
    case _ => true
  }

  /** The host is resolved once at most. */
  ghost predicate ResolvedOnce(t: seq<Event>) {
    forall i, j | 0 <= i < |t| && 0 <= j < |t| && t[i].Resolved? && t[j].Resolved? :: i == j
  }

  /** Every dial so far was approved before; every request forwarded was ruled on. */
  ghost predicate Guarded(t: seq<Event>, x: Context) {
    && (forall n | 0 <= n < |t| :: Ruled(t[..n], x, t[n]))
    && (forall n | 0 <= n < |t| && t[n].Dialed? :: Approved(t[..n], x, t[n].dst))
    && ResolvedOnce(t)
  }

  /** Nothing has gone out, not even a name. */
  ghost predicate Quiet(t: seq<Event>) {
    forall n | 0 <= n < |t| :: !t[n].Dialed? && !t[n].Terminated? && !t[n].Forwarded? && !t[n].Resolved?
  }

  /** What it takes to be dialed for. */
  ghost predicate Admitted(x: Context, rules: Option<Rules>) {
    && rules.Some? && Admits(rules.value, x.client) && Accepts(rules.value, x.route.input)
    && Approves(rules.value, x.route, x.net)
  }

  // ---- Traces grow ----

  lemma Prefix(t: seq<Event>, e: Event, n: nat)
    requires n <= |t|
    ensures (t + [e])[..n] == t[..n]
  {
  }

  lemma AuthedNext(t: seq<Event>, x: Context, rs: Rules)
    requires Found(rs) in t && Admits(rs, x.client)
    ensures Authed(t + [Authorised(rs)], x, rs)
  {
    var t' := t + [Authorised(rs)];
    assert t'[..|t|] == t && t'[|t|] == Authorised(rs);
  }

  lemma AllowedNext(t: seq<Event>, x: Context, rs: Rules)
    requires Authed(t, x, rs) && Accepts(rs, x.route.input)
    ensures Allowed(t + [Matched(rs, x.route.input)], x, rs)
  {
    var t' := t + [Matched(rs, x.route.input)];
    assert t'[..|t|] == t && t'[|t|] == Matched(rs, x.route.input);
  }

  lemma StaysAllowed(t: seq<Event>, e: Event, x: Context, rs: Rules)
    requires Allowed(t, x, rs)
    ensures Allowed(t + [e], x, rs)
  {
    var m :| 0 <= m < |t| && t[m] == Matched(rs, x.route.input) && Authed(t[..m], x, rs);
    Prefix(t, e, m);
    assert (t + [e])[m] == t[m];
  }

  lemma ApprovedNext(t: seq<Event>, x: Context, rs: Rules)
    requires Allowed(t, x, rs) && Approves(rs, x.route, x.net)
    ensures PinnedTo(t + [Pinned(rs, TargetOf(x.route, x.net))], x, rs, TargetOf(x.route, x.net))
  {
    var dst := TargetOf(x.route, x.net);
    var t' := t + [Pinned(rs, dst)];
    assert t'[..|t|] == t;
    assert ApprovedAt(t', x, dst, |t|);
  }

  ghost predicate PinnedTo(t: seq<Event>, x: Context, rs: Rules, dst: Target) {
    exists p | 0 <= p < |t| :: ApprovedAt(t, x, dst, p) && t[p].rs == rs
  }

  lemma StaysPinned(t: seq<Event>, e: Event, x: Context, rs: Rules, dst: Target)
    requires PinnedTo(t, x, rs, dst)
    ensures PinnedTo(t + [e], x, rs, dst)
  {
    var p :| 0 <= p < |t| && ApprovedAt(t, x, dst, p) && t[p].rs == rs;
    Prefix(t, e, p);
    assert ApprovedAt(t + [e], x, dst, p);
  }

  lemma PinnedIsDecided(t: seq<Event>, x: Context, rs: Rules, dst: Target)
    requires PinnedTo(t, x, rs, dst)
    ensures Approved(t, x, dst) && Decided(t, x, rs)
  {
    var p :| 0 <= p < |t| && ApprovedAt(t, x, dst, p) && t[p].rs == rs;
  }

  lemma QuietIsGuarded(t: seq<Event>, x: Context)
    requires Quiet(t)
    ensures Guarded(t, x) && !Dials(t)
  {
  }

  lemma RuledNext(t: seq<Event>, e: Event, x: Context)
    requires (forall n | 0 <= n < |t| :: Ruled(t[..n], x, t[n])) && Ruled(t, x, e)
    ensures forall n | 0 <= n < |t + [e]| :: Ruled((t + [e])[..n], x, (t + [e])[n])
  {
    forall n | 0 <= n < |t + [e]| ensures Ruled((t + [e])[..n], x, (t + [e])[n]) {
      Prefix(t, e, n);
      if n == |t| { assert t[..n] == t; }
    }
  }

  lemma DialsNext(t: seq<Event>, e: Event, x: Context)
    requires forall n | 0 <= n < |t| && t[n].Dialed? :: Approved(t[..n], x, t[n].dst)
    requires e.Dialed? ==> Approved(t, x, e.dst)
    ensures forall n | 0 <= n < |t + [e]| && (t + [e])[n].Dialed? :: Approved((t + [e])[..n], x, (t + [e])[n].dst)
  {
    forall n | 0 <= n < |t + [e]| && (t + [e])[n].Dialed? ensures Approved((t + [e])[..n], x, (t + [e])[n].dst) {
      Prefix(t, e, n);
      if n == |t| { assert t[..n] == t; }
    }
  }

  lemma GuardedNext(t: seq<Event>, e: Event, x: Context)
    requires Guarded(t, x) && Ruled(t, x, e) && !e.Resolved? && (e.Dialed? ==> Approved(t, x, e.dst))
    ensures Guarded(t + [e], x)
  {
    RuledNext(t, e, x);
    DialsNext(t, e, x);
    OnceNext(t, e);
  }

  lemma OnceNext(t: seq<Event>, e: Event)
    requires ResolvedOnce(t) && !e.Resolved?
    ensures ResolvedOnce(t + [e])
  {
  }

  lemma ResolveNext(t: seq<Event>, host: string, x: Context)
    requires Quiet(t)
    ensures Guarded(t + [Resolved(host)], x) && !Dials(t + [Resolved(host)])
  {
    var t' := t + [Resolved(host)];
    forall n | 0 <= n < |t'|
      ensures !t'[n].Dialed? && !t'[n].Terminated? && !t'[n].Forwarded? && (t'[n].Resolved? ==> n == |t|)
    {
      if n < |t| { assert t'[n] == t[n]; }
    }
  }

  /** dst is approved, by rs. */
  ghost predicate Ready(t: seq<Event>, x: Context, rs: Rules, dst: Target) {
    Guarded(t, x) && PinnedTo(t, x, rs, dst)
  }

  lemma ReadyNext(t: seq<Event>, e: Event, x: Context, rs: Rules, dst: Target)
    requires Ready(t, x, rs, dst) && Ruled(t, x, e) && !e.Resolved? && (e.Dialed? ==> e.dst == dst)
    ensures Ready(t + [e], x, rs, dst)
    ensures e.Dialed? ==> Dials(t + [e])
    ensures e.Terminated? ==> Terminates(t + [e])
  {
    PinnedIsDecided(t, x, rs, dst);
    GuardedNext(t, e, x);
    StaysPinned(t, e, x, rs, dst);
    assert (t + [e])[|t|] == e;
  }

  /** The upstream leg is there, and TLS is terminated if there is any. */
  ghost predicate Live(t: seq<Event>, x: Context, rs: Rules, dst: Target) {
    Ready(t, x, rs, dst) && Dials(t) && (x.route.input.proto == "https" ==> Terminates(t))
  }

  lemma StillDials(t: seq<Event>, t': seq<Event>)
    requires t <= t'
    ensures (Dials(t) ==> Dials(t')) && (Terminates(t) ==> Terminates(t'))
  {
    if Dials(t) {
      var n :| 0 <= n < |t| && t[n].Dialed?;
      assert t'[n] == t[n];
    }
    if Terminates(t) {
      var n :| 0 <= n < |t| && t[n].Terminated?;
      assert t'[n] == t[n];
    }
  }

  // ---- What a guarded trace means ----

  lemma AuthedMeans(t: seq<Event>, x: Context, rs: Rules) returns (found: nat, authorised: nat)
    requires Authed(t, x, rs)
    ensures found < authorised < |t| && t[found] == Found(rs) && t[authorised] == Authorised(rs)
  {
    authorised :| authorised < |t| && t[authorised] == Authorised(rs) && Found(rs) in t[..authorised];
    found :| found < authorised && t[..authorised][found] == Found(rs);
  }

  lemma AuthedAdmits(t: seq<Event>, x: Context, rs: Rules)
    requires Authed(t, x, rs)
    ensures Admits(rs, x.client)
  {
  }

  lemma AllowedMeans(t: seq<Event>, x: Context, rs: Rules) returns (found: nat, authorised: nat, matched: nat)
    requires Allowed(t, x, rs)
    ensures found < authorised < matched < |t| && Admits(rs, x.client)
    ensures t[found] == Found(rs) && t[authorised] == Authorised(rs) && t[matched] == Matched(rs, x.route.input)
  {
    matched :| matched < |t| && t[matched] == Matched(rs, x.route.input) && Authed(t[..matched], x, rs);
    found, authorised := AuthedMeans(t[..matched], x, rs);
  }

  /** Spelled out: a dial at position n goes to the first address behind the connection's own
      host, on its own port. Before it, in this order, one rule set was found, admitted
      this client, accepted this connection and approved every address behind the host. */
  lemma GuardedMeans(t: seq<Event>, x: Context, n: nat)
    returns (rs: Rules, found: nat, authorised: nat, matched: nat, pinned: nat)
    requires Guarded(t, x) && n < |t| && t[n].Dialed?
    ensures found < authorised < matched < pinned < n
    ensures t[found] == Found(rs) && t[authorised] == Authorised(rs) && t[matched] == Matched(rs, x.route.input)
    ensures t[pinned] == Pinned(rs, t[n].dst)
    ensures Admits(rs, x.client) && Accepts(rs, x.route.input) && Approves(rs, x.route, x.net)
    ensures t[n].dst == TargetOf(x.route, x.net)
  {
    var before := t[..n];
    pinned :| pinned < |before| && ApprovedAt(before, x, t[n].dst, pinned);
    rs := before[pinned].rs;
    found, authorised, matched := AllowedMeans(before[..pinned], x, rs);
  }

  lemma DecidedMeans(t: seq<Event>, x: Context, rs: Rules)
    returns (found: nat, authorised: nat, matched: nat, pinned: nat)
    requires Decided(t, x, rs)
    ensures found < authorised < matched < pinned < |t|
    ensures t[found] == Found(rs) && t[authorised] == Authorised(rs) && t[matched] == Matched(rs, x.route.input)
    ensures t[pinned].Pinned? && t[pinned].rs == rs
    ensures Admits(rs, x.client) && Accepts(rs, x.route.input) && Approves(rs, x.route, x.net)
  {
    pinned :| pinned < |t| && t[pinned].Pinned? && t[pinned].rs == rs && ApprovedAt(t, x, t[pinned].dst, pinned);
    found, authorised, matched := AllowedMeans(t[..pinned], x, rs);
  }

  /** Spelled out: a request at position n names the connection's own host and port. Before
      it rules were found, admitted this client, accepted this connection and approved
      every address behind its host, and a dial was made; and rules looked up since have a
      rule for the request. */
  lemma ForwardedMeans(t: seq<Event>, x: Context, n: nat)
    returns (rs: Rules, found: nat, authorised: nat, matched: nat, pinned: nat, again: nat)
    requires Guarded(t, x) && n < |t| && t[n].Forwarded?
    ensures found < authorised < matched < pinned < n
    ensures t[found] == Found(rs) && t[authorised] == Authorised(rs) && t[matched] == Matched(rs, x.route.input)
    ensures t[pinned].Pinned? && t[pinned].rs == rs && Dials(t[..n])
    ensures Admits(rs, x.client) && Accepts(rs, x.route.input) && Approves(rs, x.route, x.net)
    ensures AuthorityMatches(x.net.Naming(), t[n].authority, x.route.input)
    ensures again < n && t[again] == Found(t[n].rs) && t[n].message.conn == x.route.input
    ensures MsgAnswer(t[n].rs.rules, t[n].message).Some?
  {
    rs, again := RuledMeans(t[..n], x, t[n]);
    found, authorised, matched, pinned := DecidedMeans(t[..n], x, rs);
  }

  lemma RuledMeans(t: seq<Event>, x: Context, e: Event) returns (rs: Rules, again: nat)
    requires Ruled(t, x, e) && e.Forwarded?
    ensures Decided(t, x, rs) && Dials(t) && again < |t| && t[again] == Found(e.rs)
    ensures AuthorityMatches(x.net.Naming(), e.authority, x.route.input) && e.message.conn == x.route.input
    ensures MsgAnswer(e.rs.rules, e.message).Some? && (x.route.input.proto == "https" ==> Terminates(t))
  {
    rs :| Decided(t, x, rs);
    again :| again < |t| && t[again] == Found(e.rs);
  }

  lemma TerminationMeans(t: seq<Event>, x: Context, e: Event) returns (rs: Rules)
    requires Ruled(t, x, e) && e.Terminated?
    ensures NamesHost(x, e.name) && Decided(t, x, rs) && ConnAnswer(rs.rules, x.route.input).mitm
  {
    rs :| Decided(t, x, rs) && ConnAnswer(rs.rules, x.route.input).mitm;
  }

  /** What is intercepted over TLS: only connections whose matching rule asks for it, and only
      clients that named the connection's host in the handshake, or nothing. */
  lemma InterceptedMeans(t: seq<Event>, x: Context, n: nat) returns (rs: Rules, terminated: nat)
    requires Guarded(t, x) && n < |t| && t[n].Forwarded? && x.route.input.proto == "https"
    ensures terminated < n && t[terminated].Terminated? && NamesHost(x, t[terminated].name)
    ensures Decided(t[..terminated], x, rs) && ConnAnswer(rs.rules, x.route.input).mitm
  {
    var decided, again := RuledMeans(t[..n], x, t[n]);
    terminated := Termination(t, n);
    rs := TerminationMeans(t[..terminated], x, t[terminated]);
  }

  lemma Termination(t: seq<Event>, n: nat) returns (terminated: nat)
    requires n <= |t| && Terminates(t[..n])
    ensures terminated < n && t[terminated].Terminated?
  {
    terminated :| terminated < n && t[..n][terminated].Terminated?;
  }

  /** A required auth gate fails closed: no dial is ever made for a client that cannot
      present credentials, nor for one whose credentials nobody accepts. */
  lemma RequiredGateFailsClosed(t: seq<Event>, x: Context, n: nat) returns (rs: Rules)
    requires Guarded(t, x) && n < |t| && t[n].Dialed?
    ensures Found(rs) in t && Pinned(rs, t[n].dst) in t
    ensures rs.auth.Some? && rs.auth.value.required ==>
              x.client.isExplicit
              && (rs.auth.value.accepts(x.client.header) || (rs.auth.value.broker && x.client.brokerAccepts))
  {
    var found, authorised, matched, pinned;
    rs, found, authorised, matched, pinned := GuardedMeans(t, x, n);
  }

  // ---- What the environment answers ----

  /** One request on an intercepted connection: the authority it names, the rule lookup, the
      rest of the message, whether its actions let it through, and how the upstream leg
      fares. */
  datatype Exchange = Exchange(authority: string, rules: Option<Rules>,
                               path: string, verb: string, header: map<string, seq<string>>, passes: bool,
                               upgrade: bool, live: bool, attempts: seq<Setup>, redials: bool, keepAlive: bool)

  /** One attempt to set up an HTTP/2 connection: the dial, then the preface. */
  datatype Setup = Setup(dialed: bool, prefaced: bool)

  datatype Tunnel = Tunnel(terminated: bool, clientH2: bool, upstreamH2: bool, attempts: seq<Setup>,
                           exchanges: seq<Exchange>)

  ghost predicate UsableAnswer(rules: Option<Rules>) {
    rules.Some? ==> Usable(rules.value)
  }

  ghost predicate UsableExchanges(exchanges: seq<Exchange>) {
    forall i | 0 <= i < |exchanges| :: UsableAnswer(exchanges[i].rules)
  }

  /** LookupEgress. */
  method LookupEgress(egress: seq<CompiledEgress>, addr: Bytes, port: nat, proto: string) returns (allow: bool)
    ensures allow <==> Allows(egress, addr, port, proto)
  {
    for n := 0 to |egress|
      invariant Allows(egress, addr, port, proto) == Allows(egress[n..], addr, port, proto)
    {
      if egress[n].matches(addr, port, proto) {
        return egress[n].allow;
      }
    }
    return false;
  }

  class Connection {
    const client: Client
    const net: Net
    ghost var trace: seq<Event>

    constructor (client: Client, net: Net)
      ensures this.client == client && this.net == net && trace == []
    {
      this.client, this.net, trace := client, net, [];
    }

    ghost function To(route: Route): Context {
      Context(client, route, net)
    }

    // ---- Before the first dial ----

    method FindRules(answer: Option<Rules>) returns (rs: Option<Rules>)
      requires Quiet(trace)
      modifies `trace
      ensures Quiet(trace) && old(trace) <= trace && rs == answer && (rs.Some? ==> Found(rs.value) in trace)
    {
      rs := answer;
      if rs.Some? {
        trace := trace + [Found(rs.value)];
      }
    }

    /** checkAuth. */
    method CheckAuth(rs: Rules, ghost route: Route) returns (ok: bool)
      requires Quiet(trace) && Found(rs) in trace
      modifies `trace
      ensures Quiet(trace) && old(trace) <= trace
      ensures if ok then Authed(trace, To(route), rs) else !Admits(rs, client)
    {
      if rs.auth.None? || !rs.auth.value.required {
        ok := true;
      } else if !client.isExplicit {
        ok := false;
      } else {
        ok := rs.auth.value.accepts(client.header);
        if !ok && rs.auth.value.broker {
          ok := client.brokerAccepts;
        }
      }
      if ok {
        AuthedNext(trace, To(route), rs);
        trace := trace + [Authorised(rs)];
      }
    }

    method MatchConn(rs: Rules, route: Route) returns (d: ConnDecision)
      requires Quiet(trace) && Authed(trace, To(route), rs) && Usable(rs)
      modifies `trace
      ensures Quiet(trace) && old(trace) <= trace && d == ConnAnswer(rs.rules, route.input)
      ensures d.matched && !d.deny ==> Allowed(trace, To(route), rs)
    {
      d := LookupConn(rs, route.input);
      if d.matched && !d.deny {
        AllowedNext(trace, To(route), rs);
        trace := trace + [Matched(rs, route.input)];
      }
    }

    /** resolveAndPin: a target exactly when rs approves every address behind the host. */
    method ResolveAndPin(rs: Rules, route: Route) returns (dst: Option<Target>)
      requires Quiet(trace) && Allowed(trace, To(route), rs)
      modifies `trace
      ensures dst.Some? <==> Approves(rs, route, net)
      ensures dst.Some? ==> dst.value == TargetOf(route, net) && Ready(trace, To(route), rs, dst.value)
      ensures old(trace) <= trace && Guarded(trace, To(route)) && !Dials(trace)
    {
      ghost var x := To(route);
      QuietIsGuarded(trace, x);
      var port := ParsePort(route.port);
      if port.None? {
        return None;
      }
      var literal := net.text.parse(route.host);
      var addrs: seq<Bytes>;
      if literal.Some? {
        addrs := [literal.value];
      } else {
        ResolveNext(trace, route.host, x);
        StaysAllowed(trace, Resolved(route.host), x, rs);
        trace := trace + [Resolved(route.host)];
        if net.answer.None? {
          return None;
        }
        addrs := net.answer.value;
      }
      var approved := ApproveAll(rs, addrs, port.value, route.proto);
      if !approved || addrs == [] {
        return None;
      }
      dst := Some(Target(addrs[0], route.port));
      Pin(rs, route);
    }

    /** The loop over addresses in resolveAndPin. */
    method ApproveAll(rs: Rules, addrs: seq<Bytes>, port: nat, proto: string) returns (ok: bool)
      ensures ok <==> forall a | a in addrs :: Allows(rs.egress, a, port, proto)
    {
      for n := 0 to |addrs|
        invariant forall k | 0 <= k < n :: Allows(rs.egress, addrs[k], port, proto)
      {
        var allow := LookupEgress(rs.egress, addrs[n], port, proto);
        if !allow {
          return false;
        }
      }
      return true;
    }

    ghost method Pin(rs: Rules, route: Route)
      requires Guarded(trace, To(route)) && !Dials(trace) && Allowed(trace, To(route), rs) && Approves(rs, route, net)
      modifies `trace
      ensures Ready(trace, To(route), rs, TargetOf(route, net)) && !Dials(trace) && old(trace) <= trace
    {
      var e := Pinned(rs, TargetOf(route, net));
      GuardedNext(trace, e, To(route));
      ApprovedNext(trace, To(route), rs);
      assert forall n | 0 <= n < |trace + [e]| :: !(trace + [e])[n].Dialed?;
      trace := trace + [e];
    }

    /** The part all paths share: found, authorised, matched. */
    method Gate(rules: Option<Rules>, route: Route) returns (rs: Option<Rules>, mitm: bool)
      requires Quiet(trace) && UsableAnswer(rules)
      modifies `trace
      ensures Quiet(trace) && old(trace) <= trace
      ensures rs.Some? <==> rules.Some? && Admits(rules.value, client) && Accepts(rules.value, route.input)
      ensures rs.Some? ==> rs == rules && Allowed(trace, To(route), rs.value)
      ensures rs.Some? ==> mitm == ConnAnswer(rs.value.rules, route.input).mitm
    {
      mitm := false;
      rs := FindRules(rules);
      if rs.None? {
        return;
      }
      var ok := CheckAuth(rs.value, route);
      if !ok {
        return None, false;
      }
      AuthedAdmits(trace, To(route), rs.value);
      var d := MatchConn(rs.value, route);
      if !d.matched || d.deny {
        return None, false;
      }
      mitm := d.mitm;
    }

    // ---- Dialing ----

    /** Any upstream dial: probe, splice, TLS, redial or reconnect. */
    method Dial(dst: Target, up: bool, ghost x: Context, ghost rs: Rules) returns (ok: bool)
      requires Ready(trace, x, rs, dst)
      modifies `trace
      ensures Ready(trace, x, rs, dst) && Dials(trace) && old(trace) <= trace && ok == up
    {
      ReadyNext(trace, Dialed(dst), x, rs, dst);
      trace := trace + [Dialed(dst)];
      ok := up;
    }

    /** newUpstreamH2ClientConn: one dial per attempt that has no connection to start from. */
    method ConnectH2(dst: Target, first: bool, attempts: seq<Setup>, ghost x: Context, ghost rs: Rules)
      returns (ok: bool)
      requires Ready(trace, x, rs, dst)
      modifies `trace
      ensures Ready(trace, x, rs, dst) && old(trace) <= trace
    {
      var have := first;
      for n := 0 to |attempts|
        invariant Ready(trace, x, rs, dst) && old(trace) <= trace
      {
        if !have {
          have := Dial(dst, attempts[n].dialed, x, rs);
        }
        if have {
          if attempts[n].prefaced {
            return true;
          }
          have := false;
        }
      }
      return false;
    }

    /** handleOneRequest, and its HTTP/2 twin handleH2Stream. */
    method HandleOneRequest(dst: Target, input: ConnInput, upstreamH2: bool, r: Exchange, ghost x: Context,
                            ghost rs: Rules)
      returns (goOn: bool)
      requires Live(trace, x, rs, dst) && UsableAnswer(r.rules) && input == x.route.input && x.net == net
      modifies `trace
      ensures Live(trace, x, rs, dst)
    {
      if !AuthorityMatches(net.Naming(), r.authority, input) || r.rules.None? {
        return false;
      }
      var message := MsgInput(input, r.path, r.verb, r.header);
      ghost var before := trace;
      ReadyNext(trace, Found(r.rules.value), x, rs, dst);
      trace := trace + [Found(r.rules.value)];
      assert trace[|trace| - 1] == Found(r.rules.value);
      StillDials(before, trace);
      var rule := LookupRequest(r.rules.value, message);
      if rule.None? || !r.passes {
        return false;
      }
      Forward(r.rules.value, r.authority, message, x, rs, dst);
      before := trace;
      goOn := Upstream(dst, upstreamH2, r, x, rs);
      StillDials(before, trace);
    }

    ghost method Forward(latest: Rules, authority: string, message: MsgInput, x: Context, rs: Rules, dst: Target)
      requires Live(trace, x, rs, dst) && Found(latest) in trace && MsgAnswer(latest.rules, message).Some?
      requires message.conn == x.route.input && AuthorityMatches(x.net.Naming(), authority, x.route.input)
      modifies `trace
      ensures Live(trace, x, rs, dst)
    {
      var before := trace;
      PinnedIsDecided(trace, x, rs, dst);
      ReadyNext(trace, Forwarded(latest, authority, message), x, rs, dst);
      trace := trace + [Forwarded(latest, authority, message)];
      StillDials(before, trace);
    }

    /** The dials a forwarded request may cause. */
    method Upstream(dst: Target, upstreamH2: bool, r: Exchange, ghost x: Context, ghost rs: Rules) returns (goOn: bool)
      requires Ready(trace, x, rs, dst)
      modifies `trace
      ensures Ready(trace, x, rs, dst) && old(trace) <= trace
    {
      var ok := true;
      if upstreamH2 && r.upgrade {
        ok := Dial(dst, r.live, x, rs);
      } else if upstreamH2 {
        if !r.live {
          ok := ConnectH2(dst, false, r.attempts, x, rs);
        }
      } else if r.redials {
        ok := Dial(dst, r.live, x, rs);
      }
      return ok && r.keepAlive;
    }

    /** relayIntercepted; or the streams of one HTTP/2 client connection, which end one by
        one. */
    method Relay(dst: Target, input: ConnInput, clientH2: bool, upstreamH2: bool, exchanges: seq<Exchange>,
                 ghost x: Context, ghost rs: Rules)
      requires Live(trace, x, rs, dst) && UsableExchanges(exchanges) && input == x.route.input && x.net == net
      modifies `trace
      ensures Live(trace, x, rs, dst)
    {
      for n := 0 to |exchanges|
        invariant Live(trace, x, rs, dst)
      {
        var goOn := HandleOneRequest(dst, input, upstreamH2, exchanges[n], x, rs);
        if !goOn && !clientH2 {
          return;
        }
      }
    }

    ghost method Terminate(name: string, x: Context, rs: Rules, dst: Target)
      requires Ready(trace, x, rs, dst) && Dials(trace)
      requires NamesHost(x, name) && ConnAnswer(rs.rules, x.route.input).mitm
      modifies `trace
      ensures Live(trace, x, rs, dst)
    {
      var before := trace;
      PinnedIsDecided(trace, x, rs, dst);
      ReadyNext(trace, Terminated(name), x, rs, dst);
      trace := trace + [Terminated(name)];
      StillDials(before, trace);
    }

    /** serveTunnel: splice, or terminate TLS and relay. */
    method ServeTunnel(dst: Target, input: ConnInput, mitm: bool, name: string, t: Tunnel, ghost x: Context,
                       ghost rs: Rules)
      requires Ready(trace, x, rs, dst) && UsableExchanges(t.exchanges) && input == x.route.input && x.net == net
      requires mitm ==> NamesHost(x, name) && ConnAnswer(rs.rules, input).mitm
      modifies `trace
      ensures Guarded(trace, x) && Dials(trace)
    {
      var up := Dial(dst, t.terminated, x, rs);
      if !mitm || !up {
        return;
      }
      Terminate(name, x, rs, dst);
      if t.upstreamH2 {
        ghost var before := trace;
        var ok := ConnectH2(dst, true, t.attempts, x, rs);
        StillDials(before, trace);
        if !ok {
          return;
        }
      }
      Relay(dst, input, t.clientH2, t.upstreamH2, t.exchanges, x, rs);
    }

    /** A plain dial, then the relay. */
    method ServePlain(dst: Target, input: ConnInput, dials: bool, exchanges: seq<Exchange>, ghost x: Context,
                      ghost rs: Rules)
      requires Ready(trace, x, rs, dst) && UsableExchanges(exchanges) && input == x.route.input && x.net == net
      requires input.proto != "https"
      modifies `trace
      ensures Guarded(trace, x) && Dials(trace)
    {
      var up := Dial(dst, dials, x, rs);
      if up {
        Relay(dst, input, false, false, exchanges, x, rs);
      }
    }

    // ---- The paths ----

    /** serveConnect: dials exactly when the client is admitted. */
    method ServeConnect(e: Explicit)
      requires Quiet(trace) && UsableAnswer(e.rules) && UsableExchanges(e.tunnel.exchanges)
      modifies `trace
      ensures match e.ConnectRoute(net)
              case None => Quiet(trace)
              case Some(route) => Guarded(trace, To(route)) && (Dials(trace) <==> Admitted(To(route), e.rules))
    {
      var parsed := e.ConnectRoute(net);
      if parsed.None? {
        return;
      }
      var route := parsed.value;
      ghost var x := To(route);
      var rs, mitm := Gate(e.rules, route);
      if rs.None? {
        QuietIsGuarded(trace, x);
        return;
      }
      var dst := ResolveAndPin(rs.value, route);
      if dst.None? {
        return;
      }
      var probe := Dial(dst.value, e.probe, x, rs.value);
      if !probe || !e.answered {
        return;
      }
      var name := if e.sni == "" then route.input.host else e.sni;
      if mitm && (!e.hello || !SameHost(net.Naming(), name, route.input.host)) {
        return;
      }
      ServeTunnel(dst.value, route.input, mitm, name, e.tunnel, x, rs.value);
    }

    /** serveAbsoluteForm. */
    method ServeAbsoluteForm(e: Explicit)
      requires Quiet(trace) && UsableAnswer(e.rules) && UsableExchanges(e.tunnel.exchanges)
      modifies `trace
      ensures match e.PlainRoute(net)
              case None => Quiet(trace)
              case Some(route) => Guarded(trace, To(route)) && (Dials(trace) <==> Admitted(To(route), e.rules))
    {
      var parsed := e.PlainRoute(net);
      if parsed.None? {
        return;
      }
      var route := parsed.value;
      ghost var x := To(route);
      var rs, _ := Gate(e.rules, route);
      if rs.None? {
        QuietIsGuarded(trace, x);
        return;
      }
      var dst := ResolveAndPin(rs.value, route);
      if dst.None? {
        return;
      }
      ServePlain(dst.value, route.input, e.probe, e.tunnel.exchanges, x, rs.value);
    }

    /** serveTransparentTLS: matched on the name the client asked for, pinned to the address
        it was going to. */
    method ServeTransparentTLS(e: Transparent)
      requires Quiet(trace) && UsableAnswer(e.rules) && UsableExchanges(e.tunnel.exchanges)
      modifies `trace
      ensures Guarded(trace, To(e.TLSRoute(net)))
      ensures Dials(trace) <==> Admitted(To(e.TLSRoute(net)), e.rules)
    {
      var route := e.TLSRoute(net);
      ghost var x := To(route);
      var rs, mitm := Gate(e.rules, route);
      if rs.None? {
        QuietIsGuarded(trace, x);
        return;
      }
      var dst := ResolveAndPin(rs.value, route);
      if dst.None? {
        return;
      }
      ServeTunnel(dst.value, route.input, mitm, route.input.host, e.tunnel, x, rs.value);
    }

    /** serveTransparentOpaque: matched on the address alone, and once more on the host the
        request names if that match asks for interception. */
    method ServeTransparentOpaque(e: Transparent)
      requires Quiet(trace) && UsableAnswer(e.rules) && UsableAnswer(e.rulesAgain)
      requires UsableExchanges(e.tunnel.exchanges)
      modifies `trace
      ensures if e.Intercepted(client, net) then
                match e.HttpRoute(net)
                case None => Quiet(trace)
                case Some(route) => Guarded(trace, To(route)) && (Dials(trace) <==> Admitted(To(route), e.rulesAgain))
              else Guarded(trace, To(e.TCPRoute(net))) && (Dials(trace) <==> Admitted(To(e.TCPRoute(net)), e.rules))
    {
      var route := e.TCPRoute(net);
      ghost var x := To(route);
      var rs, mitm := Gate(e.rules, route);
      if rs.None? {
        QuietIsGuarded(trace, x);
        return;
      }
      if mitm {
        ServeTransparentOpaqueMITM(e);
        return;
      }
      var dst := ResolveAndPin(rs.value, route);
      if dst.None? {
        return;
      }
      ServeTunnel(dst.value, route.input, false, "", e.tunnel, x, rs.value);
    }

    /** serveTransparentOpaqueMITM: everything again for the host the request names. */
    method ServeTransparentOpaqueMITM(e: Transparent)
      requires Quiet(trace) && UsableAnswer(e.rulesAgain) && UsableExchanges(e.tunnel.exchanges)
      modifies `trace
      ensures match e.HttpRoute(net)
              case None => Quiet(trace)
              case Some(route) => Guarded(trace, To(route)) && (Dials(trace) <==> Admitted(To(route), e.rulesAgain))
    {
      var parsed := e.HttpRoute(net);
      if parsed.None? {
        return;
      }
      var route := parsed.value;
      ghost var x := To(route);
      var rs, _ := Gate(e.rulesAgain, route);
      if rs.None? {
        QuietIsGuarded(trace, x);
        return;
      }
      var dst := ResolveAndPin(rs.value, route);
      if dst.None? {
        return;
      }
      ServePlain(dst.value, route.input, e.dials, e.tunnel.exchanges, x, rs.value);
    }
  }

  /** An explicit request: the authority and scheme it names, and what the network answers. */
  datatype Explicit = Explicit(authority: string, scheme: string, rules: Option<Rules>,
                               probe: bool, answered: bool, hello: bool, sni: string, tunnel: Tunnel)
  {
    function ConnectRoute(net: Net): Option<Route> {
      match NormalizeAuthority(net.Naming(), authority, "443")
      case None => None
      case Some((host, port)) => Some(Route(ConnInput(host, port, "https"), host, port, "http"))
    }

    function PlainRoute(net: Net): Option<Route> {
      if !EqualFold(scheme, "http") then None
      else
        match NormalizeAuthority(net.Naming(), authority, "80")
        case None => None
        case Some((host, port)) => Some(Route(ConnInput(host, port, "http"), host, port, "http"))
    }
  }

  /** An intercepted connection; addr and port are the destination the kernel recovered. */
  datatype Transparent = Transparent(addr: Bytes, port: nat, sni: string, rules: Option<Rules>,
                                     isHttp: bool, requestHost: string, rulesAgain: Option<Rules>,
                                     dials: bool, tunnel: Tunnel)
  {
    function TLSRoute(net: Net): Route {
      var dst := net.text.print_(addr);
      Route(ConnInput(if sni == "" then dst else sni, Itoa(port), "https"), dst, Itoa(port), "http")
    }

    function TCPRoute(net: Net): Route {
      Route(ConnInput(net.text.print_(addr), Itoa(port), "tcp"), net.text.print_(addr), Itoa(port), "tcp")
    }

    /** The host of the Host header, or the address when there is none; the port is the
        destination's, whatever the header says. */
    function HttpRoute(net: Net): Option<Route> {
      var dst := net.text.print_(addr);
      if !isHttp then None
      else
        match NormalizeAuthority(net.Naming(), if requestHost == "" then dst else requestHost, Itoa(port))
        case None => None
        case Some((host, _)) => Some(Route(ConnInput(host, Itoa(port), "http"), dst, Itoa(port), "http"))
    }

    /** The address itself matched a rule that asks for interception. */
    ghost predicate Intercepted(c: Client, net: Net) {
      && rules.Some? && Admits(rules.value, c) && Accepts(rules.value, TCPRoute(net).input)
      && ConnAnswer(rules.value.rules, TCPRoute(net).input).mitm
    }
  }

  /** What arrives on a listener. */
  datatype Arrival =
    | Connect(client: Client, explicit: Explicit)
    | AbsoluteForm(client: Client, explicit: Explicit)
    | TransparentTLS(transparent: Transparent)
    | TransparentOpaque(transparent: Transparent)
    | Nothing

  /** An intercepted client has no way to present credentials. */
  const INTERCEPTED := Client(false, "", false)

  ghost predicate UsableArrival(a: Arrival) {
    match a
    case Connect(c, e) => c.isExplicit && UsableAnswer(e.rules) && UsableExchanges(e.tunnel.exchanges)
    case AbsoluteForm(c, e) => c.isExplicit && UsableAnswer(e.rules) && UsableExchanges(e.tunnel.exchanges)
    case TransparentTLS(e) => UsableAnswer(e.rules) && UsableExchanges(e.tunnel.exchanges)
    case TransparentOpaque(e) =>
      UsableAnswer(e.rules) && UsableAnswer(e.rulesAgain) && UsableExchanges(e.tunnel.exchanges)
    case Nothing => true
  }

  /** The connection that arrived: its client, its own route, and the rules it is under. None
      if nothing arrived or it names no usable host. */
  ghost function ContextOf(a: Arrival, net: Net): Option<(Context, Option<Rules>)> {
    match a
    case Connect(c, e) =>
      (match e.ConnectRoute(net) case None => None case Some(r) => Some((Context(c, r, net), e.rules)))
    case AbsoluteForm(c, e) =>
      (match e.PlainRoute(net) case None => None case Some(r) => Some((Context(c, r, net), e.rules)))
    case TransparentTLS(e) => Some((Context(INTERCEPTED, e.TLSRoute(net), net), e.rules))
    case TransparentOpaque(e) =>
      if e.Intercepted(INTERCEPTED, net)
      then match e.HttpRoute(net) case None => None case Some(r) => Some((Context(INTERCEPTED, r, net), e.rulesAgain))
      else Some((Context(INTERCEPTED, e.TCPRoute(net), net), e.rules))
    case Nothing => None
  }

  /** Serve and serveTransparent: in every run there is a dial exactly when the connection
      is admitted, and every dial, interception and forwarded request is guarded by
      decisions about this very connection. */
  method Serve(a: Arrival, net: Net) returns (c: Connection)
    requires UsableArrival(a)
    ensures fresh(c)
    ensures match ContextOf(a, net)
            case None => Quiet(c.trace)
            case Some((x, rules)) => Guarded(c.trace, x) && (Dials(c.trace) <==> Admitted(x, rules))
  {
    match a
    case Connect(client, e) =>
      c := new Connection(client, net);
      c.ServeConnect(e);
    case AbsoluteForm(client, e) =>
      c := new Connection(client, net);
      c.ServeAbsoluteForm(e);
    case TransparentTLS(e) =>
      c := new Connection(INTERCEPTED, net);
      c.ServeTransparentTLS(e);
    case TransparentOpaque(e) =>
      c := new Connection(INTERCEPTED, net);
      c.ServeTransparentOpaque(e);
    case Nothing =>
      c := new Connection(INTERCEPTED, net);
  }

  lemma PortReads(n: nat)
    ensures ParsePort(Itoa(n)) == if n < 65536 then Some(n) else None
  {
    AtoiOfItoa(n);
  }

  /** An explicit client is served exactly if the authority it names can be read, with 443 or
      80 for a port it does not name; the absolute form is for plain HTTP alone. */
  lemma ExplicitArrives(c: Client, e: Explicit, net: Net)
    ensures ContextOf(Connect(c, e), net).Some? <==> NormalizeAuthority(net.Naming(), e.authority, "443").Some?
    ensures ContextOf(AbsoluteForm(c, e), net).Some?
            <==> Lower(e.scheme) == "http" && NormalizeAuthority(net.Naming(), e.authority, "80").Some?
    ensures ContextOf(Connect(c, e), net).Some? ==>
              var (x, rules) := ContextOf(Connect(c, e), net).value;
              x.client == c && x.net == net && rules == e.rules
    ensures ContextOf(AbsoluteForm(c, e), net).Some? ==>
              var (x, rules) := ContextOf(AbsoluteForm(c, e), net).value;
              x.client == c && x.net == net && rules == e.rules
  {
    assert Lower("http") == "http";
  }

  /** An explicit client is only ever connected to the host and port it named: to the address
      that host is, or the first it resolves to. The rules accepted that host and port,
      under the path's own protocol, and their egress list saw that port as HTTP. */
  lemma NamedDestination(t: seq<Event>, a: Arrival, net: Net, n: nat, host: string, port: string)
    returns (rs: Rules, matched: nat, pinned: nat)
    requires a.Connect? || a.AbsoluteForm?
    requires ContextOf(a, net).Some? && Guarded(t, ContextOf(a, net).value.0) && n < |t| && t[n].Dialed?
    requires NormalizeAuthority(net.Naming(), a.explicit.authority, if a.Connect? then "443" else "80")
             == Some((host, port))
    ensures t[n].dst.port == port
    ensures if net.text.parse(host).Some? then t[n].dst.addr == net.text.parse(host).value
            else net.answer.Some? && net.answer.value != [] && t[n].dst.addr == net.answer.value[0]
    ensures matched < pinned < n && t[pinned] == Pinned(rs, t[n].dst)
    ensures t[matched] == Matched(rs, ConnInput(host, port, if a.Connect? then "https" else "http"))
    ensures ParsePort(port).Some? && Allows(rs.egress, t[n].dst.addr, ParsePort(port).value, "http")
    ensures net.text.parse(host).None? ==>
              forall ip | ip in net.answer.value :: Allows(rs.egress, ip, ParsePort(port).value, "http")
  {
    var found, authorised;
    var x := ContextOf(a, net).value.0;
    NamedRoute(a, net, host, port);
    rs, found, authorised, matched, pinned := GuardedMeans(t, x, n);
    assert t[n].dst.addr in Addresses(net, host).value;
  }

  lemma NamedRoute(a: Arrival, net: Net, host: string, port: string)
    requires a.Connect? || a.AbsoluteForm?
    requires NormalizeAuthority(net.Naming(), a.explicit.authority, if a.Connect? then "443" else "80")
             == Some((host, port))
    ensures ContextOf(a, net).Some? ==>
              var x := ContextOf(a, net).value.0;
              && x.net == net && x.route.host == host && x.route.port == port && x.route.proto == "http"
              && x.route.input == ConnInput(host, port, if a.Connect? then "https" else "http")
  {
  }

  /** The rules an intercepted TLS client is held to: those for the name it asked for, or
      else for the address, on the destination's port. */
  lemma TLSArrives(e: Transparent, net: Net)
    ensures ContextOf(TransparentTLS(e), net).Some?
    ensures var (x, rules) := ContextOf(TransparentTLS(e), net).value;
            && rules == e.rules && !x.client.isExplicit && x.route.proto == "http"
            && x.route.input.host == (if e.sni != "" then e.sni else net.text.print_(e.addr))
            && x.route.input.port == Itoa(e.port) && x.route.input.proto == "https"
  {
  }

  /** Any other is held to those for the address, unless they ask for interception. */
  lemma OpaqueArrives(e: Transparent, net: Net)
    requires !e.Intercepted(INTERCEPTED, net)
    ensures ContextOf(TransparentOpaque(e), net).Some?
    ensures var (x, rules) := ContextOf(TransparentOpaque(e), net).value;
            && rules == e.rules && !x.client.isExplicit && x.route.proto == "tcp"
            && x.route.input.host == net.text.print_(e.addr) && x.route.input.port == Itoa(e.port)
            && x.route.input.proto == "tcp"
  {
  }

  lemma HttpNames(e: Transparent, net: Net, text: string)
    requires text == if e.requestHost == "" then net.text.print_(e.addr) else e.requestHost
    ensures var named, r := NormalizeAuthority(net.Naming(), text, Itoa(e.port)), e.HttpRoute(net);
            && (r.Some? <==> e.isHttp && named.Some?)
            && (r.Some? ==> r.value.proto == "http" && r.value.input == ConnInput(named.value.0, Itoa(e.port), "http"))
  {
  }

  /** If they do, to those for the host its request names, on the destination's port whatever
      port that names; and it is served exactly if it is HTTP and names one. */
  lemma InterceptedArrives(e: Transparent, net: Net, text: string)
    requires e.Intercepted(INTERCEPTED, net)
    requires text == if e.requestHost == "" then net.text.print_(e.addr) else e.requestHost
    ensures var named := NormalizeAuthority(net.Naming(), text, Itoa(e.port));
            var found := ContextOf(TransparentOpaque(e), net);
            && (found.Some? <==> e.isHttp && named.Some?)
            && (found.Some? ==>
                  && found.value.1 == e.rulesAgain && found.value.0.route.proto == "http"
                  && found.value.0.route.input == ConnInput(named.value.0, Itoa(e.port), "http"))
  {
    HttpNames(e, net, text);
  }

  /** Whatever name an intercepted client asked for, it is only ever connected to the
      address and port it was going to, and its egress rules saw exactly those. */
  lemma OriginalDestination(t: seq<Event>, a: Arrival, net: Net, n: nat) returns (rs: Rules)
    requires a.TransparentTLS? || a.TransparentOpaque?
    requires Faithful(net.text) && a.transparent.port < 0x10000
    requires |a.transparent.addr| == 4 || |a.transparent.addr| == 16
    requires ContextOf(a, net).Some? && Guarded(t, ContextOf(a, net).value.0) && n < |t| && t[n].Dialed?
    ensures var e := a.transparent;
            t[n].dst == Target(e.addr, Itoa(e.port)) && ParsePort(Itoa(e.port)) == Some(e.port)
            && Pinned(rs, t[n].dst) in t && Allows(rs.egress, e.addr, e.port, ContextOf(a, net).value.0.route.proto)
    ensures rs.auth.None? || !rs.auth.value.required
  {
    var found, authorised, matched, pinned;
    var x := ContextOf(a, net).value.0;
    rs, found, authorised, matched, pinned := GuardedMeans(t, x, n);
    PortReads(a.transparent.port);
    TransparentRoute(a, net);
    PrintedAddress(net, a.transparent.addr);
    assert a.transparent.addr in Addresses(net, x.route.host).value;
  }

  lemma PrintedAddress(net: Net, addr: Bytes)
    requires Faithful(net.text) && (|addr| == 4 || |addr| == 16)
    ensures Addresses(net, net.text.print_(addr)) == Some([addr])
  {
  }

  lemma TransparentRoute(a: Arrival, net: Net)
    requires a.TransparentTLS? || a.TransparentOpaque?
    ensures ContextOf(a, net).Some? ==>
              var x := ContextOf(a, net).value.0;
              && x.client == INTERCEPTED && x.net == net
              && x.route.host == net.text.print_(a.transparent.addr) && x.route.port == Itoa(a.transparent.port)
  {
  }
}
