/** Which host and port a request names (proxy/authority.go): normalizeAuthority, sameHost
    and authorityMatches. */
module Authority {
  import opened GoStrings
  import opened MaskedKeys
  import opened KeyText
  import opened RuleCompile
  import Text = CacheControl

  /** The text form of addresses, and idna.Lookup.ToASCII. */
  datatype Names = Names(text: AddrText, ascii: string -> Option<string>)

  // ---- host:port ----

  /** strings.IndexByte and its mirror image; -1 when there is none. */
  function IndexOf(s: string, c: char): (i: int)
    ensures -1 <= i < |s| && (i < 0 <==> c !in s)
    ensures i >= 0 ==> s[i] == c && c !in s[..i]
  {
    if s == "" then -1
    else if s[0] == c then 0
    else
      var i := IndexOf(s[1..], c);
      assert s == [s[0]] + s[1..];
      if i < 0 then -1 else
        assert s[..i + 1] == [s[0]] + s[1..][..i];
        i + 1
  }

  function LastIndexOf(s: string, c: char): (i: int)
    ensures -1 <= i < |s| && (i < 0 <==> c !in s)
    ensures i >= 0 ==> s[i] == c && c !in s[i + 1..]
  {
    if s == "" then -1
    else if s[|s| - 1] == c then |s| - 1
    else
      var i := LastIndexOf(s[..|s| - 1], c);
      assert s == s[..|s| - 1] + [s[|s| - 1]];
      if i < 0 then -1 else
        assert s[i + 1..] == s[..|s| - 1][i + 1..] + [s[|s| - 1]];
        i
  }

  /** net.SplitHostPort. */
  function SplitHostPort(s: string): Option<(string, string)> {
    var i := LastIndexOf(s, ':');
    if i < 0 then None
    else if s[0] == '[' then
      var end := IndexOf(s, ']');
      if end < 0 || end + 1 != i || '[' in s[1..] || ']' in s[end + 1..] then None
      else Some((s[1..end], s[i + 1..]))
    else if ':' in s[..i] || '[' in s || ']' in s then None
    else Some((s[..i], s[i + 1..]))
  }

  predicate Bare(s: string) {
    '[' !in s && ']' !in s
  }

  /** The two forms it reads. */
  predicate Joined(s: string, host: string, port: string) {
    && Bare(host) && Bare(port) && ':' !in port
    && ((s == host + [':'] + port && ':' !in host) || s == ['['] + host + [']', ':'] + port)
  }

  /** It reads exactly a host without colons or a bracketed one, and what follows the last
      colon. */
  lemma SplitIffJoined(s: string, host: string, port: string)
    ensures SplitHostPort(s) == Some((host, port)) <==> Joined(s, host, port)
  {
    if SplitHostPort(s) == Some((host, port)) { SplitIsJoined(s, host, port); }
    if Joined(s, host, port) { JoinedIsSplit(s, host, port); }
  }

  lemma SplitIsJoined(s: string, host: string, port: string)
    requires SplitHostPort(s) == Some((host, port))
    ensures Joined(s, host, port)
  {
    var i := LastIndexOf(s, ':');
    if s[0] == '[' {
      assert s == ['['] + s[1..i - 1] + [']', ':'] + s[i + 1..];
      assert s[..i - 1] == ['['] + s[1..i - 1];
    } else {
      assert s == s[..i] + [':'] + s[i + 1..];
    }
  }

  lemma {:induction false} LastAt(a: string, c: char, b: string)
    requires c !in b
    ensures LastIndexOf(a + [c] + b, c) == |a|
    decreases |b|
  {
    if b == "" {
      assert a + [c] + b == a + [c];
    } else {
      LastAt(a, c, b[..|b| - 1]);
      assert (a + [c] + b)[..|a| + |b|] == a + [c] + b[..|b| - 1];
    }
  }

  lemma {:induction false} FirstAt(a: string, c: char, b: string)
    requires c !in a
    ensures IndexOf(a + [c] + b, c) == |a|
    decreases |a|
  {
    if a != "" {
      FirstAt(a[1..], c, b);
      assert (a + [c] + b)[1..] == a[1..] + [c] + b;
    }
  }

  lemma JoinedIsSplit(s: string, host: string, port: string)
    requires Joined(s, host, port)
    ensures SplitHostPort(s) == Some((host, port))
  {
    if s == host + [':'] + port && ':' !in host {
      PlainIsSplit(host, port);
    } else {
      BracketedIsSplit(host, port);
    }
  }

  lemma PlainIsSplit(host: string, port: string)
    requires Bare(host) && Bare(port) && ':' !in port && ':' !in host
    ensures SplitHostPort(host + [':'] + port) == Some((host, port))
  {
    var s := host + [':'] + port;
    LastAt(host, ':', port);
    assert s[..|host|] == host && s[|host| + 1..] == port;
    assert Bare(s);
  }

  lemma BracketedIsSplit(host: string, port: string)
    requires Bare(host) && Bare(port) && ':' !in port
    ensures SplitHostPort(['['] + host + [']', ':'] + port) == Some((host, port))
  {
    var s, n := ['['] + host + [']', ':'] + port, |host|;
    BracketedParts(host, port);
    assert LastIndexOf(s, ':') == n + 2 && IndexOf(s, ']') == n + 1;
    assert '[' !in host + [']', ':'] + port && ']' !in [':'] + port;
  }

  lemma BracketedParts(host: string, port: string)
    requires Bare(host) && Bare(port) && ':' !in port
    ensures var s, n := ['['] + host + [']', ':'] + port, |host|;
            && LastIndexOf(s, ':') == n + 2 && IndexOf(s, ']') == n + 1
            && s[1..n + 1] == host && s[n + 3..] == port && s[n + 2..] == [':'] + port
            && s[1..] == host + [']', ':'] + port
  {
    var s, a := ['['] + host + [']', ':'] + port, ['['] + host;
    assert s == (a + [']']) + [':'] + port && s == a + [']'] + ([':'] + port);
    LastAt(a + [']'], ':', port);
    FirstAt(a, ']', [':'] + port);
  }

  // ---- Hosts ----

  /** netip's Unmap: an IPv4 address in IPv6 clothes is the IPv4 address. */
  function Unmap(b: Bytes): Bytes {
    if |b| == 16 && b[..12] == seq(10, _ => 0) + [255, 255] then b[12..] else b
  }

  function HostText(host: string): string {
    TrimDot(Lower(Text.Trim(host, Text.Space)))
  }

  /** canonicalHost. */
  function CanonicalHost(n: Names, host: string): Option<string> {
    var h := HostText(host);
    match n.text.parse(h)
    case Some(ip) => Some(n.text.print_(Unmap(ip)))
    case None =>
      match n.ascii(h)
      case None => None
      case Some(a) => if a == "" then None else Some(Lower(a))
  }

  /** sameHost. */
  predicate SameHost(n: Names, a: string, b: string) {
    CanonicalHost(n, a).Some? && CanonicalHost(n, a) == CanonicalHost(n, b)
  }

  // ---- Authorities ----

  /** The host and port of an authority as written; a bare IPv6 address may go without
      brackets when it has no port. */
  function HostAndPort(n: Names, a: string, defaultPort: string): Option<(string, string)> {
    match SplitHostPort(a)
    case Some(hp) => Some(hp)
    case None =>
      if |a| >= 2 && a[0] == '[' && a[|a| - 1] == ']' then Some((a[1..|a| - 1], defaultPort))
      else if ':' in a && n.text.parse(a).None? then None
      else Some((a, defaultPort))
  }

  predicate PortNumber(port: string) {
    Text.Integer(port).Some? && 1 <= Text.Integer(port).value <= 65535
  }

  /** normalizeAuthority: the host in canonical form, and the port. */
  function NormalizeAuthority(n: Names, authority: string, defaultPort: string): (r: Option<(string, string)>)
    ensures r.Some? ==> PortNumber(r.value.1)
  {
    var a := Text.Trim(authority, Text.Space);
    if a == "" then None
    else
      match HostAndPort(n, a, defaultPort)
      case None => None
      case Some((host, port)) =>
        if host == "" || !PortNumber(port) then None
        else match CanonicalHost(n, host) case None => None case Some(h) => Some((h, port))
  }

  function DefaultPort(proto: string): string {
    if proto == "https" then "443" else "80"
  }

  /** authorityMatches: the request names the connection's host and port. */
  predicate AuthorityMatches(n: Names, got: string, input: ConnInput) {
    match NormalizeAuthority(n, got, DefaultPort(input.proto))
    case None => false
    case Some((host, port)) => SameHost(n, host, input.host) && port == input.port
  }

  /** A request fits connections to one origin only: of two it fits, under one protocol, host
      and port are the same. */
  lemma OneOrigin(n: Names, got: string, a: ConnInput, b: ConnInput)
    requires AuthorityMatches(n, got, a) && AuthorityMatches(n, got, b) && a.proto == b.proto
    ensures SameHost(n, a.host, b.host) && a.port == b.port
  {
  }

  /** A request that names what the connection was opened for fits it, exactly if the
      canonical form of that host has one itself. */
  lemma OwnAuthority(n: Names, authority: string, proto: string)
    requires NormalizeAuthority(n, authority, if proto == "https" then "443" else "80").Some?
    ensures var (host, port) := NormalizeAuthority(n, authority, if proto == "https" then "443" else "80").value;
            AuthorityMatches(n, authority, ConnInput(host, port, proto)) <==> CanonicalHost(n, host).Some?
  {
  }

  // ---- As written ----

  /** A host as it may be written: something, with no space around it. */
  predicate Written(host: string) {
    host != "" && !Text.Space(host[0]) && !Text.Space(host[|host| - 1]) && Bare(host)
  }

  lemma WrittenPort(p: nat)
    ensures PortNumber(Itoa(p)) <==> 1 <= p <= 65535
    ensures Bare(Itoa(p)) && ':' !in Itoa(p) && !Text.Space(Itoa(p)[|Itoa(p)| - 1])
  {
    Text.IntegerReads(p);
  }

  /** host:port names that host, in canonical form, and that port, if it is one; an IPv6
      address goes in brackets. */
  lemma NamesHostAndPort(n: Names, host: string, p: nat, defaultPort: string)
    requires Written(host)
    ensures var a := if ':' in host then ['['] + host + [']', ':'] + Itoa(p) else host + [':'] + Itoa(p);
            NormalizeAuthority(n, a, defaultPort)
            == if 1 <= p <= 65535 && CanonicalHost(n, host).Some? then Some((CanonicalHost(n, host).value, Itoa(p)))
               else None
  {
    var a := if ':' in host then ['['] + host + [']', ':'] + Itoa(p) else host + [':'] + Itoa(p);
    WrittenPort(p);
    SplitIffJoined(a, host, Itoa(p));
    assert a[|a| - 1] == Itoa(p)[|Itoa(p)| - 1];
    Text.TrimNothing(a, Text.Space);
  }

  /** A host alone names the default port; brackets around it make no difference. */
  lemma NamesHostOnly(n: Names, host: string, p: nat)
    requires Written(host) && 1 <= p <= 65535
    ensures var named := match CanonicalHost(n, host) case None => None case Some(h) => Some((h, Itoa(p)));
            && (':' !in host ==> NormalizeAuthority(n, host, Itoa(p)) == named)
            && NormalizeAuthority(n, ['['] + host + [']'], Itoa(p)) == named
  {
    WrittenPort(p);
    if ':' !in host { Unbracketed(n, host, Itoa(p)); }
    Bracketed(n, host, Itoa(p));
  }

  lemma Unbracketed(n: Names, host: string, port: string)
    requires Written(host) && ':' !in host && PortNumber(port)
    ensures NormalizeAuthority(n, host, port)
            == match CanonicalHost(n, host) case None => None case Some(h) => Some((h, port))
  {
    Text.TrimNothing(host, Text.Space);
    assert HostAndPort(n, host, port) == Some((host, port));
  }

  lemma Bracketed(n: Names, host: string, port: string)
    requires Written(host) && PortNumber(port)
    ensures NormalizeAuthority(n, ['['] + host + [']'], port)
            == match CanonicalHost(n, host) case None => None case Some(h) => Some((h, port))
  {
    var a := ['['] + host + [']'];
    Text.TrimNothing(a, Text.Space);
    BracketedAlone(host);
    assert HostAndPort(n, a, port) == Some((host, port));
  }

  lemma BracketedAlone(host: string)
    requires Bare(host)
    ensures var a := ['['] + host + [']'];
            SplitHostPort(a).None? && a[1..|a| - 1] == host
  {
    var a := ['['] + host + [']'];
    assert a == ['['] + host + [']'] + "";
    FirstAt(['['] + host, ']', "");
  }

  lemma TextIgnores(host: string, left: string, right: string)
    requires Written(host) && host[|host| - 1] != '.'
    requires forall c | c in left || c in right :: Text.Space(c)
    ensures HostText(left + host + right) == HostText(host) == HostText(Lower(host)) == HostText(host + ".")
  {
    LowerText(host);
    Text.TrimReads(left, host, right, Text.Space);
    Text.TrimNothing(host, Text.Space);
    Text.TrimNothing(Lower(host), Text.Space);
    DottedText(host);
  }

  lemma DottedText(host: string)
    requires Written(host)
    ensures Text.Trim(host + ".", Text.Space) == host + "."
  {
    Text.TrimNothing(host + ".", Text.Space);
  }

  /** Letter case, spaces around a host and one dot after it do not tell hosts apart. */
  lemma CanonicalIgnores(n: Names, host: string, left: string, right: string)
    requires Written(host) && host[|host| - 1] != '.'
    requires forall c | c in left || c in right :: Text.Space(c)
    ensures CanonicalHost(n, left + host + right) == CanonicalHost(n, host) == CanonicalHost(n, Lower(host))
            == CanonicalHost(n, host + ".")
  {
    TextIgnores(host, left, right);
    SameText(n, left + host + right, host);
    SameText(n, host, Lower(host));
    SameText(n, host, host + ".");
  }

  lemma SameText(n: Names, a: string, b: string)
    requires HostText(a) == HostText(b)
    ensures CanonicalHost(n, a) == CanonicalHost(n, b)
  {
  }

  lemma LowerText(s: string)
    requires Written(s) && s[|s| - 1] != '.'
    ensures Lower(s) != "" && !Text.Space(Lower(s)[0]) && !Text.Space(Lower(s)[|s| - 1])
    ensures TrimDot(Lower(Lower(s))) == TrimDot(Lower(s)) == Lower(s) == TrimDot(Lower(s + "."))
  {
    LowerTwice(s);
    LowerAppend(s, ".");
    LowerLetters(s[0]);
    LowerLetters(s[|s| - 1]);
    assert LowerChar('.') == '.' && Lower(".") == ".";
  }

  /** An address is itself, and one that maps an IPv4 address is that one. */
  lemma CanonicalAddress(n: Names, host: string, ip: Bytes)
    requires Written(host) && host[|host| - 1] != '.' && Lower(host) == host && n.text.parse(host) == Some(ip)
    ensures CanonicalHost(n, host) == Some(n.text.print_(ip[if Mapped(ip) then 12 else 0..]))
  {
    Text.TrimNothing(host, Text.Space);
    Unmaps(ip);
    assert HostText(host) == host;
  }

  lemma Unmaps(ip: Bytes)
    ensures Unmap(ip) == ip[if Mapped(ip) then 12 else 0..]
  {
    assert ip[0..] == ip;
    if Mapped(ip) {
      assert ip[..12] == seq(10, _ => 0) + [255, 255];
    } else if |ip| == 16 && ip[..12] == seq(10, _ => 0) + [255, 255] {
      assert forall i | 0 <= i < 12 :: ip[i] == ip[..12][i];
    }
  }

  predicate Mapped(ip: Bytes) {
    |ip| == 16 && (forall i | 0 <= i < 10 :: ip[i] == 0) && ip[10] == 255 && ip[11] == 255
  }
}
