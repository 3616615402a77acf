/** Freshness of a broker reply from its Cache-Control and Expires headers: the subset of
    RFC 9111 and RFC 5861 in outcall/cachecontrol.go. */
module CacheControl {
  import opened GoStrings
  import opened KeyText

  // ---- Text ----

  predicate Space(c: char) {
    c == ' ' || '\t' <= c <= '\r'
  }

  predicate Quote(c: char) {
    c == '\"'
  }

  function TrimLeft(s: string, drop: char -> bool): (r: string)
    ensures |r| <= |s| && (r != "" ==> !drop(r[0]))
  {
    if s != "" && drop(s[0]) then TrimLeft(s[1..], drop) else s
  }

  function TrimRight(s: string, drop: char -> bool): (r: string)
    ensures |r| <= |s| && (r != "" ==> !drop(r[|r| - 1]))
  {
    if s != "" && drop(s[|s| - 1]) then TrimRight(s[..|s| - 1], drop) else s
  }

  function Trim(s: string, drop: char -> bool): string {
    TrimRight(TrimLeft(s, drop), drop)
  }

  lemma {:induction false} TrimLeftReads(a: string, s: string, drop: char -> bool)
    requires (forall c | c in a :: drop(c)) && (s != "" ==> !drop(s[0]))
    ensures TrimLeft(a + s, drop) == s
    decreases |a|
  {
    if a == "" {
      assert a + s == s;
    } else {
      assert a[0] in a && (a + s)[1..] == a[1..] + s;
      TrimLeftReads(a[1..], s, drop);
    }
  }

  lemma {:induction false} TrimRightReads(s: string, b: string, drop: char -> bool)
    requires (forall c | c in b :: drop(c)) && (s != "" ==> !drop(s[|s| - 1]))
    ensures TrimRight(s + b, drop) == s
    decreases |b|
  {
    if b == "" {
      assert s + b == s;
    } else {
      assert b[|b| - 1] in b && (s + b)[..|s + b| - 1] == s + b[..|b| - 1];
      TrimRightReads(s, b[..|b| - 1], drop);
    }
  }

  /** Trimming takes what is to be dropped off both ends, and no more. */
  lemma TrimReads(a: string, s: string, b: string, drop: char -> bool)
    requires (forall c | c in a || c in b :: drop(c)) && (s != "" ==> !drop(s[0]) && !drop(s[|s| - 1]))
    ensures Trim(a + s + b, drop) == s
  {
    if s == "" {
      assert a + s + b == (a + b) + "";
      TrimLeftReads(a + b, "", drop);
    } else {
      assert a + s + b == a + (s + b);
      TrimLeftReads(a, s + b, drop);
      TrimRightReads(s, b, drop);
    }
  }

  lemma TrimNothing(s: string, drop: char -> bool)
    requires s != "" ==> !drop(s[0]) && !drop(s[|s| - 1])
    ensures Trim(s, drop) == s
  {
    TrimReads("", s, "", drop);
    assert "" + s + "" == s;
  }

  /** strings.Cut at '=': the whole string and nothing when there is none. */
  function CutArg(s: string): (string, string) {
    var parts := Split(s, '=');
    (parts[0], Join(parts[1..], '='))
  }

  /** strconv.Atoi: an optional sign, digits, and a value that fits 64 bits. */
  function Integer(s: string): Option<int> {
    var digits := if s != "" && (s[0] == '-' || s[0] == '+') then s[1..] else s;
    if !IsDecimal(digits) then None
    else
      var n: int := if s[0] == '-' then 0 - Atoi(digits) else Atoi(digits);
      if -0x8000_0000_0000_0000 <= n < 0x8000_0000_0000_0000 then Some(n) else None
  }

  /** Itoa's digits read back, with either sign, as long as the value fits. */
  lemma IntegerReads(n: nat)
    ensures Integer(Itoa(n)) == Integer("+" + Itoa(n)) == if n < 0x8000_0000_0000_0000 then Some(n) else None
    ensures Integer("-" + Itoa(n)) == if n <= 0x8000_0000_0000_0000 then Some(0 - n) else None
  {
    AtoiOfItoa(n);
    assert IsDigit(Itoa(n)[0]);
    assert ("-" + Itoa(n))[1..] == Itoa(n) == ("+" + Itoa(n))[1..];
  }

  // ---- Directives ----

  datatype Directive = Directive(name: string, arg: string)

  /** One comma-separated part; None when there is nothing in it. */
  function DirectiveOf(part: string): Option<Directive> {
    var text := Trim(part, Space);
    if text == "" then None
    else
      var (name, arg) := CutArg(text);
      Some(Directive(Lower(Trim(name, Space)), Trim(Trim(arg, Space), Quote)))
  }

  /** A text that trimming spaces and quotes leaves alone. */
  predicate Neat(s: string) {
    s != "" && !Space(s[0]) && !Space(s[|s| - 1]) && !Quote(s[0]) && !Quote(s[|s| - 1])
  }

  lemma CutReads(name: string, arg: string)
    requires '=' !in name
    ensures CutArg(name + "=" + arg) == (name, arg) && CutArg(name) == (name, "")
  {
    SplitOfPrefix(name, arg, '=');
    JoinOfSplit(arg, '=');
    assert Split(name + "=" + arg, '=')[1..] == Split(arg, '=');
    assert Split(name, '=')[1..] == [];
  }

  /** A directive reads as its name in small letters and its argument, with or without
      quotes around that, and spaces around the whole do not count. */
  lemma DirectiveReads(left: string, name: string, arg: string, right: string)
    requires (forall c | c in left || c in right :: Space(c)) && Neat(name) && '=' !in name && Neat(arg)
    ensures DirectiveOf(left + name + right) == Some(Directive(Lower(name), ""))
    ensures DirectiveOf(left + (name + "=" + arg) + right) == Some(Directive(Lower(name), arg))
    ensures DirectiveOf(left + (name + "=" + ("\"" + arg + "\"")) + right) == Some(Directive(Lower(name), arg))
  {
    NameReads(left, name, right);
    ArgReads(left, name, arg, arg, right);
    QuotedReads(arg);
    ArgReads(left, name, "\"" + arg + "\"", arg, right);
  }

  lemma BlankReads(blank: string)
    requires forall c | c in blank :: Space(c)
    ensures DirectiveOf(blank) == None
  {
    TrimReads(blank, "", "", Space);
    assert blank + "" + "" == blank;
  }

  lemma NameReads(left: string, name: string, right: string)
    requires (forall c | c in left || c in right :: Space(c)) && Neat(name) && '=' !in name
    ensures DirectiveOf(left + name + right) == Some(Directive(Lower(name), ""))
  {
    TrimReads(left, name, right, Space);
    CutReads(name, "");
    TrimNothing(name, Space);
  }

  lemma QuotedReads(arg: string)
    requires Neat(arg)
    ensures var q := "\"" + arg + "\""; !Space(q[0]) && !Space(q[|q| - 1]) && Trim(q, Quote) == arg
    ensures Trim(arg, Quote) == arg
  {
    TrimReads("\"", arg, "\"", Quote);
    TrimNothing(arg, Quote);
  }

  lemma ArgReads(left: string, name: string, text: string, arg: string, right: string)
    requires (forall c | c in left || c in right :: Space(c)) && Neat(name) && '=' !in name
    requires text != "" && !Space(text[0]) && !Space(text[|text| - 1]) && Trim(text, Quote) == arg
    ensures DirectiveOf(left + (name + "=" + text) + right) == Some(Directive(Lower(name), arg))
  {
    TrimReads(left, name + "=" + text, right, Space);
    CutReads(name, text);
    TrimNothing(name, Space);
    TrimNothing(text, Space);
  }

  function Directives(parts: seq<string>): seq<Directive> {
    if parts == [] then []
    else
      var before := Directives(parts[..|parts| - 1]);
      match DirectiveOf(parts[|parts| - 1])
      case None => before
      case Some(d) => before + [d]
  }

  ghost predicate ReadAs(texts: seq<string>, ds: seq<Directive>) {
    && |texts| == |ds|
    && forall i {:trigger DirectiveOf(texts[i])} | 0 <= i < |texts| :: DirectiveOf(texts[i]) == Some(ds[i])
  }

  lemma {:induction false} DirectivesRead(texts: seq<string>, ds: seq<Directive>)
    requires ReadAs(texts, ds)
    ensures Directives(texts) == ds
    decreases |texts|
  {
    if texts != [] {
      var n := |texts| - 1;
      DirectivesRead(texts[..n], ds[..n]);
      assert ds == ds[..n] + [ds[n]];
    }
  }

  /** A header made of directives reads as those directives, in order. */
  lemma HeaderReads(texts: seq<string>, ds: seq<Directive>)
    requires texts != [] && ReadAs(texts, ds) && forall i | 0 <= i < |texts| :: ',' !in texts[i]
    ensures Directives(Split(Join(texts, ','), ',')) == ds
  {
    SplitOfJoin(texts, ',');
    DirectivesRead(texts, ds);
  }

  ghost predicate Given(ds: seq<Directive>, name: string) {
    exists i | 0 <= i < |ds| :: ds[i].name == name
  }

  /** Directive i sets the number of that name, and no later one does. */
  ghost predicate LastSets(ds: seq<Directive>, name: string, i: nat) {
    && i < |ds| && ds[i].name == name && Integer(ds[i].arg).Some?
    && forall k | i < k < |ds| :: ds[k].name != name || Integer(ds[k].arg).None?
  }

  /** n is the value of the last usable directive of that name, if any is usable. */
  ghost predicate Value(ds: seq<Directive>, name: string, n: Option<int>) {
    match n
    case Some(_) => exists i: nat :: LastSets(ds, name, i) && Integer(ds[i].arg) == n
    case None => forall k | 0 <= k < |ds| :: ds[k].name != name || Integer(ds[k].arg).None?
  }

  lemma ValueUnique(ds: seq<Directive>, name: string, a: Option<int>, b: Option<int>)
    requires Value(ds, name, a) && Value(ds, name, b)
    ensures a == b
  {
  }

  /** What a number reads after one more directive. */
  function SetBy(n: Option<int>, d: Directive, name: string): Option<int> {
    if d.name == name && Integer(d.arg).Some? then Integer(d.arg) else n
  }

  lemma ValueNext(ds: seq<Directive>, d: Directive, name: string, n: Option<int>)
    requires Value(ds, name, n)
    ensures Value(ds + [d], name, SetBy(n, d, name))
  {
    if d.name == name && Integer(d.arg).Some? {
      assert LastSets(ds + [d], name, |ds|);
    } else if n.Some? {
      var i: nat :| LastSets(ds, name, i) && Integer(ds[i].arg) == n;
      assert LastSets(ds + [d], name, i);
    }
  }

  datatype Control = Control(noStore: bool, mustRevalidate: bool, maxAge: Option<int>,
                             staleWhileRevalidate: Option<int>, staleIfError: Option<int>)

  const NOCONTROL := Control(false, false, None, None, None)

  /** cc is what the directives say: flags that are given, and for each number the last
      usable value. */
  ghost predicate Says(ds: seq<Directive>, cc: Control) {
    && (cc.noStore <==> Given(ds, "no-store"))
    && (cc.mustRevalidate <==> Given(ds, "must-revalidate"))
    && Value(ds, "max-age", cc.maxAge)
    && Value(ds, "stale-while-revalidate", cc.staleWhileRevalidate)
    && Value(ds, "stale-if-error", cc.staleIfError)
  }

  /** The switch in parseCacheControl. */
  function Apply(cc: Control, d: Directive): Control {
    if d.name == "no-store" then cc.(noStore := true)
    else if d.name == "must-revalidate" then cc.(mustRevalidate := true)
    else if d.name == "max-age" then cc.(maxAge := SetBy(cc.maxAge, d, "max-age"))
    else if d.name == "stale-while-revalidate" then
      cc.(staleWhileRevalidate := SetBy(cc.staleWhileRevalidate, d, "stale-while-revalidate"))
    else if d.name == "stale-if-error" then cc.(staleIfError := SetBy(cc.staleIfError, d, "stale-if-error"))
    else cc
  }

  lemma ApplyEach(cc: Control, d: Directive)
    ensures Apply(cc, d) == Control(cc.noStore || d.name == "no-store",
                                    cc.mustRevalidate || d.name == "must-revalidate",
                                    SetBy(cc.maxAge, d, "max-age"),
                                    SetBy(cc.staleWhileRevalidate, d, "stale-while-revalidate"),
                                    SetBy(cc.staleIfError, d, "stale-if-error"))
  {
  }

  lemma GivenNext(ds: seq<Directive>, d: Directive, name: string)
    ensures Given(ds + [d], name) <==> Given(ds, name) || d.name == name
  {
    if Given(ds, name) {
      var i :| 0 <= i < |ds| && ds[i].name == name;
      assert (ds + [d])[i].name == name;
    }
    assert (ds + [d])[|ds|] == d;
  }

  lemma SaysNext(ds: seq<Directive>, cc: Control, d: Directive)
    requires Says(ds, cc)
    ensures Says(ds + [d], Apply(cc, d))
  {
    ApplyEach(cc, d);
    GivenNext(ds, d, "no-store");
    GivenNext(ds, d, "must-revalidate");
    ValueNext(ds, d, "max-age", cc.maxAge);
    ValueNext(ds, d, "stale-while-revalidate", cc.staleWhileRevalidate);
    ValueNext(ds, d, "stale-if-error", cc.staleIfError);
  }

  /** The directives applied in order. */
  function ControlOf(ds: seq<Directive>): Control {
    if ds == [] then NOCONTROL else Apply(ControlOf(ds[..|ds| - 1]), ds[|ds| - 1])
  }

  lemma ControlNext(ds: seq<Directive>, d: Directive)
    ensures ControlOf(ds + [d]) == Apply(ControlOf(ds), d)
  {
    assert (ds + [d])[..|ds|] == ds;
  }

  lemma NothingSaid()
    ensures Says([], ControlOf([]))
  {
  }

  /** Applied in order, they say what they say: flags that are given, last usable values. */
  lemma {:induction false} ControlSays(ds: seq<Directive>, n: nat)
    requires n <= |ds|
    ensures Says(ds[..n], ControlOf(ds[..n]))
  {
    if n == 0 {
      NothingSaid();
    } else {
      assert ds[..n - 1] + [ds[n - 1]] == ds[..n];
      ControlSays(ds, n - 1);
      SaysNext(ds[..n - 1], ControlOf(ds[..n - 1]), ds[n - 1]);
      ControlNext(ds[..n - 1], ds[n - 1]);
    }
  }

  lemma ControlPart(parts: seq<string>, n: nat)
    requires n < |parts|
    ensures ControlOf(Directives(parts[..n + 1]))
            == match DirectiveOf(parts[n])
               case None => ControlOf(Directives(parts[..n]))
               case Some(d) => Apply(ControlOf(Directives(parts[..n])), d)
  {
    assert parts[..n + 1][..n] == parts[..n];
    var d, before := DirectiveOf(parts[n]), Directives(parts[..n]);
    if d.Some? { ControlNext(before, d.value); }
  }

  /** parseCacheControl. */
  method ParseCacheControl(value: string) returns (cc: Control)
    ensures cc == ControlOf(Directives(Split(value, ','))) && Says(Directives(Split(value, ',')), cc)
  {
    cc := NOCONTROL;
    var parts := Split(value, ',');
    for n := 0 to |parts|
      invariant cc == ControlOf(Directives(parts[..n]))
    {
      ControlPart(parts, n);
      var d := DirectiveOf(parts[n]);
      if d.Some? {
        cc := Apply(cc, d.value);
      }
    }
    assert parts[..|parts|] == parts;
    ControlSays(Directives(parts), |Directives(parts)|);
    assert Directives(parts)[..|Directives(parts)|] == Directives(parts);
  }

  // ---- Freshness ----

  /** Durations may be negative: the headers can say so. */
  datatype Freshness = Freshness(cacheable: bool, freshFor: int, mustRevalidate: bool,
                                 staleWhileRevalidate: int, staleIfError: int)

  /** The two headers, and what http.ParseTime makes of the second. */
  datatype Headers = Headers(cacheControl: string, expires: string, parseTime: string -> Option<int>)

  function Stated(n: Option<int>): int {
    if n.Some? then n.value else 0
  }

  /** The moment Expires names, when it is there and reads as a date. */
  function ExpiresAt(h: Headers): Option<int> {
    if h.expires == "" then None else h.parseTime(h.expires)
  }

  /** The broker has stated freshness: no heuristics (section 4.2 of RFC 9111 allows them). */
  ghost predicate Signalled(h: Headers, cc: Control) {
    !cc.noStore && (cc.maxAge.Some? || ExpiresAt(h).Some?)
  }

  /** f is the freshness of a reply received at now; max-age wins over Expires. */
  ghost predicate Fresh(h: Headers, now: int, f: Freshness, cc: Control) {
    && Says(Directives(Split(h.cacheControl, ',')), cc)
    && (f.cacheable <==> Signalled(h, cc))
    && (f.cacheable ==>
          && f.mustRevalidate == cc.mustRevalidate
          && f.staleWhileRevalidate == (if cc.staleWhileRevalidate.Some? then cc.staleWhileRevalidate.value else 0)
          && f.staleIfError == (if cc.staleIfError.Some? then cc.staleIfError.value else 0)
          && (cc.maxAge.Some? ==> f.freshFor == cc.maxAge.value)
          && (cc.maxAge.None? && ExpiresAt(h).value > now ==> now + f.freshFor == ExpiresAt(h).value)
          && (cc.maxAge.None? && ExpiresAt(h).value <= now ==> f.freshFor == 0))
  }

  /** What parseFreshness returns. */
  function FreshnessOf(h: Headers, now: int): Freshness {
    var cc := ControlOf(Directives(Split(h.cacheControl, ',')));
    var until := ExpiresAt(h);
    if cc.noStore then Freshness(false, 0, false, 0, 0)
    else
      Freshness(cc.maxAge.Some? || until.Some?,
                if cc.maxAge.Some? then cc.maxAge.value
                else if until.Some? && until.value > now then until.value - now else 0,
                cc.mustRevalidate, Stated(cc.staleWhileRevalidate), Stated(cc.staleIfError))
  }

  /** It is the freshness the headers state. */
  lemma FreshnessIsFresh(h: Headers, now: int)
    ensures Fresh(h, now, FreshnessOf(h, now), ControlOf(Directives(Split(h.cacheControl, ','))))
  {
    var ds := Directives(Split(h.cacheControl, ','));
    ControlSays(ds, |ds|);
    assert ds[..|ds|] == ds;
  }

  /** parseFreshness. */
  method ParseFreshness(h: Headers, now: int) returns (f: Freshness)
    ensures f == FreshnessOf(h, now)
    ensures Fresh(h, now, f, ControlOf(Directives(Split(h.cacheControl, ','))))
  {
    FreshnessIsFresh(h, now);
    var cc := ParseCacheControl(h.cacheControl);
    if cc.noStore {
      return Freshness(false, 0, false, 0, 0);
    }
    f := Freshness(false, 0, cc.mustRevalidate, Stated(cc.staleWhileRevalidate), Stated(cc.staleIfError));
    if cc.maxAge.Some? {
      f := f.(cacheable := true, freshFor := cc.maxAge.value);
    } else if h.expires != "" {
      var t := h.parseTime(h.expires);
      if t.Some? {
        f := f.(cacheable := true);
        if t.value - now > 0 {
          f := f.(freshFor := t.value - now);
        }
      }
    }
  }

  lemma PlainReads(name: string, arg: string)
    requires Neat(name) && '=' !in name && ',' !in name && Lower(name) == name && Neat(arg) && ',' !in arg
    ensures DirectiveOf(name + "=" + arg) == Some(Directive(name, arg)) && ',' !in name + "=" + arg
  {
    QuotedReads(arg);
    ArgReads("", name, arg, arg, "");
    Unpadded(name + "=" + arg);
  }

  lemma Unpadded(s: string)
    ensures "" + s + "" == s
  {
  }

  /** One directive alone. */
  lemma OneDirective(text: string, d: Directive)
    requires ',' !in text && DirectiveOf(text) == Some(d)
    ensures ControlOf(Directives(Split(text, ','))) == Apply(NOCONTROL, d)
  {
    HeaderReads([text], [d]);
    assert Join([text], ',') == text;
    ControlNext([], d);
    assert [] + [d] == [d];
  }

  lemma DigitsNeat(n: nat)
    ensures Neat(Itoa(n)) && ',' !in Itoa(n)
  {
    var digits := Itoa(n);
    assert IsDigit(digits[0]) && IsDigit(digits[|digits| - 1]);
  }

  /** The text name=n sets what its name stands for to n. */
  lemma NumberReads(name: string, n: nat)
    requires Neat(name) && '=' !in name && ',' !in name && Lower(name) == name
    ensures ControlOf(Directives(Split(name + "=" + Itoa(n), ','))) == Apply(NOCONTROL, Directive(name, Itoa(n)))
  {
    DigitsNeat(n);
    PlainReads(name, Itoa(n));
    OneDirective(name + "=" + Itoa(n), Directive(name, Itoa(n)));
  }

  lemma MaxAgeSaid(n: nat)
    requires n < 0x8000_0000_0000_0000
    ensures ControlOf(Directives(Split("max-age" + "=" + Itoa(n), ','))) == Control(false, false, Some(n), None, None)
  {
    MaxAgeName("max-age");
    NumberReads("max-age", n);
    IntegerReads(n);
  }

  lemma MaxAgeName(name: string)
    requires name == "max-age"
    ensures Neat(name) && '=' !in name && ',' !in name && Lower(name) == name
  {
  }

  lemma FreshByMaxAge(h: Headers, now: int, n: int)
    requires ControlOf(Directives(Split(h.cacheControl, ','))) == Control(false, false, Some(n), None, None)
    ensures FreshnessOf(h, now) == Freshness(true, n, false, 0, 0)
  {
  }

  /** max-age=n, and nothing else, is n seconds of freshness, and no stale use. */
  lemma MaxAgeReads(n: nat, expires: string, parseTime: string -> Option<int>, now: int)
    requires n < 0x8000_0000_0000_0000
    ensures FreshnessOf(Headers("max-age" + "=" + Itoa(n), expires, parseTime), now)
            == Freshness(true, n, false, 0, 0)
  {
    MaxAgeSaid(n);
    FreshByMaxAge(Headers("max-age" + "=" + Itoa(n), expires, parseTime), now, n);
  }

  lemma ControlUnique(ds: seq<Directive>, a: Control, b: Control)
    requires Says(ds, a) && Says(ds, b)
    ensures a == b
  {
    ValueUnique(ds, "max-age", a.maxAge, b.maxAge);
    ValueUnique(ds, "stale-while-revalidate", a.staleWhileRevalidate, b.staleWhileRevalidate);
    ValueUnique(ds, "stale-if-error", a.staleIfError, b.staleIfError);
  }
}
