/** The pieces of Go's strings and sort packages that the rule engine leans on.
    A Go string is modelled as a sequence of characters; a character outside
    'A'..'Z' is its own lower case. */
module GoStrings {

  datatype Option<+T> = None | Some(value: T)

  datatype Result<+T> = Ok(value: T) | Err(reason: string)

  // ---- Case ----

  function LowerChar(c: char): char {
    if 'A' <= c <= 'Z' then (c as int + 32) as char else c
  }

  /** strings.ToLower, on ASCII letters. */
  function Lower(s: string): (r: string)
    ensures |r| == |s|
    ensures forall k | 0 <= k < |s| :: r[k] == LowerChar(s[k])
  {
    if s == "" then "" else [LowerChar(s[0])] + Lower(s[1..])
  }

  /** Each capital becomes the letter in its place, and nothing else changes. */
  lemma LowerLetters(c: char)
    ensures if 'A' <= c <= 'Z' then LowerChar(c) as int - 'a' as int == c as int - 'A' as int else LowerChar(c) == c
    ensures LowerChar(LowerChar(c)) == LowerChar(c)
  {
  }

  lemma LowerTwice(s: string)
    ensures Lower(Lower(s)) == Lower(s)
  {
    forall k | 0 <= k < |s| ensures Lower(Lower(s))[k] == Lower(s)[k] {
      LowerLetters(s[k]);
    }
  }

  lemma LowerAppend(s: string, t: string)
    ensures Lower(s + t) == Lower(s) + Lower(t)
  {
    forall k | 0 <= k < |s + t| ensures Lower(s + t)[k] == (Lower(s) + Lower(t))[k] {}
  }

  /** strings.EqualFold for arguments of equal length, on ASCII letters. */
  predicate EqualFold(a: string, b: string) {
    Lower(a) == Lower(b)
  }

  /** strings.TrimSuffix(s, "."). */
  function TrimDot(s: string): string {
    if |s| > 0 && s[|s| - 1] == '.' then s[..|s| - 1] else s
  }

  // ---- Prefixes and suffixes ----

  predicate HasSuffix(s: string, t: string) {
    |t| <= |s| && s[|s| - |t|..] == t
  }

  predicate HasPrefix(s: string, t: string) {
    |t| <= |s| && s[..|t|] == t
  }

  // ---- Split and Join on one character ----

  function Split(s: string, sep: char): (r: seq<string>)
    ensures |r| >= 1
    decreases |s|
  {
    if s == "" then [""]
    else if s[0] == sep then [""] + Split(s[1..], sep)
    else
      var rest := Split(s[1..], sep);
      [[s[0]] + rest[0]] + rest[1..]
  }

  function Join(parts: seq<string>, sep: char): string
  {
    if |parts| == 0 then ""
    else if |parts| == 1 then parts[0]
    else parts[0] + [sep] + Join(parts[1..], sep)
  }

  lemma {:induction false} JoinOfSplit(s: string, sep: char)
    ensures Join(Split(s, sep), sep) == s
    ensures forall p | p in Split(s, sep) :: sep !in p
    decreases |s|
  {
    if s != "" {
      JoinOfSplit(s[1..], sep);
      var rest := Split(s[1..], sep);
      if s[0] == sep {
        assert ([""] + rest)[1..] == rest;
      } else {
        var parts := [[s[0]] + rest[0]] + rest[1..];
        if |rest| > 1 {
          assert parts[1..] == rest[1..];
          assert parts[0] + [sep] + Join(rest[1..], sep) == [s[0]] + Join(rest, sep);
        }
        assert s == [s[0]] + s[1..];
      }
    }
  }

  lemma {:induction false} SplitOfPrefix(p: string, rest: string, sep: char)
    requires sep !in p
    ensures Split(p + [sep] + rest, sep) == [p] + Split(rest, sep)
    ensures Split(p, sep) == [p]
    decreases |p|
  {
    var s := p + [sep] + rest;
    if p == "" {
      assert s[1..] == rest;
    } else {
      SplitOfPrefix(p[1..], rest, sep);
      assert s[1..] == p[1..] + [sep] + rest;
      assert s[0] == p[0] != sep;
      assert [p[0]] + p[1..] == p;
    }
  }

  lemma {:induction false} SplitOfJoin(parts: seq<string>, sep: char)
    requires |parts| >= 1
    requires forall p | p in parts :: sep !in p
    ensures Split(Join(parts, sep), sep) == parts
    decreases |parts|
  {
    if |parts| == 1 {
      SplitOfPrefix(parts[0], "", sep);
    } else {
      SplitOfJoin(parts[1..], sep);
      SplitOfPrefix(parts[0], Join(parts[1..], sep), sep);
      assert [parts[0]] + parts[1..] == parts;
    }
  }

  lemma Reassociate(a: string, b: string, c: string, d: string)
    ensures a + b + c + d == a + (b + (c + d)) && a + b + c == a + (b + c)
  {
  }

  lemma {:induction false} JoinAppend(a: seq<string>, b: seq<string>, sep: char)
    requires |a| >= 1 && |b| >= 1
    ensures Join(a + b, sep) == Join(a, sep) + [sep] + Join(b, sep)
    decreases |a|
  {
    if |a| == 1 {
      assert (a + b)[1..] == b;
    } else {
      JoinAppend(a[1..], b, sep);
      assert (a + b)[1..] == a[1..] + b;
      assert (a + b)[0] == a[0];
    }
  }

  // ---- Reversed labels ----

  /** strings.LastIndexByte(s, '.') + 1. */
  function AfterLastDot(s: string): (r: nat)
    ensures r <= |s|
    ensures r > 0 ==> s[r - 1] == '.'
    ensures forall k | r <= k < |s| :: s[k] != '.'
  {
    if s == "" then 0
    else if s[|s| - 1] == '.' then |s|
    else AfterLastDot(s[..|s| - 1])
  }

  /** The labels met when a host is read from the right, as insertHostSuffix and
      appendCandidates do; a leading dot contributes no label. */
  function RevLabels(s: string): (r: seq<string>)
    ensures (r == []) <==> (s == "")
    decreases |s|
  {
    if s == "" then []
    else
      var start := AfterLastDot(s);
      if start == 0 then [s] else [s[start..]] + RevLabels(s[..start - 1])
  }

  /** suffix is the whole of host, or ends it right after a dot. */
  predicate IsLabelSuffix(host: string, suffix: string) {
    HasSuffix(host, suffix) && (|host| == |suffix| || host[|host| - |suffix| - 1] == '.')
  }

  lemma AfterLastDotUnique(s: string, r: nat)
    requires r <= |s|
    requires r > 0 ==> s[r - 1] == '.'
    requires forall k | r <= k < |s| :: s[k] != '.'
    ensures AfterLastDot(s) == r
  {
  }

  lemma RevLabelsLast(a: string, lab: string)
    requires '.' !in lab
    ensures RevLabels(a + "." + lab) == [lab] + RevLabels(a)
  {
    var s := a + "." + lab;
    assert forall k | |a| < k < |s| :: s[k] == lab[k - |a| - 1];
    AfterLastDotUnique(s, |a| + 1);
    assert s[|a| + 1..] == lab;
    assert s[..|a|] == a;
  }

  lemma RevLabelsSingle(lab: string)
    requires lab != "" && '.' !in lab
    ensures RevLabels(lab) == [lab]
  {
    AfterLastDotUnique(lab, 0);
  }

  /** A non-empty string is one label, or something, a dot and a last label. */
  lemma LastLabel(s: string) returns (a: string, lab: string)
    requires s != ""
    ensures '.' !in lab
    ensures if AfterLastDot(s) == 0 then s == lab && a == "" else s == a + "." + lab
  {
    var start := AfterLastDot(s);
    lab := s[start..];
    a := if start == 0 then "" else s[..start - 1];
  }

  lemma LabelsOf(s: string, a: string, lab: string)
    requires s != "" && '.' !in lab
    requires if AfterLastDot(s) == 0 then s == lab && a == "" else s == a + "." + lab
    ensures RevLabels(s) == [lab] + RevLabels(a)
  {
    if AfterLastDot(s) == 0 { RevLabelsSingle(s); } else { RevLabelsLast(a, lab); }
  }

  lemma {:induction false} LabelsUnderTail(pre: string, lab: string)
    requires lab != "" && '.' !in lab
    requires pre == "" || pre[|pre| - 1] == '.'
    ensures RevLabels(pre + lab) != [] && RevLabels(pre + lab)[0] == lab
  {
    if pre == "" {
      assert pre + lab == lab;
      RevLabelsSingle(lab);
    } else {
      assert pre + lab == pre[..|pre| - 1] + "." + lab;
      RevLabelsLast(pre[..|pre| - 1], lab);
    }
  }

  lemma ConsPrefix<T>(x: T, s: seq<T>, t: seq<T>)
    requires s <= t
    ensures [x] + s <= [x] + t
  {
  }

  lemma {:induction false} TailIsPrefix(pre: string, suffix: string)
    requires suffix != ""
    requires pre == "" || pre[|pre| - 1] == '.'
    ensures RevLabels(suffix) <= RevLabels(pre + suffix)
    decreases |suffix|
  {
    var a, lab := LastLabel(suffix);
    LabelsOf(suffix, a, lab);
    if AfterLastDot(suffix) == 0 {
      LabelsUnderTail(pre, suffix);
    } else {
      TailStep(pre, a, lab);
    }
  }

  lemma {:induction false} TailStep(pre: string, a: string, lab: string)
    requires '.' !in lab
    requires pre == "" || pre[|pre| - 1] == '.'
    ensures [lab] + RevLabels(a) <= RevLabels(pre + (a + "." + lab))
    decreases |a + "." + lab|, 0
  {
    assert pre + (a + "." + lab) == (pre + a) + "." + lab;
    RevLabelsLast(pre + a, lab);
    if a != "" { TailIsPrefix(pre, a); }
    ConsPrefix(lab, RevLabels(a), RevLabels(pre + a));
  }

  /** A label suffix is a prefix of the reversed labels. */
  lemma LabelSuffixIsPrefix(host: string, suffix: string)
    requires suffix != "" && IsLabelSuffix(host, suffix)
    ensures RevLabels(suffix) <= RevLabels(host)
  {
    var pre := host[..|host| - |suffix|];
    assert host == pre + suffix;
    TailIsPrefix(pre, suffix);
  }

  lemma SuffixAppend(b: string, a: string, t: string)
    requires IsLabelSuffix(b, a)
    ensures IsLabelSuffix(b + t, a + t)
  {
    var d := |b| - |a|;
    assert b == b[..d] + a;
    assert (b + t)[d..] == a + t;
  }

  lemma UnconsPrefix<T>(x: T, s: seq<T>, y: T, t: seq<T>)
    requires [x] + s <= [y] + t
    ensures x == y && s <= t
  {
    assert ([x] + s)[0] == ([y] + t)[0];
    assert ([x] + s)[1..] == s && ([y] + t)[1..] == t;
  }

  /** Conversely, for a suffix that does not begin with a dot. */
  lemma {:induction false} PrefixIsLabelSuffix(host: string, suffix: string)
    requires suffix != "" && suffix[0] != '.'
    requires host != ""
    requires RevLabels(suffix) <= RevLabels(host)
    ensures IsLabelSuffix(host, suffix)
    decreases |suffix|
  {
    var a, lab := LastLabel(suffix);
    var b, last := LastLabel(host);
    LabelsOf(suffix, a, lab);
    LabelsOf(host, b, last);
    UnconsPrefix(lab, RevLabels(a), last, RevLabels(b));
    if AfterLastDot(suffix) > 0 {
      PrefixStep(a, b, lab);
      assert AfterLastDot(host) > 0;
    }
  }

  lemma {:induction false} PrefixStep(a: string, b: string, lab: string)
    requires (a + "." + lab)[0] != '.'
    requires RevLabels(a) <= RevLabels(b)
    ensures b != "" && IsLabelSuffix(b + "." + lab, a + "." + lab)
    decreases |a + "." + lab|, 0
  {
    FirstOfHost(a, lab);
    PrefixIsLabelSuffix(b, a);
    SuffixAppend(b, a, "." + lab);
    Reassociate(a, ".", lab, "");
    Reassociate(b, ".", lab, "");
  }

  lemma FirstOfHost(a: string, lab: string)
    requires (a + "." + lab)[0] != '.'
    ensures a != "" && a[0] != '.' && |a| < |a + "." + lab|
  {
  }

  // ---- Byte order and sorting ----

  /** Go's < on strings. */
  predicate Less(a: string, b: string)
    decreases |a|
  {
    |b| > 0 && (|a| == 0 || a[0] < b[0] || (a[0] == b[0] && Less(a[1..], b[1..])))
  }

  lemma LessIrreflexive(a: string)
    ensures !Less(a, a)
    decreases |a|
  {
    if |a| > 0 { LessIrreflexive(a[1..]); }
  }

  lemma {:induction false} LessTransitive(a: string, b: string, c: string)
    requires Less(a, b) && Less(b, c)
    ensures Less(a, c)
    decreases |a|
  {
    if |a| > 0 && a[0] == b[0] && b[0] == c[0] {
      LessTransitive(a[1..], b[1..], c[1..]);
    }
  }

  lemma {:induction false} LessTotal(a: string, b: string)
    ensures a == b || Less(a, b) || Less(b, a)
    decreases |a|
  {
    if |a| > 0 && |b| > 0 && a[0] == b[0] {
      LessTotal(a[1..], b[1..]);
      assert a == [a[0]] + a[1..] && b == [b[0]] + b[1..];
    }
  }

  ghost predicate StrictlySorted(s: seq<string>) {
    forall i, j | 0 <= i < j < |s| :: Less(s[i], s[j])
  }

  ghost function Elements<T>(s: seq<T>): set<T> {
    set x | x in s
  }

  /** Inserts a string into a sorted list that does not have it. */
  method InsertSorted(r: seq<string>, x: string) returns (r': seq<string>)
    requires StrictlySorted(r) && x !in r
    ensures StrictlySorted(r') && Elements(r') == Elements(r) + {x}
  {
    var k := 0;
    while k < |r| && Less(r[k], x)
      invariant 0 <= k <= |r|
      invariant forall i | 0 <= i < k :: Less(r[i], x)
    {
      k := k + 1;
    }
    forall j | k <= j < |r| ensures Less(x, r[j]) {
      LessTotal(r[k], x);
      if k < j { LessTransitive(x, r[k], r[j]); }
    }
    r' := r[..k] + [x] + r[k..];
    Inserted(r, k, x);
  }

  lemma Inserted(r: seq<string>, k: nat, x: string)
    requires k <= |r|
    ensures Elements(r[..k] + [x] + r[k..]) == Elements(r) + {x}
  {
    var r' := r[..k] + [x] + r[k..];
    assert forall i | 0 <= i < |r| :: r[i] == r'[if i < k then i else i + 1];
    assert r'[k] == x;
  }

  /** sort.Strings applied to the members of a set. */
  method SortedStrings(keys: set<string>) returns (r: seq<string>)
    ensures StrictlySorted(r)
    ensures Elements(r) == keys
  {
    r := [];
    var todo := keys;
    while todo != {}
      invariant StrictlySorted(r)
      invariant Elements(r) + todo == keys
      invariant Elements(r) !! todo
      decreases todo
    {
      var x :| x in todo;
      assert x !in Elements(r);
      r := InsertSorted(r, x);
      todo := todo - {x};
    }
  }

  ghost predicate Ascending(s: seq<nat>) {
    forall i, j | 0 <= i < j < |s| :: s[i] <= s[j]
  }

  ghost predicate StrictlyAscending(s: seq<nat>) {
    forall i, j | 0 <= i < j < |s| :: s[i] < s[j]
  }

  /** sort.Ints. */
  method SortedInts(s: seq<nat>) returns (r: seq<nat>)
    ensures Ascending(r)
    ensures multiset(r) == multiset(s)
  {
    r := [];
    for n := 0 to |s|
      invariant Ascending(r)
      invariant multiset(r) == multiset(s[..n])
    {
      var k := 0;
      while k < |r| && r[k] < s[n]
        invariant 0 <= k <= |r|
        invariant forall i | 0 <= i < k :: r[i] < s[n]
      {
        k := k + 1;
      }
      InsertInt(r, k, s[n]);
      assert s[..n + 1] == s[..n] + [s[n]];
      r := r[..k] + [s[n]] + r[k..];
    }
    assert s[..|s|] == s;
  }

  lemma InsertInt(r: seq<nat>, k: nat, x: nat)
    requires Ascending(r) && k <= |r| && (k < |r| ==> x <= r[k])
    requires forall i | 0 <= i < k :: r[i] < x
    ensures Ascending(r[..k] + [x] + r[k..]) && multiset(r[..k] + [x] + r[k..]) == multiset(r) + multiset{x}
  {
    assert multiset(r[..k] + [x] + r[k..]) == multiset(r) + multiset{x} by { assert r == r[..k] + r[k..]; }
    var r' := r[..k] + [x] + r[k..];
    forall i | 0 <= i < |r'| ensures r'[i] == if i < k then r[i] else if i == k then x else r[i - 1] {}
    forall i, j | 0 <= i < j < |r'| ensures r'[i] <= r'[j] {
      if i == k { assert r[k] <= r[j - 1]; }
    }
  }
}
