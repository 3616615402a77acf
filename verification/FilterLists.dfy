/** The filter sets of adblock_to_mitmania.py: what a list of hostname filters says about
    a host, and the sets that finish leaves of it. */
module FilterLists {
  import opened GoStrings
  import opened SuffixRegex

  /** One filter as add_filter receives it. */
  datatype Filter = Filter(host: string, exempt: bool, important: bool, badfilter: bool)

  // ---- Host names ----

  /** What normalize_hostname accepts, once encoded: length, characters, two or more labels
      of up to 63 characters that neither start nor end with a hyphen. */
  predicate HostShaped(host: string) {
    var labels := Split(host, '.');
    && 0 < |host| <= 253 && HostChars(host)
    && |labels| >= 2
    && forall i | 0 <= i < |labels| ::
         0 < |labels[i]| <= 63 && labels[i][0] != '-' && labels[i][|labels[i]| - 1] != '-'
  }

  /** normalize_hostname, from the stripped lower-case text: IDNA and the reading of
      addresses are given. */
  function NormalizeHostname(text: string, ignored: set<string>, idna: string -> Option<string>,
                             isAddress: string -> bool): (r: Option<string>)
    ensures r.Some? ==> ValidHost(r.value)
  {
    if text == "" || text in ignored then None
    else
      match idna(text)
      case None => None
      case Some(encoded) =>
        var host := Lower(encoded);
        if !HostShaped(host) || isAddress(host) then None
        else
          ShapedIsValid(host);
          Some(host)
  }

  lemma {:induction false} SplitChars(s: string, sep: char, i: nat, c: char)
    requires i < |Split(s, sep)| && c in Split(s, sep)[i]
    ensures c in s && c != sep
    decreases |s|
  {
    if s == "" {
    } else if s[0] == sep {
      SplitChars(s[1..], sep, i - 1, c);
    } else if i > 0 || c != s[0] {
      SplitChars(s[1..], sep, i, c);
    }
  }

  /** Every name that passes is one the proxy recognises. */
  lemma ShapedIsValid(host: string)
    requires HostShaped(host)
    ensures ValidHost(host)
  {
    var labels := Split(host, '.');
    forall i, k | 0 <= i < |labels| && 0 <= k < |labels[i]| ensures LabelChar(labels[i][k]) {
      SplitChars(host, '.', i, labels[i][k]);
    }
  }

  /** A name made of labels passes exactly if there are two of them or more, none is empty,
      over 63 characters long, at either end a hyphen or made of other characters, and the
      whole is not over 253. */
  lemma ShapedIff(labels: seq<string>)
    requires labels != [] && forall i | 0 <= i < |labels| :: '.' !in labels[i]
    ensures HostShaped(Join(labels, '.')) <==>
              && |labels| >= 2 && |Join(labels, '.')| <= 253 && HostChars(Join(labels, '.'))
              && forall i | 0 <= i < |labels| ::
                   1 <= |labels[i]| < 64 && '-' != labels[i][0] && '-' != labels[i][|labels[i]| - 1]
  {
    SplitOfJoin(labels, '.');
    if |labels| >= 2 { assert |Join(labels, '.')| > 0; }
  }

  // ---- The meaning of a filter list ----

  predicate Of(f: Filter, exempt: bool, important: bool, badfilter: bool) {
    f.exempt == exempt && f.important == important && f.badfilter == badfilter
  }

  function Named(fs: seq<Filter>, exempt: bool, important: bool, badfilter: bool): set<string> {
    set f | f in fs && Of(f, exempt, important, badfilter) :: f.host
  }

  /** The hosts of one kind of filter that no badfilter of that kind disables. */
  function Active(fs: seq<Filter>, exempt: bool, important: bool): set<string> {
    Named(fs, exempt, important, false) - Named(fs, exempt, important, true)
  }

  ghost predicate UnderAny(s: string, domains: set<string>) {
    exists d | d in domains :: HostUnder(s, d)
  }

  datatype Ruling = Exempt | Reject | Unlisted

  /** AdGuard's priority: important exception, important block, exception, block. */
  ghost function Priority(s: string, importantExempt: set<string>, important: set<string>,
                          exempt: set<string>, blocked: set<string>): Ruling
  {
    if UnderAny(s, importantExempt) then Exempt
    else if UnderAny(s, important) then Reject
    else if UnderAny(s, exempt) then Exempt
    else if UnderAny(s, blocked) then Reject
    else Unlisted
  }

  ghost function Decision(fs: seq<Filter>, s: string): Ruling {
    Priority(s, Active(fs, true, true), Active(fs, false, true), Active(fs, true, false), Active(fs, false, false))
  }

  // ---- Sets ----

  /** Taking out of a lower tier what a higher tier already decides changes nothing below it. */
  lemma UnderMinus(s: string, high: set<string>, low: set<string>)
    ensures !UnderAny(s, high) ==> (UnderAny(s, low - high) <==> UnderAny(s, low))
  {
    if UnderAny(s, low - high) {
      var d :| d in low - high && HostUnder(s, d);
      assert d in low;
    }
    if UnderAny(s, low) && !UnderAny(s, high) {
      var d :| d in low && HostUnder(s, d);
      assert d in low - high;
    }
  }

  class ParsedFilters {
    var blocked: set<string>
    var important: set<string>
    var exceptions: set<string>
    var importantExceptions: set<string>
    var disabledBlocked: set<string>
    var disabledImportant: set<string>
    var disabledExceptions: set<string>
    var disabledImportantExceptions: set<string>

    constructor ()
      ensures Holds([])
    {
      blocked, important, exceptions, importantExceptions := {}, {}, {}, {};
      disabledBlocked, disabledImportant, disabledExceptions, disabledImportantExceptions := {}, {}, {}, {};
    }

    /** The sets hold exactly the filters fs. */
    ghost predicate Holds(fs: seq<Filter>)
      reads this
    {
      && blocked == Named(fs, false, false, false) && disabledBlocked == Named(fs, false, false, true)
      && important == Named(fs, false, true, false) && disabledImportant == Named(fs, false, true, true)
      && exceptions == Named(fs, true, false, false) && disabledExceptions == Named(fs, true, false, true)
      && importantExceptions == Named(fs, true, true, false)
      && disabledImportantExceptions == Named(fs, true, true, true)
    }

    /** add_filter. */
    method AddFilter(f: Filter, ghost fs: seq<Filter>)
      requires Holds(fs)
      modifies this
      ensures Holds(fs + [f])
    {
      NamedAppend(fs, f);
      if f.badfilter {
        if f.exempt && f.important {
          disabledImportantExceptions := disabledImportantExceptions + {f.host};
        } else if f.exempt {
          disabledExceptions := disabledExceptions + {f.host};
        } else if f.important {
          disabledImportant := disabledImportant + {f.host};
        } else {
          disabledBlocked := disabledBlocked + {f.host};
        }
      } else if f.exempt && f.important {
        importantExceptions := importantExceptions + {f.host};
      } else if f.exempt {
        exceptions := exceptions + {f.host};
      } else if f.important {
        important := important + {f.host};
      } else {
        blocked := blocked + {f.host};
      }
    }

    /** finish: whatever it subtracts, every host keeps its ruling. */
    method Finish(ghost fs: seq<Filter>)
      requires Holds(fs)
      modifies this
      ensures forall s :: Priority(s, importantExceptions, important, exceptions, blocked) == Decision(fs, s)
      ensures importantExceptions + important + exceptions + blocked
              <= Active(fs, true, true) + Active(fs, false, true) + Active(fs, true, false) + Active(fs, false, false)
      ensures importantExceptions !! important !! exceptions !! blocked
    {
      blocked := blocked - disabledBlocked;
      important := important - disabledImportant;
      exceptions := exceptions - disabledExceptions;
      importantExceptions := importantExceptions - disabledImportantExceptions;
      ghost var ie, i, e, b := importantExceptions, important, exceptions, blocked;
      important := important - importantExceptions;
      exceptions := exceptions - important;
      exceptions := exceptions - importantExceptions;
      blocked := blocked - important;
      blocked := blocked - exceptions;
      blocked := blocked - importantExceptions;
      forall s ensures Priority(s, importantExceptions, important, exceptions, blocked) == Priority(s, ie, i, e, b) {
        SubtractingKeepsPriority(s, ie, i, e, b);
      }
    }
  }

  lemma NamedAppend(fs: seq<Filter>, f: Filter)
    ensures forall x, y, z :: Named(fs + [f], x, y, z)
              == if Of(f, x, y, z) then Named(fs, x, y, z) + {f.host} else Named(fs, x, y, z)
  {
    forall x, y, z
      ensures Named(fs + [f], x, y, z)
              == if Of(f, x, y, z) then Named(fs, x, y, z) + {f.host} else Named(fs, x, y, z)
    {
      forall h | h in Named(fs, x, y, z) ensures h in Named(fs + [f], x, y, z) {
        var g :| g in fs && Of(g, x, y, z) && g.host == h;
        assert g in fs + [f];
      }
      assert f in fs + [f];
    }
  }

  lemma SubtractingKeepsPriority(s: string, ie: set<string>, i: set<string>, e: set<string>, b: set<string>)
    ensures var i' := i - ie;
            var e' := e - i' - ie;
            Priority(s, ie, i', e', b - i' - e' - ie) == Priority(s, ie, i, e, b)
  {
    var i' := i - ie;
    var e' := e - i' - ie;
    UnderMinus(s, ie, i);
    UnderMinus(s, i', e);
    UnderMinus(s, ie, e - i');
    UnderMinus(s, i', b);
    UnderMinus(s, e', b - i');
    UnderMinus(s, ie, b - i' - e');
  }

  /** parse_sources, from the filters its lines yield. */
  method ParseSources(fs: seq<Filter>) returns (p: ParsedFilters)
    ensures fresh(p)
    ensures forall s :: Priority(s, p.importantExceptions, p.important, p.exceptions, p.blocked) == Decision(fs, s)
    ensures p.importantExceptions + p.important + p.exceptions + p.blocked <= Hosts(fs)
    ensures p.importantExceptions !! p.important !! p.exceptions !! p.blocked
  {
    p := new ParsedFilters();
    for n := 0 to |fs|
      invariant fresh(p) && p.Holds(fs[..n])
    {
      p.AddFilter(fs[n], fs[..n]);
      assert fs[..n] + [fs[n]] == fs[..n + 1];
    }
    assert fs[..|fs|] == fs;
    p.Finish(fs);
  }

  function Hosts(fs: seq<Filter>): set<string> {
    set f | f in fs :: f.host
  }
}
