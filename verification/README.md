# mitmania, verified

mitmania is an intercepting forward proxy. A per-client rule file, or a default table keyed by
address and mask, decides for every connection whether it is refused, passed through or
intercepted, and for every intercepted request what is done to it. This project models the parts
of it where a fast or stateful implementation has to agree with a simple description, and proves
that it does.

**The rule engine.**

- *Host index* (`HostTree`, `HostCompact`, `HostIndex`, `HostLookup`). Rules are looked up through
  a tree of reversed host labels that is built by mutation, numbered breadth first, packed into
  arrays and searched by bisection. `HostLookup.LookupConn` and `HostLookup.LookupRequest` return
  what the linear first-match scan of `RuleCompile` returns, for every rule list with globs,
  recognised suffix expressions and opaque expressions, and every input.
- *Rules as written* (`RuleMeaning`, `Globs`, `GlobMeaning`). What a rule says is read off its own
  fields: which connections and messages it fits, when it loads, what it decides. The compiled list
  answers as the first rule that fits. `path.Match` is modelled with its chunks and its leftmost
  placement, and accepts exactly what a pattern stands for unless a class takes a slash.
- *Suffix expressions* (`SuffixRegex`, `RegexMeaning`). The expression shape that the list
  converter prints and the compiler recognises: printing and recognising are inverse, and on a
  small regular-expression semantics (RE2's syntax for what occurs in them) the suffix matcher
  accepts exactly what the expression accepts.
- *Default table* (`MaskedKeys`, `KeyMatching`, `KeyText`, `Coverage`, `DefaultParse`,
  `DefaultTable`). Byte-wise masking is related to big-endian integers, the sweep over prefix
  ranges to coverage of every address, sorting by mask to the governing key and to longest prefix
  match, and incremental recompilation to compilation from scratch.
- *Engine* (`RuleFiles`, `EngineView`, `RuleEngine`, `EngineRuns`). `EngineView` says on values alone
  what a lookup should do: when it fails, what it answers and what it has seen of storage then. The
  engine with its two caches does exactly that, over every run of writes, deletions, clock ticks and
  storage outages; and what runs promise (recent answers, answers through outages, nothing loaded
  that has not changed) is proved of the simple form.
- *Converter* (`FilterLists`, `Converter`). Filter lists become ordered rules; once compiled these
  decide every connection as the filters' priorities do. Repeated merges replace each other.

**The proxy.**

- *Header blocks* (`HeaderBlock`): bounding the next header block over every chunking and buffer
  size, without losing a byte.
- *Outcalls* (`CacheControl`, `Outcall`, `StaleAnswers`): the broker cache with coalesced and capped
  calls, over every interleaving of its atomic sections; and exactly when a cached answer is out of
  date.
- *Certificates* (`CertChain`, `CertClone`): mint, store in any order, load again, trust again; and
  the signing CA's own chain.
- *Upstream* (`RoundTrip`, `Authority`, `DialTrace`): retries on one upstream connection, and what
  has to be decided about a connection's own client, host and port before any dial, interception or
  forwarded request.

Strings and text helpers are in `GoStrings`, the compilation of rules in `RuleCompile`.

Conventions. Go's `error` results are `Result` or `Option`; what the environment answers
(storage, network, resolver, clock, brokers) is an argument or a non-deterministic choice, so a
statement about a method is about every answer. Integers are unbounded unless a row says
otherwise. Hosts and header text are ASCII: case folding is on ASCII letters. Hashes are injective
and therefore modelled by what they are taken of. Signatures are made by the key they name.

## Where the code does not do what one might expect

Each of these is proved. The first three come with the exact condition and with runs in which the
expected thing does not happen, the fourth with a condition under which it does and an input on
which it does not.

- The comments on `resolveEgress` and in `lookupIP` say that an override with an empty egress list
  deliberately matches nothing and that any real edit changes the content hash. The hash cannot
  tell an absent list from an empty one (`EngineView.HashBlindSpot`). A lookup of an override with
  an empty list yields an empty list exactly unless the cache holds the same hash with a non-empty
  one (`RuleEngine.EmptyListObserved`); `EngineRuns.EmptiedListUnseen` is such a run. An inherited
  list is moreover the default table's of the moment of compilation (`EngineView.CompiledFrom`).
- `stale-if-error` serves the entry a call started from. Its verdict is that of the latest completed
  reply exactly if the entry cached for the key by then gives the same one; if none is cached any
  more, a later reply that may not be kept is passed over (`StaleAnswers.CoveredByLatest`).
  `StaleAnswers.NewerVerdictPassedOver` is a family of runs that serve an older verdict. For the
  same reason a 304 leaves the cached body alone exactly unless it was replaced meanwhile
  (`StaleAnswers.RevalidationKeeps`), and can bring back an older one
  (`StaleAnswers.OlderBodyBroughtBack`).
- A stored clone can be put in order again exactly when the subjects of the real chain, as far as it
  is cloned, are distinct and its leaf does not bear the CA's name; otherwise loading it is an
  error, not a miss (`CertClone.RoundTrip`, `CertClone.MintAndReload`, `CertClone.NamedAsTheCA`).
- `path.Match` never takes back the place it gave to what stands between two stars. Unless some
  class takes a slash nothing is lost by that (`Globs.MeantIsFound`, `GlobMeaning.GlobMeans`); if one
  does, a name that the pattern stands for may be refused (`GlobMeaning.SlashInClass`).
- `chunk_domains` counts one separator too many from the second chunk on; chunks still fit
  (`Converter.ChunkDomains`).

## Model

| member | source | states |
|---|---|---|
| `SuffixRegex.ScanAtom` | internal/rules/host_index.go:256-270 | The byte loop over one alternative yields the host it spells, or nothing if some byte is not allowed. |
| `SuffixRegex.ParseImportedSuffixRegex` | internal/rules/host_index.go:243-283 | The nested loops compute the recognised host list, which the lemmas below characterise. |
| `SuffixRegex.RecogniseHostRegex` | tools/adblock_to_mitmania.py:585-589 | Every non-empty list of valid hosts is recognised in its printed form and comes back unchanged. |
| `SuffixRegex.RecognisedIffPrinted` | internal/rules/host_index.go:243-283 | A pattern is recognised as hosts if and only if hosts is non-empty, valid and the pattern is its printed form. |
| `SuffixRegex.HostRegexInjective` | tools/adblock_to_mitmania.py:560-589 | Different host lists print differently. |
| `RegexMeaning.ParseHostRegex` | tools/adblock_to_mitmania.py:585-589 | The printed text parses, under RE2 syntax, to a case-insensitive anchored alternation of the hosts. |
| `RegexMeaning.SuffixMatcherIsTheRegex` | internal/rules/compile.go:64-85 | For every host string, the suffix matcher that replaces a recognised expression accepts it if and only if the expression matches it. |
| `Globs.GlobIsMeant` | internal/rules/compile.go:83-84 | Whatever `path.Match` accepts can be had by filling in the pattern's stars without a slash. |
| `Globs.MeantIsFound` | internal/rules/compile.go:83-84 | Although it places each chunk at the first place and never goes back, it accepts all of that if no class takes a slash. |
| `Globs.SameSlashes` | internal/rules/compile.go:83-84 | Two matches of one chunk are equally long and have their slashes in the same places, if no class takes one. |
| `Globs.PlainGlob` | internal/rules/compile.go:83-84 | A glob without special characters matches exactly itself. |
| `Globs.GlobTail` | internal/rules/host_index.go:196-213 | Whatever a glob matches ends with the glob's plain tail, through stars, classes and escapes before it. |
| `GlobMeaning.GlobMeans` | internal/rules/compile.go:83-84 | A glob written from literal characters, single wildcards, stars and classes is accepted only where these fit one after the other, and exactly there if no class takes a slash. |
| `GlobMeaning.SlashInClass` | internal/rules/compile.go:83-84 | `*[a/]*b` stands for `xa/b` and is not accepted for it. |
| `RuleMeaning.MatcherFits` | internal/rules/compile.go:43-85 | A pattern compiles if and only if it is no expression or one the recogniser or the library takes. Compiled, it accepts everything if empty, what the expression after `re:` matches, or what the glob matches. |
| `RuleMeaning.LoadsIff` | internal/rules/compile.go:135-226 | A rule loads if and only if its patterns compile; with path, method or header it neither refuses nor passes through; `connection` has `accept`; a refusal comes with nothing else; and its actions are those of their phase. |
| `RuleMeaning.RuleFitsConn` | internal/rules/engine.go:85-102 | A loaded rule matches a connection if and only if its own host, port and proto patterns fit the connection's host, port and proto. |
| `RuleMeaning.RuleFitsMessage` | internal/rules/engine.go:108-170 | It matches a message if and only if it does not refuse, fits the connection, and its path, method and header patterns fit the message's path, method and first header values. |
| `RuleMeaning.RuleDecides` | internal/rules/compile.go:165-204 | It refuses if it says so, else intercepts unless it says not to; its actions are its own, in order. |
| `RuleMeaning.FirstRuleDecides` | internal/rules/engine.go:85-102 | The answer to a connection is what the first source rule that fits it says, or no match. |
| `RuleMeaning.FirstRuleActs` | internal/rules/engine.go:108-146 | The answer to a message has the actions of the first source rule that fits it, refusing ones aside. |
| `RuleMeaning.PlainConn` | internal/rules/compile.go:135-146 | A rule of plain host, port and proto loads and matches exactly the connection with that host, port and proto. |
| `RuleMeaning.PlainMessage` | internal/rules/compile.go:147-164 | With plain path, method and one header it matches exactly the messages that have these too. |
| `RuleMeaning.SameHeaderIff` | internal/rules/compile.go:153-163 | Two header names are the same if and only if they differ in letter case alone. |
| `RuleMeaning.CapitalisedAt` | internal/rules/compile.go:153-163 | The canonical name has capitals at the start and after hyphens and small letters elsewhere. |
| `RuleCompile.CompileMatcher` | internal/rules/compile.go:47-51 | Recognised suffixes are valid and there is at least one. |
| `RuleCompile.CompileRule` | internal/rules/compile.go:165-196 | What validation leaves is consistent: a deny decides nothing else, and only an intercepting rule looks at messages. |
| `RuleCompile.Compile` | internal/rules/compile.go:123-133 | A list compiles if and only if every rule does, position by position. |
| `RuleCompile.ConnAnswerAt` | internal/rules/engine.go:85-102 | The reference scan answers with the first matching rule. |
| `RuleCompile.MsgAnswerAt` | internal/rules/engine.go:108-146 | The reference message scan answers with the first rule that matches and does not deny. |
| `HostTree.WalkInjective` | internal/rules/host_index.go:64-92 | Different label paths lead to different places. |
| `HostTree.Tree.InsertHostSuffix` | internal/rules/host_index.go:64-92 | Inserting a suffix changes the tree's contents exactly by filing the rule at that suffix's place, once, and creating the places above it. |
| `HostTree.InsertMembers` | internal/rules/host_index.go:64-92 | After an insertion a place holds a rule if and only if it did before or it is the place and rule inserted. |
| `HostCompact.Enumerate` | internal/rules/host_index.go:94-129 | The breadth-first worklist numbers every node of the tree once, children after parents. |
| `HostCompact.Flatten` | internal/rules/host_index.go:94-129 | Packing the numbered nodes gives arrays in which every node's edges and rule numbers are contiguous and sorted. |
| `HostCompact.Compact` | internal/rules/host_index.go:94-129 | The arrays represent exactly the contents of the mutable tree. |
| `HostIndex.LiteralGlobSuffix` | internal/rules/host_index.go:200-213 | The trailing literal labels of a glob, and nothing for other matchers. |
| `HostIndex.Build` | internal/rules/host_index.go:44-62 | The index of a rule list keeps every rule under exactly its suffixes, and the rules without any as fallbacks. |
| `HostLookup.FindChild` | internal/rules/host_index.go:176-194 | The bisection finds the child with a label if there is one, and only then. |
| `HostLookup.Collect` | internal/rules/host_index.go:135-160 | The walk gathers the fallbacks and the rules at every label suffix of the host, no others. |
| `HostLookup.Dedup` | internal/rules/host_index.go:163-173 | The in-place removal of repeats keeps the first of each run. |
| `HostLookup.WithoutRepeatsAscends` | internal/rules/host_index.go:162-173 | On sorted numbers that leaves the same numbers in strictly ascending order. |
| `HostLookup.AppendCandidates` | internal/rules/host_index.go:135-174 | The candidates, strictly ascending, are exactly the fallback rules and those with a suffix the host ends with. |
| `HostLookup.MatchIsCandidate` | internal/rules/host_index.go:44-62 | A rule whose host pattern matches is always a candidate. |
| `HostLookup.NewRuleSet` | internal/rules/engine.go:48-60 | A rule set carries an index of its own rules. |
| `HostLookup.LookupConn` | internal/rules/engine.go:85-102 | With or without the index, the connection answer is that of the first rule that matches. |
| `HostLookup.LookupRequest` | internal/rules/engine.go:108-146 | With or without the index, the message answer is that of the first rule that matches and does not deny. |
| `MaskedKeys.PrefixLengthIff` | internal/rules/defaultruleset.go:98-126 | A mask has prefix length n if and only if it is the mask of n leading ones. |
| `MaskedKeys.BuildPrefixMask` | internal/rules/defaultruleset.go:86-92 | Setting bits one at a time builds the mask of n leading ones. |
| `MaskedKeys.ContiguousPrefixLen` | internal/rules/defaultruleset.go:98-126 | The bit-counting loops return the prefix length exactly for contiguous masks. |
| `KeyMatching.MaskRoundsDown` | internal/rules/defaultruleset.go:143-150 | Byte-wise masking with n leading ones rounds the big-endian value down to a multiple of the block size. |
| `KeyMatching.GreaterIsValue` | internal/rules/defaultruleset.go:437-441 | Byte-wise lexicographic order is the order of big-endian values. |
| `KeyMatching.ContainsIffBits` | internal/rules/defaultruleset.go:143-150 | An address matches a key if and only if the two agree on every bit of its mask, wherever the mask has bits. |
| `KeyMatching.ContainsIffInRange` | internal/rules/defaultruleset.go:571-578 | An address matches a prefix key byte by byte if and only if its value lies in the key's range. |
| `KeyMatching.RangeInSpace` | internal/rules/defaultruleset.go:571-578 | A prefix range ends within the address space. |
| `KeyMatching.SameMaskSameKey` | internal/rules/defaultruleset.go:494-506 | Two keys with one mask that both match an address are the same key. |
| `KeyText.CanonicalRoundTrip` | internal/rules/defaultruleset.go:132-139 | Parsing the canonical form of a normalised key gives the key back. |
| `KeyText.ItoaOfAtoi` | internal/rules/defaultruleset.go:34-72 | A prefix length written without leading zeros is written as it would be printed. |
| `KeyText.CanonicalInjective` | internal/rules/defaultruleset.go:132-139 | Different normalised keys have different canonical forms. |
| `KeyText.PrefixSpelling` | internal/rules/defaultruleset.go:34-72 | A prefix length and the mask it stands for spell the same key. |
| `KeyText.NetipSound` | internal/rules/defaultruleset.go:34-72 | The real reader and writer of keys meet what the table needs of them. |
| `Coverage.SortSpans` | internal/rules/defaultruleset.go:532-565 | Sorting keeps the ranges and puts starts in order. |
| `Coverage.Sweep` | internal/rules/defaultruleset.go:532-565 | The sweep over sorted ranges finds the first uncovered stretch, or that there is none. |
| `Coverage.CheckCoverage` | internal/rules/defaultruleset.go:532-565 | Accepts if and only if every address is covered; a named gap is wholly uncovered and everything before it is covered. |
| `RuleFiles.EgressEach` | internal/rules/egress.go:83-93 | An egress list compiles if and only if every entry does, and each compiled entry stands in the place of its rule. |
| `RuleFiles.AuthMeans` | internal/rules/auth.go:34-55 | An auth block compiles if and only if there is none or its compiler takes it, and then to exactly that gate. |
| `RuleFiles.BucketMeans` | internal/rules/defaultruleset.go:345-410 | The rules of a bucket have its uuid, its compiled rules in order, its own gate, and its egress list entry by entry. |
| `RuleFiles.BucketOfMarshalled` | internal/rules/schema.go:27-27 | For a default bucket an absent and an empty egress list compile alike. |
| `RuleFiles.BucketRulesAgree` | internal/rules/defaultruleset.go:345-432 | Two compilations of one bucket answer every connection and message alike. |
| `DefaultParse.ParseDefaultRuleset` | internal/rules/defaultruleset.go:209-239 | Parsing lists the last-wins table, each key once, and fails exactly when some entry does. |
| `DefaultParse.MarshalCanonical` | internal/rules/defaultruleset.go:245-251 | Writes the table as one member per key under its canonical form. |
| `DefaultParse.MarshalRoundTrip` | internal/rules/defaultruleset.go:245-251 | Writing a table and reading it in any member order gives the table back, with empty egress lists absent. |
| `DefaultTable.BucketByLabel` | internal/rules/defaultruleset.go:317-329 | Every label of the previous table is there with its last bucket, nothing else is, and all of it is correctly compiled. |
| `DefaultTable.CompileBucket` | internal/rules/defaultruleset.go:345-410 | A bucket reused by hash, compiled with a shared policy or compiled afresh is the same bucket; it fails exactly when it does not compile. |
| `DefaultTable.CoverageIff` | internal/rules/defaultruleset.go:411-432 | The integer sweep accepts a family if and only if every address matches some prefix entry byte by byte. |
| `DefaultTable.SortByMask` | internal/rules/defaultruleset.go:437-441 | Orders buckets by descending mask, losing none. |
| `DefaultTable.CompileParsedEntries` | internal/rules/defaultruleset.go:345-432 | Whatever was compiled before, accepts exactly the tables that compile on their own, and yields one correct bucket per entry in lookup order. |
| `DefaultTable.AfterReloads` | internal/rules/defaultruleset.go:331-432 | After any sequence of reloads the next table is accepted, rejected and compiled as if it came alone. |
| `DefaultTable.LookupBoth` | internal/rules/defaultruleset.go:331-432 | Two tables compiled from the same entries, whatever each reused, answer every address with the same policy. |
| `DefaultTable.Lookup` | internal/rules/defaultruleset.go:494-506 | Returns the rules of the key with the greatest mask among all that match, if and only if any does, however equal masks were sorted. |
| `DefaultTable.BestUnique` | internal/rules/defaultruleset.go:494-506 | The governing key is unique. |
| `DefaultTable.CoveredIsMatched` | internal/rules/defaultruleset.go:411-432 | In a table that compiles every address of both families has a governing key. |
| `DefaultTable.BestIsLongestPrefix` | internal/rules/defaultruleset.go:494-506 | On a table of plain prefixes the governing key is the longest matching prefix (section 5.1 of RFC 4632). |
| `RuleEngine.CompilesInAnyOrder` | internal/rules/defaultruleset.go:345-432 | Whether a table compiles does not depend on the order its entries are listed in. |
| `RuleEngine.CompileDefault` | internal/rules/engine.go:551-593 | Parse and compile succeed exactly for good tables, whatever was cached. |
| `RuleEngine.RuleEngine.LookupDefaultTable` | internal/rules/engine.go:511-610 | Fails if and only if nothing is at hand and StatDefault fails, or a version not seen before does not load or compile. Otherwise it returns what the table last made sure of compiles to: this one, or with a TTL the one seen last if it is young or StatDefault fails. |
| `RuleEngine.RuleEngine.ResolveClientCache` | internal/rules/engine.go:330-344 | An entry is turned into the answer by what has been seen; it fails exactly if it leads to a default table that fails. |
| `RuleEngine.RuleEngine.ResolveEgress` | internal/rules/engine.go:491-505 | An override with the key gets exactly its own compiled list, be it empty; one without gets the list of the default answer for the client, of the table last made sure of. Failures are exactly those of either. |
| `RuleEngine.RuleEngine.LookupIP` | internal/rules/engine.go:380-482 | A version not seen before is compiled, or recognised by its hash and reused literally; it fails if and only if it does not load or has to be compiled and cannot be, and then leaves the cache alone. |
| `EngineRuns.SeenIsPast` | internal/rules/engine.go:292-610 | Whatever the engine goes by at any point of a run was stored at some point before. |
| `RuleEngine.RuleEngine.Lookup` | internal/rules/engine.go:292-324 | Refines the simple form: it fails if and only if that says so, answers by what has then been seen (the override's rules, else the best bucket's, else none), and has seen exactly what that says. The answer has the uuid, the compiled rules and the auth gate of the document last seen: the override, or the best bucket, or none. An override is answered with the very rules cached for it. |
| `EngineView.OverrideMeans` | internal/rules/engine.go:445-505 | An override's answer has its own rules, uuid and gate; its egress list entry by entry if it has the key, else that of the best default bucket. |
| `EngineView.AnswerMeans` | internal/rules/engine.go:292-344 | Every answer has the gate of the document last seen: exactly the compiled block if there is one, none if there is none. |
| `EngineView.AnswersAreRecent` | internal/rules/engine.go:196-210 | An answer goes by an override state made sure of now, or less than a TTL ago, or with a TTL earlier while Stat fails; a default answer by a default table likewise. |
| `EngineView.CurrentAnswer` | internal/rules/engine.go:292-324 | With TTL 0 and no outage a lookup succeeds if and only if the contents stored now have an answer or their hash is the one last seen, and it answers by those contents. |
| `EngineView.UnchangedIsNotLoaded` | internal/rules/engine.go:311-314 | An override whose version has not changed is answered whatever Load and the default table do. |
| `EngineView.NothingGoesBack` | internal/rules/engine.go:346-355 | A lookup leaves what was last made sure of, of any client and of the table, or replaces it by the present; other clients are not touched. |
| `EngineView.AnswerUnique` | internal/rules/engine.go:292-344 | What has been seen determines the answer to every connection, message, address and credential. |
| `EngineRuns.Run` | internal/rules/engine.go:196-610 | One engine through any sequence of changes, ticks, outages and lookups: each lookup fails if and only if what had been seen up to then says so, and otherwise answers by what has been seen. |
| `EngineRuns.LastAnswerAgain` | internal/rules/engine.go:301-309 | In every run, with a TTL, while Stat fails a client last seen with an override gets the same policy as the last time, whatever has changed in storage. |
| `EngineRuns.AnsweredThroughOutage` | internal/rules/engine.go:196-210 | In every run, with a TTL, a client that was answered is answered while both Stat calls fail. |
| `EngineRuns.SameVersionAgain` | internal/rules/engine.go:311-314 | In every run an override that was read and has its version still is answered by the same policy as long as Stat works, whatever else fails. |
| `EngineView.HashBlindSpot` | internal/rules/engine.go:429-443 | Two override files share a content hash if and only if they are equal or differ only in an absent against an empty egress list. |
| `EngineView.NextOk` | internal/rules/engine.go:429-505 | At every point what is known of an override was compiled from a file with its hash, with an inherited egress list from a good table in use at that moment. |
| `EngineView.OwnEgressIsExact` | internal/rules/engine.go:484-505 | Whatever was reused, an override with a non-empty egress list is answered by exactly what it says. |
| `RuleEngine.EmptyListObserved` | internal/rules/engine.go:429-505 | Looking up an override whose egress key is there but empty yields an empty list if and only if the cache does not hold its hash with a non-empty one. |
| `EngineRuns.EmptiedListUnseen` | internal/rules/engine.go:429-505 | A run, with no TTL and no outage: an override without the key is looked up and inherits a list; the key is added, empty; the next lookup returns the inherited list again. |
| `EngineRuns.SceneIsStaged` | internal/rules/engine.go:484-505 | There are rule files and tables for that run, with the real reader of keys. |
| `FilterLists.NormalizeHostname` | tools/adblock_to_mitmania.py:306-331 | Every host name the converter accepts is one the proxy's recogniser accepts. |
| `FilterLists.ShapedIff` | tools/adblock_to_mitmania.py:306-331 | A name of dot-separated labels passes if and only if it has two or more, each of 1 to 63 allowed characters with no hyphen at either end, and is not over 253 long. |
| `FilterLists.ParsedFilters.AddFilter` | tools/adblock_to_mitmania.py:349-378 | A filter enters the one set its flags select. |
| `FilterLists.SubtractingKeepsPriority` | tools/adblock_to_mitmania.py:290-303 | Subtracting what higher tiers hold never changes a host's ruling. |
| `FilterLists.ParsedFilters.Finish` | tools/adblock_to_mitmania.py:290-303 | After all subtractions every host has the ruling of the filters, and the sets are disjoint. |
| `FilterLists.ParseSources` | tools/adblock_to_mitmania.py:448-466 | From a sequence of filters to sets with the same rulings, over the filters' own hosts. |
| `Converter.ChunkDomains` | tools/adblock_to_mitmania.py:568-582 | The chunks are the sorted domains cut in order, none empty, each within the limit unless it is a single host. |
| `Converter.ChunksMatchTheSet` | tools/adblock_to_mitmania.py:568-582 | Cutting a set into chunks does not change which hosts it matches. |
| `Converter.CompileRuleFor` | internal/rules/compile.go:135-207 | Every generated rule compiles, to a suffix matcher over its chunk. |
| `Converter.BuildHttpRules` | tools/adblock_to_mitmania.py:614-633 | The list is the four tiers in priority order and the catch-all. |
| `Converter.CompileLayout` | internal/rules/compile.go:123-133 | A generated list always loads. |
| `Converter.LayoutAnswer` | internal/rules/engine.go:85-102 | First match over the compiled list is the priority rule over the sets, for every host. |
| `Converter.LayoutActions` | internal/rules/engine.go:108-146 | Under the raise action a request is answered by it exactly when the priority rule rejects its host. |
| `Converter.Convert` | tools/adblock_to_mitmania.py:614-633 | End to end, for every filter list, action, chunk size and catch-all choice: the output loads and decides every connection, and under raise every request, as the filters do. |
| `Converter.StripPreviousGeneration` | tools/adblock_to_mitmania.py:774-781 | What follows the last boundary rule, or everything. |
| `Converter.MergeBaseRuleset` | tools/adblock_to_mitmania.py:784-792 | Every bucket gets the new rules, the boundary and its own true base; nothing else changes. |
| `Converter.MergeReplaces` | tools/adblock_to_mitmania.py:757-792 | Merging twice is merging the second time only, whatever was generated. |
| `Converter.MergedAnswer` | tools/adblock_to_mitmania.py:757-792 | A merged bucket answers connections with the filters first and then as the operator's rules did, but for the reserved name. |
| `Converter.MergedMessage` | tools/adblock_to_mitmania.py:757-792 | It answers requests likewise. |
| `HeaderBlock.PrependConn.Read` | internal/proxy/authority.go:32-41 | A read takes some bytes off the front of the stream, bytes put back first. |
| `HeaderBlock.PrependConn.Prepend` | internal/proxy/authority.go:43-47 | What is put back comes before everything else. |
| `HeaderBlock.Reader.ReadSlice` | internal/proxy/authority.go:152-154 | A fragment is the stream up to a line feed, a full buffer or the end, and nothing is lost. |
| `HeaderBlock.ScanFragment` | internal/proxy/authority.go:152-167 | A fragment with no line feed inside hides no block end. |
| `HeaderBlock.BoundsUnique` | internal/proxy/authority.go:134-189 | The required outcome is a function of the bytes and the limit. |
| `HeaderBlock.BoundNextHeaderBlock` | internal/proxy/authority.go:146-189 | For every stream, chunking, buffer size and limit: complete exactly when the first blank line ends within the limit (section 2.1 of RFC 9112), too large, failed or empty otherwise; unless too large every pending byte can still be read. |
| `HeaderBlock.WrittenBlock` | internal/proxy/authority.go:134-167 | A header block written as lines and a blank line ends there and nowhere before, whatever follows: it is complete exactly if that is within the limit. |
| `HeaderBlock.DrainBuffered` | internal/proxy/http1.go:908-915 | Replaying what was read ahead and going on gives the pending bytes. |
| `CacheControl.ParseCacheControl` | internal/outcall/cachecontrol.go:66-98 | Flags that are given, and for each number the value of the last usable directive. |
| `CacheControl.DirectiveReads` | internal/outcall/cachecontrol.go:66-98 | A directive reads as its name in small letters and its argument, quoted or not, whatever spaces are around it. |
| `CacheControl.BlankReads` | internal/outcall/cachecontrol.go:68-72 | A part of nothing but spaces is no directive. |
| `CacheControl.HeaderReads` | internal/outcall/cachecontrol.go:66-98 | A header made of directives reads as those directives, in order. |
| `CacheControl.IntegerReads` | internal/outcall/cachecontrol.go:83-94 | A number reads as its value, with either sign, if it fits 64 bits. |
| `CacheControl.MaxAgeReads` | internal/outcall/cachecontrol.go:28-55 | `max-age=n` alone is n seconds of freshness and no stale use, whatever Expires says. |
| `CacheControl.ControlUnique` | internal/outcall/cachecontrol.go:66-98 | The directives determine the result. |
| `CacheControl.ParseFreshness` | internal/outcall/cachecontrol.go:28-55 | Cacheable exactly when storing is not forbidden and max-age or a readable Expires is given (section 4.2 of RFC 9111, without heuristics); max-age wins. |
| `Outcall.KeepOk` | internal/outcall/service.go:381-424 | After a completed reply the cache holds, for every key, the latest reply if its headers allow keeping it, and nothing otherwise. |
| `Outcall.Service.Begin` | internal/outcall/service.go:175-214 | A call starts from the entry cached then and goes where the rows on `BeginMeans` and `BeginByEntry` say. |
| `Outcall.BeginMeans` | internal/outcall/service.go:191-214 | If the latest reply for the key may be kept and is fresh, the call is over with its verdict and nothing else starts; if it is stale but may be served meanwhile, the call is over with its verdict and a background call for the key starts; otherwise, and only then, it turns to the broker. |
| `Outcall.BeginByEntry` | internal/outcall/service.go:191-214 | The same by the cached entry: before `freshUntil`, before `swrUntil` without must-revalidate, or neither. |
| `Outcall.ReceiveMeans` | internal/outcall/service.go:381-424 | A reply is kept under the call's key if and only if its headers allow it, with windows counted from the moment it was read; no other key changes. |
| `Outcall.ReplyMeans` | internal/outcall/service.go:304-349 | A 304 to a call that had an entry confirms its body and verdict, under the new validator if there is one; otherwise 2xx allows with the reply's body and anything else denies with its message. |
| `Outcall.FailureMeans` | internal/outcall/service.go:296-336 | A failure on the way leaves the cache and the replies alone. |
| `Outcall.ConcludeMeans` | internal/outcall/service.go:216-232 | A failure, and only a failure, is covered by the entry the call started from if the call started before `sieUntil`; a background call answers nobody. |
| `Outcall.Service.Enter` | internal/outcall/service.go:253-261 | Joins the flight of the key or starts one. |
| `Outcall.Service.Acquire` | internal/outcall/service.go:267-273 | Takes a slot if one is free, otherwise the flight fails at once. |
| `Outcall.Service.Receive` | internal/outcall/service.go:304-349 | A failure leaves the cache alone, a 304 renews the entry the call had, anything else replaces it. |
| `Outcall.Service.Release` | internal/outcall/service.go:267-270 | The slot is given back, whatever the call ended with. |
| `Outcall.Service.Finish` | internal/outcall/service.go:253-261 | The flight ends with one outcome that nothing overwrites. |
| `Outcall.Service.Conclude` | internal/outcall/service.go:216-232 | A failure that is no refusal is covered by the entry the call started from if its stale-if-error window was open. |
| `Outcall.Service.InflightBounds` | internal/outcall/service.go:253-273 | At every point at most the cap and at most one broker call per key are in flight, and with no call under way every slot is free. |
| `Outcall.Service.JoinedAlike` | internal/outcall/service.go:249-261 | Callers joined to one flight have one key and get one outcome, which the broker gave that flight. |
| `Outcall.Service.AnsweredByFlight` | internal/outcall/service.go:253-349 | A verdict not from the cache is that of a reply its flight completed for its key. |
| `Outcall.Service.AnsweredFromCache` | internal/outcall/service.go:191-232 | A cached answer is the verdict of the latest reply completed when the call started, within its window; fresh and background-revalidated ones are the latest when served (sections 3 and 4 of RFC 5861). |
| `StaleAnswers.CoveredByLatest` | internal/outcall/service.go:216-230 | In every reachable state the verdict about to be served on error is that of the latest completed reply if and only if the entry cached now gives the same one; the key is not cached exactly if the latest reply may not be kept, and then that reply has completed since the call started. |
| `StaleAnswers.NewerVerdictPassedOver` | internal/outcall/service.go:216-230 | A run of the service for any two replies with different verdicts, the first usable on error only: it ends with a call served the first verdict although the second is the latest. |
| `StaleAnswers.RevalidationKeeps` | internal/outcall/service.go:402-424 | A 304 puts back the body and verdict its call started from; it leaves the cached ones alone (section 4.3.4 of RFC 9111) if and only if no other reply had replaced them since. |
| `StaleAnswers.OlderBodyBroughtBack` | internal/outcall/service.go:402-424 | A run in which the second reply is in the cache and a 304 for the first puts that one back. |
| `StaleAnswers.AllowedAfterRefusal` | internal/outcall/service.go:175-424 | Both runs with actual headers: a caller is allowed after the broker has refused, and a refusal is gone from the cache. |
| `Outcall.Run` | internal/outcall/service.go:175-424 | Every interleaving of calls, replies and delays keeps the invariant the lemmas above rest on and leads to the state its transitions say. |
| `CertChain.OrderedIff` | internal/cert/cache.go:352-391 | A bag is ordered to a chain if and only if that is a linked permutation with distinct subjects whose first name issued nothing. |
| `CertChain.OrderChainLeafFirst` | internal/cert/cache.go:352-391 | The loops return that chain, or an error if there is none. |
| `CertClone.CloneChain` | internal/cert/clone.go:157-212 | The descending loop clones every effective element under its clone's parent; it fails exactly on an empty chain or a key that cannot be derived. |
| `CertClone.ClonedLinks` | internal/cert/clone.go:26-56 | A clone is linked up to the CA and keeps subjects, CA flags and names. |
| `CertClone.ClonedWithinBudget` | internal/cert/ca.go:70-78 | Intermediates never exceed the CA's path length (section 4.2.1.9 of RFC 5280); validity is copied except where the CA signs. |
| `CertClone.ClonedLength` | internal/cert/clone.go:157-168 | The whole chain is cloned unless the CA allows fewer intermediates; then the leaf alone. |
| `CertClone.CloneMeans` | internal/cert/clone.go:26-56 | Field by field: names, limits and usage of the original, a key derived from the leaf's names or from an intermediate's issuer and serial, a derived serial, and as issuer and signer the next clone's name and key, or the CA's. |
| `CertClone.TrustedIff` | internal/cert/cache.go:263-284 | Trust is a matter of keys: it holds if and only if the leaf's key is the derived one, each signature was made by the key of the next certificate and the last by the CA's key, and every signer may sign. |
| `CertClone.OtherKeyDistrusts` | internal/cert/cache.go:256-284 | A clone is never trusted under a CA with another key, whatever that CA is called. |
| `CertClone.Verify` | internal/cert/cache.go:263-284 | Accepts exactly the trusted chains, which `TrustedIff` spells out. |
| `CertClone.CloneTrusted` | internal/cert/cache.go:263-284 | A clone is trusted if and only if every cloned certificate above the leaf is a CA. |
| `CertClone.RoundTrip` | internal/cert/cache.go:347-391 | Any permutation of a clone is ordered back to it if the subjects of the cloned part of the real chain are distinct and its leaf is not named as the CA; otherwise it cannot be ordered. |
| `CertClone.CertCache.Put` | internal/cert/cache.go:289-306 | Stores the bag and keeps the chain at hand. |
| `CertClone.CertCache.Get` | internal/cert/cache.go:209-255 | Whatever is served is trusted under the current CA and keys; storage hits are served, missed or errors by what their bag can be ordered to. |
| `CertClone.MintAndReload` | internal/cert/cache.go:209-306 | A chain minted by one process is loaded by the next exactly under those conditions on the real chain, and served exactly if everything above its leaf is a CA. |
| `CertClone.MintAndRotate` | internal/cert/cache.go:209-306 | A chain minted before the CA's key was changed is never served after: the next process misses it if it can be put in order, and else reports an error. |
| `CertClone.NamedAsTheCA` | internal/cert/cache.go:209-306 | A certificate named as the CA is cloned and stored, and loading the clone is an error. |
| `CertClone.FindVerifiedParent` | internal/cert/ca.go:339-346 | A verified issuer from the pool, or none exists. |
| `CertClone.ResolveChain` | internal/cert/ca.go:310-334 | Always ends; success is a duplicate-free verified path to just below a self-signed certificate of the pool (section 6.1 of RFC 5280), failure comes with a path that is stuck. |
| `CertClone.CompleteMeans` | internal/cert/ca.go:300-346 | In a resolved chain each certificate may sign, is named as issuer by the one below and made its signature with its own key; the root did so for the last one and for itself. |
| `CertClone.StuckMeans` | internal/cert/ca.go:310-346 | Where it fails, no certificate of the pool may sign, is named and made the signature, or one met before did. |
| `RoundTrip.IdempotentIff` | internal/proxy/roundtrip.go:225-232 | The methods that may be sent twice are GET, HEAD, OPTIONS and TRACE. |
| `RoundTrip.H1RoundTripper.RoundTrip` | internal/proxy/roundtrip.go:67-125 | At most two attempts; a request outside GET, HEAD, OPTIONS and TRACE puts bytes on at most one connection (section 9.2.2 of RFC 9110); no other request is touched; every connection but the current one is closed. There are two attempts exactly if the first failed, a redial worked and trying again is safe. A response is the one read on the current connection, a failure is the first attempt's. |
| `RoundTrip.H1RoundTripper.Again` | internal/proxy/roundtrip.go:94-124 | The second attempt leaves one connection open: the new one if it succeeded, else the old. |
| `RoundTrip.Run` | internal/proxy/roundtrip.go:67-232 | All this holds for every request over any sequence of calls. |
| `Authority.SplitIffJoined` | internal/proxy/authority.go:72-103 | host:port is read as exactly a host without colons or in brackets, and what follows the last colon. |
| `Authority.OneOrigin` | internal/proxy/authority.go:121-132 | A request fits connections to one origin only: two it fits have the same canonical host and the same port. |
| `Authority.OwnAuthority` | internal/proxy/authority.go:105-132 | A request naming the authority a connection was opened for fits it, exactly if the canonical host has a canonical form itself. |
| `Authority.NamesHostAndPort` | internal/proxy/authority.go:71-101 | host:port, with an IPv6 host in brackets, names that host in canonical form and that port, if the host has one and the port is 1 to 65535; otherwise nothing. |
| `Authority.NamesHostOnly` | internal/proxy/authority.go:77-88 | A host alone, in brackets or not, names the default port. |
| `Authority.CanonicalIgnores` | internal/proxy/authority.go:103-119 | Letter case, spaces around a host and one dot after it do not tell hosts apart. |
| `Authority.CanonicalAddress` | internal/proxy/authority.go:103-107 | An address is its own canonical form, and one that maps an IPv4 address is that one. |
| `DialTrace.LookupEgress` | internal/rules/engine.go:154-161 | The first matching entry decides, none means no. |
| `DialTrace.RequiredGateFailsClosed` | internal/proxy/auth.go:32-68 | In a guarded run there is a dial under rules with a required gate only for an explicit client whose credentials the gate or its broker accepted. |
| `DialTrace.Connection.ResolveAndPin` | internal/proxy/egress.go:46-72 | A target exactly when the route's port is a number, its host has addresses and every one is allowed on that port; it is the first of them with that port. A literal address is not resolved, a name once. |
| `DialTrace.Connection.ServeTunnel` | internal/proxy/http1.go:502-558 | Splice, TLS, reconnects, fallbacks and redials all go to the approved target; TLS is terminated only under a name of the connection's host and if its rule asks for interception. |
| `DialTrace.Connection.ServeConnect` | internal/proxy/http1.go:365-486 | CONNECT, from its authority on: every dial, interception and forwarded request is guarded by decisions on this connection's own client, host and port; there is a dial exactly if the connection is admitted; interception only under an SNI that names the CONNECT host. |
| `DialTrace.Connection.ServeAbsoluteForm` | internal/proxy/http1.go:586-674 | The same for a request in absolute form. |
| `DialTrace.Connection.ServeTransparentTLS` | internal/proxy/transparent.go:105-180 | Transparent TLS: matched on the server name asked for, approved for and dialed to the original destination; a dial exactly if admitted. |
| `DialTrace.Connection.ServeTransparentOpaque` | internal/proxy/transparent.go:213-263 | Other transparent connections: matched, approved and dialed by the original destination, or handed to interception. |
| `DialTrace.Connection.ServeTransparentOpaqueMITM` | internal/proxy/transparent.go:278-373 | Intercepted ones: guarded by the second lookup, for the host the request names. |
| `DialTrace.Serve` | internal/proxy/http1.go:260-314 | In every run, whatever arrives: nothing goes out if no usable host is named; otherwise there is a dial if and only if the connection's rules admit its client, accept it and approve every address behind it, and every dial, interception and forwarded request comes after those decisions about this very connection. |
| `DialTrace.ForwardedMeans` | internal/proxy/http1.go:745-770 | Spelled out: a request goes upstream only if the authority it names is the connection's host and port; before it, in order, one rule set was found, admitted this client, accepted this connection and approved every address, a dial was made, and rules looked up since have a rule for it. |
| `DialTrace.InterceptedMeans` | internal/proxy/http1.go:456-486 | A request on a TLS connection goes upstream only after the client's TLS was terminated under a name of the connection's host, under rules that ask for interception. |
| `DialTrace.GuardedMeans` | internal/proxy/http1.go:365-558 | Spelled out: a dial goes to the first address behind the connection's own host, on its own port; before it, in order, one rule set was found, admitted this client, accepted this connection without deny and approved every address on that port. |
| `DialTrace.ExplicitArrives` | internal/proxy/http1.go:365-599 | CONNECT is served if and only if its authority reads, with 443 for a missing port; the absolute form if and only if its scheme is http and its authority reads, with 80. |
| `DialTrace.NamedDestination` | internal/proxy/http1.go:365-674 | An explicit client is only ever connected to the host and port it named: on that port, to the address the host is or the first it resolves to. Before that its rules accepted that host and port under https for CONNECT and http for the absolute form, and their egress list allowed every address behind the host on that port under http. |
| `DialTrace.TLSArrives` | internal/proxy/transparent.go:105-180 | An intercepted TLS client is held to the rules for the name it asked for, or else its destination's address, on the destination's port. |
| `DialTrace.OpaqueArrives` | internal/proxy/transparent.go:213-263 | Any other is held to the rules for its destination's address and port, as tcp, unless those ask for interception. |
| `DialTrace.InterceptedArrives` | internal/proxy/transparent.go:278-373 | If they do, it is held to those for the host its request names, on the destination's port; it is served exactly if it is HTTP and names one. |
| `DialTrace.PortReads` | internal/proxy/egress.go:47-50 | A port is a number below 65536. |
| `DialTrace.OriginalDestination` | internal/proxy/transparent.go:105-263 | An intercepted client is only ever connected to the address and port it was going to, whatever name it asked for, under egress rules that allow them and never under a required auth gate. |

## Left out

- UUID minting: files are taken to carry a uuid, so lookups never write to storage.
- A write between Stat and Load of one lookup: a lookup is atomic, and each storage call fails or works for the whole of it.
- Concurrent lookups: the engine's methods run one at a time, as its mutex would make them but for storage calls.
- JSON decoding and encoding, IDNA, IPv6 zones, DNS, IP text syntax and general regular expressions: functions with the stated inverses, or opaque.
- Globs.MeantIsFound: asks that no class of the pattern takes a slash, although only one between two stars can do harm.
- Header patterns of one rule whose names differ only in letter case: the code keeps one of them, whichever its map yields last; the model asks for all.
- Letters outside ASCII: `strings.EqualFold` and `(?i)` fold more than A to Z.
- `parse_line`: the converter's model starts from filters whose hosts are normalised names; stripping, IDNA and the reading of addresses are given functions.
- Real cryptography and PKCS#12: keys are derived by given functions, signatures name their key, a trust store is a bag. Failures of signing or encoding are not modelled.
- Certificate chains that reach the same subject with different encodings: names are compared as they are.
- TLS handshakes, ClientHello parsing, `net/http` and `http2` internals: answers of the environment.
- Error texts, response pages, access log, metrics, traces, timeouts and deadlines other than as failures.
- Reads that return no bytes and no error: bufio gives up after a hundred of them.
- Context cancellation of a caller that waits on another's outcall flight.
- Overflow of durations and of 32-bit indices.
- Closing of stale HTTP/2 connections in the background, and the draining of streams on them.
- DialTrace.Connection.ResolveAndPin: an empty resolver answer, on which the code would panic, is a failure here.
- DialTrace.Connection.HandleOneRequest: request and response rewriting is not modelled, only whether a request is let through.
- Outcall.Service.AnsweredFromCache: compares verdict kind and message; a cached denial carries the transport's status, a fresh one the envelope's.
- Rule actions, response interception, the control API, configuration, storage backends, statistics and the list downloader.
