# Verified model of the BGP analyzer and two control-plane protocols

The analyzer watches BGP announcements for monitored prefixes.  It reads collector dumps (MRT), matches
every announced prefix against the configuration, raises anomalies, suppresses repeats, and validates
origins against a validator export that it streams and filters.  This project models that code and two
concurrent protocols of the control plane, and proves what they are for.

| module | what it holds |
|---|---|
| `Networks`, `RouteOrigin` | address blocks and their nesting; origin validation against RFC 6811; the ROA filter |
| `Utf8`, `VrpSource` | the incremental decoder; what any schedule of reads brings before one of them breaks |
| `VrpText`, `VrpStream`, `VrpPrefix` | the export as functions of its text; the chunk-fed reader, proved equal to them; what the beginning of an export says about the whole |
| `VrpNesting`, `VrpGrammar`, `VrpLoader` | which texts are framed as one value, which documents are accepted, which byte strings become a ROA set |
| `Monitor`, `Suppression`, `MonitorRuns` | one observation; the bounded table against an unbounded one; whole runs |
| `MonitorFilter`, `MonitorPrefixes`, `MonitorReports` | runs under the filter; runs reduced to one prefix; which anomalies a run reports |
| `MonitorEvents`, `MonitorTimes` | what an event says is true; the window is in data time |
| `MrtSightings`, `Pipeline` | from the bytes of a dump to the events of the monitor and back; the loop into the sink |
| `MrtWire`, `MrtReader` | the wire formats as functions; the cursor and record reader, proved equal to them |
| `MrtEncoding`, `MrtGrammar`, `MrtRuns` | independent encoders and round trips; the converse, so that acceptance is an if-and-only-if; whole dumps |
| `MrtRecords` | whole records from their type numbers on: which hand over routes, which routes, under which peers |
| `PathOrigin` | the origin of a flattened path against section 2 of RFC 6811 |
| `LaneEnsurer`, `DenyList` | the two protocols as step systems over all interleavings; the start of the transport, proved to take their steps |
| `Basics`, `Wrappers` | small arithmetic and sequences; optional values |

Code that changes state in place is a class here with the same fields (`VrpJsonStream`, `PrefixMonitor`,
`Reader`, `MrtStreamReader`, `Analyzer`, `AgentTransport`, `RevocationFeed`); each method is tied to a
function of the old state, or to the steps of a protocol, and the theorems are about those.  The long loops of
the source are split into one method per turn or phase (`ValueEnd`, `Advance`, `Jump`, `LookPast`, `LookAt`,
`Refill` are `value_end`).  A raised error is an `Option`, a `Broken`/`Wrong` outcome or a `false` result, and
generators return the sequence they yield.

## How the main results fit together

* Streaming.  A reader object is specified by `Rest()`, the text it has not consumed: what its reads bring
  until one of them breaks.  Every read may return any non-empty amount (`VrpSource` has the schedule as a
  parameter); what is yielded is exact for each schedule, and acceptance and the accepted entries are a
  function of the bytes and the limit.  `VrpNesting` describes framed values as words, strings and bracketed
  groups with a cost and a depth, without a scanner; `VrpGrammar` builds documents of them, without a parser;
  both are proved equivalent to the code.  `VrpLoader.PublishedIffExport` joins them with UTF-8: bytes become a
  set if and only if they encode a document of the grammar.
* Monitoring.  `Monitor.PrefixMonitor` computes functions of one observation; `MonitorRuns` and `Suppression`
  prove the properties over every run, every order of times and every eviction.  `ReportedIffShown` joins them:
  an anomaly is reported exactly if some sighting shows it; `EmittedAreTrue` says that what an event says of
  its verdict, origins and paths is so, and `ClocksDoNotMatter` that only data time counts.
* Protocols.  `DenyList.StartIsDecided` and `LaneEnsurer.RunsKeepInv` hold over every interleaving; the code
  that starts the agent transport is proved to take steps of the first protocol only.
* Dumps.  Every byte string whatsoever is framed records and one bad tail, and the output is theirs.
  A record hands over routes only if it encodes a RIB record or an UPDATE, and then exactly theirs.
  `AnnouncedAnomalyIsReported`, `TableAnomalyIsReported` and `EveryEventHasARecord` lead from such a record in a
  dump to the event about it, and from any event back to a record.

## Where the code departs from its stated intent

* Path segments are flattened, so the origin of a path that ends in an AS_SET is one of its members, and an
  aggregate can be VALID where RFC 6811 gives it no origin (`AggregateIsCalledValid`).  `PathMatchesRfc6811`
  gives the exact condition over segments.
* An empty AS path has origin 0, so an AS0 ROA makes it VALID although no route can be matched by such a ROA
  in section 2 of RFC 6811.  `ValidateMatchesRfc6811` gives the exact condition.
* A kept set without ROAs is falsy and yields `unknown` where the full export yields `not_found`.
  `StatusUnderFilter`, `RawUnderFilter` and `RunUnderFilter` give the exact condition for a verdict, an
  observation and a run; `EmptyKeptSetDegrades` is the example.
* A full clear of the suppression table is meant to cost one extra event at worst (monitor.py:80-81).  It costs
  one for each remembered key: `ClearCostsAllKeys` gives a run in which a single clear makes 100000 repeats
  inside the window be emitted again.  `AgreesIffNeverClears` proves that the bounded table agrees with an
  unbounded one exactly on the ordered runs that never clear.
* What a refused export has yielded before the refusal does depend on the reads, because a bad byte is noticed
  when it is read and not when it is reached.  `IterRoas` gives the yield for every schedule of reads, and
  `ReadBothWays` the exact condition for two of them to agree.  Nothing that was yielded is published.
* A malformed PEER_INDEX_TABLE still replaces the collector id (`CutTableChangesOnlyCollector`), while peers
  only ever come from complete tables.
* Attribute searches stop at the first hit, so malformed bytes after the last attribute that is looked for are
  tolerated (`UpdateIffGrammar` says exactly when, `TrailingByteIsAccepted` is an input).
* A pushed revocation can be undone by an older snapshot in flight (`PushCanBeLost`);
  `LandedListIsWhatWasRead` gives the exact condition.
* While a failed lane call has not yet reset the key, callers with the same list are sent away
  (`SkipDuringFailure`).  Keys would be ambiguous if a namespace contained a line break
  (`LineBreakLeavesLanesOut`); namespaces of provisioned tenants never do (`SlugNameFits`), so this is not
  reached through them.
* A tenant's lanes are meant to be created the moment its namespace is seen (lane_supervisor.go:34-35).  A slug
  may have 63 characters (ee/provider/store.go:248) and a namespace is two longer (isolation.go:151), but a
  name of more than 63 is passed over without an error (bus_topics.go:45).  `SkippedTenantsHaveLanes` proves
  that a tenant gets its lane exactly if its slug has at most 61; `LongSlugHasNoLane` is the example.

## Model

| member | source | states |
|---|---|---|
| `Networks.SharedAddressNests` | analyzer/probectl_analyzer/rpki.py:385-390 | two blocks of one version that share an address are nested, the shorter prefix outside |
| `Networks.SubnetIsAddressInclusion` | analyzer/probectl_analyzer/rpki.py:277-278 | comparing block ends is inclusion of the addresses they hold, both ways |
| `Networks.CoversIsAddressInclusion` | analyzer/probectl_analyzer/rpki.py:385-390 | `_covers` inside one version is exactly address inclusion |
| `Networks.CoveringNetworksNest` | analyzer/probectl_analyzer/monitor.py:57-62 | networks covering one announcement form a chain, and those of equal length are equal |
| `RouteOrigin.ValidateBySet` | analyzer/probectl_analyzer/rpki.py:367-382 | the verdict as a question about the set of payloads: VALID, INVALID and NOT_FOUND in all cases |
| `RouteOrigin.ValidateMatchesRfc6811` | analyzer/probectl_analyzer/rpki.py:367-390 | `validate` equals section 2 of RFC 6811 if and only if it is not an origin of zero under a matching AS0 ROA |
| `RouteOrigin.EmptyPathUnderAs0IsValid` | analyzer/probectl_analyzer/mrt.py:84-85 | the exception is reached by an empty path under an AS0 ROA |
| `PathOrigin.FlattenEndsWithLastSegment` | analyzer/probectl_analyzer/mrt.py:339-347 | a final segment that holds an AS gives the flattened path its last hop |
| `PathOrigin.PathMatchesRfc6811` | analyzer/probectl_analyzer/mrt.py:343-347 | the verdict on a flattened path is that of section 2 of RFC 6811 if and only if the path has a non-zero origin there (its final segment is an AS_SEQUENCE), or no ROA authorises the number that stands in for it |
| `PathOrigin.ParsedPathMatchesRfc6811` | analyzer/probectl_analyzer/mrt.py:339-347 | the same for the path parsed from the wire, for both widths |
| `PathOrigin.AggregateIsCalledValid` | analyzer/probectl_analyzer/mrt.py:343 | a path that is one AS_SET is called VALID under a ROA for a member, and INVALID by RFC 6811 |
| `RouteOrigin.ValidateDependsOnPayloadsOnly` | analyzer/probectl_analyzer/rpki.py:367-382 | order and repetition of ROAs do not matter |
| `RouteOrigin.MoreRoasAreMonotone` | analyzer/probectl_analyzer/rpki.py:367-382 | more ROAs never take a verdict away from VALID, nor INVALID back to NOT_FOUND |
| `RouteOrigin.KeepIsExact` | analyzer/probectl_analyzer/rpki.py:263-281 | the filter keeps a ROA if and only if it covers some announcement under a monitored prefix |
| `RouteOrigin.FilterKeepsCovering` | analyzer/probectl_analyzer/rpki.py:263-281 | the covering ROAs of a monitored announcement are the same list after filtering |
| `RouteOrigin.FilterPreservesVerdicts` | analyzer/probectl_analyzer/rpki.py:263-271 | filtering leaves every verdict for a monitored announcement unchanged |
| `Utf8.DecodeInPieces` | analyzer/probectl_analyzer/rpki.py:90-93 | decoding in two reads is decoding in one, wherever the bytes are cut |
| `Utf8.DecodeEncode` | analyzer/probectl_analyzer/rpki.py:62 | every text survives encoding and decoding |
| `Utf8.DecodedBytes` | analyzer/probectl_analyzer/rpki.py:62 | decoded bytes are the encoding of the text and the pending bytes |
| `Utf8.CompleteIsEncoding` | analyzer/probectl_analyzer/rpki.py:90-93 | bytes decode without error or remainder if and only if they encode some text |
| `VrpStream.ScanRun` | analyzer/probectl_analyzer/rpki.py:130-196 | charging a run of plain characters at once is scanning them one by one |
| `VrpStream.ScanRunRefused` | analyzer/probectl_analyzer/rpki.py:130-196 | a run that exceeds the charge is refused by both scans |
| `VrpStream.LookAt` | analyzer/probectl_analyzer/rpki.py:130-196 | the branches on a special character compute the step of the character-by-character scan |
| `VrpStream.Advance` | analyzer/probectl_analyzer/rpki.py:130-196 | one turn of the loop keeps the extent of the whole value: it moves on, ends it or refuses it as the plain scan does, and has looked at exactly the characters it passed (and the delimiter of a bare word) |
| `VrpStream.Jump` | analyzer/probectl_analyzer/rpki.py:130-196 | a pattern search and what is behind it do the same, charging the run at once |
| `VrpStream.LookPast` | analyzer/probectl_analyzer/rpki.py:130-196 | and so does the special character it stops on |
| `VrpStream.TurnTaken` | analyzer/probectl_analyzer/rpki.py:130-196 | what a turn comes to: the frame of the value, or more of it taken; and what has been looked at is an initial part of the text, without repetition |
| `VrpStream.VrpJsonStream.constructor` | analyzer/probectl_analyzer/rpki.py:52-65 | nothing consumed yet: `Rest()` is the text of the reads before the one that breaks, and the text counts as ended iff none does |
| `VrpStream.VrpJsonStream.Read` | analyzer/probectl_analyzer/rpki.py:83 | the next bytes of the schedule: at least one and at most what is asked for, and nothing only at the end |
| `VrpStream.VrpJsonStream.Fill` | analyzer/probectl_analyzer/rpki.py:80-94 | a read keeps `Rest()` and the state valid (two chunks of text at most), total stays at most the limit plus one; it breaks only where the text of the reads stops |
| `VrpStream.VrpJsonStream.Absorb` | analyzer/probectl_analyzer/rpki.py:89-94 | decoding onto the buffer keeps `Rest()`; the end is found exactly when nothing is left |
| `VrpStream.VrpJsonStream.Append` | analyzer/probectl_analyzer/rpki.py:89-94 | a read that decodes moves its text from what is ahead to the buffer, and nothing else changes |
| `VrpStream.VrpJsonStream.Compact` | analyzer/probectl_analyzer/rpki.py:96-99 | dropping the consumed front keeps `Rest()` |
| `VrpStream.VrpJsonStream.SkipBuffered` | analyzer/probectl_analyzer/rpki.py:103-104 | skips blanks of the buffer only, which keeps what is left after all blanks |
| `VrpStream.VrpJsonStream.Peek` | analyzer/probectl_analyzer/rpki.py:101-109 | exactly the blanks are skipped; the end is reported only where the whole input has been read within the limit |
| `VrpStream.VrpJsonStream.Take` | analyzer/probectl_analyzer/rpki.py:111-115 | consumes one expected character after blanks, and fails exactly if it is not there |
| `VrpStream.VrpJsonStream.Refill` | analyzer/probectl_analyzer/rpki.py:130-196 | parking the exhausted buffer keeps what the scan has taken and what is before it |
| `VrpStream.VrpJsonStream.ValueEnd` | analyzer/probectl_analyzer/rpki.py:130-196 | fragments and final slice concatenate to exactly the value the plain scan frames, across any refills; every character of it is looked at once, in order, and none beyond but the delimiter of a bare word |
| `VrpStream.VrpJsonStream.NextValue` | analyzer/probectl_analyzer/rpki.py:117-128 | the next value and the text after it are those of the whole text |
| `VrpStream.VrpJsonStream.ReadSeparator` | analyzer/probectl_analyzer/rpki.py:207-213 | closing bracket, or a comma not followed by one, as in the whole text |
| `VrpStream.VrpJsonStream.ReadEntry` | analyzer/probectl_analyzer/rpki.py:203-213 | one entry and its separator, as in the whole text |
| `VrpStream.VrpJsonStream.ReadRoas` | analyzer/probectl_analyzer/rpki.py:198-213 | the array of the whole text: same entries, same rest, same verdict |
| `VrpStream.VrpJsonStream.ReadItems` | analyzer/probectl_analyzer/rpki.py:203-213 | the same for its entries |
| `VrpStream.VrpJsonStream.ReadName` | analyzer/probectl_analyzer/rpki.py:236-240 | a string that is a new key within the key budget, or nothing exactly if there is none |
| `VrpStream.VrpJsonStream.ReadKey` | analyzer/probectl_analyzer/rpki.py:236-243 | a new key within the key budget, and its colon |
| `VrpStream.VrpJsonStream.ReadBody` | analyzer/probectl_analyzer/rpki.py:244-248 | the ROA array, or metadata that is checked and dropped |
| `VrpStream.VrpJsonStream.ReadMember` | analyzer/probectl_analyzer/rpki.py:235-253 | one member and its separator |
| `VrpStream.VrpJsonStream.ReadMembers` | analyzer/probectl_analyzer/rpki.py:231-253 | all members up to the closing brace, and whether one was the ROA array |
| `VrpStream.VrpJsonStream.ReadObject` | analyzer/probectl_analyzer/rpki.py:228-256 | the top-level object is accepted exactly when it closes and held the ROA array |
| `VrpStream.VrpJsonStream.ReadDocument` | analyzer/probectl_analyzer/rpki.py:225-260 | yields exactly the entries of the text of the reads, broken off or not; accepted if and only if no read breaks and that text is a complete document |
| `VrpStream.IterRoas` | analyzer/probectl_analyzer/rpki.py:216-260 | for every schedule of reads the yield is that of the text before the read that breaks; acceptance and accepted entries are a function of the bytes and the limit, so chunk size and read lengths are unobservable; a refused input has yielded an initial part of its text's entries |
| `VrpStream.ReadBothWays` | analyzer/probectl_analyzer/rpki.py:80-94 | reading the same bytes singly and at once agrees on acceptance; singly yields all entries of the text, and both yield the same if and only if the bytes are within the limit and UTF-8 as far as they go, or hold no entry |
| `VrpStream.UnsoundExample` | analyzer/probectl_analyzer/rpki.py:90-93 | an unsound input that does hold an entry: one followed by a byte that is not UTF-8 |
| `VrpSource.ServeOne` | analyzer/probectl_analyzer/rpki.py:80-94 | what a schedule of reads brings, one read at a time, and when a read breaks it off |
| `VrpSource.ServedIsAdmitted` | analyzer/probectl_analyzer/rpki.py:80-94 | from any point on, no read breaks if and only if the bytes are within the limit and complete UTF-8; what is brought is an initial part of the admitted text, all of it when the bytes are sound or come singly |
| `VrpSource.ServedFromStart` | analyzer/probectl_analyzer/rpki.py:80-94 | the same for a whole input |
| `VrpSource.ServedAtOnce` | analyzer/probectl_analyzer/rpki.py:80-94 | unsound bytes that come at once bring nothing |
| `VrpText.ScanGoesOn` | analyzer/probectl_analyzer/rpki.py:130-196 | a value framed in the beginning of a text, other than a word at its end, is framed alike however the text goes on |
| `VrpPrefix.ItemsGoOn` | analyzer/probectl_analyzer/rpki.py:203-213 | the entries of a beginning of an array are an initial part of those of the whole, and a closed array stands |
| `VrpPrefix.MembersGoOn` | analyzer/probectl_analyzer/rpki.py:231-253 | the same for the members of the top-level object |
| `VrpPrefix.DocumentGoesOn` | analyzer/probectl_analyzer/rpki.py:216-260 | the entries read from the beginning of an export are an initial part of those of the whole |
| `VrpNesting.MovesOn` | analyzer/probectl_analyzer/rpki.py:130-196 | the scan is compositional: after a text it goes on from the state the text leads to |
| `VrpNesting.CompoundExtent` | analyzer/probectl_analyzer/rpki.py:130-196 | an array or object is framed with n characters if and only if these are one well-nested group within charge and depth |
| `VrpNesting.QuotedExtent` | analyzer/probectl_analyzer/rpki.py:130-196 | a string is framed if and only if it runs to its first unescaped quote within the charge |
| `VrpNesting.ScalarExtent` | analyzer/probectl_analyzer/rpki.py:130-196 | any other value is framed if and only if it runs to the first blank or delimiter, or the end, within the charge |
| `VrpNesting.WholeIffFramed` | analyzer/probectl_analyzer/rpki.py:130-196 | a text is framed as a whole if and only if it is one well-nested group, one string or one word within the limits |
| `VrpNesting.WholeIsFramed` | analyzer/probectl_analyzer/rpki.py:130-196 | a complete value is framed whatever delimiter follows it |
| `VrpNesting.FramedIsWhole` | analyzer/probectl_analyzer/rpki.py:130-196 | whatever is framed is a complete value |
| `VrpNesting.ForestFound` | analyzer/probectl_analyzer/rpki.py:130-196 | a scan that ends has read one forest for each open bracket, each closed by its own kind |
| `VrpNesting.ForestMoves` | analyzer/probectl_analyzer/rpki.py:130-196 | every well-nested forest within the limits is scanned through, leaving the bracket stack as it was |
| `VrpNesting.ExtentIsBounded` | analyzer/probectl_analyzer/rpki.py:130-196 | a framed value has at most a 64th as many characters as the charge limit |
| `VrpGrammar.KeysAreDistinct` | analyzer/probectl_analyzer/rpki.py:236-246 | keys of an accepted object are pairwise distinct, so it holds at most one ROA array |
| `VrpGrammar.GrammarIsAccepted` | analyzer/probectl_analyzer/rpki.py:198-260 | every document of the grammar is accepted with exactly its entries |
| `VrpGrammar.AcceptedIsGrammar` | analyzer/probectl_analyzer/rpki.py:198-260 | whatever is accepted is a document of the grammar |
| `VrpGrammar.AcceptedIffGrammar` | analyzer/probectl_analyzer/rpki.py:216-260 | both, and the entries yielded are those of the document |
| `VrpGrammar.MembersTogether` | analyzer/probectl_analyzer/rpki.py:233-253 | going through the members with a growing set of keys and their charge accepts exactly members that are each good, have distinct keys, and whose n keys of L characters are charged 128 n + 4 L within the cap |
| `VrpGrammar.ObjectOverBudget` | analyzer/probectl_analyzer/rpki.py:239-241 | an object that is good but for that charge is refused |
| `VrpLoader.FromStream` | analyzer/probectl_analyzer/rpki.py:339-360 | returns exactly what the bytes publish, or nothing |
| `VrpLoader.ConvertAll` | analyzer/probectl_analyzer/rpki.py:355-360 | all entries converted, the kept ones in order; one malformed entry refuses them all |
| `VrpLoader.AcceptableText` | analyzer/probectl_analyzer/rpki.py:80-94 | acceptable bytes with a text are that text's encoding within the limit, both ways |
| `VrpLoader.PublishedIffExport` | analyzer/probectl_analyzer/rpki.py:339-360 | a set is published if and only if the bytes encode a document of the grammar whose every entry converts, and it holds the kept entries in order |
| `VrpLoader.ExportIsPublished` | analyzer/probectl_analyzer/rpki.py:339-360 | one direction of it, with the contents |
| `VrpLoader.PublishedIsExport` | analyzer/probectl_analyzer/rpki.py:339-360 | the other, with the document |
| `VrpLoader.ContentsAreTheKeptEntries` | analyzer/probectl_analyzer/rpki.py:339-360 | that set holds, in order, the conversion of exactly the entries whose network the filter keeps, and counts all entries |
| `VrpLoader.ConvertedIffEach` | analyzer/probectl_analyzer/rpki.py:355-360 | all entries convert exactly if each does |
| `VrpLoader.ObjectIffKeysFit` | analyzer/probectl_analyzer/rpki.py:239-241 | an object-shaped export with n distinct keys of L characters is published if and only if 128 n + 4 L is at most 2^30 or at most the limit, and then with its kept entries |
| `VrpLoader.EmptyExportIsPublished` | analyzer/probectl_analyzer/rpki.py:228-256 | the bytes of an object that holds only an empty ROA array are published as the empty set |
| `VrpLoader.FilteredLoadKeepsVerdicts` | analyzer/probectl_analyzer/rpki.py:263-271 | loading with the overlap filter succeeds exactly when loading everything does, scans as many and gives the same verdicts |
| `Monitor.PrefixMonitor.constructor` | analyzer/probectl_analyzer/monitor.py:35-47 | no baseline, empty table, nothing suppressed |
| `Monitor.PrefixMonitor.MatchPrefix` | analyzer/probectl_analyzer/monitor.py:49-63 | the loop computes the match |
| `Monitor.PrefixMonitor.Suppress` | analyzer/probectl_analyzer/monitor.py:65-88 | decision, table after it and counter |
| `Monitor.PrefixMonitor.ObserveRaw` | analyzer/probectl_analyzer/monitor.py:110-199 | the detections and the new baseline |
| `Monitor.PrefixMonitor.KeepNew` | analyzer/probectl_analyzer/monitor.py:95-104 | what suppression leaves of a batch; every event is kept or counted |
| `Monitor.PrefixMonitor.Observe` | analyzer/probectl_analyzer/monitor.py:90-104 | one observation end to end, at the route's data time or the clock |
| `Suppression.TableStaysBounded` | analyzer/probectl_analyzer/monitor.py:79-87 | in every run the table holds at most 100000 keys |
| `Suppression.RememberStaysBounded` | analyzer/probectl_analyzer/monitor.py:79-87 | no request takes a table past 100000 keys |
| `Suppression.TableHoldsEmissions` | analyzer/probectl_analyzer/monitor.py:65-88 | every remembered time is that of a request that was emitted |
| `Suppression.SuppressedRepeatsEmitted` | analyzer/probectl_analyzer/monitor.py:65-88 | in every run, any order and through every eviction, a suppressed request repeats an emitted one at most now and less than a window before |
| `Suppression.SuppressedIffRecent` | analyzer/probectl_analyzer/monitor.py:65-88 | in any order of times a request is suppressed only if the last emission of its key is at most now and less than a window before, and exactly then as long as the table was never full: an earlier time is emitted and resets the window |
| `Suppression.TableHoldsLastEmission` | analyzer/probectl_analyzer/monitor.py:65-88 | a remembered time is that of the last emission of its key, and while the table was never full it is remembered |
| `Suppression.BoundedRefinesFull` | analyzer/probectl_analyzer/monitor.py:65-88 | on an ordered run that never clears, the bounded table decides every request as a table that never evicts |
| `Suppression.ClearForgetsAll` | analyzer/probectl_analyzer/monitor.py:79-87 | right after a full clear every live key but the one just emitted is let through again, although the full table would suppress it |
| `Suppression.ClearShows` | analyzer/probectl_analyzer/monitor.py:85-86 | so a clear always shows in some next request |
| `Suppression.FloodFills` | analyzer/probectl_analyzer/monitor.py:79-87 | anomalies at one time, no two alike, are all remembered up to the bound |
| `Suppression.FloodClears` | analyzer/probectl_analyzer/monitor.py:79-87 | the next one clears the table, which then holds nothing else |
| `Suppression.ClearCostsAllKeys` | analyzer/probectl_analyzer/monitor.py:80-87 | after that each of the 100000 repeats is emitted again although the full table suppresses it: the cost of one clear is not one event but as many as there were keys |
| `Suppression.AgreesIffNeverClears` | analyzer/probectl_analyzer/monitor.py:79-87 | on ordered runs the tables decide every next request alike at every point if and only if the run never clears |
| `Suppression.EmissionsAreSpaced` | analyzer/probectl_analyzer/monitor.py:68-71 | then two emissions of one key are at least a window apart |
| `MonitorRuns.MatchIsLongestPrefix` | analyzer/probectl_analyzer/monitor.py:49-63 | the match is the longest covering prefix, the first configured on ties, and none exactly when nothing covers |
| `MonitorRuns.AtMostFourEvents` | analyzer/probectl_analyzer/monitor.py:121-199 | at most four events, all about the route, no two of one kind |
| `MonitorRuns.KeysAreDistinct` | analyzer/probectl_analyzer/monitor.py:96-103 | the events of one observation have distinct suppression keys |
| `MonitorRuns.DetectionsAreExact` | analyzer/probectl_analyzer/monitor.py:143-195 | hijack, leak and RPKI-invalid are raised exactly when the allow-list, the hops before the origin, or the loaded ROAs say so |
| `MonitorRuns.LeakDetailNamesTheLeaked` | analyzer/probectl_analyzer/monitor.py:96-108 | the leak detail is non-empty and names exactly the no-transit ASes on the path |
| `MonitorRuns.RunEmitsTheUnsuppressed` | analyzer/probectl_analyzer/monitor.py:90-104 | a run emits exactly the detections the table lets through, in order |
| `MonitorRuns.EmittedIsSubsequence` | analyzer/probectl_analyzer/monitor.py:90-104 | the emitted stream is the raised stream at exactly the unsuppressed positions |
| `MonitorRuns.NoAnomalyLost` | analyzer/probectl_analyzer/monitor.py:65-104 | every detection that is not emitted repeats an emitted one with its key, raised at most now and less than a window before |
| `MonitorRuns.RunInPieces` | analyzer/probectl_analyzer/monitor.py:90-199 | two runs one after the other raise, emit and leave behind what one run of both does |
| `MonitorRuns.RunTable` | analyzer/probectl_analyzer/monitor.py:65-104 | the table after a run is that of the requests its detections made |
| `MonitorRuns.RunStaysBounded` | analyzer/probectl_analyzer/monitor.py:79-87 | no run takes the monitor's table past 100000 keys |
| `MonitorRuns.BoundedMonitorRefinesFull` | analyzer/probectl_analyzer/monitor.py:65-104 | a monitor that sees routes in the order of their times and never clears emits exactly what one with unbounded memory would |
| `MonitorRuns.EmittedEventsAreSpaced` | analyzer/probectl_analyzer/monitor.py:65-104 | two events with one key that such a monitor emits are at least a window apart |
| `MonitorRuns.PrefixesDoNotInterfere` | analyzer/probectl_analyzer/monitor.py:110-199 | the detections naming a prefix text are those of the run reduced to that text |
| `MonitorPrefixes.EmittedDoNotInterfere` | analyzer/probectl_analyzer/monitor.py:65-199 | on a run in the order of its times that never clears, the emitted events naming a prefix text are exactly those emitted by the run reduced to that text |
| `MonitorPrefixes.FullTableOfPrefix` | analyzer/probectl_analyzer/monitor.py:72-88 | what an unbounded table remembers about a prefix is what it would remember alone |
| `MonitorPrefixes.PrefixAloneNeverClears` | analyzer/probectl_analyzer/monitor.py:79-87 | a run that never clears does not clear when reduced to one prefix either |
| `MonitorRuns.BaselineIsLastSighting` | analyzer/probectl_analyzer/monitor.py:122-123 | the baseline of a text is its last sighting, if it matches and was seen |
| `MonitorRuns.RunBaseline` | analyzer/probectl_analyzer/monitor.py:197-198 | and it is the baseline the monitor is left with after a run |
| `MonitorRuns.OriginChangeIsAdjacent` | analyzer/probectl_analyzer/monitor.py:125-141 | an origin change is raised exactly when the previous sighting of a matched text had another origin, and carries its origin and path |
| `MonitorReports.ReportedIffShown` | analyzer/probectl_analyzer/monitor.py:65-199 | over every run, any order, repeats and clears included, an event with a key (prefix, kind, and origin or leaked networks) is emitted if and only if some sighting shows that anomaly by the configuration, the ROAs and the previous sighting |
| `MonitorReports.ShowsIffRaises` | analyzer/probectl_analyzer/monitor.py:110-199 | a sighting of a run shows an anomaly of a kind exactly if it raises one |
| `MonitorReports.DetectionIsReported` | analyzer/probectl_analyzer/monitor.py:90-104 | for every detection of a run an event with its key is emitted |
| `MonitorReports.ReportIsDetection` | analyzer/probectl_analyzer/monitor.py:90-104 | every emitted event is a detection of some sighting |
| `MonitorEvents.EmittedAreTrue` | analyzer/probectl_analyzer/monitor.py:110-228 | every event of every run from any state says VALID, INVALID, NOT_FOUND or UNKNOWN exactly if some loaded ROA authorises the origin, some covers and none authorises, a set is loaded and none covers, or none is loaded; its origin is the last hop of its path, its expected origins are those of the matched prefix, and only a change speaks of an earlier origin |
| `MonitorEvents.RaisedAreTrue` | analyzer/probectl_analyzer/monitor.py:110-228 | the same for every detection, emitted or suppressed |
| `MonitorEvents.StatusIsTrue` | analyzer/probectl_analyzer/monitor.py:117 | the verdict on a route, each of the four in terms of the loaded ROAs |
| `MonitorTimes.ClocksDoNotMatter` | analyzer/probectl_analyzer/monitor.py:90-104 | runs over the same routes, with the same clock for those without a time, raise, emit and remember the same |
| `MonitorTimes.NoSightingLost` | analyzer/probectl_analyzer/monitor.py:65-104 | a detection that is not emitted repeats an emitted one of the same anomaly, of a sighting no later in the run and less than a window before, by the time of the routes, or the clock for a route without one |
| `MonitorTimes.ReportsAreSpaced` | analyzer/probectl_analyzer/monitor.py:65-104 | on a run in that order that never clears, two emitted events of one anomaly come from sightings at least a window of data time apart |
| `MonitorFilter.StatusUnderFilter` | analyzer/probectl_analyzer/monitor.py:117 | with the filtered set the verdict is that of the full export if and only if the kept set is non-empty or the export was empty; otherwise it is `unknown` for `not_found` |
| `MonitorFilter.RawUnderFilter` | analyzer/probectl_analyzer/monitor.py:110-199 | the detections agree but for the verdict field, and wholly exactly under that condition or when there are none |
| `MonitorFilter.RunUnderFilter` | analyzer/probectl_analyzer/monitor.py:90-199 | whole runs emit the same events in the same order but for the verdict field, and wholly the same if and only if the kept set is non-empty, the export was empty, or nothing is emitted |
| `MonitorFilter.RunVerdicts` | analyzer/probectl_analyzer/monitor.py:117 | otherwise every event of the run says `unknown` with the kept set and `not_found` with the full export |
| `MonitorFilter.EmptyKeptSetDegrades` | analyzer/probectl_analyzer/rpki.py:328-329 | an export whose only ROA is elsewhere turns `not_found` into `unknown` |
| `Pipeline.Analyzer.constructor` | analyzer/probectl_analyzer/pipeline.py:85-89 | a fresh monitor and the given sink |
| `Pipeline.Analyzer.ProcessRoutes` | analyzer/probectl_analyzer/pipeline.py:96-109 | the sink receives exactly the run's events in order, the count is their number, detections are emitted or suppressed, and the monitor is left with the baseline and table of the run, within its bound |
| `Pipeline.Analyzer.ProcessMrt` | analyzer/probectl_analyzer/pipeline.py:111-112 | the sink receives exactly the events of the run over the routes of the dump, and the count is their number, or an error if the dump ends with one after those routes |
| `MrtSightings.BlockFits` | analyzer/probectl_analyzer/mrt.py:119-132 | the network a printed prefix stands for, host bits cleared, is an aligned block of its address family |
| `MrtSightings.BlockHoldsAddress` | analyzer/probectl_analyzer/mrt.py:119-132 | and it is the block of the announced length that holds the announced address |
| `MrtSightings.MatchesBlock` | analyzer/probectl_analyzer/monitor.py:49-63 | printed text is matched to the monitored prefix most specific for the announced network, host bits in the announcement or not |
| `MrtSightings.AnnouncedAnomalyIsReported` | analyzer/probectl_analyzer/pipeline.py:96-112 | an UPDATE anywhere in a dump, whatever bytes follow, that announces a network inside a monitored one with an unexpected origin, a leaked transit or an origin the ROAs refuse, has its event of that kind emitted |
| `MrtSightings.TableAnomalyIsReported` | analyzer/probectl_analyzer/pipeline.py:96-112 | the same for an entry of a RIB record |
| `MrtSightings.UpdateIsSeen` | analyzer/probectl_analyzer/mrt.py:145-218 | such a record is seen as one route for each announced prefix, at 10^9 times the time in its header |
| `MrtSightings.LateUpdateIsSeen` | analyzer/probectl_analyzer/mrt.py:197-204 | behind a microsecond field, 1000 times that later |
| `MrtSightings.RibIsSeen` | analyzer/probectl_analyzer/mrt.py:205-211 | a RIB record is seen as one route for each readable entry, for its prefix and family, at 10^9 times the time in its header |
| `MrtSightings.EveryEventHasARecord` | analyzer/probectl_analyzer/pipeline.py:96-112 | whatever the input, every emitted event was raised by a route of one of its framed records, which encodes a RIB record or an UPDATE, about that prefix and path |
| `Pipeline.Analyzer.ProcessRoute` | analyzer/probectl_analyzer/pipeline.py:98-101 | the same for one route |
| `Pipeline.Analyzer.Deliver` | analyzer/probectl_analyzer/pipeline.py:99-101 | every event of an observation reaches the sink once, in order |
| `MrtReader.Reader.Read` | analyzer/probectl_analyzer/mrt.py:95-100 | the next n bytes, or an error that leaves the cursor, exactly when they are not there |
| `MrtReader.Reader.ReadNum` | analyzer/probectl_analyzer/mrt.py:102-109 | big-endian numbers |
| `MrtReader.Reader.Remaining` | analyzer/probectl_analyzer/mrt.py:111-112 | the number of unread bytes |
| `MrtReader.Reader.TakeRest` | analyzer/probectl_analyzer/mrt.py:114-117 | all unread bytes, leaving none |
| `MrtReader.Reader.ReadPrefix` | analyzer/probectl_analyzer/mrt.py:119-132 | one length-prefixed prefix |
| `MrtReader.Reader.ReadPrefixes` | analyzer/probectl_analyzer/mrt.py:304-305 | prefixes to the end, or none |
| `MrtReader.Reader.ReadAttribute` | analyzer/probectl_analyzer/mrt.py:326-329 | one attribute, with normal or extended length |
| `MrtReader.FindAttribute` | analyzer/probectl_analyzer/mrt.py:323-336 | the first attribute of a type; later ones are not looked at |
| `MrtReader.ReadAsns` | analyzer/probectl_analyzer/mrt.py:345-346 | the AS numbers of one segment |
| `MrtReader.ParseAsPath` | analyzer/probectl_analyzer/mrt.py:339-347 | all segments, flattened |
| `MrtReader.AsPathFromAttrs` | analyzer/probectl_analyzer/mrt.py:332-336 | the first AS_PATH, or an empty path |
| `MrtReader.MpReachPrefixes` | analyzer/probectl_analyzer/mrt.py:350-364 | the prefixes of the first MP_REACH_NLRI, or none |
| `MrtReader.MrtStreamReader.ParsePeerIndex` | analyzer/probectl_analyzer/mrt.py:220-236 | the collector id is stored once read, the peers only all together |
| `MrtReader.MrtStreamReader.ParseRib` | analyzer/probectl_analyzer/mrt.py:238-259 | the routes of the entries before the first bad one |
| `MrtReader.MrtStreamReader.ParseBgp4mp` | analyzer/probectl_analyzer/mrt.py:261-291 | the routes of the declared message, if it is an UPDATE |
| `MrtReader.MrtStreamReader.ParseUpdate` | analyzer/probectl_analyzer/mrt.py:293-315 | all routes of an UPDATE, or none when any part is malformed |
| `MrtReader.MrtStreamReader.Dispatch` | analyzer/probectl_analyzer/mrt.py:194-218 | routes and memory of one record of any type |
| `MrtReader.MrtStreamReader.ReadStream` | analyzer/probectl_analyzer/mrt.py:145-192 | routes, memory and ending of a whole dump |
| `MrtEncoding.TakePrefix` | analyzer/probectl_analyzer/mrt.py:119-132 | an encoded prefix is read back, whatever follows |
| `MrtEncoding.TakeFirst` | analyzer/probectl_analyzer/mrt.py:323-336 | a search finds the first encoded attribute of its type and ignores what comes after it |
| `MrtEncoding.TakeSegs` | analyzer/probectl_analyzer/mrt.py:339-347 | encoded segments are read back flattened, for both widths |
| `MrtEncoding.TakeReach` | analyzer/probectl_analyzer/mrt.py:350-364 | an encoded MP_REACH_NLRI is read back |
| `MrtEncoding.UpdateRoundTrip` | analyzer/probectl_analyzer/mrt.py:293-315 | an encoded UPDATE gives the MP_REACH prefixes, then the NLRI, with the flattened path |
| `MrtEncoding.Bgp4mpRoundTrip` | analyzer/probectl_analyzer/mrt.py:261-315 | the same for a whole record, whatever trails the message |
| `MrtEncoding.ExtendedTimestampIsPlain` | analyzer/probectl_analyzer/mrt.py:197-204 | an extended-timestamp record gives the routes of the plain one, each with its time moved by 1000 times the microsecond field |
| `MrtEncoding.MessageTime` | analyzer/probectl_analyzer/mrt.py:212-218 | the time of a message goes into the time field of its routes and nowhere else |
| `MrtGrammar.PrefixesBytes` | analyzer/probectl_analyzer/mrt.py:119-132 | prefixes that are accepted are the encoding of what is returned |
| `MrtGrammar.AttrsBytes` | analyzer/probectl_analyzer/mrt.py:323-329 | accepted attribute bytes are whole attributes followed by bytes no search reaches |
| `MrtGrammar.UpdateBytes` | analyzer/probectl_analyzer/mrt.py:293-315 | an accepted UPDATE is the encoding of a message that announces what was returned |
| `MrtGrammar.UpdateIffGrammar` | analyzer/probectl_analyzer/mrt.py:293-364 | an UPDATE is accepted with these prefixes and path if and only if it encodes a message that announces them |
| `MrtGrammar.TrailingByteIsAccepted` | analyzer/probectl_analyzer/mrt.py:323-336 | an accepted UPDATE whose attributes are followed by a byte that is no attribute, for each byte |
| `MrtGrammar.TableIffGrammar` | analyzer/probectl_analyzer/mrt.py:220-236 | a peer list is accepted if and only if its bytes encode a table with those peers |
| `MrtRuns.StreamOfRecords` | analyzer/probectl_analyzer/mrt.py:145-169 | over any framed records, malformed inside or not, the reader stands at record boundaries and yields each record's routes in order |
| `MrtRuns.EveryStreamIsRecords` | analyzer/probectl_analyzer/mrt.py:145-192 | every byte string is framed records and one bad tail, and routes, memory and ending are theirs |
| `MrtRuns.MemoryComesFromLatestTable` | analyzer/probectl_analyzer/mrt.py:220-236 | peers are those of the latest complete table, the collector id that of the latest table whose id could be read |
| `MrtRuns.CutTableChangesOnlyCollector` | analyzer/probectl_analyzer/mrt.py:221-222 | a table cut after its id changes the collector and keeps the peers |
| `MrtRuns.BadEntryIffNoEncoding` | analyzer/probectl_analyzer/mrt.py:243-248 | a RIB entry is bad exactly when the bytes do not start with an encoded entry |
| `MrtRuns.RibStopsAtFirstBadEntry` | analyzer/probectl_analyzer/mrt.py:243-259 | a RIB record yields exactly the entries before the first bad one |
| `MrtRuns.EveryRibIsEntries` | analyzer/probectl_analyzer/mrt.py:243-259 | whatever follows a RIB header is entries and something that is none, and the routes are theirs |
| `MrtRuns.RibRoundTrip` | analyzer/probectl_analyzer/mrt.py:238-259 | a whole encoded RIB record is read back |
| `MrtRecords.RibRecordRoutes` | analyzer/probectl_analyzer/mrt.py:205-259 | a record of type 13 and subtype 2 (IPv4) or 4 (IPv6) that encodes a prefix and entries hands over one route for each readable entry: that prefix and family, the entry's path, the peer its index names, the collector and the time |
| `MrtRecords.RibRoutesCarryRows` | analyzer/probectl_analyzer/mrt.py:220-251 | the peer of such a route is the row of the latest encoded table that the entry's index names, and AS 0 with no address exactly if there is no such row |
| `MrtRecords.NoTableNoPeers` | analyzer/probectl_analyzer/mrt.py:249-251 | before the first table no such route has a peer |
| `MrtRecords.PeersOfLatestTable` | analyzer/probectl_analyzer/mrt.py:220-236 | the remembered peers are the rows of the latest record of type 13 and subtype 1 that encodes a table |
| `MrtRecords.CollectorOfLatest` | analyzer/probectl_analyzer/mrt.py:221-222 | the collector is the id of the latest such record that begins with one, complete or not |
| `MrtRecords.UpdateRecordRoutes` | analyzer/probectl_analyzer/mrt.py:212-218 | a record of type 16 and subtype 1 or 4 that encodes an UPDATE with AS numbers of two or four octets hands over one route for each announced prefix |
| `MrtRecords.LateRecordRoutes` | analyzer/probectl_analyzer/mrt.py:197-204 | one of type 17 the same, 1000 times its microsecond field later |
| `MrtRecords.RoutesAreSpelled` | analyzer/probectl_analyzer/mrt.py:194-218 | any record that hands over a route encodes one of these three; malformed records and all other types and subtypes hand over none |
| `MrtRuns.RecordYieldsBoundedRoutes` | analyzer/probectl_analyzer/mrt.py:277-291 | a BGP4MP record yields at most its declared message length less 23 routes, hence at most 65512 |
| `MrtRuns.BytesPastMessageDoNotMatter` | analyzer/probectl_analyzer/mrt.py:280-291 | no byte past the declared message changes the result |
| `LaneEnsurer.StepKeepsInv` | cmd/probectl-control/bus_topics.go:115-140 | every step of a caller or an install keeps the invariant |
| `LaneEnsurer.RunsKeepInv` | cmd/probectl-control/bus_topics.go:109-140 | in every interleaving a remembered key was written by a call of the installed function that is in flight or succeeded, and only names that topics can carry have lanes |
| `LaneEnsurer.JoinIsInjective` | cmd/probectl-control/bus_topics.go:127 | equal non-empty keys of one-line namespaces come from equal lists |
| `LaneEnsurer.LineBreakConfusesKeys` | cmd/probectl-control/bus_topics.go:127 | a namespace with a line break makes two lists share a key |
| `LaneEnsurer.SkippedCallersAreCovered` | cmd/probectl-control/bus_topics.go:128-131 | a caller that is sent away shares its key with a call of the installed function that succeeded or is unfinished; once all have returned the lanes of that call exist; and without line breaks its list is the caller's |
| `LaneEnsurer.LineBreakLeavesLanesOut` | cmd/probectl-control/bus_topics.go:127-131 | with a line break a caller with valid names is sent away for good although there is no lane at all |
| `LaneEnsurer.QuietMemoryIsTrue` | cmd/probectl-control/bus_topics.go:134-139 | after all calls have returned a failed ensure is never remembered as done |
| `LaneEnsurer.SkipDuringFailure` | cmd/probectl-control/bus_topics.go:134-139 | between a failure and its reset a caller is sent away without lanes, and retried after the reset |
| `LaneEnsurer.RetriedAfterReset` | cmd/probectl-control/bus_topics.go:118-139 | after every reset, by whichever failed call, and every install, the next caller calls the installed function for its own list |
| `LaneEnsurer.SameListCallsOnce` | cmd/probectl-control/bus_topics.go:124-133 | a second caller with the same list makes no second call |
| `LaneEnsurer.SlugNameFits` | internal/tenancy/isolation.go:151 | the namespace of a valid slug is one line, and one that topics can carry if and only if the slug has at most 61 characters |
| `LaneEnsurer.SkippedTenantsHaveLanes` | cmd/probectl-control/lane_supervisor.go:34-36 | in every run over valid slugs, once all calls have returned, a caller that is sent away finds the lane of a tenant in place if and only if its slug has at most 61 characters |
| `LaneEnsurer.LongSlugHasNoLane` | cmd/probectl-control/bus_topics.go:45-47 | a valid slug of 62 or 63 characters, and there are such, is ensured without an error and has no lane |
| `DenyList.StepKeepsInv` | cmd/probectl-control/builders.go:958-1078 | every step of the start, the loads, the pushes and the listener keeps the invariant, loses nothing settled, and a refused start stays refused |
| `DenyList.RunsKeepInv` | cmd/probectl-control/builders.go:958-1078 | and so does every run |
| `DenyList.StartIsDecided` | cmd/probectl-control/builders.go:958-979 | in every run the start is past the gate if and only if a snapshot has landed, exhausted if and only if none has and all attempts failed, cancelled if and only if a wait was cut short; the attempt under way is the number of failures |
| `DenyList.ServesOnlyAfterLoad` | cmd/probectl-control/builders.go:1046-1078 | serving and every push come after a landing, and the first landing is that of an attempt of the start reached by fewer failures than attempts |
| `DenyList.RefusedStartNeverServes` | cmd/probectl-control/builders.go:972-979 | a cancelled or exhausted start has served nothing, taken no push and loaded nothing, and never does in any continuation |
| `DenyList.AgentTransport.ListRevoked` | cmd/probectl-control/builders.go:961 | the list as it is at the read, or an error, while revocations go on being persisted |
| `DenyList.AgentTransport.Load` | cmd/probectl-control/builders.go:1022-1029 | one load replaces the list by exactly what was persisted up to its read, or fails and keeps it, by steps of the protocol |
| `DenyList.AgentTransport.TryOnce` | cmd/probectl-control/builders.go:960-977 | one attempt and the wait behind it: how it ends the start, or that another one follows |
| `DenyList.AgentTransport.LoadInitial` | cmd/probectl-control/builders.go:958-979 | the retry loop comes to the phase the protocol says; it succeeds if and only if some attempt reads the list within the attempts and before cancellation, and then the list is exactly what was persisted up to that read; otherwise it stays empty |
| `DenyList.AgentTransport.StartTransport` | cmd/probectl-control/builders.go:1021-1078 | the transport serves if and only if the first load succeeds, behind the installed hook and the running ticker; a refused start has never served |
| `DenyList.FailedLoadKeepsList` | cmd/probectl-control/builders.go:1022-1028 | a load that fails leaves the list it found and exactly what was pushed meanwhile |
| `DenyList.PersistedBeforeLoadStaysDenied` | cmd/probectl-control/builders.go:1022-1029 | a revocation persisted before a load began is denied from that load's end in every continuation |
| `DenyList.LandedListIsWhatWasRead` | cmd/probectl-control/builders.go:1022-1029 | when a snapshot lands, an id is denied if and only if it was persisted before the snapshot was read |
| `DenyList.DeniedUntilOlderSnapshotLands` | cmd/probectl-control/builders.go:1056-1063 | a denied id stays unless a snapshot lands that was read without it |
| `DenyList.PushCanBeLost` | cmd/probectl-control/builders.go:1056-1075 | a push is undone by an older snapshot in flight, and restored by the next load |
| `DenyList.RevocationFeed.Run` | cmd/probectl-bmp-listener/revocations.go:80-97 | over any ticks the list is the last complete snapshot, or the one it had |
| `DenyList.RevocationFeed.Listen` | cmd/probectl-bmp-listener/revocations.go:68-97 | the listener binds if and only if the first snapshot is complete, and its list is then the last complete one |

## Left out

- Files, sockets, HTTP, TLS, websockets, logging, command lines and environment parsing.
- RIS Live, its limits and its backoff loop: guard checks around transport.
- The rest of builders.go, ee_attach.go, control_state.go, backup.go and the listeners: wiring around the two protocols.
- Python's `json`, `re`, `codecs` and `ipaddress`: `decode`, `parse` and `convert` are parameters, as are the recursion limit and the clock.  The decoder is assumed to refuse the empty text where the grammar is proved sound, as Python's does; printing a prefix and parsing it again is assumed to give its network where dumps and events are related.
- `_roa_from_dict` and `_parse_asn` field by field: the conversion of an entry is a parameter that may fail.
- A source that answers reads with text instead of bytes (it is encoded first), and blocking or failing reads.
- Severity, confidence, message, tenant, collector and peer fields of events.  A prefix read from a dump is its octets and length; its text is the parameter `text`.
- Running time other than that `value_end` looks at each character once, and Python object memory: the representation charge is modelled as the number the code computes, not as bytes of heap.
- VrpLoader.FromStream: the generator is drained before the entries are converted; both orders refuse the same inputs and return the same set.
- Pipeline.Analyzer.ProcessMrt: the dump is read before its routes are observed, and not route by route; reading and observing share no state.
- LaneEnsurer: topic creation is an outcome of a call; partitions, replication and the bus client are not modelled.
- DenyList.PersistedBeforeLoadStaysDenied: revocations are only ever added; expiry and serial normalisation are not part of this model, serials and ids are one kind of name, and one loader runs at a time as in the code.
- PathOrigin.PathMatchesRfc6811: an empty path, or one that ends in a confederation segment, stands for the speaker's own AS in RFC 6811; the analyzer is an observer without one, so such a path has no origin here.
- DenyList.AgentTransport: the environment of the start is given as what happens to each attempt; the length of the backoff is not modelled.
- DenyList.ServesOnlyAfterLoad: the deployment without an enrolment service, which serves with no list at all, is outside the protocol.
