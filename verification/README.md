# Viberayd, verified model

Viberayd is a daemon that fetches proxy share links, tests them in cycles and serves the working
ones as a subscription. This project models its algorithmic core in Dafny and proves what the code
is meant to guarantee. Check it with `dafny verify dfyconfig.toml`.

| part | files | main results |
|---|---|---|
| Caches | `LinkedList`, `LruTable`, `Caches`, `LruModel`, `LruTheory`, `CacheStore`, `DnsSchedules`, `ResultSchedules` | the map and the doubly linked list refine a recency-ordered sequence; a larger cache hits wherever a smaller one does; what each cache keeps under every interleaving, and a schedule where `ResultCache` loses exactness |
| Test cycle | `State`, `Limit`, `Ports`, `Workers`, `PortShortage`, `Publish`, `Cycle`, `CycleMeaning`, `LostResults`, `DaemonLoop`, `History`, `Fetcher`, `LongLines` | the next state and the bytes of the output file do not depend on map order, scheduling or arrival order; who is tested and what becomes of each entry, told from the network's answers alone; token and port protocol; invariants and conservation over all cycles; a second daemon fed from this one's endpoint files exactly the hashes that work here |
| Links | `Base64`, `Rfc4648`, `Detector`, `Schemes`, `Shadowsocks`, `VMess`, `Subscription` | the base64 code is RFC 4648 and accepts exactly its encodings up to spare bits, decoder agreement, round trips, bounded repair, serve-and-reparse |
| Pipeline | `Median`, `Pipeline` | the stability gate, its median, a budget that covers every path |
| URL list | `UrlFile` | three edits of a text file refine a list, over every history |
| Shared | `Bytes`, `Options`, `Sets`, `Sorting` | strings as bytes, stable sorting and its canonicity |

How the model is built:

- Classes stand for the objects the source updates in place: the list and both caches, the port
  manager, config entries and the state, the daemon, the URL file. Their methods are proved against
  functions on values, and the lemmas are about those functions.
- The outside world is a parameter: the clock, TCP and test outcomes per hash, which ports can be
  bound, the resolver, the link parsers, JSON, SHA-256, URL validation, the HTTP download. Each is a
  deterministic function of its input.
- What a specification function means is stated a second time without it, in terms of bytes, numbers
  and the answers of the network: who is ranked before whom, what a test result does to an entry,
  which URL is deleted, what a base64 character stands for.
- Map iteration is an arbitrary choice of the next key. Goroutines are state machines whose
  schedule is arbitrary: in `Workers.After`, `ResultSchedules.After` and `DnsSchedules.After` a
  schedule is any sequence of events, and `Workers.XrayTest` picks any worker that can step.
- The conditions of a test round are calm when nobody cancels it while there is something to test,
  and at every step enough ports can be bound for the workers that can be at work, which is the
  smaller of Parallel and the number of configurations (`Workers.Calm`).
- Base64 is RFC 4648, sections 3.2, 4 and 5, as Go's decoder reads it: CR and LF are skipped, the
  bits left over in a short last group are ignored.

Where the code and its documentation differ, the code is followed: the depth ladder is the one of
`internal/tester/pipeline.go:103-121`, not the table of the repository's own README. The format list
of `pkg/parser/ss.go:12-16` names a legacy form with host and port inside the base64 text; the code
turns it down for every text and every encoding (`Shadowsocks.LegacyRejected`). The comment at
`pkg/parser/ss.go:86` says that a missing port is tolerated; a link without one is turned down
(`Shadowsocks.PortMissing`, `Shadowsocks.BracketsWithoutPort`), and only an empty port text becomes
8388 (`Shadowsocks.DefaultPort`).

Properties that hold only under a condition, each with the exact condition and an input that shows
the failure:

- A URL is appended to the list exactly when the file's last line is blank (`UrlFile.PostAppendsIff`,
  failing input in `UrlFile.PostCanGlue`); every edit keeps the file empty or newline-terminated,
  which implies it.
- Map and list of a cache stay in step: always for `DNSCache` (`DnsSchedules.AlwaysExact`). For
  `ResultCache` exactly one section loses it, the end of a Get whose expired entry has been unlinked
  by somebody else while its key is filed again (`ResultSchedules.StepExactIff`, over schedules
  `ResultSchedules.ExactAllTheWayIff`, failing schedule in
  `ResultSchedules.ExactnessCanBeLost`).
- A candidate that this process never parsed is marked unreachable without a ping of its own exactly
  when some other candidate was parsed (`History.OrphansDemoted`, example in
  `History.OrphanIsDemoted`).
- In every arrival order of the survivors a smaller limit keeps a prefix of what a larger one keeps:
  exactly when the larger one still cuts, or the smaller cuts nothing either (`Limit.PrefixIff`,
  failing input in `Limit.PrefixCanBeLost`). Inclusion holds always (`Limit.LargerLimitKeepsMore`).
- All good lines of a payload are filed exactly when no line exceeds the scanner's buffer of 65536
  bytes, or there is no good line (`Fetcher.FilesAllIff`, failing payload in
  `LongLines.LongLineFilesNothing`): one such line, and nothing is filed at all.
- Whatever the schedule, every configuration of a test round has exactly one result: exactly when
  under every port binding that can occur the ports that cannot be bound leave room in the range for
  the smaller of Parallel and the number of configurations, and the round cannot be cancelled while
  it tests any (`PortShortage.OneResultEachIff`, for the numbers of a cycle
  `LostResults.NeverLosesIff`, failing input in `PortShortage.ShortageDrops`). For results that are
  lost `DaemonLoop.Daemon.RunCycle` says what the state is.

## Model

| member | source | states |
|---|---|---|
| LinkedList.List.Remove | internal/cache/result.go:104-107 | takes exactly the given element out of the ring; an element that is no longer linked leaves the list as it is |
| LinkedList.List.MoveToFront | internal/cache/result.go:72-75 | the element becomes the first and the others keep their order; nothing happens when it is not linked |
| LinkedList.List.PushFront | internal/cache/result.go:96 | a fresh element in front of the old ones, entry and element pointing at each other |
| LinkedList.List.Back | internal/cache/result.go:109-114 | the last element, none exactly when the list is empty |
| LruTable.Table.DelEntry | internal/cache/result.go:104-107 | map, ring and entries stay in step and the item sequence loses exactly that key |
| LruTable.Table.Touch | internal/cache/result.go:72-75 | the entry's item moves to the front of the recency sequence |
| LruTable.Table.EvictOldest | internal/cache/result.go:109-114 | the least recent item goes, nothing else |
| LruTable.Table.Put | internal/cache/result.go:80-102 | the linked structure after Put holds what the plain recency list holds after LruModel.Put, eviction included |
| LruTable.Table.EntryCount | internal/cache/result.go:117-121 | the map has as many keys as the list has elements |
| LruTable.PutCases | internal/cache/result.go:80-102 | the two branches of Put and its eviction are one operation on the sequence |
| Caches.ResultCache.constructor | internal/cache/result.go:33-46 | empty, with the default size and time to live for arguments that are not positive |
| Caches.ResultCache.Get | internal/cache/result.go:55-77 | refines the sequence operation: an entry older than the time to live is dropped and missed, a live one is returned and moved to the front; exactly one of hits and misses grows by one |
| Caches.ResultCache.Put | internal/cache/result.go:80-102 | refines the sequence operation, keeps the size within the maximum and the counters as they are |
| Caches.ResultCache.Stats | internal/cache/result.go:117-121 | the size reported is the number of items held |
| Caches.DnsCache.constructor | internal/cache/dns.go:27-40 | empty, with the defaults 1000 and five minutes |
| Caches.DnsCache.Probe | internal/cache/dns.go:43-56 | refines the sequence operation; here an entry of age exactly the time to live has expired |
| Caches.DnsCache.Set | internal/cache/dns.go:66-88 | refines the sequence Put |
| Caches.DnsCache.Lookup | internal/cache/dns.go:43-64 | a hit answers from the cache; otherwise the resolver's answer is returned and, when there is one, stored; a failed lookup stores nothing |
| LruModel.GetAt | internal/cache/result.go:55-77 | a held key hits up to an age of the time to live and comes to the front, and is dropped beyond it; for the DNS cache that age itself is too old |
| LruModel.GetAbsent | internal/cache/result.go:55-62 | a key that is not held misses and changes nothing |
| LruModel.PutAt | internal/cache/result.go:80-102 | a held key is refreshed in front, a new one goes there, at full size in exchange for the last item |
| LruModel.StepKeeps | internal/cache/result.go:55-114 | keys stay distinct and the size within the maximum |
| LruModel.RunKeeps | internal/cache/result.go:55-114 | so they do over every trace |
| LruTheory.RecencyOrder | internal/cache/result.go:55-114 | after any trace from empty the items are in strictly descending order of their last touch |
| LruTheory.RunIncluded | internal/cache/result.go:55-114 | after the same trace the smaller cache's list is a subsequence of the larger one's, items equal in value and time stamp |
| LruTheory.LargerHits | internal/cache/result.go:55-114 | wherever the smaller cache hits the larger hits, with the same value |
| LruTheory.PutThenGet | internal/cache/result.go:55-114 | after a Put a Get within the time to live returns its value, if the key is not put again and fewer than the maximum other keys are touched in between |
| DnsSchedules.StepRefines | internal/cache/dns.go:43-93 | either locked section of Lookup keeps map and list exact and does to the sequence what the plain operation does |
| DnsSchedules.AlwaysExact | internal/cache/dns.go:43-93 | in every schedule of the two sections the DNS cache is exact, within capacity and equal to the plain list after the same sections |
| DnsSchedules.Answers | internal/cache/dns.go:43-64 | after any schedule the next lookup answers what the plain recency list answers, a hit with its value or nothing |
| ResultSchedules.StepSafe | internal/cache/result.go:55-106 | every section of a split Get, and every Put, keeps the loose invariant |
| ResultSchedules.ResultCacheSafe | internal/cache/result.go:55-106 | in every schedule each map entry is linked under its own key, the map is no larger than the list and the list than the maximum, hits plus misses plus uncounted Gets in flight are the Gets begun, and a Get returns only what was put under its key |
| CacheStore.MapFitsList | internal/cache/result.go:80-114 | the loose invariant alone bounds the map by the list |
| CacheStore.DeleteExactIff | internal/cache/result.go:104-107 | exactly when deleting an entry held across an unlock keeps map and list in step |
| ResultSchedules.StepExactIff | internal/cache/result.go:55-106 | exactly one section of the protocol can put map and list out of step, and when it does |
| ResultSchedules.ExactAllTheWayIff | internal/cache/result.go:55-106 | a schedule keeps map and list in step after each of its sections exactly when that section does not occur in it |
| ResultSchedules.ExactnessCanBeLost | internal/cache/result.go:56-70 | a schedule of two Gets and a Put that leaves a linked entry no key leads to |
| ResultSchedules.UndisturbedGet | internal/cache/result.go:55-77 | a Get whose sections run in a row is the sequential Get, answer included |
| CacheStore.PutItems | internal/cache/result.go:80-102 | on an exact store the id-based Put is the sequence Put |
| Ports.CyclicOrder | internal/concurrency/port.go:33-62 | going once round from the cursor meets every port of the range exactly once |
| Ports.AllocateCorrect | internal/concurrency/port.go:33-62 | Allocate returns a port that is neither allocated nor unbindable and fails exactly when the range has none; a failure changes nothing |
| Ports.NearestPort | internal/concurrency/port.go:33-62 | in modular arithmetic: the nearest usable port from the cursor on, and the cursor is behind it afterwards |
| Ports.PortManager.constructor | internal/concurrency/port.go:22-29 | nothing allocated, cursor at the base |
| Ports.PortManager.Allocate | internal/concurrency/port.go:33-62 | probes the range in cyclic order from the old cursor, each port at most once, stops at the first free one, and ends within one round |
| Ports.PortManager.Release | internal/concurrency/port.go:65-69 | exactly that port becomes free |
| Ports.PortManager.Reserve | internal/concurrency/port.go:72-83 | fails exactly out of range or on an allocated port, without a change |
| Ports.RoomToAllocate | internal/concurrency/port.go:33-62 | allocated and blocked ports that do not fill the range leave one to hand out |
| Workers.StepSafe | internal/daemon/tester.go:117-154 | every step of every worker keeps: tokens held are exactly the holders and within Parallel, the allocated ports are exactly those held, no port twice, arrivals are the workers that produced |
| Workers.AfterSafe | internal/daemon/tester.go:93-158 | so the invariant holds after any schedule, cancellation included |
| Workers.NothingHeld | internal/daemon/tester.go:156-157 | when all goroutines have returned no token and no port is held |
| Workers.PortsBelowTokens | internal/daemon/tester.go:119-131 | while a worker has a token but no port fewer ports are allocated than tokens held, since ports go back before tokens |
| Workers.RunDropsNone | internal/daemon/tester.go:127-131 | with room for the workers that can be at work at every allocation, and no cancellation, no worker is dropped |
| PortShortage.NoneDroppedIff | internal/daemon/tester.go:117-131 | no schedule ever drops a worker exactly when, under every binding that can occur, the unbindable ports and the smaller of Parallel and the number of configurations fit into the range, and nobody can cancel while there is a configuration |
| PortShortage.OneResultEachIff | internal/daemon/tester.go:93-158 | every finished schedule has exactly one result per configuration exactly under that condition |
| PortShortage.ShortageDrops | internal/daemon/tester.go:127-131 | one configuration and no bindable port: its worker is dropped |
| Workers.OneResultEach | internal/daemon/tester.go:149-157 | then the arrivals are a permutation of the workers |
| Workers.WaitReturns | internal/daemon/tester.go:156-157 | every finished undisturbed schedule: nothing held, one result per configuration |
| Workers.SomebodyCanStep | internal/daemon/tester.go:117-154 | the semaphore never deadlocks |
| Workers.StepAdvances | internal/daemon/tester.go:117-154 | every such step brings the pool closer to its end |
| Workers.ResultsArrived | internal/daemon/tester.go:149-157 | in a finished pool every result is one worker's own, and all are there when nobody was dropped |
| Workers.XrayTest | internal/daemon/tester.go:93-158 | under an arbitrary scheduler, with any ports blocked and cancelled at any time, it ends with at most one result per configuration, its own; exactly one, in an uncontrolled order, under calm conditions |
| Limit.RankOrders | internal/daemon/limit.go:28-40 | the three-level comparator is a total preorder |
| Limit.AheadSpelled | internal/daemon/limit.go:28-40 | exactly when one survivor is ranked before another: measured against unmeasured, then the lower latency, then the hash that comes first byte by byte |
| Limit.LimitSurvivors | internal/daemon/limit.go:23-58 | in place: an effective cap sorts the slice by the ranking of AheadSpelled and keeps its head, any other leaves it alone |
| Limit.KeptBeforeDropped | internal/daemon/limit.go:28-42 | exactly limit are kept, kept and dropped make up the input, and nobody dropped is ahead of anybody kept |
| Limit.KeptFaster | internal/daemon/limit.go:28-42 | whoever is kept is measured when somebody dropped is, no slower than anybody dropped, and has the lesser hash when nothing else decides |
| Limit.FasterFirst | internal/daemon/limit.go:28-42 | the same between any two of the kept, the earlier before the later |
| Limit.OneOfTwo | internal/daemon/limit.go:23-42 | of two survivors with any latencies a limit of one keeps the faster, whether its hash is the lesser or the greater one and whichever came first |
| Limit.KeptForgetsOrder | internal/daemon/limit.go:23-58 | for distinct hashes what is kept does not depend on the input order, and nor does its order under an effective cap |
| Limit.LargerLimitKeepsMore | internal/daemon/limit.go:23-58 | a smaller limit always keeps a part of what a larger one keeps |
| Limit.PrefixIff | internal/daemon/limit.go:23-58 | it keeps a prefix in every arrival order exactly when the larger limit still cuts or the smaller cuts nothing either |
| Limit.PrefixCanBeLost | internal/daemon/limit.go:23-58 | two survivors for which a limit of one does not keep a prefix of what a limit of two keeps |
| Limit.KeptAreTheBest | internal/daemon/limit.go:23-58 | without mentioning sorting: a survivor is kept exactly when fewer than limit others are ahead of it |
| State.ConfigEntry.constructor | internal/daemon/fetcher.go:82-90 | a new entry is unknown, with no tests behind it |
| State.ConfigEntry.Apply | internal/daemon/state.go:129-155 | the whole entry after one result, told from the outcome: working exactly when the test passed within the ceiling, dated and counted with its latency; a failure otherwise, under which an unreachable entry stays unreachable and a positive latency is kept |
| State.ConfigEntry.Lose | internal/daemon/loop.go:159-163 | demotion changes state and test time once, and nothing on an entry that is unreachable already |
| State.MergeEachIsMerge | internal/daemon/fetcher.go:65-92 | merging in any map order gives the same state: old entries as they were, the others new |
| State.EntryStore.MergeIntoState | internal/daemon/fetcher.go:65-92 | the heap state after it is that merge |
| State.EntryStore.SelectCandidates | internal/daemon/state.go:92-105 | lists, without repetition and in any order, exactly the entries that do not work or whose interval is over under keepSuccessful |
| State.EntryStore.ApplyResults | internal/daemon/state.go:117-157 | the heap state after it is the results applied one by one to the values; ResultRecorded says what that does to an entry |
| State.ApplyAt | internal/daemon/state.go:117-157 | with one result per hash each entry is changed by its own result and nothing else |
| State.ResultRecorded | internal/daemon/state.go:117-157 | wherever in the round its one result comes, an entry is afterwards what that outcome and the ceiling make of it |
| State.ApplyPermuted | internal/daemon/state.go:117-157 | the order of the results does not matter |
| State.TotalGrows | internal/daemon/state.go:117-157 | success and fail counts together grow by exactly the number of applied results, repeated hashes included |
| Publish.LineShownOrders | internal/daemon/loop.go:255-260 | latency then link is a total order on lines that tells any two different lines apart |
| Bytes.TextLeqIsBefore | internal/daemon/loop.go:255-260 | the string order is dictionary order: a proper prefix first, else the smaller byte at the first difference |
| Publish.AnyWalkPublishes | internal/daemon/loop.go:245-260 | whatever order the map walk takes, sorting gives the same lines, also when entries tie on latency and link |
| Publish.PublishedLinesShape | internal/daemon/loop.go:245-267 | the file lists every working entry once and nothing else, sorted by the line order |
| Publish.FastestFirst | internal/daemon/loop.go:255-260 | of any two lines the earlier has the lower latency, or the same latency and the link that comes first in the dictionary |
| Publish.FileInFull | internal/daemon/loop.go:245-267 | the working hashes, listed by latency and then link, give the file: the raw link of each and a newline |
| Publish.OutputText | internal/daemon/loop.go:239-267 | the text built by collecting, sorting in place and appending is that one text, whatever the map walk |
| Publish.PublishedRaws | internal/daemon/loop.go:262-267 | the links in the file are those of the working entries |
| Publish.EndpointRoundTrip | internal/daemon/http.go:92-100 | parsing the plain file and parsing the base64 body both give the working links in published order, filed under exactly the working hashes |
| DaemonLoop.TCPPing | internal/daemon/tester.go:41-76 | one outcome per target, whatever order the dials finish in |
| DaemonLoop.TestSurvivors | internal/daemon/loop.go:178-195 | each result is a kept survivor's own, none twice; under calm conditions all of them are there |
| Cycle.AnyOrder | internal/daemon/loop.go:121-198 | confluence: any walk over the candidates and any arrival order of the results leave the state that is described entry by entry, entries whose result was lost staying as they were |
| Cycle.KeptCount | internal/daemon/loop.go:156-179 | whatever the walk over the candidates, as many survivors are handed to the workers as the state and the pings determine |
| Cycle.CompleteLosesNothing | internal/daemon/loop.go:178-197 | when the results of all kept survivors arrived none is lost |
| Cycle.SchedulesAgree | internal/daemon/loop.go:121-198 | two schedules of one cycle that are complete, or lose the same results, agree on the state and on the bytes of the file |
| CycleMeaning.WhoIsTested | internal/daemon/loop.go:121-179 | a hash goes through the real test exactly when it may be tested, is parsed, answers its ping, and fewer than the cap are faster or as fast with a lesser hash |
| CycleMeaning.TestedEntry | internal/daemon/state.go:129-155 | an entry with a result works exactly when the report is a success within the ceiling, for the end-to-end latency or else the total one; dates, counts and latency of both outcomes |
| CycleMeaning.UntestedEntry | internal/daemon/loop.go:156-170 | an entry without a result stays as it is, unless it may be tested and did not answer in a cycle with something to test: then it is unreachable |
| CycleMeaning.FirstFetchCounts | internal/daemon/loop.go:222-229 | every fetched hash is known and filed afterwards, by the first fetch that brought it unless it was there before; a new entry is made of that fetch alone |
| CycleMeaning.NothingBrought | internal/daemon/loop.go:222-229 | a hash that no fetch brings is neither added nor changed |
| LostResults.NeverLosesIff | internal/daemon/loop.go:178-195 | no finished test round of a cycle loses a result exactly when ports are ample for the number of configurations the cycle tests and it cannot be cancelled while it tests any |
| LostResults.AmpleInNumbers | internal/daemon/tester.go:103-131 | ample in numbers: of the hundred ports from the base, under every binding that can occur, as many can be bound as there are configurations, or as Parallel when that is fewer |
| DaemonLoop.Daemon.MergeWithParsed | internal/daemon/loop.go:222-229 | known configurations stay, new ones are added, in any map order |
| DaemonLoop.Daemon.Sift | internal/daemon/loop.go:156-170 | candidates without an answer are demoted, the reachable parsed ones survive in candidate order |
| DaemonLoop.Daemon.SelectAndTest | internal/daemon/loop.go:120-197 | selection, ping, cap, tests and results together are the entry-by-entry description; both early exits included |
| DaemonLoop.Daemon.RunCycle | internal/daemon/loop.go:94-220 | state, known configurations and file after a cycle are functions of the inputs and of which tests brought no result; under calm conditions that is none |
| History.EntryStep | internal/daemon/state.go:117-157 | one cycle on one entry: how its state may change, unreachable never becomes failed, and one test more exactly when it was tested |
| History.OrphansDemoted | internal/daemon/loop.go:129-165 | exactly when a candidate without a parsed configuration is demoted |
| History.OrphanIsDemoted | internal/daemon/loop.go:129-165 | two candidates, one parsed: the other ends up unreachable whatever a ping of it would have said |
| History.WorkingLeftAlone | internal/daemon/state.go:92-105 | a working entry that is not due is unchanged by the cycle |
| History.RunEvolves | internal/daemon/loop.go:94-220 | over any run no entry is removed, no identity field changes, counts never fall, nothing becomes unknown again, and unreachable turns into failed or working only through a success |
| History.RunSound | internal/daemon/state.go:129-155 | under a fixed ceiling, in every run a working entry has succeeded, last at its last test, within the ceiling |
| History.RunKeepsWorking | internal/daemon/state.go:92-105 | without keepSuccessful what works is never touched again, so the working set only grows |
| History.RunWaitsInterval | internal/daemon/state.go:99-102 | whatever the other settings, a working entry is not touched before its interval is over |
| History.RunTotals | internal/daemon/state.go:117-157 | over any run the success and fail counts together grow by exactly the tests made |
| History.TestedCount | internal/daemon/limit.go:23-58 | a cycle tests as many targets as answered, or as many as the limit when that is smaller |
| History.PublishedWithinCeiling | internal/daemon/loop.go:239-267 | no published line is over the ceiling |
| Fetcher.FetchAndParse | internal/daemon/fetcher.go:36-63 | the loop files what Fetched says, whose contents FirstIsFiled and FilesAllIff pin down; a failed download or parse files nothing |
| Fetcher.FirstIsFiled | internal/daemon/fetcher.go:52-57 | under each hash of the payload the first configuration with that hash is filed |
| Fetcher.FilesAllIff | internal/daemon/fetcher.go:46-57 | exactly when all good lines of a payload, and all good lines that were read, are filed |
| LongLines.LongLineFilesNothing | internal/daemon/fetcher.go:46-50 | a Shadowsocks link that the source parses, followed by a line of 65536 bytes: nothing is filed |
| Fetcher.FetchedProper | internal/daemon/fetcher.go:52-57 | whatever a subscription sends, each filed configuration has the hash of its link and a link that can be served and read again |
| Fetcher.SubscribersAgree | internal/daemon/fetcher.go:36-63 | after any run of cycles from scratch a daemon that fetches this one's endpoint files exactly the hashes that work here |
| Base64.DecodeEncode | pkg/parser/detector.go:112-124 | each decoder undoes its encoding on all bytes |
| Base64.DecodersAgree | pkg/parser/detector.go:112-124 | any two of the four decoders that accept a string return the same bytes |
| Base64.NothingAfterPadding | pkg/parser/detector.go:112-124 | a padded string one decoder accepts is rejected by all four once anything is appended |
| Rfc4648.AlphabetIs | pkg/parser/detector.go:112-124 | the characters for 0 to 63 are those of tables 1 and 2 of RFC 4648 |
| Rfc4648.WholeGroup | pkg/parser/detector.go:112-124 | three bytes and the four characters for them are the same 24 bits |
| Rfc4648.LastGroup | pkg/parser/detector.go:112-124 | one or two bytes left are filled up with zero bits, and with equals signs where the encoding is padded |
| Rfc4648.DecodeIff | pkg/parser/detector.go:112-124 | a text decodes to some bytes exactly when, line breaks aside, it is their encoding up to the bits left over in a short last group |
| Rfc4648.BreaksIgnored | pkg/parser/detector.go:112-124 | a CR or LF anywhere makes no difference |
| Rfc4648.OnlyAlphabet | pkg/parser/detector.go:112-124 | any other character outside the alphabet makes the text undecodable |
| Rfc4648.ManDecodes | pkg/parser/detector.go:112-124 | an example: "TWFu" is "Man" |
| Detector.DetectedShowsScheme | pkg/parser/detector.go:13-35 | text with a detected protocol contains "://" and is no comment |
| Schemes.DetectedIff | pkg/parser/detector.go:13-35 | each protocol is detected exactly for its own schemes, written out, so the order of the tests does not matter |
| Detector.FragmentSplits | pkg/parser/detector.go:38-49 | the fragment is what follows the last '#' |
| Detector.UnescapeEscape | pkg/parser/detector.go:38-49 | unescaping a name undoes escaping, for every name |
| Schemes.UnescapeReads | pkg/parser/detector.go:38-49 | a percent sign and two hexadecimal digits of either case are one byte |
| Schemes.OtherReads | pkg/parser/detector.go:38-49 | a plus is a space, any other byte itself |
| Schemes.BadEscape | pkg/parser/detector.go:38-49 | a percent sign without two digits behind it leaves the whole name verbatim |
| Detector.LooksLikeBase64 | pkg/parser/detector.go:88-105 | true exactly for text of a possible length over both alphabets, with padding in the last two places only |
| Detector.EncodingPlausible | pkg/parser/detector.go:88-105 | every non-empty encoding in any of the four forms passes the heuristic |
| Rfc4648.DecodablePlausible | pkg/parser/detector.go:88-105 | the heuristic turns nothing down that one of the decoders accepts, line breaks apart |
| Detector.DecodeBase64 | pkg/parser/detector.go:112-124 | the loop returns the answer of the first decoder that accepts |
| Detector.TrialOrderImmaterial | pkg/parser/detector.go:112-124 | any order of the four trials gives the same answer |
| Detector.DecodeAnyEncode | pkg/parser/detector.go:112-124 | the trial decoder undoes all four encodings on all bytes |
| Detector.DecodeBase64URLEncode | pkg/parser/detector.go:127-138 | filling up the padding makes the padded and the raw url-safe form decode |
| Detector.PublicKeyLength | pkg/parser/validator.go:82-100 | a key is accepted in any of the four encodings exactly when it has 32 bytes |
| Shadowsocks.AtoiItoa | pkg/parser/ss.go:44-60 | a printed port is read back |
| Shadowsocks.DigitByDigit | pkg/parser/ss.go:46-49 | decimal notation, digit by digit, up to the largest 64-bit integer |
| Shadowsocks.PortInFull | pkg/parser/ss.go:46-71 | a link is accepted exactly with a separator and a port from 1 to 65535, where 0 and no number mean 8388; method and password are split at the first colon |
| Shadowsocks.HostPortRoundTrip | pkg/parser/ss.go:87-101 | host and port are split as printed, bracketed IPv6 literals included |
| Shadowsocks.PortMissing | pkg/parser/ss.go:86-101 | a server without a colon is turned down |
| Shadowsocks.DefaultPort | pkg/parser/ss.go:46-49 | a server with a colon and nothing behind it gets port 8388 |
| Shadowsocks.BracketsWithoutPort | pkg/parser/ss.go:88-96 | an IPv6 literal without a port is turned down, whatever colons it has |
| Shadowsocks.EncodedRoundTrip | pkg/parser/ss.go:17-72 | a configuration printed with its credential in any of the four encodings is parsed back, whatever bytes the password has |
| Shadowsocks.PlainNeverBase64 | pkg/parser/ss.go:30-42 | plain method:password is never taken for base64 |
| Shadowsocks.PlainRoundTrip | pkg/parser/ss.go:17-72 | a configuration printed with plain credentials is parsed back |
| Shadowsocks.NamesRoundTrip | pkg/parser/ss.go:17-72 | a name survives verbatim without '#', '%' and '+', and escaped always |
| Shadowsocks.LegacyRejected | pkg/parser/ss.go:15-26 | the documented legacy form, with host and port inside the base64 text, is never accepted |
| VMess.DecodeVMessPayload | pkg/parser/vmess.go:120-144 | the bounded loop computes the first acceptable repair |
| VMess.LongestRepair | pkg/parser/vmess.go:120-144 | when the strict decode is not acceptable the answer is the longest proper prefix, at most 16 bytes shorter, that decodes with server and id, else the strict outcome |
| VMess.FirstGoodCut | pkg/parser/vmess.go:120-144 | the same from the payload alone: an object with any of the three fields stands; else the least cut of 1 to 16 bytes that leaves server and id; else the strict outcome |
| VMess.GluedFails | pkg/parser/vmess.go:114-119 | a padded payload with a word glued to it does not decode |
| VMess.GluedRepaired | pkg/parser/vmess.go:114-144 | repairing a good padded payload glued to 1 to 16 bytes yields exactly the decode of the payload |
| Subscription.Parse | pkg/parser/parser.go:19-69 | the payload parser with its line loop, against the recursive reading of the lines |
| Subscription.TooLongIff | pkg/parser/parser.go:46-63 | parsing breaks off exactly when the payload has a line of 65536 bytes or more; otherwise all its lines are read |
| Subscription.LinesRead | pkg/parser/parser.go:47-59 | line by line: a link that parses is added, any other line counts as a failure, blank lines and comments as nothing |
| Subscription.OutcomeInFull | pkg/parser/parser.go:19-69 | a payload without a line that is too long fails exactly when it is blank or has lines to read and no good one; otherwise its good lines are the result |
| Subscription.WrappedBody | pkg/parser/parser.go:29-40 | a base64 body with white space anywhere in it stands for the text it encodes |
| Subscription.StripWrapAt | pkg/parser/parser.go:32 | exactly spaces, tabs and line breaks are taken out |
| Subscription.ParsedIsClean | pkg/parser/parser.go:19-69 | every configuration parsed out of any payload fits on one line and its raw text parses to itself |
| Subscription.ServeParseRoundTrip | internal/daemon/http.go:92-100 | both the file and its base64 body parse back to the published configurations, in order |
| Subscription.SameKeys | pkg/parser/parser.go:19-69 | so the hashes are the same |
| Median.MedianDuration | internal/tester/pipeline.go:260-272 | the median of the samples, which are left untouched |
| Median.MedianByRank | internal/tester/pipeline.go:260-272 | by counting: of none 0, of an odd number the middle order statistic, of an even number half the sum of the middle two, truncated |
| Median.MedianOfTwo | internal/tester/pipeline.go:260-272 | of two samples their average |
| Median.MedianPermuted | internal/tester/pipeline.go:260-272 | independent of the sample order |
| Median.MedianMonotone | internal/tester/pipeline.go:260-272 | slowing any sample never lowers the median |
| Median.MedianMajority | internal/tester/pipeline.go:260-272 | if more than half of the samples lie in an interval so does the median, for odd and even counts |
| Pipeline.StageLimit | internal/tester/pipeline.go:88-99 | the longest of the four timeouts, thirty seconds when none is positive |
| Pipeline.Budget | internal/tester/pipeline.go:81-100 | the number of units times that limit |
| Pipeline.RunStabilityProbes | internal/tester/pipeline.go:241-254 | stops at the first verification that fails; otherwise returns the latencies of all later passes |
| Pipeline.FirstVerification | internal/tester/pipeline.go:169-210 | the inlined first verification passes exactly when verifyEndToEnd would |
| Pipeline.Run | internal/tester/pipeline.go:123-235 | succeeds exactly when the cheap stages pass and, above quick depth, max(1, probes) verifications in a row pass; then the response is the median of precisely those latencies; wherever it ends, stages that keep their timeouts cost at most the budget, and a successful TLS run uses exactly that many units |
| Pipeline.GateInFull | internal/tester/pipeline.go:123-235 | the success condition of Run from the outcomes, the depth, the number of domains and the number of probes alone |
| UrlFile.LoadURLs | internal/daemon/fetcher.go:19-34 | the loop keeps the trimmed lines that are neither blank nor comments |
| UrlFile.KeptIff | internal/daemon/fetcher.go:19-34 | what is kept is a trimmed line that is neither blank nor a comment, and all of those are |
| Bytes.TrimDrops | internal/daemon/fetcher.go:27 | ASCII white space at the ends makes no difference |
| Bytes.SpaceCodePoints | internal/daemon/fetcher.go:27 | white space beyond ASCII is the Unicode code points of that kind |
| UrlFile.Reload | internal/daemon/http.go:183-225 | a list written out one a line loads back as it was |
| UrlFile.PostAppendsIff | internal/daemon/http.go:144-176 | POST appends its URL to the list exactly when the file's last line is blank |
| UrlFile.PostCanGlue | internal/daemon/http.go:144-176 | a valid URL posted to a file without a final newline: the list should get one more URL and gets a glued line instead |
| UrlFile.EditRefines | internal/daemon/http.go:144-266 | on a file that is empty or newline-terminated each edit keeps it so and does to its list what EditList says, which the next three rows spell out |
| UrlFile.PostAdds | internal/daemon/http.go:144-176 | on such a file a valid URL becomes the new last one and all others stay where they are; any other body changes nothing |
| UrlFile.PutReplaces | internal/daemon/http.go:183-225 | lines that are each blank, a comment or valid become the list; one other line among them and nothing changes |
| UrlFile.DeleteRemoves | internal/daemon/http.go:227-266 | the URL at that position, counted from one, is gone and all others are in their order; any other position changes nothing |
| UrlFile.HistoryRefines | internal/daemon/http.go:144-266 | so it is over every history |
| UrlFile.UrlStore.AddURL | internal/daemon/http.go:144-176 | file and status code, the rejected cases leaving the file alone |
| UrlFile.UrlStore.ReplaceURLs | internal/daemon/http.go:183-225 | all valid: the file holds exactly the kept lines; one invalid: nothing changes |
| UrlFile.UrlStore.DeleteURL | internal/daemon/http.go:227-266 | file and status code for every id, missing file included; the file is that of DeleteRemoves |
| Sorting.SortByCanonical | internal/daemon/loop.go:253-260 | sorting forgets the arrival order when the order separates the elements |
| Sorting.StableSort | internal/daemon/limit.go:28 | in-place stable insertion sort: what sort.SliceStable leaves in the slice |
| Sorting.SortKeepsTies | internal/daemon/limit.go:28 | elements that tie stay in their order |

## Left out

- Network dials, TLS, SOCKS, the xray processes and the domain check: replaced by an outcome and a duration per stage. The Reality, TUIC and Hysteria2 protocol probes dial twice inside one stage; the budget result charges the stage, and a domain pass is charged to the xray timeout.
- The link parsers other than Shadowsocks, and the field copying of parseVMess: field copying over `net/url`; `Subscription` takes them as one deterministic function.
- JSON, `net/url`, SHA-256, CSV, regular expressions: parameters. Only `RejectsGarbage` in `UrlFile` assumes something, that an accepted URL starts with its scheme and has no newline.
- LoadState and SaveState: serialisation of the state file. Status strings other than the four known ones, which such a file could contain, are not modelled.
- The latency sidecar file, metrics, logging, pagination and config clamping: formatting or easy members.
- Cancelled cycles: cancellation during the real tests is part of `Workers`, `Cycle` and `DaemonLoop`, as workers that give up and results that are lost; a test that is running when the cycle is cancelled still appends a result, a failed one as a rule, which the arbitrary `report` of `Cycle.World` covers, and its entry becomes failed; a cycle that is cancelled before that, during the fetches or the pings, is not modelled.
- HTTP readers of the state while a cycle writes it: the cycle is the only owner.
- DaemonLoop.TCPPing: does not model the semaphore of 200 dials, which has no effect on the result.
- DaemonLoop.Daemon.RunCycle: assumes that the output file is configured and can be written, and that Parallel is at least 1, which `internal/daemon/config.go:207-210` sees to.
- DaemonLoop.Daemon.MergeWithParsed: the reading of host and port off a link is part of the fetched configuration, and the time of first sight is an input per hash.
- LinkedList.List.PushFront: sets the entry's pointer to its element, which the source does one statement later.
- LruTable.Table.Put: the map and list code that both caches repeat is modelled once.
- Limit.LimitSurvivors: returns the length of the kept prefix; that the returned slice shares the array with the survivors is not used anywhere.
- ResultSchedules.Step: the read of an entry's time stamp, and of the result after the last unlock, are steps of their own without tearing; entries are numbered values instead of heap objects.
- Publish.OutputText: entries are copied into the sorted slice, where the source sorts pointers.
- Pipeline.Run: durations are unbounded integers, so the overflow of a sum of timeouts is not modelled.
- `internal/concurrency/pool.go` and `xray_pool.go`, `internal/orchestrator`, `internal/output`, `internal/tester/resilience.go`: not used by the cycle, or without a clean property to state.
