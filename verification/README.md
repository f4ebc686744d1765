# Verification of the Dragonfly request clients

Dafny models of the logic behind the Dragonfly request clients, and proofs of what that
logic promises. `dafny verify dfyconfig.toml` checks everything.

| file | models |
|---|---|
| `HashRing.dfy`, `SeedPeers.dfy`, `Nearest.dfy` | the consistent hash ring, the clockwise walk, and the replicas of a task as a function of hosts, ring and position |
| `Selector.dfy` | the seed peer selector as a class: update, the windowed selection, select all, ejections |
| `ConcurrentUpdates.dfy`, `ConcurrentAnswers.dfy` | the multi-step operations of the selector, interleaved |
| `Disruption.dfy` | what a change of membership does to the replicas of a task |
| `Ejections.dfy` | the failure counter of a proxy against its whole history |
| `Results.dfy`, `Sequences.dfy` | optional values and results, sequences without repetition |
| `Proxy.dfy` | preheat, lookup, the validation of given seed peers, and the agreement of preheats with downloads and deletes |
| `Bytes.dfy`, `FormUrlencoded.dfy`, `KeyOrder.dfy`, `CanonicalQuery.dfy`, `CanonicalUrl.dfy` | the canonical url of a task id, over byte strings |
| `Digests.dfy`, `RegistryUrls.dfy`, `TaskIds.dfy` | digests in registry urls: the greedy pattern, the builders, the choice of the task id |
| `Retry.dfy`, `BufferedGet.dfy`, `AttemptContexts.dfy` | retries over shuffled endpoints, the buffer threaded through them, and the contexts of the Go client |
| `PoolRuns.dfy`, `Pool.dfy` | the client pool over whole runs, and as a class with shared entries |

What surrounds this logic is a parameter: the hash of a name or a task, the outcome of every
request and download, the clock, the lossy decoding of UTF-8 (any idempotent function), the
parsing of an address, SHA-256, and two libraries that are taken by their contracts:

- The ring library (`Placed`, `Walks` in `HashRing.dfy`): distinct positions for the hosts
  in use, at least one virtual node per host, positions that depend on the name alone, and a
  walk that answers at least as many nodes as asked for unless the ring has fewer.
- The url library (`ReadsBackAt` in `CanonicalUrl.dfy`, asked for at the texts a law is about
  and at no other): whatever it changes in reading the text (the case of hosts, default ports,
  dot segments, backslashes), it reads its own text, with an escaped query in place of the
  query, as it is, and the same text without the path as a url with the path that stands for
  none. Two kinds of text are known not to be read back and are the ones the laws leave out: a
  url without an authority whose path starts with two slashes, and one whose path is opaque
  and ends in spaces.

Times are integers. Strings inside `TaskIds.dfy` and its two companions are sequences of
characters that stand for bytes. Error messages keep their fixed part only, and the error of
a digest that does not parse is shown as the id generator raises it, `InvalidArgument` with
the url; `task_id` hands it on as an internal error, "failed to generate task id"
(client-request/rust/src/lib.rs:1928).

## Results that need a condition

Each of these is something the code, its documentation or its tests promise, or the name of a
canonical form does, and the code does not always keep, with the exact condition and an input
for which it fails.

- The url of a manifest does not always give its digest as task id. `task_id` asks first
  whether the url reads as a blob url, so for a repository with a path component named
  `blobs` after its first (`tools/blobs/reader`) the manifest url counts as a blob url with
  an invalid digest and there is no task id. `ManifestReadsAsBlob` and `ManifestTaskId` show
  that, the query aside, this is exactly the failing case; `BlobsRepositoryHasNoManifestTask`
  is the input. The comment on `task_id` promises the manifest digest without that exception.
- The url of a blob or a manifest does not give its digest as task id when its query has a
  usable marker of its own: the text after the last one is taken instead (`BlobTaskId`,
  `ManifestTaskId`). For `?ns=/blobs/none` there is no task id (`BlobQueryHidesDigest`).
- Canonicalizing a url does not always change the query alone. The test for an empty path
  looks for a slash between "://" and the query, and the url library also reads backslashes,
  or a single slash after the scheme, as the start of a path; such a path is dropped.
  `OnlyTheQueryChanges` has the exact condition. `BackslashPathIsLost` shows that all paths of
  one segment written with a backslash, as in `https://h\p`, get one canonical url, so two
  downloads share it; `BackslashPathsMeet` has it for a library that reads them so.
- A canonical url is not always its own canonical form: `FilterIsIdempotent` has the exact
  condition on the url as given, which every url with an authority meets
  (`AuthorityIsIdempotent`); `PathIsLostLater` and `OpaquePathIsLostLater` are urls without
  one that fail, `m:a?:///;#://` among them.
- A selection does not always end. A request for a multiple of 2^32 replicas is valid and
  is cast to zero; the loop then waits for zero seed peers and has passed that number once it
  finds one. `WalkEndsExactly` has the exact condition; with a ring library that answers one
  node more than asked for, a walk over two hosts never ends (`ZeroReplicasNeverEnd`).
- That downloads stay on the seed peers a preheat wrote to is called the core invariant of
  the replicas (client-request/go/preheat_test.go:290-292). After a preheat of all seed peers
  they do exactly when every replica of the task was healthy at the time
  (`AllSeedPeersCoverExactlyHealthyReplicas`); `AllSeedPeersMissRecoveredReplica` is a
  membership for which they do not. A default preheat that succeeds needs no condition.

## Model

| member | source | states |
|---|---|---|
| `Selector.SeedPeerSelector.Update` | client-request/rust/src/selector.rs:260-289 | Hosts become exactly the given seed peers by name, the ring is the ring of their names and nothing else, whichever path is taken; with unchanged names the very same ring stays. |
| `Selector.SameSizeSubset` | client-request/rust/src/selector.rs:271-273 | The comparison of the fast path is sound: as many names, all of them known, are the same names. |
| `Selector.SameNamesExactly` | client-request/rust/src/selector.rs:271-273 | The fast path is taken exactly when the host names are the same. |
| `Selector.BuildRing` | client-request/rust/src/selector.rs:280-283 | The ring does not depend on the order in which the map yields the names. |
| `HashRing.RingUnique` | client-request/rust/src/selector.rs:280-283 | Two rings of the same names are the same sequence of virtual nodes. |
| `HashRing.WindowsAnswer` | client-request/rust/src/selector.rs:354-357 | The walk contract relied on is met by the walk of exactly the window, and by one of any number of nodes more. |
| `Selector.Collect` | client-request/rust/src/selector.rs:359-374 | One window yields its distinct names in first-seen order, unknown ones skipped, cut at the number expected. |
| `Selector.WindowSuffices` | client-request/rust/src/selector.rs:376-380 | Stopping is right: a window with enough known seed peers, or covering the ring, gives what the whole walk gives, for any number expected. |
| `Selector.WalkRing` | client-request/rust/src/selector.rs:347-383 | The doubling walk returns the first expected names of one full walk, whichever window it stops at and whatever the ring answers beyond the window; before each doubling the window is below the ring's length. For none expected it returns the peers of the window of nothing. |
| `Selector.WalkEndsExactly` | client-request/rust/src/selector.rs:351-383 | Some round stops the loop iff a replica is expected, or the window of nothing has no known peer or covers the ring. |
| `Selector.SelectionEndsExactly` | client-request/rust/src/selector.rs:336-383 | What selections, lookups and preheats ask for is exactly that there are no seed peers or some round stops the loop. |
| `Selector.ZeroReplicasNeverEnd` | client-request/rust/src/selector.rs:376-382 | No replicas, two hosts and a ring that answers a node more than asked for: no round stops the loop. |
| `Selector.SeedPeerSelector.Select` | client-request/rust/src/selector.rs:336-395 | For every replica count with which the walk ends, zero included, the selection is the healthy part of the replicas found (those of `Nearest.ReplicasAreNearest` unless the count is zero), with both error cases; the window never exceeds twice the ring, so the doublings are logarithmic in it. |
| `Selector.SeedPeerSelector.SelectAll` | client-request/rust/src/selector.rs:397-413 | Every healthy seed peer exactly once, or the error exactly when there is none. |
| `SeedPeers.ReplicasAreFound` | client-request/rust/src/selector.rs:343-382 | With ring and hosts in step the walk meets every host, and a task has min(replicas, hosts) distinct replicas. |
| `Nearest.ReplicasAreNearest` | client-request/rust/src/selector.rs:347-375 | Told from the positions of the hosts alone: going clockwise from the task and wrapping around once, each replica is met before the next and before every host that is none, and there are as many as asked for, or all. |
| `Nearest.OrderIsNearness` | client-request/rust/src/selector.rs:347-350 | One host comes before another for a task iff one of its positions is met before all of the other's. |
| `Nearest.OneReplica` | client-request/rust/src/selector.rs:347-357 | A single replica is the host of the first node at or after the task, or of the first node of all when none is. |
| `SeedPeers.SelectionMeans` | client-request/rust/src/selector.rs:384-394 | A selection answers the hosts of exactly the healthy replicas, and fails exactly when there is none, naming whether there are seed peers at all. |
| `SeedPeers.NoneHealthyFails` | client-request/rust/src/selector.rs:384-392 | Without a healthy seed peer no selection succeeds, whatever the count. |
| `SeedPeers.LastOfNameIsKept` | client-request/rust/src/selector.rs:261-264 | Of several seed peers of one name an update keeps the last. |
| `SeedPeers.SelectionIsStable` | client-request/rust/src/selector.rs:384-394 | While the names stay, changes of health or records leave the replica order; a selection is the healthy subsequence of one fixed list, and fails exactly when that is empty. |
| `Selector.SeedPeerSelector.OnFailure` | client-request/rust/src/selector.rs:293-305 | The table after the failure is the one the extended history replays to. |
| `Selector.SeedPeerSelector.OnSuccess` | client-request/rust/src/selector.rs:308-313 | The table after the answer is the one the extended history replays to. |
| `Selector.SeedPeerSelector.IsEjected` | client-request/rust/src/selector.rs:326-331 | Ejected exactly when now is before thirty seconds after the last completed group of five failures in a row since the last answer. |
| `Ejections.ReplaySummarizes` | client-request/rust/src/selector.rs:293-313 | After any history: an entry exists iff there are failures since the last answer, the count is their number modulo five, the time is that of failure number 5*(n/5). |
| `Ejections.EjectedExactly` | client-request/go/internal/selector/selector.go:335-341 | The bounded table answers the ejection question as the unbounded history does, until thirty seconds after failure number 5*(n/5) of the streak. |
| `Ejections.StreakMeans` | client-request/rust/src/selector.rs:293-313 | Failures after an answer, or from the start, make up the streak: all of them, in order, and nothing before the answer; with `Ejections.EndpointsAreIndependent` this covers every history. |
| `Ejections.EndpointsAreIndependent` | client-request/rust/src/selector.rs:293-331 | What one proxy does never changes whether another is ejected. |
| `ConcurrentAnswers.CallsProgress` | client-request/go/internal/selector/selector.go:319-332 | A call that finds an entry deletes it once, one that finds none returns at once. |
| `ConcurrentAnswers.AnswersAreAtomic` | client-request/go/internal/selector/selector.go:319-332 | The look and the delete of an answer, interleaved with failures and other answers, leave the table of the calls run one at a time in the order they return. |
| `ConcurrentAnswers.EjectedByReturnOrder` | client-request/go/internal/selector/selector.go:301-341 | Under any interleaving a proxy is ejected exactly as the returned failures and answers say. |
| `ConcurrentUpdates.CallsProgress` | client-request/go/internal/selector/selector.go:270-297 | A call returns at once exactly when the names stay, else it builds and commits once each; no step touches another call. |
| `ConcurrentUpdates.StepRefines` | client-request/go/internal/selector/selector.go:270-297 | Each step keeps hosts and ring in step, and either leaves them or replaces both for the call that returns. |
| `ConcurrentUpdates.UpdatesRefineReplacement` | client-request/go/internal/selector/selector.go:256-297 | For any number of updates in any interleaving of check, build and commit, hosts and ring are those of the atomic specification "replace the hosts and rebuild the ring" run in return order. |
| `ConcurrentUpdates.RingNamesTheHosts` | client-request/rust/src/selector.rs:617-650 | In every reachable state the ring names exactly the hosts, and every task has min(replicas, hosts) replicas. |
| `Disruption.CommonOrder` | client-request/rust/src/selector.rs:280-288 | The hosts two memberships share keep their order for every task. |
| `Disruption.MembershipChange` | client-request/rust/src/selector.rs:350-373 | For any two memberships, the shared replicas before and after are prefixes of one list, and each side misses at most as many as hosts only it has. |
| `Disruption.OneHostJoins` | client-request/rust/src/selector.rs:280-288 | When one host joins, or read backwards leaves, a task's other replicas are a prefix of its old ones, at most the last missing, and nothing changes unless the host is among them. |
| `Proxy.ValidateSeedPeers` | client-request/rust/src/lib.rs:2084-2108 | Accepts exactly a non-empty list of distinct non-empty names. |
| `Proxy.ValidSeedPeersAreKept` | client-request/rust/src/selector.rs:261-264 | After an update with distinct names there are as many hosts as seed peers. |
| `Proxy.Proxy.LookupProxyEndpoints` | client-request/rust/src/lib.rs:1932-1966 | The lookup is the selection for the count modulo 2^32, its endpoints, and those not ejected; it never succeeds with no endpoint, and fails without seed peers, without a healthy one, and without a healthy replica. |
| `Proxy.LookupNeedsSelection` | client-request/rust/src/lib.rs:1945-1949 | A lookup without a selection fails with that message, and one that succeeds has an endpoint. |
| `Proxy.LookupKeepsOrder` | client-request/rust/src/lib.rs:1953-1957 | The endpoints answered are those of the selected seed peers, in the order of the selection, with exactly the ejected ones left out. |
| `Proxy.CastWraps` | client-request/rust/src/lib.rs:1947-1947 | The cast of the count keeps what fits in 32 bits and drops multiples of 2^32. |
| `Proxy.LookupAnswersSelected` | client-request/rust/src/lib.rs:1952-1963 | A lookup answers exactly the selected proxies that are not ejected; it fails when an address is invalid or all are ejected. |
| `Proxy.DownloadAll` | client-request/rust/src/lib.rs:1769-1773 | Succeeds exactly when every seed peer's download does, else with the error of one that failed. |
| `Proxy.Proxy.SelectSeedPeers` | client-request/rust/src/lib.rs:1880-1894 | The scope picks the replicas of the task or every healthy seed peer. |
| `Proxy.Proxy.Preheat` | client-request/rust/src/lib.rs:1662-1776 | For either scope: no selection, or fewer seed peers than replicas, fails with its message; else it succeeds exactly when all selected download, and fails with the error of one that failed; success means all selected have the task. |
| `Proxy.PreheatReachesEveryReplica` | client-request/rust/src/lib.rs:1683-1689 | A default preheat with enough seed peers has reached precisely the replicas of the task; it also rules out a truncated replica count. |
| `Proxy.SelectionsStayOnPreheatedSeedPeers` | client-request/rust/src/lib.rs:1786-1861 | While names stay, a later selection of at most as many replicas is the healthy part of the first seed peers the preheat reached, in order; so a delete with the same count addresses all of them that are healthy. |
| `Proxy.NamesKept` | client-request/go/internal/selector/selector.go:270-285 | From any state that keeps the invariant, with any number of updates between check and commit, updates that all keep the names leave the ring as it is, rebuilt or not. |
| `Proxy.LookupsStayOnPreheatedSeedPeers` | client-request/go/preheat_test.go:290-292 | Through any interleaving of updates keeping the names, those in flight at the preheat included, and any ejections, a lookup with at most the preheated number of replicas answers only proxies of seed peers the preheat reached. |
| `Proxy.AllSeedPeersCoverExactlyHealthyReplicas` | client-request/rust/src/lib.rs:1893-1893 | After a preheat of all seed peers, later selections stay on those reached iff every replica was healthy then. |
| `Proxy.AllSeedPeersMissRecoveredReplica` | client-request/rust/src/lib.rs:1893-1893 | Two hosts, one unhealthy at the preheat: it recovers and is the selection, though the preheat never reached it. |
| `FormUrlencoded.QueryEscape` | client-request/rust/src/url.rs:30-43 | The loop computes the escaping of the whole string, the one `FormUrlencoded.EscapeIsGoEscape` singles out. |
| `FormUrlencoded.EscapeEncodes` | client-request/rust/src/url.rs:27-43 | Escaping spells the string in the sense of percent-encoding with plus for space, for every byte string. |
| `FormUrlencoded.EscapeIsGoEscape` | client-request/rust/src/url.rs:27-43 | Of all the spellings of a string, escaping gives the only one in which letters, digits and `-._~` stand for themselves, the space is a plus sign, and every other byte is a percent sign and two digits of `0-9A-F`. |
| `FormUrlencoded.EscapesMean` | client-request/rust/src/url.rs:64-64 | The decoder reads an escape where a percent sign has two hexadecimal digits of either case after it, and nowhere else. |
| `FormUrlencoded.DigitsOfEitherCase` | client-request/rust/src/url.rs:64-64 | The decoder reads hexadecimal digits of either case by their places in the digits of that case. |
| `FormUrlencoded.EncodingsDecode` | client-request/rust/src/url.rs:64-64 | Every text spells exactly one string, the one it decodes to: two hexadecimal digits of either case after a percent sign, plus for space, all else itself. |
| `FormUrlencoded.ParseConcat` | client-request/rust/src/url.rs:59-64 | A query is read segment by segment. |
| `FormUrlencoded.SegmentMeans` | client-request/rust/src/url.rs:63-64 | Every segment with an equals sign holds the pair its sides spell, split at the first one, and none when it has a semicolon. |
| `FormUrlencoded.LoneKeyMeans` | client-request/rust/src/url.rs:63-64 | In every segment without an equals sign the value is empty, and an empty segment holds no pair. |
| `FormUrlencoded.ParseSerialize` | client-request/rust/src/url.rs:59-83 | Parsing a serialized query gives back exactly its pairs, whatever bytes they hold. |
| `KeyOrder.StableSortIsStable` | client-request/rust/src/url.rs:72-72 | The sort orders by key, keeps the pairs, and keeps each key's values in order. |
| `KeyOrder.LeqIsDictionary` | client-request/rust/src/url.rs:72-72 | Keys are in dictionary order: a prefix comes first, else the first different byte decides. |
| `KeyOrder.SortedUnique` | client-request/rust/src/url.rs:72-72 | The stable sort is determined by each key's value sequence. |
| `CanonicalQuery.CanonicalIsExact` | client-request/rust/src/url.rs:59-83 | Two queries have one canonical form iff every unfiltered key has the same value sequence in both. |
| `CanonicalQuery.CanonicalIsIdempotent` | client-request/rust/src/url.rs:59-83 | Canonicalizing a canonical query changes nothing. |
| `CanonicalQuery.SerializesLikeGo` | client-request/rust/src/url.rs:45-47 | Sorting stably and serializing gives, byte for byte, the buffer of Go's url.Values.Encode: values grouped by key in arrival order, keys ascending. |
| `CanonicalQuery.CanonicalLikeGo` | client-request/rust/src/url.rs:59-83 | The canonical query is what Go gives for the unfiltered keys in ascending order, and absent when there are none. |
| `CanonicalUrl.FailsExactlyUnparsed` | client-request/rust/src/url.rs:52-58 | Without filters the text comes back as it is; with filters it fails exactly when the url library does not parse it. |
| `CanonicalUrl.EmptyPathMeans` | client-request/rust/src/url.rs:98-102 | The test finds an empty path iff no slash stands between the first "://" and the next question mark, hash or end, character by character. |
| `CanonicalUrl.EmptyPathIsSeen` | client-request/rust/src/url.rs:98-102 | On the text of a url with an authority the test finds an empty path exactly when the url has one. |
| `CanonicalUrl.OnlyTheQueryChanges` | client-request/rust/src/url.rs:51-94 | For every text the url library reads back, the canonical url reads as the parsed url with the canonical query, iff a text that seems to have no path was read with the path that stands for none. |
| `CanonicalUrl.BackslashPathIsLost` | client-request/rust/src/url.rs:85-91 | Every path of one segment behind a backslash is dropped, so all of them have one canonical url. |
| `CanonicalUrl.BackslashPathsMeet` | client-request/rust/src/url.rs:85-91 | So it is with a library that reads backslashes in the path as slashes and reads every text back. |
| `CanonicalUrl.QueryIsNotTested` | client-request/rust/src/url.rs:96-102 | A canonical query put before the fragment never changes what the test for an empty path finds. |
| `CanonicalUrl.FilterIsIdempotent` | client-request/rust/src/url.rs:51-94 | For every text the library reads back, the canonical url is its own canonical form iff the parsed url, without query and with the path kept, still shows whether the path was kept, or it makes no difference. |
| `CanonicalUrl.AuthorityIsIdempotent` | client-request/rust/src/url.rs:51-94 | So it is for every url with an authority, however the text was normalized. |
| `CanonicalUrl.PathIsLostLater` | client-request/rust/src/url.rs:85-91 | A url without an authority keeps its path in its canonical url and loses it in the canonical url of that. |
| `CanonicalUrl.OpaquePathIsLostLater` | client-request/rust/src/url.rs:85-91 | So it is with a library that reads urls without an authority as written. |
| `CanonicalUrl.SameCanonicalUrl` | client-request/rust/src/url.rs:51-94 | Two urls the library reads back get one canonical form iff it reads them alike up to the path and in the fragment, the same path is kept, and every unfiltered key has the same value sequence. |
| `CanonicalUrl.PartsNormalize` | client-request/rust/src/url.rs:56-57 | The contract of the url library can be met at every text: by reading an authority as written, backslashes in the path after it as slashes, an empty one as "/", and urls without an authority as written. |
| `Retry.TransientMeans` | client-request/rust/src/errors.rs:77-98 | Timeouts, internal errors and answers marked transient, and nothing else, lead to another attempt. |
| `Retry.Run` | client-request/rust/src/retry.rs:107-117 | The attempts end at the first that is not transient, or after one more than the retries, and its outcome is the result. |
| `Retry.RunWithEndpoints` | client-request/rust/src/retry.rs:126-159 | The same over a permutation of the endpoints taken in turn, the context handed from attempt to attempt; no endpoints fail without an attempt. |
| `Retry.ContextIsThreaded` | client-request/rust/src/retry.rs:122-124 | The first attempt gets the context given, each later one the context the attempt before handed on. |
| `Retry.VisitsOfRun` | client-request/rust/src/retry.rs:148-152 | In a run over distinct endpoints, the attempts at an endpoint are the visits of its position in the shuffled order. |
| `Retry.RotationIsFair` | client-request/rust/src/retry.rs:148-152 | At every attempt of a run, the endpoint aimed at has had as few attempts as any, and none has had more than one more. |
| `Retry.RoundsOfRun` | client-request/rust/src/retry.rs:148-152 | For endpoints that may repeat too, a run has tried each as often as it is listed in every full round, and at most one round more. |
| `BufferedGet.Attempt` | client-request/rust/src/lib.rs:1296-1332 | The chunk loop with its rollback appends the whole body or leaves the buffer. |
| `BufferedGet.RolledBack` | client-request/rust/src/retry.rs:122-124 | After any number of transient failures the next attempt starts from the buffer as taken. |
| `BufferedGet.GetInto` | client-request/rust/src/lib.rs:1288-1339 | On success the buffer grew by exactly the complete body of the last attempt; on any error, lookup included, it is as before; each kind of failure has its error, and the attempts stop where they should. |
| `BufferedGet.ConcatKeepsChunks` | client-request/rust/src/lib.rs:1304-1322 | A body is its chunks, all of them, in order. |
| `AttemptContexts.RunWithEndpoints` | client-request/go/retry.go:111-147 | Every failed attempt's context is cancelled; exactly the returned one is live on success and none on failure, also when the caller's context ends the retries. |
| `PoolRuns.StepHolds` | client-request/go/internal/pool/pool.go:170-190 | One operation, on any key, keeps an entry whose last use is within the idle timeout. |
| `PoolRuns.SteadyUseKeepsTheClient` | client-request/go/internal/pool/pool.go:119-141 | Within capacity and without removal, uses of a key at most the idle timeout apart all get the same entry, whatever happens on other keys between. |
| `PoolRuns.FactoryRunsOnce` | client-request/go/internal/pool/pool.go:132-140 | From the first use on, the factory runs once for such a key. |
| `PoolRuns.IdleClientsAreDropped` | client-request/go/internal/pool/pool.go:167-190 | Over any run, an entry without active requests never outlives its last use by more than one and a half idle timeouts at the next use of the pool. |
| `PoolRuns.OverfullPoolIsEmptied` | client-request/go/internal/pool/pool.go:178-187 | A cleanup of an overfull pool leaves only busy clients and the one asked for. |
| `PoolRuns.RemovedAndCleared` | client-request/go/internal/pool/pool.go:144-165 | Removing a key drops its entry unless a request is active on it and touches nothing else; clearing leaves no entry. |
| `PoolRuns.RequestsAreOutstanding` | client-request/go/internal/pool/pool.go:63-68 | Over any run the request count of an entry is its guards taken and not done. |
| `PoolRuns.BusyClientsStay` | client-request/go/internal/pool/pool.go:143-151 | While a guard of an entry is outstanding, only clearing the pool takes the entry away. |
| `Pool.Pool.CleanupIdleEntries` | client-request/go/internal/pool/pool.go:170-190 | Nothing within half an idle timeout of the last cleanup; else exactly the busy entries stay and, within capacity, those used within the idle timeout. |
| `Pool.Pool.Get` | client-request/go/internal/pool/pool.go:119-141 | Hands out the pooled entry touched, or a fresh one, or fails leaving the pool cleaned; the whole pool after it is the step of the run model. |
| `Pool.Pool.RemoveEntry` | client-request/go/internal/pool/pool.go:144-151 | A busy entry stays, an idle one goes, the others are untouched; the whole pool after it is the step of the run model. |
| `Pool.Pool.ClearAll` | client-request/go/internal/pool/pool.go:161-165 | No entry is pooled, and guards taken still count on theirs; the step of the run model. |
| `Pool.Pool.AcquireGuard` | client-request/go/internal/pool/pool.go:65-68 | Counts one request on the shared entry, in the pool or not, and nothing else. |
| `Pool.Pool.DoneGuard` | client-request/go/internal/pool/pool.go:39-41 | Uncounts one request on the shared entry, in the pool or not, and nothing else. |
| `Digests.ParsesExactlyDisplays` | client-request/rust/src/digest.rs:138-188 | A text parses to a digest iff the digest is valid and the text is its display. |
| `Digests.DigestTexts` | client-request/rust/src/digest.rs:151-185 | The texts that parse: "crc32:" and something, "sha256:" and 64 characters, "sha512:" and 128. |
| `RegistryUrls.SchemeFound` | client-request/rust/src/digest.rs:31-32 | The backtracking match of the whole pattern, when it matches, ends on the last usable marker of the text, and it fails only when no choice of groups works. |
| `RegistryUrls.GreedyMatchEndsOnLastMarker` | client-request/rust/src/digest.rs:107-114 | The captured text is what follows the last usable marker, whatever the first groups take. |
| `RegistryUrls.CapturesLastReading` | client-request/rust/src/digest.rs:31-40 | Taken as a decomposition of the text into scheme, "://", registry, "/v2/", repository, "/blobs/" or "/manifests/", a text without question mark and perhaps a query: the pattern matches iff there is one, and captures the text of the one whose marker is last. |
| `TaskIds.BuiltUrls` | client-request/rust/src/oci.rs:29-38 | The urls the builders make, character by character. |
| `TaskIds.TaskIdWithoutDigest` | client-request/rust/src/lib.rs:1911-1925 | For every url: a content given for the task id decides it alone; without one and with digest based ids off it is the url based id. |
| `TaskIds.TaskIdOfTexts` | client-request/rust/src/lib.rs:1911-1925 | Otherwise the text the blob pattern takes decides, else a digest the manifest pattern takes, else the url based id. |
| `TaskIds.CapturedFromBuilt` | client-request/rust/src/oci.rs:30-38 | From a built blob or manifest url, with any registry, repository and reference, tags included, the pattern takes the reference, or what follows the last usable marker of the query. |
| `TaskIds.DigestComesBack` | client-request/rust/src/digest.rs:107-124 | Extraction undoes building when the query has no usable marker. |
| `TaskIds.BlobTaskId` | client-request/rust/src/lib.rs:1900-1928 | A blob's task id is its hash when the query has no usable marker, else what the text after the last one gives; section "Pulling blobs" of the OCI Distribution Specification. |
| `TaskIds.QueryCaptureFindsMarkers` | client-request/rust/src/digest.rs:31-37 | The text taken from a query is that after its last usable marker, and none iff it has none. |
| `TaskIds.BlobQueryHidesDigest` | client-request/rust/src/lib.rs:1911-1912 | A query for which a blob of any registry and repository has no task id. |
| `TaskIds.SameBlobSameTask` | client-request/rust/src/id_generator.rs:135-140 | The same blob in two registries and repositories is one task. |
| `TaskIds.ManifestReadsAsBlob` | client-request/rust/src/digest.rs:35-37 | A manifest url reads as a blob url iff its query has a usable marker for blobs or its repository has a component named blobs after its first. |
| `TaskIds.ManifestTaskId` | client-request/rust/src/lib.rs:1911-1917 | A manifest's task id, for every query: a marker for blobs in the query decides first, then one in the repository, which leaves another id or, without a colon in the repository, an error; then a marker for manifests in the query; else it is the digest's hash. |
| `TaskIds.ManifestTaskIdWithoutQuery` | client-request/rust/src/lib.rs:1911-1917 | Without a query it is the digest's hash iff the repository has no such component. |
| `TaskIds.BlobsRepositoryHasNoManifestTask` | client-request/rust/src/lib.rs:1913-1914 | A concrete repository for which the task id is an error. |

## Left out

- Selector.SeedPeerSelector.Select: has no result where the walk does not end, which `Selector.WalkEndsExactly` delimits.
- Proxy.Proxy.LookupProxyEndpoints: keeps the fixed part of error messages only.
- Proxy.PreheatReachesEveryReplica: is stated, like the two agreement laws after it, for the replicas of the full walk, which is what a selection answers unless the count is a multiple of 2^32.
- CanonicalUrl.OnlyTheQueryChanges: the url library is its contract at the text; which texts it rejects (a malformed port or IPv6 host, say), how it normalizes the others, and the two kinds of text it does not read back are not part of this model. Without filters the text is returned unread, so nothing fails.
- CanonicalQuery.SerializesLikeGo: the vector of pairs is sorted as a value, not in place; the stable sort is the only list that meets its contract, so nothing else depends on how it is computed.
- TaskIds.BlobTaskId: asks for a digest without slash, question mark or line break, and for registry, repository and query without line breaks.
- Hash collisions on the ring, the internals of the ring, retry, shuffle and regex libraries, and the order of the two clock-free checks inside the Go retry library.
- SHA-256 and the plain concatenation of url, tag, application, revision and piece length that it hashes; only digest based task ids are followed to the end.
- Go's url.Values is modelled for encoding alone; Go's query parser is not.
- Go's update skips a seed peer without a host; the model has no such seed peer.
- The Rust pool, which counts no requests and runs its factory outside any lock, so that two concurrent misses may both run it.
- The periodic refresh with its try-lock, health checks, gRPC, HTTP, TLS, logging, backoff delays, image manifests, request builders, and the table of retryable status codes beyond a transient flag.
- Cancellation of a download in flight, which would lose the buffer taken from the caller.
- Which error is reported when several downloads of a preheat fail; any of them is allowed.
