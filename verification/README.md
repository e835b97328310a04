# Verified models of the `iac` control plane and its agents

`iac` is an infrastructure control plane whose agents pull signed work. This project models, in Dafny, the parts whose
correctness rests on an algorithm or a protocol rather than on a library, and proves what they promise. Each module
stands beside one source file (or the few files that share a protocol):

| module | what it is about |
|---|---|
| `DepGraph`, `DepSort`, `DepSortProperties` | the first-in-first-out topological sort over `dependsOn`, and the layers computed on its output |
| `Glob` | the glob matcher with one backtrack point, and host selection by `--limit` |
| `SecretRefs`, `Json`, `JsonPointers`, `Substitution` | finding secret tokens in text, JSON pointers, and substituting secrets in place |
| `Replay` | freshness window, table of processed assignments and its vacuum, as one transition system |
| `Signing`, `SigningFiles`, `Pinning` | key rotation on a disk that may fail at every operation, and the agent's pinned keys |
| `RateLimit` | the sliding-window limiter with caps swapped while it runs, and its all-or-nothing batch |
| `Push` | the observation push that halves a chunk when it is too large |
| `Expansion` | breadth-first expansion of composite resources with a depth bound |
| `TypeCheck` | the checker that reads declared types from strings |
| `Retention` | chunked and incremental trimming to the newest rows |

`Common` and `Strings` hold the shared vocabulary and the library string operations. Code that the source writes as
loops over mutable state is a method or a class here, proved against functions or predicates; the lemmas then prove what
those functions mean.

Some statements one might expect are false of the code. They are kept as results, each with an input that shows it and
the exact condition under which it holds:

- An assignment can be executed twice when the envelope age limit plus the 300 s of grace reaches seven days
  (`Replay.UnsafeAgeRunsTwice`). The condition is `Replay.ExecutedOnceIffWindowCloses`, and in the unit of the setting
  `Replay.AgeThreshold`; the default of 24 h is far below it.
- A 60-second window can admit more calls than the cap, because instants are read before the lock is taken
  (`RateLimit.TheSkewCounts`). The windows that never do are exactly those that, with the skew, are no longer than 60
  seconds (`RateLimit.WindowBoundExactly`).
- A client told to wait can still be refused after a cap was lowered (`RateLimit.LoweredCapOutlastsTheWait`); the exact
  condition is in `RateLimit.RetryAfterExactly`.
- A batch that names a policy twice can exceed its cap (`RateLimit.RepeatedPolicyOvershoots`); the condition is in
  `RateLimit.AcceptedBatchWithinCap`.
- When two resources share an id, the layer pass and a second sort can fail on the sort's own output
  (`DepSortProperties.DuplicateIdsBreakLayers`). The conditions, which a caller can check between the two calls, are
  `DepSortProperties.LayersSucceedExactly` and `DepSortProperties.SecondSortExactly`.
- The glob `*` matches commas too, although the comments at `crates/iac-cli/src/inventory.rs:111` and `:189` except them;
  the model follows the code. The meanings differ exactly on host names and labels that hold a comma
  (`Glob.CommaTellsApart`), and for the patterns of a limit `Glob.DocumentedStar` says how.
- A `--limit` can be given and yet have no entries, and then selects every host (`Glob.CommasSelectEverything`): exactly
  when it consists of commas and blanks (`Glob.NoEntriesIffCommasAndBlanks`).
- The expansion error can list no remaining kind (`Expansion.NineLevelsNameNoKind`, nine modules each naming the next): when
  no pass fails, exactly when no composite is more than nine deep (`Expansion.NoKindsRemaining`).

The source parses secret references and never prints one; printing is the model's way to say what a token stands for.
`SecretRefs.PrintThenParse` says which references have a token at all.

## Model

| member | source | states |
|---|---|---|
| DepSort.DeclaredExactly | crates/iac-controlplane/src/depsort.rs:168-195 | reading `dependsOn` succeeds exactly when every entry is text and none repeats, and then yields the entries in order |
| DepSort.DeclaredForms | crates/iac-controlplane/src/depsort.rs:168-195 | unreadable JSON and anything but a list are refused, an absent field declares nothing |
| DepSort.RefusedItem | crates/iac-controlplane/src/depsort.rs:168-195 | a list is refused for its first entry that is no text or repeats an earlier one, with that reason |
| DepSort.ReadDependsOn | crates/iac-controlplane/src/depsort.rs:168-195 | the reading loop returns the declared ids or the first refusal |
| DepSort.IdIndexExactly | crates/iac-controlplane/src/depsort.rs:84-89 | the index maps exactly the ids that occur, each to its last position |
| DepSort.ResolveExactly | crates/iac-controlplane/src/depsort.rs:93-114 | a row resolves exactly when every name is known and none is the resource itself |
| DepSort.EdgesRefused | crates/iac-controlplane/src/depsort.rs:91-114 | edges are refused for the first resource that is: its list cannot be read, or the first of its ids that no resource bears, or that names the resource itself |
| DepSort.BuildEdges | crates/iac-controlplane/src/depsort.rs:91-114 | in-degrees count each row and the adjacency lists hold exactly the reversed edges, or the first refusal is returned |
| DepSort.Drain | crates/iac-controlplane/src/depsort.rs:116-129 | the queue loop lists nodes in first-in-first-out order, no in-degree underflows, and no ready node is left out |
| DepSort.RoutingList.SortByDependsOn | crates/iac-controlplane/src/depsort.rs:80-163 | the list is replaced by its first-in-first-out order when all references are good and the graph is acyclic; otherwise it is untouched and the error is the first refusal, or names the first five resources, in list order, that cannot be placed |
| DepSort.StuckIsUnplaceable | crates/iac-controlplane/src/depsort.rs:131-145 | the in-degree left over is positive exactly for the resources that no dependencies-first list can contain |
| DepSort.IdsWhereExactly | crates/iac-controlplane/src/depsort.rs:133-140 | the ids reported are, in list order, those of exactly the flagged resources |
| DepGraph.CycleNeverListed | crates/iac-controlplane/src/depsort.rs:117-145 | no node of a cycle is ever dequeued |
| DepGraph.StuckWalk | crates/iac-controlplane/src/depsort.rs:131-145 | among nodes that all wait for one another there is an actual cycle, returned as a witness |
| DepGraph.MaximalListingCompleteIffAcyclic | crates/iac-controlplane/src/depsort.rs:117-145 | the drained order contains every node if and only if the graph has no cycle |
| DepGraph.FifoOrderUnique | crates/iac-controlplane/src/depsort.rs:117-129 | there is only one first-in-first-out order of a graph |
| DepGraph.FifoLayersStaircase | crates/iac-controlplane/src/depsort.rs:40-73 | layers along a first-in-first-out order start at 0, never fall and never skip a value |
| DepSortProperties.SortIsPermutation | crates/iac-controlplane/src/depsort.rs:147-163 | the sorted list is a permutation of the input |
| DepSortProperties.SortIsFunctional | crates/iac-controlplane/src/depsort.rs:80-163 | the input determines the sorted list |
| DepSortProperties.SortPutsDependenciesFirst | crates/iac-controlplane/src/depsort.rs:75-79 | every dependency stands before its dependents |
| DepSortProperties.DependencyFreeFirst | crates/iac-controlplane/src/depsort.rs:75-79 | resources without dependencies come first and keep their relative order |
| DepSortProperties.SecondSortChangesNothing | crates/iac-controlplane/src/depsort.rs:80-163 | with unique ids, sorting the sorted list succeeds and changes nothing |
| DepSort.ComputeResourceLayers | crates/iac-controlplane/src/depsort.rs:40-73 | returns the layering when every dependency stands earlier; otherwise the error is that of the first resource that gets no layer: its list cannot be read, or the first of its ids that names no earlier resource is unknown or not yet visited |
| DepSortProperties.LayersOfSortedList | crates/iac-controlplane/src/depsort.rs:40-73 | with unique ids the layer pass never fails on the sort's output and its layers form a staircase from 0 |
| DepSortProperties.LayerIsLongestChain | crates/iac-controlplane/src/depsort.rs:40-73 | each layer is the length of the longest dependency chain that ends at the resource |
| DepSortProperties.LayersSucceedExactly | crates/iac-controlplane/src/depsort.rs:40-73 | whatever the ids, the layer pass accepts the sort's output if and only if every resource that bears a declared id stands before the one that declares it |
| DepSortProperties.SecondSortExactly | crates/iac-controlplane/src/depsort.rs:80-163 | whatever the ids, sorting the output again changes nothing if and only if the layer pass accepts it and no resource's last need stands before that of an earlier resource |
| DepSortProperties.DuplicateIdsBreakLayers | crates/iac-controlplane/src/depsort.rs:84-89 | three resources, two with one id, that sort successfully into a list that the layer pass refuses and that a second sort finds cyclic |
| Glob.GlobMatch | crates/iac-cli/src/inventory.rs:264-291 | the loop with a single backtrack point returns true exactly when the recursive meaning of the pattern matches, and terminates |
| Glob.LaterStarSuffices | crates/iac-cli/src/inventory.rs:270-283 | if a pattern matches from an earlier star at all, it matches from the latest star reached: forgetting older stars loses nothing |
| Glob.StarFreeIsEquality | crates/iac-cli/src/inventory.rs:264-291 | a pattern without a star matches only itself |
| Glob.ParseLimit | crates/iac-cli/src/inventory.rs:194-221 | parses the comma list into include and exclude patterns, or reports an empty negation |
| Glob.LimitMatches | crates/iac-cli/src/inventory.rs:223-257 | a host is selected exactly when some inclusion (or none given) fits it and no exclusion does |
| Glob.EntriesAreRead | crates/iac-cli/src/inventory.rs:194-221 | entries written between commas are the entries read |
| Strings.SplitExactly | crates/iac-cli/src/inventory.rs:200-201 | splitting yields pieces without the separator that rejoin to the text |
| Strings.TrimExactly | crates/iac-cli/src/inventory.rs:195-206 | trimming cuts blanks at both ends, all of them and nothing else |
| Glob.SelectedExactly | crates/iac-cli/src/inventory.rs:194-257 | in terms of the text: a host is selected if and only if some entry without `!` matches its name or label, or there is none, and what follows the `!` of no other entry does |
| Glob.OneButNotTheOther | crates/iac-cli/src/inventory.rs:194-257 | `a,!b` selects the hosts that `a` matches and `b` does not |
| Glob.SelectedHostsExactly | crates/iac-cli/src/inventory.rs:118-136 | the hosts selected are, in inventory order, exactly those of the group that are |
| Glob.Resolve | crates/iac-cli/src/inventory.rs:118-136 | returns the selected hosts of the group in order, or the error for a missing group or an empty selection |
| Glob.NoEntriesIffCommasAndBlanks | crates/iac-cli/src/inventory.rs:194-221 | a limit has no entries if and only if it consists of commas and blanks |
| Glob.CommasSelectEverything | crates/iac-cli/src/inventory.rs:194-234 | such a limit selects every host, like no limit at all |
| Glob.DocumentedStar | crates/iac-cli/src/inventory.rs:111-111 | for a pattern without commas the documented star matches exactly the texts without commas that the actual one matches |
| Glob.LimitPatternsHoldNoComma | crates/iac-cli/src/inventory.rs:194-221 | no pattern of a parsed limit holds a comma, so the former speaks of all of them |
| Glob.CommaTellsApart | crates/iac-cli/src/inventory.rs:189-189 | code and comments agree on every pattern if and only if the text holds no comma; otherwise `*` tells them apart |
| SecretRefs.ParseThenPrint | crates/iac-controlplane/src/secrets.rs:30-48 | a token that parses is the printed form of its reference |
| SecretRefs.PrintThenParse | crates/iac-controlplane/src/secrets.rs:30-48 | printing then parsing gives the reference back if and only if its parts avoid the delimiters |
| SecretRefs.PrintedForm | crates/iac-controlplane/src/secrets.rs:20-26 | the spelling of a token, character by character |
| SecretRefs.TokenExactly | crates/iac-controlplane/src/secrets.rs:53-72 | a token starts at a position, and ends where it does, if and only if a printed reference without a closing brace inside stands there |
| SecretRefs.FindRefsInString | crates/iac-controlplane/src/secrets.rs:53-72 | the cursor loop returns the left-to-right scan of all tokens |
| SecretRefs.ScanIsOrdered | crates/iac-controlplane/src/secrets.rs:53-72 | spans are in bounds, disjoint and in order |
| SecretRefs.SpansReadAsPrinted | crates/iac-controlplane/src/secrets.rs:53-72 | each span's text is the printed form of its reference |
| SecretRefs.ScannerMissesNothing | crates/iac-controlplane/src/secrets.rs:53-72 | every position where a printed reference without a closing brace inside stands lies in a span |
| SecretRefs.TemplateIsFaithful | crates/iac-controlplane/src/secrets.rs:515-529 | the text between the spans together with the printed references is the original string |
| Substitution.SubstitutionByToken | crates/iac-controlplane/src/secrets.rs:515-529 | the text before the first printed reference is kept, the reference gives way to its value, and the rest is substituted on its own |
| Substitution.SubstitutionOfText | crates/iac-controlplane/src/secrets.rs:515-529 | text in which no printed reference stands is left alone |
| SecretRefs.RendersIffAllResolve | crates/iac-controlplane/src/secrets.rs:515-529 | a string is rendered exactly when every reference in it resolves |
| Substitution.HoldsReferenceExactly | crates/iac-controlplane/src/secrets.rs:53-72 | the scan finds something exactly when a printed reference stands in the string |
| JsonPointers.EscapeHead | crates/iac-controlplane/src/secrets.rs:556-560 | `~` becomes `~0`, `/` becomes `~1`, every other character stays, as section 3 of RFC 6901 asks |
| JsonPointers.EscapeRoundTrip | crates/iac-controlplane/src/secrets.rs:556-560 | the two-step escape is undone exactly by unescaping in the order of section 4 of RFC 6901 |
| JsonPointers.IndexRoundTrip | crates/iac-controlplane/src/secrets.rs:562-566 | a decimal array index parses back to itself |
| Strings.DecimalExactly | crates/iac-controlplane/src/secrets.rs:562-566 | the digits of an index, one at a time in base ten |
| JsonPointers.PointerRoundTrip | crates/iac-controlplane/src/secrets.rs:545-569 | decoding a printed pointer gives its reference tokens back |
| JsonPointers.Walk | crates/iac-controlplane/src/secrets.rs:551-569 | the recursive walk appends the pointer of each string below, in document order |
| JsonPointers.CollectedPointersAreExact | crates/iac-controlplane/src/secrets.rs:545-569 | the pointers are pairwise distinct, one for each string, and each evaluates under section 4 of RFC 6901 to its own string |
| Json.AddressesInOrder | crates/iac-controlplane/src/secrets.rs:551-569 | the strings are visited in document order |
| JsonPointers.TokensDistinguishAddresses | crates/iac-controlplane/src/secrets.rs:551-569 | two places in a document have different reference tokens |
| Substitution.SubstituteInString | crates/iac-controlplane/src/secrets.rs:515-529 | the splice loop renders the string in one pass: literal text kept, each reference replaced once, resolved text not rescanned |
| Substitution.AssignSetsAddress | crates/iac-controlplane/src/secrets.rs:507-531 | writing through a pointer changes exactly the place it was collected from |
| Substitution.SubstituteWithPointers | crates/iac-controlplane/src/secrets.rs:503-535 | succeeds exactly when every reference resolves; then the value is the structural map, the count is all references, and the pointers are those of strings that held one; on failure the error is the first reference in document order that does not resolve, exactly the strings before its own are substituted, and nothing else has changed |
| Substitution.SecretPointersExactly | crates/iac-controlplane/src/secrets.rs:503-535 | the pointers returned are, in order, those of exactly the strings that hold a reference |
| Substitution.CountExactly | crates/iac-controlplane/src/secrets.rs:503-535 | the count is that of all references of all strings |
| Substitution.MidwayAtEnd | crates/iac-controlplane/src/secrets.rs:503-535 | when every string has been visited the partly substituted value is the structural map |
| Json.SetChangesOneString | crates/iac-controlplane/src/secrets.rs:507-531 | replacing one string leaves every other string as it was |
| Json.MapKeepsShape | crates/iac-controlplane/src/secrets.rs:503-535 | mapping strings keeps keys, array lengths and all other leaves |
| Replay.ExecutedOnceIffWindowCloses | crates/iac-agent/src/remote.rs:742-767 | no run executes an assignment twice if and only if the age limit plus the future grace is below the seven days that rows are kept |
| Replay.SafeRuns | crates/iac-agent/src/agent.rs:293-377 | over every run with a safe limit no id is executed twice, and every report repeats the status of its one execution |
| Replay.PrunedIsStale | crates/iac-agent/src/store.rs:238-253 | a row old enough for the vacuum belongs to an assignment too old to be accepted |
| Replay.UnsafeAgeRunsTwice | crates/iac-agent/src/remote.rs:742-800 | for every unsafe limit, and for none, a run that executes one assignment twice |
| Replay.AgeThreshold | crates/iac-agent/src/remote.rs:784-800 | in the unit of the setting: nothing runs twice exactly below 604500 s, or from 2^63 s on, where the limit wraps; switched off, some run executes twice |
| Replay.InvAlways | crates/iac-agent/src/agent.rs:293-377 | in every reachable state each executed id is remembered or stale, and each stored status is that of an execution |
| Replay.Store.VacuumReplay | crates/iac-agent/src/store.rs:238-253 | removes exactly the rows older than the retention, to the second and then as the texts compare, changes no other, and returns their number |
| Replay.Store.MarkAssignmentProcessed | crates/iac-agent/src/store.rs:225-236 | the first status recorded for an id stays |
| Replay.VerifiesExactly | crates/iac-agent/src/remote.rs:488-546 | an envelope verifies if and only if it is signed by a pinned key, is inside the age window when the check is on, is at most 300 s from the future, and is at most 300 s past its expiry |
| Replay.Agent.FetchAssignments | crates/iac-agent/src/remote.rs:466-546 | the whole answer is returned exactly when every envelope meets those conditions, otherwise nothing is |
| Replay.ExecutedWereAcceptable | crates/iac-agent/src/remote.rs:466-546 | in every sequence of events, whatever is executed was fetched in an envelope that met those conditions, for the keys pinned and the instant read at that fetch |
| Replay.Agent.HandleEnvelope | crates/iac-agent/src/agent.rs:293-377 | a new id is executed, recorded with the text of its outcome and reported; a known one is reported again with the status its stored text stands for |
| Replay.Agent.DrainAssignments | crates/iac-agent/src/agent.rs:277-379 | the loop is the protocol's fetch followed by one transition per envelope, and counts the new ones that came back with a report |
| Signing.AlwaysSound | crates/iac-controlplane/src/signing.rs:320-369 | in every reachable state, whatever disk operation failed, the active id on disk has its key on disk and the active id in memory has its key in memory |
| Signing.RetireSparesActive | crates/iac-controlplane/src/signing.rs:352-369 | retirement never removes the key that is active on disk, nor any key but the one given |
| SigningFiles.KeyFilesByText | crates/iac-controlplane/src/signing.rs:392-394 | the `.bin` test that the loading loop makes on file names selects exactly the key files, and stripping it gives the id |
| SigningFiles.LoadSet | crates/iac-controlplane/src/signing.rs:375-424 | when it succeeds the set in memory is exactly the keys on disk with the pointer's id active |
| SigningFiles.ServerSigner.ActiveKey | crates/iac-controlplane/src/signing.rs:105-119 | the active id always finds its key: signing does not fail |
| SigningFiles.ServerSigner.RotateKey | crates/iac-controlplane/src/signing.rs:320-349 | file by file, rotation is one of the four outcomes of the abstract step, the invariant holds after each, and with a working disk it succeeds |
| SigningFiles.ServerSigner.RetireKey | crates/iac-controlplane/src/signing.rs:352-369 | file by file, retirement is one of the three outcomes of the abstract step, the active key is refused, and with a working disk any other key of the set is retired |
| SigningFiles.StartAgain | crates/iac-controlplane/src/signing.rs:375-424 | after an interruption at any point the next start loads the directory if the disk works |
| Pinning.Check | crates/iac-agent/src/remote.rs:201-240 | a bundle is accepted exactly when its active id is listed, some pinned id is, and every common id has the pinned key |
| Pinning.AcceptsExactly | crates/iac-agent/src/remote.rs:201-259 | in terms of the lists: accepted if and only if the active id is listed, some pinned id is, and the last entry for each pinned id has the pinned key |
| Pinning.ConsistentExactly | crates/iac-agent/src/remote.rs:701-722 | a bundle is consistent if and only if it lists its active id |
| Pinning.Client.RefreshSigningKeys | crates/iac-agent/src/remote.rs:553-608 | pins and verifiers in memory change together to the accepted bundle, or not at all; the identity file only ever takes over an accepted bundle |
| Pinning.Connect | crates/iac-agent/src/remote.rs:193-285 | first contact pins what is served; later, connecting or rewriting the identity file needs a whole pair in common and no stored id with another key, and a bundle without any stored id changes nothing; the file is rewritten before the keys are decoded |
| Pinning.AcceptedBundleContinues | crates/iac-agent/src/remote.rs:201-240 | an accepted bundle shares a whole (id, key) pair with the pins and agrees on every common id |
| Pinning.PinnedIdKeepsItsKey | crates/iac-agent/src/remote.rs:553-608 | against any server, an id that stays pinned through accepted bundles keeps its key |
| Pinning.RefreshWorksIffSomeKeyLives | crates/iac-agent/src/remote.rs:553-608 | in every run with an honest server, pins are pairs of its history and refresh is accepted exactly when some pinned key is not retired |
| Pinning.PublishedBundleTest | crates/iac-agent/src/remote.rs:553-608 | the agent's test on a published bundle decides as the run model says |
| Pinning.LockoutIsPermanent | crates/iac-agent/src/remote.rs:553-608 | once no pinned key is accepted, no later event of any run mends it |
| Pinning.PatientRetirementNeverLocksOut | crates/iac-controlplane/src/signing.rs:352-369 | if keys are retired only after the agent refreshed since they stopped being active, refresh is always accepted |
| Pinning.RetirementLocksOutIff | crates/iac-controlplane/src/signing.rs:352-369 | in every run, a completed retirement leaves refresh accepted if and only if some other pinned key is on disk |
| Pinning.ImpatientRetirementLocksOut | crates/iac-controlplane/src/signing.rs:352-369 | rotating and retiring before the agent has looked locks it out, with keys of full length |
| RateLimit.KeysDistinguishBuckets | crates/iac-controlplane/src/rate_limit.rs:364-364 | two buckets never share a key, though names may hold colons |
| RateLimit.PruneExactly | crates/iac-controlplane/src/rate_limit.rs:367-379 | pruning drops from the front exactly up to the first entry that is at most 60 s old |
| RateLimit.PrunedQueueIsTheWindow | crates/iac-controlplane/src/rate_limit.rs:365-378 | after pruning, the queue is a run's last admissions: what was dropped has left the window and what was kept is in it, give or take how far instants are out of order; exactly the window when they are in order |
| RateLimit.WindowBound | crates/iac-controlplane/src/rate_limit.rs:352-395 | over every run on one bucket, in any order of instants, a closed window of 60 seconds less the skew admits at most as many calls as the largest cap in force for one of them |
| RateLimit.WindowBoundExactly | crates/iac-controlplane/src/rate_limit.rs:352-395 | for every skew and length: all runs of that skew are bounded by the cap in closed windows of that length if and only if skew and length together are at most 60 seconds |
| RateLimit.TheSkewCounts | crates/iac-controlplane/src/rate_limit.rs:223-232 | for every positive skew, a run whose window one tick longer admits three calls under a cap of two |
| RateLimit.RetryAfterExactly | crates/iac-controlplane/src/rate_limit.rs:380-391 | the wait told is 1 to 60 seconds; a later call is admitted if and only if the entries that keep the bucket full have all expired, as they have past the wait when the queue is within the cap and its front not in the future |
| RateLimit.WaitIsLeast | crates/iac-controlplane/src/rate_limit.rs:380-386 | the wait told is the least whole number of seconds, at least one, after which the oldest entry can have left |
| RateLimit.WaitWithoutFront | crates/iac-controlplane/src/rate_limit.rs:382-386 | it is 60 seconds when the queue is empty or its oldest entry lies in the future |
| RateLimit.WaitingIsEnough | crates/iac-controlplane/src/rate_limit.rs:380-391 | over any run whose caps never exceeded the present one, a client that waits as told, and for the skew, is admitted |
| RateLimit.LoweredCapOutlastsTheWait | crates/iac-controlplane/src/rate_limit.rs:140-153 | a run in which a lowered cap makes the told wait too short |
| RateLimit.BucketsAreIndependent | crates/iac-controlplane/src/rate_limit.rs:287-395 | over any mix of checks, batches of distinct policies and cap swaps on all buckets, a bucket's queue is what its own calls leave and its recordings are those of them admitted; a rejected batch acts on it as a pruning or not at all |
| RateLimit.RunWindowBound | crates/iac-controlplane/src/rate_limit.rs:287-395 | the window bound for every bucket, policy buckets included, over such runs |
| RateLimit.RunQueueIsTheWindow | crates/iac-controlplane/src/rate_limit.rs:287-395 | the exact queue for every bucket over such runs |
| RateLimit.RateLimiter.ApplyConfig | crates/iac-controlplane/src/rate_limit.rs:140-153 | caps are replaced, queues and counters untouched |
| RateLimit.NormExactly | crates/iac-controlplane/src/rate_limit.rs:140-153 | a configured cap is taken as it is, an absent one is 0 |
| RateLimit.RateLimiter.CheckAndRecordKeyedAt | crates/iac-controlplane/src/rate_limit.rs:352-395 | admits exactly when fewer than the cap remain in the window; records only then |
| RateLimit.RateLimiter.CheckUnlessDisabled | crates/iac-controlplane/src/rate_limit.rs:223-253 | each public check of one bucket: a cap of 0 admits without looking or recording, any other cap is one step of a run |
| RateLimit.LoginKeepsTheFirstCharge | crates/iac-controlplane/src/rate_limit.rs:159-180 | a login is two steps with the lock released in between; whatever happens there and whatever the second says, the user's pruned queue holds the first charge until it can have left the window |
| RateLimit.ActiveExactly | crates/iac-controlplane/src/rate_limit.rs:291-295 | the batch looks at, in order, exactly the policies with a positive cap |
| RateLimit.BatchOverPolicies | crates/iac-controlplane/src/rate_limit.rs:287-339 | in terms of the policies given: accepted if and only if each with a positive cap has room in its own queue; the first without room is named otherwise; with distinct names an accepted batch charges exactly those queues; a refused one only prunes |
| RateLimit.RateLimiter.CheckAndRecordPolicies | crates/iac-controlplane/src/rate_limit.rs:287-339 | the method does what the two lines above say, and counts its checks and rejections; it is the batch step of the runs |
| RateLimit.BatchAcceptedIffSinglesAre | crates/iac-controlplane/src/rate_limit.rs:287-339 | the batch is accepted exactly when every single check on the same state would be |
| RateLimit.BatchIsTheSingles | crates/iac-controlplane/src/rate_limit.rs:287-339 | for distinct policies an accepted batch leaves the state of the single checks made in turn, each of them admitted |
| RateLimit.RejectedBatchRecordsNothing | crates/iac-controlplane/src/rate_limit.rs:297-333 | a rejected batch leaves each queue as it was or pruned |
| RateLimit.AcceptedBatchWithinCap | crates/iac-controlplane/src/rate_limit.rs:301-337 | an accepted batch stays within a cap if and only if the entries left and the times the batch names the policy fit it |
| RateLimit.RepeatedPolicyOvershoots | crates/iac-controlplane/src/rate_limit.rs:301-337 | a policy named twice is admitted twice under a cap of one |
| Push.PushObservations | crates/iac-agent/src/remote.rs:367-443 | for any answers it terminates; what it posted settles a prefix of the items in order, all of them exactly on success; POSTs plus initial chunks are at most twice the items; success returns the saturated number delivered, failure the reason of the last POST |
| Push.NothingLostOrReordered | crates/iac-agent/src/remote.rs:392-442 | settled items followed by the remaining stack always spell the items, in order |
| Push.HalvesInOrder | crates/iac-agent/src/remote.rs:417-434 | a chunk that is too large gives way to its two halves in order, which differ by at most one item |
| Push.SettledIsPopped | crates/iac-agent/src/remote.rs:413-424 | an accepted chunk, or one item that is too large, leaves the rest of the stack |
| Push.EveryPostIsAnswered | crates/iac-agent/src/remote.rs:399-440 | each POST carries its own answer, and only the last can be a failure, for the chunk left on top |
| Push.PostsAreBounded | crates/iac-agent/src/remote.rs:399-440 | the bound on POSTs, reached when every answer is 413 |
| Push.DroppedOnlyAlone | crates/iac-agent/src/remote.rs:417-424 | an undelivered settled item was posted alone and answered 413 |
| Push.EverythingThatFitsIsDelivered | crates/iac-agent/src/remote.rs:380-442 | against a monotone size limit the push never fails and delivers exactly the items that fit alone, in order |
| Expansion.ExpandResourcesOnePass | crates/iac-controlplane/src/expansion.rs:217-254 | a pass replaces each composite by its children in place, reports the first failure, and whether any composite was there |
| Expansion.KindExactly | crates/iac-controlplane/src/expansion.rs:224-229 | the kind of a resource is the text of its first `kind` member |
| Expansion.CompositeExactly | crates/iac-controlplane/src/expansion.rs:209-212 | composite are exactly the three built-in kinds and the names of modules |
| Expansion.ServedBy | crates/iac-controlplane/src/expansion.rs:230-251 | each built-in kind is served by its own expander, any other composite by the first module of that name |
| Expansion.PassOverOne | crates/iac-controlplane/src/expansion.rs:224-252 | one resource is refused without a kind, kept, or replaced by its children |
| Expansion.PassInOrder | crates/iac-controlplane/src/expansion.rs:217-254 | a pass goes left to right: the first failure wins, otherwise the parts follow one another |
| Expansion.ExpandResources | crates/iac-controlplane/src/expansion.rs:179-206 | succeeds exactly when the tree expansion eight levels deep does, with its result, which has no composite; the end of the function is never reached |
| Expansion.ForestIsPasses | crates/iac-controlplane/src/expansion.rs:179-206 | for every depth, tree expansion succeeds exactly when that many passes give a flat list, which is its result |
| Expansion.PassThenForest | crates/iac-controlplane/src/expansion.rs:217-254 | one pass takes one level off every tree |
| Expansion.SucceedsIffEveryChainIsGood | crates/iac-controlplane/src/expansion.rs:165-206 | success means: on every way down each resource has a kind, each composite's expander succeeds, and none is more than the bound deep |
| Expansion.ExpandedIsFixed | crates/iac-controlplane/src/expansion.rs:179-206 | expanding a result again gives it back |
| Expansion.NoKindsRemaining | crates/iac-controlplane/src/expansion.rs:187-201 | where no pass fails, the refusal lists no kind if and only if no way down ends in a composite more than nine deep |
| Expansion.LeftoverComposites | crates/iac-controlplane/src/expansion.rs:179-206 | for every number of passes: they leave no composite if and only if none is deeper than that |
| Expansion.NineLevelsSuffice | crates/iac-controlplane/src/expansion.rs:187-201 | nine levels would have been enough exactly when the refusal lists no kind and no resource without a kind is left |
| Expansion.NineLevelsNameNoKind | crates/iac-controlplane/src/expansion.rs:159-206 | nine modules, the template of each being one resource of the next module's kind, are refused with an empty set of remaining kinds |
| Expansion.ShadowedModuleIsInert | crates/iac-controlplane/src/expansion.rs:165-168 | a module named like a built-in or an earlier module changes no expansion |
| TypeCheck.SplitTopLevelComma | crates/iac-cli/src/validate_spec.rs:199-216 | the slicing loop yields the split that the lemmas below characterise |
| TypeCheck.SplitRejoins | crates/iac-cli/src/validate_spec.rs:199-216 | the parts of any string rejoin to it |
| TypeCheck.PartsAreCommasPlusOne | crates/iac-cli/src/validate_spec.rs:199-216 | there is one part more than commas at depth zero |
| TypeCheck.SplitAtComma | crates/iac-cli/src/validate_spec.rs:199-216 | at a comma outside brackets the two sides split on their own |
| TypeCheck.OnePart | crates/iac-cli/src/validate_spec.rs:199-216 | a string without such a comma is one part |
| TypeCheck.PrintedMapHasTwoParts | crates/iac-cli/src/validate_spec.rs:155-176 | the body of a printed map type splits into exactly its two parameters, however nested |
| TypeCheck.NoneIffConforms | crates/iac-cli/src/validate_spec.rs:135-194 | for every printed type and every JSON value the checker is silent exactly when the value conforms |
| TypeCheck.NamedTypes | crates/iac-cli/src/validate_spec.rs:179-194 | the six known names, and an unknown one, each against any value |
| TypeCheck.ArrayRule | crates/iac-cli/src/validate_spec.rs:138-153 | `array<` and `>` around any text ask for an array whose elements match the text, trimmed |
| TypeCheck.MapRule | crates/iac-cli/src/validate_spec.rs:157-177 | `map<` and `>` around any two parts ask for an object whose values match the second, trimmed |
| TypeCheck.MessageIsTheFirstFault | crates/iac-cli/src/validate_spec.rs:124-176 | otherwise its message names the kind found at the first fault in document order, with the path from the inside out |
| TypeCheck.MessageWords | crates/iac-cli/src/validate_spec.rs:145-228 | the words of a message: the kinds, the index and the key |
| TypeCheck.MalformedMapIsShallow | crates/iac-cli/src/validate_spec.rs:162-167 | a map declared with any other number of parameters only asks for an object |
| TypeCheck.ValidateResources | crates/iac-cli/src/validate_spec.rs:53-108 | returns all errors of each resource in order: missing, unknown, mistyped |
| TypeCheck.FirstDescriptor | crates/iac-cli/src/validate_spec.rs:58-61 | a resource is held against the first descriptor of its kind, if there is one |
| TypeCheck.ErrorsInOrder | crates/iac-cli/src/validate_spec.rs:57-105 | no descriptor, no errors; a spec that is no object is one error; otherwise missing, unknown and mistyped fields in that order |
| TypeCheck.MissingExactly | crates/iac-cli/src/validate_spec.rs:71-80 | a missing-field error stands for a required field that the spec does not hold, and the other way round |
| TypeCheck.UnknownExactly | crates/iac-cli/src/validate_spec.rs:82-90 | an unknown-field error stands for a member that no field describes, and the other way round |
| TypeCheck.MistypedExactly | crates/iac-cli/src/validate_spec.rs:93-105 | a type error stands for a field whose value mismatches its declared type, and the other way round |
| TypeCheck.NoErrorsIffSpecOk | crates/iac-cli/src/validate_spec.rs:53-120 | a resource of a described kind passes exactly when its spec is an object with all required, only known and only conforming fields |
| TypeCheck.NoErrorsAtAll | crates/iac-cli/src/validate_spec.rs:53-108 | the list is empty exactly when every resource alone is without errors |
| Retention.KeptCount | crates/iac-controlplane/src/retention.rs:305-317 | the rows within the cap are exactly `max` per partition, or all if fewer |
| Retention.KeptIsNewer | crates/iac-controlplane/src/retention.rs:278-317 | of two rows of a partition the one kept has the larger stamp, or the same stamp and the larger id |
| Retention.KeptIsNewest | crates/iac-controlplane/src/retention.rs:305-317 | the rows within the cap are, of each partition, the `max` with the largest stamps, ties by id, or all if fewer |
| Retention.OverCapAmongRows | crates/iac-controlplane/src/retention.rs:305-331 | after any over-cap rows are gone, the rest rank over the cap exactly as before |
| Retention.NewestAreNeverDeleted | crates/iac-controlplane/src/retention.rs:286-331 | in every run of inserts and chunks, whichever rows each chunk picks, every row among the newest `max` ever inserted is still there |
| Retention.QuietRunIsTheOneShot | crates/iac-controlplane/src/retention.rs:286-331 | no row is over the cap exactly when the table is the newest `max` of all ever inserted |
| Retention.PartitionedTable.PrunePerResource | crates/iac-controlplane/src/retention.rs:286-377 | with other writers inserting in the pauses the loop ends with exactly the newest `max` per partition, by stamp and then id, of all rows there were, and the total counts the rows removed |
| Retention.TrimOnePart | crates/iac-agent/src/store.rs:288-298 | trimming only the resource that got the row is trimming the whole table |
| Retention.ObservationStore.RecordObservation | crates/iac-agent/src/store.rs:255-300 | the agent's table is always the ten newest rows per resource of all ever recorded |
| Retention.ObservationStore.LastObservation | crates/iac-agent/src/store.rs:302-316 | the trimming never loses the newest observation |

## Left out

- HTTP, SQL, TLS, SSH, git and command-line plumbing: calls into libraries. Tables are maps or sets of rows, answers of
  servers are parameters.
- Cryptography: keys are opaque values, a signature verifies when its key id is pinned, and new key ids are assumed fresh.
- Secret backends: one partial function from references to text; the pointer-less `substitute_in_value` only forwards.
- Parsing of the stored resource JSON: `DepSort` starts from the parsed `dependsOn`, with its malformed forms as cases.
- Characters, not bytes: strings are sequences of characters where the source slices by byte offset; every delimiter
  involved is one byte long, so the cuts are the same.
- Machine integers: counters, indices and the `i32` depths and layers are unbounded, except for the `u32` total of the push
  and the wrapping conversion of the age limit, which are modelled.
- Text timestamps: instants are numbers. Rows stamped within the same second can compare in text otherwise than in time;
  `Replay` leaves that order open, `Retention` takes the order of the column as it is.
- Concurrency: each method runs under the lock that the source holds (`mutate_lock`, the limiter's `state`, the
  connection). The limiter's callers read the clock and load the cap before they take it, so its runs put no order on
  instants and no tie between caps and swaps, and a login is two steps of a run. The pruning loop is interleaved with other
  writers.
- First-time creation of the key directory and the migration of older layouts: the signing model starts from a set that
  loads.
- Key file names are constructors with their text given by `SigningFiles.NameText`, not arbitrary strings.
- Rotation assumes new ids; retention assumes new row ids; the agent assumes a clock that does not go back.
- Failing database calls and a crash between executing an assignment and recording it: the replay model has neither.
- One creation time per assignment id: the signature binds both, so the replay model gives each id a single one.
- The expanders themselves, the executor, the template engine and `materialize`: abstract or absent.
- The limiter's `admitted_total`: a rejected batch also counts the checks it passed, so it is not a number of admissions.
- Which submissions need approval (`policy.rs`) or fall into a maintenance window (`maintenance.rs`), what an agent may
  apply (`capabilities.rs`), who may do what (`identity.rs`), the conversions between YAML and JSON (`convert.rs`), the form
  of resource names (`id.rs`) and the local log of runs (`run_history.rs`).
- Retention.PartitionedTable.PrunePerResource: other writers only insert in the pauses; rows that the age-based pruning
  might delete meanwhile are not in the model.
- Pinning.Connect: leaves out registration, the legacy single-key fields of the identity file and the TLS client.
- Replay.Agent.DrainAssignments: the outcome of executing an assignment and the instant it is recorded are parameters, and a
  report that cannot be sent is treated as sent.
- Expansion.ExpandResources: error texts are constructors; the set of remaining kinds is kept, the wording is not.
