# Sandbox operator: verified models of the stateless control plane

The operator keeps no per-sandbox state. It rebuilds its view from the nodes and has to stay
right while they change, lie stale or fall silent. Each module models one component that must
do so, as a state machine over its remote calls, as the loop the source runs, or as a printer
and parser pair, and proves what the component is for.

| module | component |
|---|---|
| `TemplatePublish`, `PublishLimits`, `PublishProgress`, `TemplateHolders` | concurrent builds of one template name: promote, read every node, delete older holders by digest, tag; and the read side that picks the current copy |
| `FleetLookup`, `NodeIndex` | resolving a sandbox through a lossy index, inventories and the nodes themselves |
| `ClaimRouting` | the claim loop with redirects |
| `SandboxWatch` | the poll-diff watch |
| `MeshMembership` | mesh membership per tick, with every map iteration order |
| `WarmPool` | spreading pool targets over nodes and apportioning live warm counts |
| `BuildExecutor`, `ShellQuoting` | slot-bounded build runs with expiring records, and the shell text they write |
| `KubeInventory` | inventory snapshots and staleness |
| `Pagination`, `Base64Url` | cursor pagination and its tokens |
| `SandboxIdentity` | public ids and sandbox hosts |
| `Ordering`, `Common` | string order, sorting and shared types |

A remote answer is an arbitrary value: a parameter of a step, or a function a method is given.
Steps of different builds, workers and calls interleave freely. A loop over a Go map picks its
next key nondeterministically. Source loops are methods with invariants, proved against
specification functions or relations; the whole-run theorems are lemmas about those.

## What the code does not promise

Where a promise holds only under a condition, the condition is proved exact or the failing
input is given.

- The newest build can be lost, although publishBuild deletes by the digest it observed: a holder
  without a digest is deleted unconditionally, and a digest names the exported bytes
  (`api/v1beta1/nodeinventory_types.go:38`), so a newer build with the same bytes over the observed
  one goes with it. `PublishLimits.NewestIsAlwaysHeldIff` is the exact condition on the fleet,
  `PublishLimits.OvertakenIsLostIff` the one on a single delete, and
  `PublishLimits.EmptyDigestLosesNewest` and `PublishLimits.RepeatedDigestLosesNewest` are the runs.
- Tags land on another build's generation in the same two cases, and the publish reports success:
  `PublishLimits.TagLandsElsewhereIff`, `PublishLimits.TagsAlwaysOwnIff`.
- A successful newest publish can leave another copy behind: a later promote with an older stamp, or
  a holder on a node that was not listed. `PublishLimits.ConvergesAlwaysIff` is the exact condition,
  `PublishLimits.BackwardStampKeepsTwo` and `PublishLimits.UnlistedNodeKeepsOld` are the runs.
- `builtTemplate.current` indexes with -1 when every stamp lies before Go's zero time:
  `TemplateHolders.CurrentIsNewest` says exactly when it is defined.
- A pinned watch and `heldByNode` look at the first entry of a name only. That is the same as
  looking at all of them exactly when the node reports one entry per name:
  `SandboxWatch.FirstMatchSpeaksForAll`, with `SandboxWatch.SecondEntryIsOverlooked`.
- A mesh member removed as a duplicate is dialled anew in the same tick exactly when gossip
  names its address and no member answers under that address as its key:
  `MeshMembership.DedupedIsRedialledIffNamed`.
- The newest publisher is listed exactly when it published within the stale limit of now, or the
  limit is not negative and the stamp not further than it before 1970:
  `KubeInventory.NewestIsListedIff`. The flag accepts a negative limit, with which a live fleet
  reads empty (`KubeInventory.NegativeLimitReadsEmpty`). An inventory that never carried a stamp
  counts as published at 0, so a fleet of those is listed, although the flag's help text
  (`pkg/scale/kubeinventory/source.go:35`) calls such an inventory stale.
- A page token parses back exactly when the start time holds no space:
  `Pagination.TokenRoundTrip`.
- An ENV value with an unmatched "${", such as "${" itself, leaves the line without its closing
  quote: `ShellQuoting.ClosesIffMatched` is the exact condition,
  `ShellQuoting.UnmatchedBraceStaysOpen` the input. Text of the value still never closes the quotes
  or opens a command substitution of the POSIX shell. The comment at `pkg/e2bbuild/executor.go:376`
  says command substitution does not run; for the "${ command; }" of bash 5.3, which is not in
  POSIX and not modelled, the escaper does nothing.
- An ENV value is sure to come back unchanged exactly when no dollar in it starts an expansion and
  it holds no NUL: `ShellQuoting.ExpandIsFaithful`.

## Model

| member | source | states |
|---|---|---|
| TemplatePublish.IndexOfOwn | pkg/e2bcompat/builds.go:144-148 | the build's own copy is found among the holders it read, or no holder is on its node and key |
| TemplatePublish.DeleteKeepsNewest | pkg/sandboxd/lifecycle.go:168-179 | a delete that carries a digest, on behalf of a newer promote, leaves for every promote so far a held copy at least as new |
| TemplatePublish.StepSound | pkg/e2bcompat/builds.go:138-176 | every step of every build, in any fleet, answered, failed or late, keeps what builds know about the promotes true |
| TemplatePublish.StepKeepsNewest | pkg/e2bcompat/builds.go:138-176 | every step whose delete carries a digest keeps the newest promote of every template covered |
| TemplatePublish.RunInv | pkg/e2bcompat/builds.go:138-176 | so does every interleaved run of such steps, in a fleet where other generations may report no digest |
| TemplatePublish.ReportedCarry | pkg/e2bcompat/builds.go:144-158 | where every generation reports a digest, every delete of every run carries one |
| TemplatePublish.StepIsSafe | pkg/e2bcompat/builds.go:152-174 | one step removes only copies older than the copy it acts for, the build's own promote if that reported a digest; replaces a copy only by a promote no older; and changes labels, in time or late, only to the build's tags, on its own generation if that reported a digest |
| TemplatePublish.PublishIsSafe | pkg/e2bcompat/builds.go:138-176 | after any run whose deletes carry digests the newest promote of every template is still covered by a held copy, and whatever such step comes next is safe |
| TemplatePublish.StepSwept | pkg/e2bcompat/builds.go:138-176 | every step keeps, for each build whose promote is the newest, that its slot holds nothing else and how far it has got with each older copy still held: unread, read, to be deleted, or none left |
| TemplatePublish.PublishConverges | pkg/e2bcompat/builds.go:136-176 | once the build with the newest promote has published with success, digests reported or not, no node holds another operator-owned copy of its template; where slots repeat no digest its own is held, unless some delete carried none |
| PublishLimits.DeleteIsExactIff | pkg/sandboxd/lifecycle.go:168-179 | a delete removes at most the generation observed, digest and stamp, exactly when the slot saw no other promote or the holder's digest is non-empty and no other promote there repeats it |
| PublishLimits.OvertakenIsLostIff | pkg/e2bcompat/builds.go:152-158 | a newest promote over a holder about to be deleted is lost exactly when the holder reported no digest or the promote repeats it |
| PublishLimits.TagLandsElsewhereIff | pkg/e2bcompat/builds.go:165-174 | tags land on a generation promoted over the build's own, with success reported, exactly when the build's promote reported no digest or the other repeats it; else nothing is written and the publish fails |
| PublishLimits.SceneIsReachable | pkg/e2bcompat/builds.go:138-158 | in any fleet a legal run leads from an older copy to a publish about to delete it while another build waits |
| PublishLimits.EmptyDigestLosesNewest | pkg/e2bcompat/builds.go:152-158 | in any fleet that need not report digests a legal run loses the newest promote |
| PublishLimits.RepeatedDigestLosesNewest | pkg/e2bcompat/builds.go:152-158 | in any fleet whose slots may repeat a digest a legal run loses the newest promote, though its delete carries one |
| PublishLimits.BackwardStampLosesNewest | pkg/e2bcompat/builds.go:152 | in any fleet whose stamps may go back a promote alone loses the newest stamp |
| PublishLimits.NewestIsAlwaysHeldIff | pkg/e2bcompat/builds.go:136-176 | the newest promote of every template is held in every run exactly when digests are reported, unrepeated on a slot, and stamps do not go back |
| PublishLimits.OvertakingRunMistags | pkg/e2bcompat/builds.go:165-174 | a legal run without digests, or with a repeated one, that ends with tags on another build's generation |
| PublishLimits.TagsAlwaysOwnIff | pkg/e2bcompat/builds.go:165-174 | tags, written in time or late, land only on the build's own generation in every run exactly when digests are reported and unrepeated on a slot |
| PublishLimits.BackwardStampKeepsTwo | pkg/e2bcompat/builds.go:144-152 | in any fleet that need not stamp promotes in order, a legal run after which the newest build is done and another copy is still held |
| PublishLimits.UnlistedNodeKeepsOld | pkg/e2bcompat/builds.go:178-190 | in any fleet that need not list every holder, a legal run after which the newest build is done and an older copy is still held |
| PublishLimits.ConvergesAlwaysIff | pkg/e2bcompat/builds.go:136-176 | a successful newest publish leaves no copy but its own in every run exactly when promotes are stamped in order and every holding node is listed |
| PublishProgress.FailsIffTrouble | pkg/e2bcompat/builds.go:138-176 | in every run, a build that has ended failed exactly if it was given up, its promote's reply was lost, its own copy was gone when it read the fleet, one of its own deletes or its tag write failed, or its tag write met another generation |
| PublishProgress.AnsweredDeletesFinish | pkg/e2bcompat/builds.go:153-164 | a publish whose deletes are all answered, a missing copy and another generation included, is done without tags and writes them next with tags, whatever nodes hold and other builds do meanwhile |
| PublishProgress.TagWritesOwnDigest | pkg/e2bcompat/builds.go:165-174 | an answered tag write on the build's own generation completes the publish: the labels are exactly its tags, each with its own promote's digest, and nothing else changes |
| PublishProgress.OlderCopyIsReplaced | pkg/e2bcompat/builds.go:138-176 | in any fleet, a legal run in which a publish deletes an older copy, writes its tags if it has any, and succeeds |
| PublishProgress.LostCallsStillAct | pkg/sandboxd/lifecycle.go:168-194 | a delete or tag write whose reply was lost may do, then or later, what the answered call would do |
| TemplateHolders.AppendHolders | pkg/e2bcompat/builds.go:198-206 | the loop over one node's templates appends exactly an answer the protocol's read step admits, for whatever the node truthfully lists |
| TemplateHolders.StaleHolders | pkg/e2bcompat/builds.go:144-152 | the loops of publishBuild give up or keep exactly the holders the protocol's decision deletes |
| TemplateHolders.BuiltTemplates | pkg/e2bcompat/templates.go:341-367 | the grouping holds a record for exactly the wanted names with an operator-owned copy, with all its copies in listing order, their digest counts and the newest stamp |
| TemplateHolders.DigestsCount | pkg/e2bcompat/templates.go:360 | every digest is counted as often as a copy has it |
| Ordering.Newest | pkg/e2bcompat/templates.go:361-363 | the running maximum is an upper bound of the stamps and one of them, or zero |
| TemplateHolders.CurrentIsNewest | pkg/e2bcompat/templates.go:50-53 | current is defined exactly when some copy is stamped at or after Go's zero time, and then no copy is newer |
| TemplateHolders.CurrentSurvivesPublishing | pkg/e2bcompat/templates.go:50-53 | after any interleaving of publishes whose deletes carry digests, every template ever promoted is listed and current is a held copy at least as new as every promote |
| NodeIndex.Index.StoreLocked | pkg/scale/nodeindex.go:43-50 | a full generation is retired whole, then the key is stored |
| NodeIndex.Index.Lookup | pkg/scale/nodeindex.go:21-32 | finds the key in either generation and promotes it from the old one |
| NodeIndex.Index.Remember | pkg/scale/nodeindex.go:34-41 | stores a non-empty pair and ignores any other |
| NodeIndex.RunBounded | pkg/scale/nodeindex.go:43-50 | over any calls at most 2*max entries are held |
| NodeIndex.FoundIsLastRemembered | pkg/scale/nodeindex.go:21-50 | a found node is the one last remembered for the key, over any calls |
| NodeIndex.StoredOutlivesMaxStores | pkg/scale/nodeindex.go:43-50 | a stored key is found after any calls that store at most max times, promotions counted |
| NodeIndex.FoundOutlivesMaxStores | pkg/scale/nodeindex.go:21-32 | so is a key that a lookup found, since a hit in the old generation stores it anew |
| NodeIndex.OneMoreStoreForgets | pkg/scale/nodeindex.go:43-50 | that bound is tight for every max: some bounded index has forgotten a stored key after max + 1 further stores |
| FleetLookup.ScanEntries | pkg/scale/sandboxstore_impl.go:346-351 | both entry scans return the first match |
| FleetLookup.FirstMatch | pkg/scale/sandboxstore_live.go:42-47 | there is a result exactly when some entry matches, and it renders a matching entry of that node |
| FleetLookup.NamesSplit | pkg/scale/sandboxstore_impl.go:952-957 | a name splits at its first slash, and one without a slash is in the default namespace |
| FleetLookup.FirstHit | pkg/scale/sandboxstore_impl.go:715-750 | in every interleaving of its workers, cancellation included, the sweep misses exactly when every node misses, and a hit is some node's answer |
| FleetLookup.ResolveWithHint | pkg/scale/sandboxstore_impl.go:313-335 | for any hint the lookup misses exactly when neither the hinted node nor any listed node has a match |
| FleetLookup.Resolve | pkg/scale/sandboxstore_impl.go:313-335 | whatever the index holds, a miss means what a plain fleet sweep means; a hit matches, names the node it was read from and leaves the index pointing there |
| ClaimRouting.WarmCandidates | pkg/scale/sandboxstore_impl.go:759-772 | exactly the nodes with an address and warm capacity for the pool |
| ClaimRouting.PoolMatchesIff | pkg/scale/sandboxstore_impl.go:787-792 | two keys match exactly when they are the same up to an unset net meaning "none" and an unset size "small" |
| ClaimRouting.TemplateCandidates | pkg/scale/sandboxstore_impl.go:774-785 | exactly the nodes with an address that hold the pool as a promoted template |
| ClaimRouting.NodeForAddress | pkg/scale/sandboxstore_impl.go:752-757 | a named result advertises the address; with named nodes an advertised address is found |
| ClaimRouting.PickPowerOfTwo | pkg/scale/sandboxstore_impl.go:794-804 | the pick is the warmer of the two sampled candidates, the first on a tie |
| ClaimRouting.ClaimRedirected | pkg/scale/sandboxstore_impl.go:354-374 | the walk asks known targets with redirects forbidden until one may have delivered; if none did, every known target was asked in vain |
| ClaimRouting.Remaining | pkg/scale/sandboxstore_impl.go:280-282 | exactly the candidates neither on the asked node nor at a redirect target stay, strictly fewer when the asked node was among them |
| ClaimRouting.ClaimLoop | pkg/scale/sandboxstore_impl.go:264-285 | the loop ends, only its last request may have delivered, and when it runs out every candidate was asked, unless a node redirected on the promoted route |
| ClaimRouting.Claim | pkg/scale/sandboxstore_impl.go:232-286 | for every sequence of answers and samples: it ends; every answer but the last is at capacity, a redirect, a failed dial or a 5xx, or a 404 on the promoted route; a success names a node advertising the delivering address; a refusal is the last answer, unknown or another status; no capacity means every warm node was asked and passed over so, and with no warm node and no redirect every holder of the template |
| ClaimRouting.RememberClaim | pkg/scale/sandboxstore_impl.go:273-274 | after a success both the name and the claim id lead to the delivering node |
| SandboxWatch.StreamGrammar | pkg/scale/sandboxstore_impl.go:423-458 | in a stream a receiver can replay, the events of a name go Added, Modified*, Deleted and again |
| SandboxWatch.ListIsTheFleet | pkg/scale/sandboxstore_impl.go:470-497 | the list is sorted by name and holds exactly the selected entries of every readable inventory |
| SandboxWatch.FirstMatchSpeaksForAll | pkg/scale/sandboxstore_impl.go:525-528 | looking at the first entry of a name gives every selector's verdict exactly when the node reports one entry per name |
| SandboxWatch.SecondEntryIsOverlooked | pkg/scale/sandboxstore_impl.go:507-510 | two entries of one name with which a running selected sandbox counts as gone |
| SandboxWatch.Watch.Announce | pkg/scale/sandboxstore_impl.go:402-408 | the first list is sent as one Added each, in order, and becomes exactly what is known |
| SandboxWatch.Watch.SendListed | pkg/scale/sandboxstore_impl.go:429-445 | the first half of a tick sends Added for exactly the listed sandboxes not known and Modified for exactly those at another version, once each; replaying then gives what was known overlaid with what is listed |
| SandboxWatch.SplitMissing | pkg/scale/sandboxstore_impl.go:446-457 | every missing name is either kept because it is held or dropped because it is not |
| SandboxWatch.Watch.SendDrops | pkg/scale/sandboxstore_impl.go:454-456 | exactly the dropped names are sent as Deleted and leave the receiver's view |
| SandboxWatch.Watch.Poll | pkg/scale/sandboxstore_impl.go:507-519 | what a poll lists: all inventories, the pinned name on its node, or any selected match of the name, none only if there is none |
| SandboxWatch.Watch.Diff | pkg/scale/sandboxstore_impl.go:429-458 | the events are exactly the difference, at most one a name: new, changed, and known but neither listed nor held; what is known is then what is listed or held |
| SandboxWatch.Watch.Tick | pkg/scale/sandboxstore_impl.go:423-458 | after every tick, failed polls included, replaying all events gives exactly what is known up to resource version; a pinned name is deleted only when neither its node's inventory nor the node itself shows it selected; a pinned watch knows what its node's inventory shows selected, else what it knew exactly if the node holds it; and an unknown pinned name is found, and sent as Added, exactly when some inventory shows it selected |
| SandboxWatch.Watch.Begin | pkg/scale/sandboxstore_impl.go:399-412 | the first list is known, and sent as Added, in order, then the bookmark; for a pinned name, whatever the hint, it is what was resolved if selected, else what some inventory shows selected, and it is empty if nothing in the fleet matches and not empty if something does and all of it is selected |
| SandboxWatch.Watch.Emit | pkg/scale/sandboxstore_impl.go:388-397 | an event is sent unless the receiver has stopped, and the watch closes only then |
| SandboxWatch.Watch.Run | pkg/scale/sandboxstore_impl.go:376-461 | and after any number of ticks; an unpinned watch then knows exactly what the fleet last listed |
| MeshMembership.Source.constructor | pkg/scale/meshinventory/source.go:87-90 | exactly the seeds are members, marked as seeds |
| MeshMembership.Source.Tick | pkg/scale/meshinventory/source.go:150-199 | one tick, in any iteration order, satisfies a relation between old and new members that mentions no order |
| MeshMembership.Tally | pkg/scale/meshinventory/source.go:152-158 | which addresses answers name, and whether anyone answered |
| MeshMembership.AgeMembers | pkg/scale/meshinventory/source.go:159-170 | every member is aged by its answer and exactly the silenced ones go |
| MeshMembership.Dedupe | pkg/scale/meshinventory/source.go:171-188 | of the members answering as one key exactly the seeds remain, else exactly one, preferring the one dialled at the key |
| MeshMembership.Grow | pkg/scale/meshinventory/source.go:189-196 | every named address neither a member nor an answered key is dialled anew |
| MeshMembership.Publish | pkg/scale/meshinventory/source.go:221-241 | the snapshot has a key exactly when some member's inventory of it is not too stale, and then the freshest |
| MeshMembership.TickKeepsSeeds | pkg/scale/meshinventory/source.go:150-199 | a tick keeps every seed and its mark and marks nobody else |
| MeshMembership.TickDropsIffSilent | pkg/scale/meshinventory/source.go:159-170 | a member that does not answer goes in a tick exactly if it is no seed, some member answered, no answer names it and its failures had reached the allowance |
| MeshMembership.NewcomersAreNamed | pkg/scale/meshinventory/source.go:189-196 | a newcomer starts afresh and is an address that some answer names and no answer has as its key |
| MeshMembership.UnheardTickKeepsMembers | pkg/scale/meshinventory/source.go:159-196 | a tick nobody answers changes no membership |
| MeshMembership.NamedIsCovered | pkg/scale/meshinventory/source.go:189-196 | after a tick every named address is a member or the key of a member that answered |
| MeshMembership.AnsweredKeyIsDeduped | pkg/scale/meshinventory/source.go:171-188 | over a whole tick: if a seed answered as the key exactly the answering seeds remain, else exactly one answering member, the one dialled at the key if it answered |
| MeshMembership.DedupedIsRedialledIffNamed | pkg/scale/meshinventory/source.go:183-195 | a removed duplicate is a member again in the same tick exactly when gossip names it and no answered key equals its address |
| MeshMembership.AnsweredKeyIsShown | pkg/scale/meshinventory/source.go:221-241 | every answered key is in the snapshot with an inventory read in this very tick |
| MeshMembership.SeedsStay | pkg/scale/meshinventory/source.go:150-199 | in every run exactly the seeds are marked, and every seed is always a member |
| MeshMembership.FailsCountSilence | pkg/scale/meshinventory/source.go:159-166 | in every run a failure count is exactly the length of the current streak of silent ticks: before it the member answered or was none |
| MeshMembership.SilenceDropsIff | pkg/scale/meshinventory/source.go:165-169 | in every run a silent member goes in a tick exactly if it is no seed, some member answered, none named it, and it was a silent member in that tick and the MaxStale before |
| MeshMembership.SilentKeyLeavesOnTime | pkg/scale/meshinventory/source.go:221-241 | once every holder of a key falls silent, the key stays in the snapshot for exactly MaxStale more ticks, whatever gossip says |
| WarmPool.SumTargets | pkg/scale/warmpool/driver.go:318-324 | a pool's target sum does not depend on map order |
| WarmPool.Distribute | pkg/scale/warmpool/driver.go:268-285 | each node gets its share; negative replicas count as none |
| WarmPool.SpreadConserves | pkg/scale/warmpool/driver.go:268-285 | the shares of a pool add up to its replicas |
| WarmPool.SpreadIsEven | pkg/scale/warmpool/driver.go:275-282 | and differ by at most one, the larger ones on the first nodes |
| WarmPool.PoolTargetIsReplicas | pkg/scale/warmpool/driver.go:318-324 | summed back over the map, a pool's targets are its replicas again |
| WarmPool.PutFor | pkg/scale/warmpool/driver.go:207-211 | one node's PUT asks, per key, for the sum over the pools of that key |
| WarmPool.SpecsOf | pkg/scale/warmpool/driver.go:212-222 | the PUT lists each key once, in order, with its sum |
| WarmPool.SpecOrderIs | pkg/scale/warmpool/driver.go:216-222 | that order is by template, then net, then size |
| WarmPool.PutsConserve | pkg/scale/warmpool/driver.go:205-211 | a key's targets over all nodes' PUTs are the replicas of the pools that resolve to it |
| WarmPool.PutsAreEven | pkg/scale/warmpool/driver.go:205-211 | a key's totals on two nodes differ by at most the number of pools sharing it |
| WarmPool.PutLists | pkg/scale/warmpool/driver.go:205-222 | one whole pass: the PUT lists themselves hold each key once in order, ask for a key over all nodes exactly as often as its pools want replicas, and differ between nodes by at most the number of those pools |
| WarmPool.Totals | pkg/scale/warmpool/driver.go:288-297 | the fleet's warm count and the target sum of every key |
| WarmPool.FloorShares | pkg/scale/warmpool/driver.go:298-305 | every pool's proportional share rounded down, and what each key has given out |
| WarmPool.RemainderFits | pkg/scale/warmpool/driver.go:306-314 | rounding down leaves no more units than the key has pools, so one extra unit each is enough |
| WarmPool.TopUp | pkg/scale/warmpool/driver.go:307-313 | the inner loop hands out one unit, or all that is left when the key has no target |
| WarmPool.ApportionWarm | pkg/scale/warmpool/driver.go:287-316 | the shares of a key's pools sum to exactly the fleet's warm count; each is the rounded-down share or one more; with no target the first pool takes everything |
| KubeInventory.Source.Put | pkg/scale/kubeinventory/source.go:137-144 | an event stores its object and the snapshot shows exactly the stored objects |
| KubeInventory.Source.Drop | pkg/scale/kubeinventory/source.go:146-156 | a delete removes its object and the snapshot follows |
| KubeInventory.BuildSnapshot | pkg/scale/kubeinventory/source.go:158-168 | one cap and stamp per object, in strict name order, and the newest stamp |
| KubeInventory.Source.ListNodes | pkg/scale/kubeinventory/source.go:79-88 | the names of the one listing all reads agree on |
| KubeInventory.Source.NodeCapacities | pkg/scale/kubeinventory/source.go:90-102 | that listing, whether or not the shared slice is handed out |
| KubeInventory.Source.Get | pkg/scale/kubeinventory/source.go:116-126 | found exactly when that listing has the node, and then the stored object |
| KubeInventory.GetAgrees | pkg/scale/kubeinventory/source.go:116-135 | a node is listed exactly when it is stored and its stamp trails the newest stamp or the clock, whichever is earlier, by no more than the limit |
| KubeInventory.ListingIsOrdered | pkg/scale/kubeinventory/source.go:79-102 | the listing is in strict name order |
| KubeInventory.ListedIsStored | pkg/scale/kubeinventory/source.go:158-164 | and carries what each node's object says |
| KubeInventory.RecentIsListed | pkg/scale/kubeinventory/source.go:128-135 | a stamp ahead of the clock evicts nobody that published within the limit of now |
| KubeInventory.NewestIsListedIff | pkg/scale/kubeinventory/source.go:133-175 | a non-empty fleet reads non-empty, newest publisher included, exactly when that stamp is within the limit of now, or the limit is not negative and the stamp not further than it before 1970 |
| KubeInventory.NegativeLimitReadsEmpty | pkg/scale/kubeinventory/source.go:133-135 | with a negative limit every fleet reads empty once the clock has passed its newest stamp |
| KubeInventory.FrozenWithoutEvents | pkg/scale/kubeinventory/source.go:128-135 | without events the listing no longer changes once the clock passes the newest stamp |
| KubeInventory.OlderOnlyShrinks | pkg/scale/kubeinventory/source.go:128-135 | and before that time only removes nodes |
| Base64Url.RoundTrip | pkg/e2bcompat/server.go:687-706 | unpadded base64url decodes to what was encoded, for every byte string |
| Base64Url.QuadIsTheBits | pkg/e2bcompat/server.go:706 | four sextets are the bits of three bytes in order (section 4 of RFC 4648) |
| Base64Url.AlphabetIs | pkg/e2bcompat/server.go:706 | the URL-safe alphabet (section 5 of RFC 4648) |
| Base64Url.EncodedLength | pkg/e2bcompat/server.go:706 | no padding: eight bits a byte in groups of six, rounded up |
| Base64Url.JoinsIff | pkg/e2bcompat/server.go:687 | a text is refused exactly when one symbol is left over |
| Base64Url.OnlySymbols | pkg/e2bcompat/server.go:687 | and at any character outside the alphabet |
| Pagination.TokenRoundTrip | pkg/e2bcompat/server.go:686-706 | a token parses back to its key exactly when the start time has no space |
| Pagination.ListPageOf | pkg/e2bcompat/server.go:670-695 | a request is accepted exactly when its limit is a number in range or absent, its order known or absent and its token parses or is absent; limit, order and cursor are then those |
| Pagination.DropSeen | pkg/e2bcompat/server.go:698-700 | the in-place delete keeps exactly the items past the cursor |
| Pagination.Cut | pkg/e2bcompat/server.go:697-707 | a page is the first limit items past the cursor, or all of them if they are fewer, sent with a token for its last key exactly when more follow |
| Pagination.PageIsFirst | pkg/e2bcompat/server.go:701-706 | whatever lies past the cursor and is not on the page comes after its last item |
| Pagination.PageOrderIs | pkg/e2bcompat/server.go:709-715 | the order is by start time and then id, and descending is its reverse |
| Ordering.CompareIsBytewise | pkg/e2bcompat/server.go:710 | the first byte that differs decides, else the shorter text comes first |
| Pagination.KeyTransitive | pkg/e2bcompat/server.go:709-715 | the key order is transitive in either direction, strictly if a step is strict |
| Pagination.ArrangedIsStrict | pkg/e2bcompat/server.go:697-701 | the sorted rest is strictly ordered and holds exactly what lies past the cursor |
| Pagination.WalkIsOrdered | pkg/e2bcompat/server.go:697-707 | following tokens while sandboxes come and go keeps strict order across pages, so repeats none |
| Pagination.WalkIsComplete | pkg/e2bcompat/server.go:697-707 | a walk that has ended showed every sandbox present throughout |
| ShellQuoting.LexShellQuote | pkg/e2bbuild/executor.go:474-476 | a quoted string continues the current word by exactly its own characters, anywhere in a line |
| ShellQuoting.QuotedIsOneWord | pkg/e2bbuild/executor.go:474-476 | a POSIX lexer reads it as one word equal to the string exactly when it has no NUL |
| ShellQuoting.WriteBlock | pkg/e2bbuild/copy.go:62-66 | in front of any text, also one the lexer stops in, the block is read as lines that assign exactly the given values and reading goes on afresh at that text; with a NUL in a value it is never read to its end |
| ShellQuoting.CopyScript | pkg/e2bbuild/copy.go:36-67 | the script is such a block in front of the move script, and after it each of the ten variables holds the step's own value |
| ShellQuoting.EscapedStaysInside | pkg/e2bbuild/executor.go:376-383 | for every value without a NUL the shell's scan reaches the builder's quote: no text of the value closes the double quotes or opens a command substitution, in whatever braces and quotes the value opens; it is read exactly as the value scanned by itself |
| ShellQuoting.ClosesIffMatched | pkg/e2bbuild/executor.go:376-383 | that quote ends the value exactly when every "${" of it is matched, with the quoted strings in its braces paired, and it holds no NUL; otherwise the line is never closed |
| ShellQuoting.UnmatchedBraceStaysOpen | pkg/e2bbuild/executor.go:376-383 | the value "${" leaves the shell without its closing quote |
| ShellQuoting.UnchangedIffNoExpansion | pkg/e2bbuild/executor.go:376-383 | a value is read as its own characters exactly when no dollar of it starts an expansion, and is then matched |
| ShellQuoting.ExpandIsFaithful | pkg/e2bbuild/executor.go:376-383 | the line is sure to give the value back exactly when no dollar of it starts an expansion and there is no NUL |
| SandboxIdentity.PublicID | pkg/e2bcompat/sandboxid.go:12-22 | always over the label alphabet, and an id already over it is unchanged |
| SandboxIdentity.ClaimIDInverts | pkg/e2bcompat/sandboxid.go:24-30 | ClaimID inverts PublicID on every claim id a node issues |
| SandboxIdentity.ClaimIDIs | pkg/e2bcompat/sandboxid.go:24-30 | only the published prefix is taken back; any other id is returned as given |
| SandboxIdentity.MatchesID | pkg/e2bcompat/sandboxid.go:36-62 | the in-place loop says yes exactly when both are non-empty and the ids are equal or the rendering is the requested one |
| SandboxIdentity.PortRoundTrip | pkg/envdproxy/route.go:69-75 | every printed port parses back |
| SandboxIdentity.DigitsOnly | pkg/envdproxy/route.go:67-70 | a number is read off exactly the texts of one or more digits, so no sign passes |
| SandboxIdentity.HostRoundTrip | pkg/envdproxy/route.go:48-65 | every port and label-safe id survive sandboxHost and routeOfHost |
| SandboxIdentity.HostPortRoundTrip | pkg/envdproxy/route.go:48-52 | also with a port on the host, for every domain free of colons and brackets |
| SandboxIdentity.SplitHostCuts | pkg/envdproxy/route.go:49-51 | a port is cut off a host without colons or brackets, and without one there is nothing to cut |
| SandboxIdentity.SplitHostUnbrackets | pkg/envdproxy/route.go:49-51 | and brackets around a host are taken off with it |
| SandboxIdentity.RouteIsSpelledOut | pkg/envdproxy/route.go:48-65 | conversely, an accepted host spells its port, a hyphen, the id and the domain |
| SandboxIdentity.ClaimHostRoundTrip | pkg/envdproxy/envdproxy.go:157-160 | claim id, public id, host, and back: the port, the public id and the claim all return |
| BuildExecutor.Executor.Register | pkg/e2bbuild/executor.go:189-195 | sweeps, then records a waiting build |
| BuildExecutor.Executor.Start | pkg/e2bbuild/executor.go:208-227 | only a waiting build with a free slot takes one and turns building; everything else changes nothing |
| BuildExecutor.Executor.Poll | pkg/e2bbuild/executor.go:229-241 | returns the record unless it finished, or is waiting since its registration, more than 3600 seconds ago |
| BuildExecutor.Executor.Finish | pkg/e2bbuild/executor.go:428-435 | a known build turns terminal; an unknown one changes nothing |
| BuildExecutor.Executor.Sweep | pkg/e2bbuild/executor.go:451-457 | exactly the records go that finished, or are waiting since their registration, more than 3600 seconds ago |
| BuildExecutor.TraceAdvances | pkg/e2bbuild/executor.go:243-299 | every answer keeps a run's calls in the prescribed order: good ones so far, and once one failed exactly those before it, then the one release |
| BuildExecutor.StepInv | pkg/e2bbuild/executor.go:189-299 | every step of every interleaving keeps slots equal to runs in flight within capacity, and every record in line with its run |
| BuildExecutor.EveryRunIsSound | pkg/e2bbuild/executor.go:243-299 | so in every run; ready means every call succeeded in order, and a failed build made exactly the calls before the failing one and released its claim once if it had one |
| BuildExecutor.PromotedMeansPrepared | pkg/e2bbuild/executor.go:258-299 | in every run, a build that promoted had claimed, done every step, initialized, started and become ready, in order; one that published had promoted right before |
| BuildExecutor.NothingFollowsFailure | pkg/e2bbuild/executor.go:243-268 | once a call failed the build makes none but its release, for good; a build that failed before or at its promote never promotes or publishes |
| BuildExecutor.StatusMovesForward | pkg/e2bbuild/executor.go:208-241 | a status only moves waiting to building to ready or error, a building record is never swept and a terminal one never changes |
| BuildExecutor.ReleaseComesFirst | pkg/e2bbuild/executor.go:258-267 | the step that ends a build finds its one release already made |
| BuildExecutor.FinishedIsKept | pkg/e2bbuild/executor.go:229-241 | in every run a finished record stays, for every poll, while no sweep reads a clock more than 3600 seconds past its end |
| BuildExecutor.WaitingIsKept | pkg/e2bbuild/executor.go:208-215 | in every run a waiting record stays, so that a start finds it, while no sweep reads a clock more than 3600 seconds past its registration |
| BuildExecutor.ExpiredIsGone | pkg/e2bbuild/executor.go:451-457 | the first sweep later than that removes it for good |
| BuildExecutor.RunsEnd | pkg/e2bbuild/executor.go:243-268 | whatever the answers, every advance brings a run nearer to its end, and the last frees its slot |
| BuildExecutor.GoodBuildEndsReady | pkg/e2bbuild/executor.go:208-268 | a waiting build started with a slot free whose calls succeed ends ready, with every call made in order and its slot free |

## Left out

- TemplatePublish.PublishConverges: other deleters (a client deleting a template, the tag endpoints) are not steps; with one of them there is nothing to converge to.
- TemplatePublish.PublishIsSafe: whether nodes keep a slot's stamps from going back and its digests from repeating is not decided here; the operator relies on both and checks neither, and PublishLimits says what follows where they do not hold.
- TemplateHolders.BuiltTemplates: the cpu and memory fields of a record, which are copied from the first copy and never compared.
- FleetLookup.Resolve: answers are fixed during one call, only listed nodes answer, and the caller's context is not cancelled; that a hit names the node it was read from, and stays indexed there, needs every inventory to carry the name it is listed under, which api/v1beta1/nodeinventory_types.go:117 asks of nodes and pkg/scale/kubeinventory/source.go:141-142, keyed by object name, does not check. EntryFromSummary's field mapping is part of the node's answer.
- FleetLookup.FirstHit: the fan-out limit is not modelled, since it only removes interleavings.
- ClaimRouting.Claim: on the promoted route, which holders were left unasked once a node redirected, since a 404 from a redirect target ends the walk; exhaustiveness needs every node listed once with a name, as all inventory sources list them. That a 5xx means no VM was handed over is the code's own reading; a gateway's 504 would prove nothing.
- SandboxWatch.Watch.Tick: an unpinned poll that lists one name twice, for which the diff promises no replay; the resource version is an opaque function of the entry.
- MeshMembership.Source.Tick: how a failed first tick is reported to the caller of New, and the sorted node and capacity lists of a snapshot, which are views of its map.
- WarmPool.ApportionWarm: negative warm counts, and overflow of the product of two 64-bit numbers; counts are unbounded naturals.
- KubeInventory.Source.Get: overflow of the 64-bit nanosecond difference; times are unbounded.
- Pagination.ListPageOf: the text of the limit; whether it is a number, and which, is a parameter.
- ShellQuoting.CopyScript: path.Join and globBase, whose result is the `source` parameter, and what the move script, a parameter, does with its variables.
- ShellQuoting.EscapedStaysInside: what the guest's shell expands a parameter to, and how output lines are joined again; forms beyond the POSIX shell: "$[" in bash, and the "${ command; }" and "${| command; }" of bash 5.3, which run a command and which the escaper leaves as they are. A dollar that starts no expansion, which POSIX leaves open, is read as itself, and an odd number of quotes in braces, which POSIX forbids, as an open string.
- SandboxIdentity.MatchesID: strings that are not valid UTF-8, and Unicode lower-casing beyond ASCII, which is a parameter.
- BuildExecutor.EveryRunIsSound: log lines, failure messages, the effect of a step on the guest and the user, workdir and environment that prepare threads through; a run is its sequence of remote calls.
- HTTP, TLS, relays, Kubernetes informers and REST storage: their answers are inputs of the models.
- Flags, commands, charts and generated code: no property that spans operations.
