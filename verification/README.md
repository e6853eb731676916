# ndn-repo, verified model

A Dafny model of the parts of `ndn-repo` and `ndn-repo-cluster` whose correctness spans several
functions or a whole state machine, with proofs about every input, every run and every reachable state.

* **The holder's erasure-coded store** (`Shards`, `Durability`, `Stripes`, `Scans`, `ScanExact`,
  `Held`, `StoreRuns`, `Starvation`, `Interleaving`, `Uninterrupted`, `SteadyReads`, `Holder`,
  `HolderRuns`). Every packet is spread over `n` stripes, any `k` of which rebuild it. The classes `ErasureStore` and `HolderStore` keep the
  source's loops; they are proved against `Readable`, the plain `Name -> wire` map the stripes stand for.
  `StoreRuns` proves that runs with faults behave like a map, `Interleaving` that the write lock is
  enough when every stripe access is a step of its own, `SteadyReads` that reads then also answer, and
  `Uninterrupted` that those steps, taken in a row, are the class's operations.
* **Coordinator-free placement** (`Cluster`, `Placement`, `Ranking`, `Gossip`, `Node`, `Shedding`, `Rounds`,
  `SharedView`, `Simulation`, `Convergence`). Nodes fold gossip into a view and decide alone; the rounds
  are those of the simulator in `node.rs`, its first one included, for any number of nodes, jobs and
  rounds.
* **The object coder** (`ObjectCoder`, `Manifests`), and with placement, `Custody`.
* **The wire codecs** (`Tlv`, `FieldLoops`, `Names`, `Commands`, `Replies`, `ClusterWire`), over the TLV
  layer of the NDN Packet Format Specification 0.3.
* **Ingest** in both its modes (`Ingest`).

`Octets`, `Orders` and `Coding` hold what the others share: octet strings and big-endian numbers, sorted
sequences of a finite set, and the erasure codec.

`dafny verify dfyconfig.toml` checks everything.

## Assumptions

* The erasure codec is a value with three laws (`Coding.Lawful`): parity has the length of the sources,
  any `k` genuine shards give the sources back, and whatever else `k` equally long shards give has the
  shape of sources. `Coding.SumCodecIsLawful` exhibits a codec that satisfies them.
* The digest is an arbitrary function onto 32 octets. That two wires do not collide is a hypothesis
  where it is needed, and only about the wires in play; the theorems on lost, corrupted and misplaced
  shards need none.
* A faulty record is absent, fails its own check or sits in the wrong stripe. A record forged with valid
  digests is outside the durability theorems, but not outside `Shards.VerdictIsChecked`.

## Where the code and its comments differ

The comment on `scan` (`crates/ndn-repo/src/held.rs:371-374`) promises no answer when a stripe's scan was
cut short before `limit` packets were judged on a complete view. The loop
(`crates/ndn-repo/src/held.rs:399-410`) can run out of rows first and then answers with too little.
`Starvation.ScanMissesZ` is such a store; `ScanExact.ScanUnderIsMapScan` says exactly when it happens, in
terms of what the stripe scans brought back and of which packets rebuild; `ScanExact.CarefulScanIsExact`
proves the scan that keeps the comment's promise.

The comment on `tick` (`crates/ndn-repo-cluster/src/node.rs:128-129`) says a node sheds when it is over
capacity, and that of the watermark (`crates/ndn-repo-cluster/src/coord.rs:40-42`) that a full node sheds
what is over-replicated. The code asks neither question: a node sheds a job it claims when at least as
many live claimants as the factor rank before it (`Shedding.ReleasedExactly`). `Shedding.EmptyNodeSheds` is a
view in which an empty node sheds; `Shedding.RoomyKeep` and `Shedding.FullShed` say exactly when nodes
below the watermark shed nothing and when those above it all do.

## Model

| member | source | states |
|---|---|---|
| `Shards.SegmentIsSlice` | `crates/ndn-repo/src/held.rs:241-255` | clamping each segment to the packet (the holder) and padding the object then cutting it (the object coder) are one split |
| `Shards.Padding` | `crates/ndn-repo/src/held.rs:237` | `k` segments always hold the packet, and a packet that is not empty leaves fewer than `k` octets of padding |
| `Shards.SourcesRejoin` | `crates/ndn-repo/src/held.rs:314-319` | the segments joined and cut to the recorded length are the packet, for every packet and every `k >= 1` |
| `Shards.RecordIsGood` | `crates/ndn-repo/src/held.rs:239-247` | a written record passes its own check at its own stripe, as a shard of that packet, and at no other stripe |
| `Shards.PassesExactly` | `crates/ndn-repo/src/held.rs:266-285` | a record passes at a stripe exactly when it is, octet for octet, the stripe's number, the wire's length and digest, the digest of the body, and as much body as a wire of that length has in a shard |
| `Shards.MembersAreVoters` | `crates/ndn-repo/src/held.rs:291-303` | the group of one wire is exactly the stripes whose record checks out and names that wire |
| `Shards.VerdictIsChecked` | `crates/ndn-repo/src/held.rs:304-329` | for arbitrary stripe contents and with no assumption on the digest: any wire returned has the recorded length and digest of at least `k` records that pass their own checks, no other wire has more, and the stale list is exactly the other stripes |
| `Shards.TiesGoToTheLater` | `crates/ndn-repo/src/held.rs:304-307` | between groups of one size the one that appears last in stripe order is taken |
| `Shards.HonestVerdict` | `crates/ndn-repo/src/held.rs:304-329` | when every good shard belongs to one of a set of collision-free wires, the answer is one of them, held by at least `k` stripes and by no fewer than any other; there is no answer only when no wire has `k` |
| `Shards.WinnerUnique` | `crates/ndn-repo/src/held.rs:304-307` | the choice of group is determined: the largest of at least `k`, and of equal ones the last to appear |
| `Durability.SurvivesDamage` | `crates/ndn-repo/src/held.rs:14-31` | with at most `n - k` stripes lost, corrupted or misplaced the packet reads as written, and exactly those stripes are stale; no digest assumption |
| `Durability.OneGroupQualifies` | `crates/ndn-repo/src/held.rs:304-307` | when `2k > n`, two different wires can never both have `k` good shards, whatever is stored |
| `Durability.InterruptedInsert` | `crates/ndn-repo/src/held.rs:434-437` | an insert stopped after any subset of stripes over a fully stored packet reads as the old wire, the new one or nothing, never a mixture, and says which counts lead to which |
| `Durability.InterruptedAlwaysReads` | `crates/ndn-repo/src/held.rs:434-437` | it reads as one of the two wires for every subset if and only if `n >= 2k - 1` |
| `Stripes.ReadableIsVerdict` | `crates/ndn-repo/src/held.rs:440-442` | a name reads exactly when it is in the map the stripes stand for, with that wire |
| `Stripes.InsertedReads` | `crates/ndn-repo/src/held.rs:434-437` | after an insert over any contents whatsoever, the map is the old one with the name bound to the wire, and nothing is stale |
| `Stripes.RemovedReads` | `crates/ndn-repo/src/held.rs:464-469` | after a remove, the map is the old one without the name |
| `Stripes.RepairFills` | `crates/ndn-repo/src/held.rs:341-360` | a repair leaves all `n` stripes holding exactly the encoding of the wire that reads |
| `Stripes.RepairKeepsMap` | `crates/ndn-repo/src/held.rs:341-360` | a repair changes no packet of the store |
| `Stripes.SoundRepairs` | `crates/ndn-repo/src/held.rs:341-369` | on a store whose good shards are all of written, collision-free wires, the repairs of reads and scans change no packet and leave it such a store |
| `Stripes.WritesKeepSound` | `crates/ndn-repo/src/held.rs:415-469` | an insert or a remove over anything such a store held leaves it such a store |
| `Held.ErasureStore.Encode` | `crates/ndn-repo/src/held.rs:234-262` | the `n` records of a packet, through the stateful encoder |
| `Held.ErasureStore.Assemble` | `crates/ndn-repo/src/held.rs:289-329` | the grouping, selecting and decoding loops compute the verdict on a row of records |
| `Held.ErasureStore.FindBest` | `crates/ndn-repo/src/held.rs:304-307` | of the groups of at least `k`, the largest, the last one on ties |
| `Held.ErasureStore.Decode` | `crates/ndn-repo/src/held.rs:308-329` | feeding the group to the decoder until it is complete gives the decoding of its first `k` members, checked against the digest |
| `Held.ErasureStore.Repair` | `crates/ndn-repo/src/held.rs:341-360` | rewrites exactly the stale stripes, judged on what the stripes hold now |
| `Held.ErasureStore.Rebuild` | `crates/ndn-repo/src/held.rs:363-369` | answers with what the row reads as, and repairs when a stripe lacked a good shard |
| `Held.ErasureStore.Get` | `crates/ndn-repo/src/held.rs:440-442` | the lookup of the name in the map the stripes stand for, which are repaired on the way |
| `Held.ErasureStore.Contains` | `crates/ndn-repo/src/held.rs:447-449` | whether at least `k` stripes hold anything under the name |
| `Held.ErasureStore.Insert` | `crates/ndn-repo/src/held.rs:415-438` | binds the name in the map, or for a wire of 2^32 octets or more changes nothing and records the refusal |
| `Held.ErasureStore.Remove` | `crates/ndn-repo/src/held.rs:464-469` | unbinds the name in the map |
| `Held.ErasureStore.Gather` | `crates/ndn-repo/src/held.rs:376-398` | the rows and the watermark collected stripe by stripe are the cut-short scans and the smallest last key among them |
| `Held.ErasureStore.Scan` | `crates/ndn-repo/src/held.rs:375-411` | the answer and the repaired stripes of one scan |
| `Held.ErasureStore.JudgeRows` | `crates/ndn-repo/src/held.rs:399-410` | rows are judged in key order until the limit, the watermark or the end, on what was gathered although repairs go on beside it |
| `Held.ErasureStore.ScanUnder` | `crates/ndn-repo/src/held.rs:458-462` | the cut-short scan, or the unlimited one when that gave up |
| `StoreRuns.RunsRefineMap` | `crates/ndn-repo/src/held.rs:289-369` | over every run of inserts, removes, gets, scans and faults that spare `k` stripes of each packet between its reads, every get returns the last inserted wire or nothing after a remove and leaves all `n` stripes holding its encoding; every scan answers with an initial segment of the map, and with the map's own scan exactly when it is not starved |
| `StoreRuns.StepFaithful` | `crates/ndn-repo/src/held.rs:415-469` | every operation and every allowed fault keeps the relation between the stripes and the plain map |
| `StoreRuns.FaithfulReads` | `crates/ndn-repo/src/held.rs:289-329` | within the fault budget the map the stripes stand for is the plain map |
| `StoreRuns.FreshIsFaithful` | `crates/ndn-repo/src/held.rs:212-226` | a freshly opened store stands for the empty map |
| `StoreRuns.InterruptedThenRead` | `crates/ndn-repo/src/held.rs:341-369` | the read after an interrupted insert makes all stripes agree on the wire it returned |
| `StoreRuns.ReadImpliesContains` | `crates/ndn-repo/src/held.rs:444-449` | a packet that reads is reported present |
| `StoreRuns.ContainsImpliesRead` | `crates/ndn-repo/src/held.rs:444-449` | when all records present are good ones of one wire, presence and reading coincide in both directions |
| `Scans.SeenCompletely` | `crates/ndn-repo/src/held.rs:378-398` | up to the watermark, every stripe that holds a name has returned it |
| `Scans.ScanIsInitialSegment` | `crates/ndn-repo/src/held.rs:375-411` | a scan that answers gives an initial segment, in key order, of the packets that read, at most `limit`, and stops early only at `limit`; it gives up only on a name beyond the watermark |
| `Scans.MapScanInOrder` | `crates/ndn-repo/src/store.rs:24-28` | a plain store's scan lists packets under the prefix in the octet order of their keys, those under any longer prefix standing together |
| `ScanExact.AnswerIsExact` | `crates/ndn-repo/src/held.rs:371-411` | a cut-short answer is the first `limit` packets if and only if the scan was not starved: no name brought back lies beyond the watermark and yet one of the first `limit` packets does |
| `ScanExact.FullScanIsExact` | `crates/ndn-repo/src/held.rs:375-411` | an unlimited scan is exact |
| `ScanExact.ScanUnderIsMapScan` | `crates/ndn-repo/src/held.rs:458-462` | with the fallback and the repairs made before it, the answer is an initial segment, and the plain map's scan if and only if not starved |
| `ScanExact.AllReadableNeverStarved` | `crates/ndn-repo/src/held.rs:371-411` | when every stored name under the prefix rebuilds, no scan is starved |
| `ScanExact.FoundIsExact` | `crates/ndn-repo/src/held.rs:399-410` | exact whenever no stripe was cut short or `limit` packets were found |
| `ScanExact.CarefulScanIsExact` | `crates/ndn-repo/src/held.rs:371-374` | the scan that falls back whenever a stripe was cut short and fewer than `limit` were found, as the comment promises, is always exact |
| `ScanExact.ScanUnderInOrder` | `crates/ndn-repo/src/held.rs:378-411` | whatever the stripes hold, the erasure store's listing is in the octet order of the keys, of names under the prefix |
| `Starvation.ScanMissesZ` | `crates/ndn-repo/src/held.rs:399-410` | a concrete store (`k = 2`, `n = 3`, `limit = 2`) on which the scan answers with one packet although a second rebuilds |
| `Interleaving.RunsAreSafe` | `crates/ndn-repo/src/held.rs:202-204` | over every interleaving of inserts, removes, repairs, single stripe reads and faults: with the lock free every good shard of a name is of its last committed wire, a repair only ever writes the committed wire, and a read returns a wire committed at its start or one whose insert it overlapped |
| `Interleaving.StepKeepsInv` | `crates/ndn-repo/src/held.rs:335-369` | every atomic step keeps the invariant |
| `Interleaving.JudgeStep` | `crates/ndn-repo/src/held.rs:341-344` | a repair that judges under the lock sees only shards of the committed wire |
| `Interleaving.CleanVerdict` | `crates/ndn-repo/src/held.rs:289-329` | a row gathered one stripe at a time reads as one of the wires that were current while it was gathered |
| `Uninterrupted.InsertAlone` | `crates/ndn-repo/src/held.rs:434-437` | an insert's stripe writes, taken in a row, are the store's insert |
| `Uninterrupted.RemoveAlone` | `crates/ndn-repo/src/held.rs:464-469` | a remove's stripe writes, taken in a row, are the store's remove |
| `Uninterrupted.RepairAlone` | `crates/ndn-repo/src/held.rs:341-360` | a repair's reads and writes, taken in a row, are the store's repair |
| `Uninterrupted.LockIsReleased` | `crates/ndn-repo/src/held.rs:195-205` | in every state the invariant allows, whoever holds the lock gives it up by its own steps: an insert or a remove after at most `n + 1`, a repair that is still judging after at most `2n + 2` |
| `SteadyReads.SteadyReadAnswers` | `crates/ndn-repo/src/held.rs:440-442` | a read that no insert or remove of its name overlaps, with damage confined to at most `n - k` of the packet's stripes, answers with exactly the committed wire, whatever repairs and other writes run beside it, and until then can take its next stripe |
| `SteadyReads.InsertMakesSteady` | `crates/ndn-repo/src/held.rs:434-437` | an insert that ran to its end leaves the packet in the state such a read needs |
| `Names.KeyPrefix` | `crates/ndn-repo/src/store.rs:24-28` | a name's store key begins with another's exactly when the other is a prefix of the name |
| `Names.KeyInjective` | `crates/ndn-repo/src/store.rs:24-28` | different names have different store keys |
| `Names.KeyOctets` | `crates/ndn-repo/src/store.rs:24-28` | a name's key is its components in turn, each as its type, its length and its value, one octet for each of the first two when both are short |
| `Names.KeyLessIsOctetOrder` | `crates/ndn-repo/src/held.rs:378-398` | the order of scans and merges, a strict total one, is that of the keys' octets: a proper prefix first, and otherwise the first octet that differs decides |
| `Names.NothingBetween` | `crates/ndn-repo/src/store.rs:24-28` | no name outside a prefix lies between two names under it |
| `Names.NameTlvRoundTrip` | `crates/ndn-repo-cluster/src/erasure.rs:85-90` | a name decodes from its own TLV to itself |
| `Holder.MergeIsUnionScan` | `crates/ndn-repo/src/held.rs:614-633` | the two-way merge of the full scans of two maps with no common name is the scan of their union |
| `Holder.MergeBounded` | `crates/ndn-repo/src/held.rs:617-633` | the bounded merge is the beginning of the unbounded one |
| `Holder.MergeShorter` | `crates/ndn-repo/src/held.rs:615-633` | a bounded merge needs no more than `limit` rows of either side |
| `Holder.UnderOwnPrefix` | `crates/ndn-repo/src/held.rs:569-571` | names under an own prefix are own, and an own name can lie under a prefix only if that prefix is own or a prefix of one of the two own prefixes |
| `Holder.HolderScanIsMapScan` | `crates/ndn-repo/src/held.rs:606-634` | the own shortcut, the held shortcut and the merge all give the first `limit` entries of the one map the halves form, given the held half returned its own first `limit` |
| `Holder.HolderListingInOrder` | `crates/ndn-repo/src/held.rs:606-634` | whatever the stripes hold, a holder's listing is in the octet order of the keys |
| `Holder.HolderStore.Insert` | `crates/ndn-repo/src/held.rs:575-581` | a name under the device's own or under `/localhost` goes to the plain half and no stripe is touched; any other gets its record in every stripe and the plain half is not touched; in the one map the name is bound, and no name is ever in both halves |
| `Holder.HolderStore.Get` | `crates/ndn-repo/src/held.rs:583-589` | the lookup in the plain half for a name under one of the two prefixes, with the stripes untouched, and in the map the stripes stand for otherwise |
| `Holder.HolderStore.Remove` | `crates/ndn-repo/src/held.rs:636-642` | unbinds the name in the half its prefix decides, and leaves the other half alone |
| `Holder.HolderStore.ScanUnder` | `crates/ndn-repo/src/held.rs:606-634` | the scan of the one map, whenever the held half's scan was its own map's; the held stripes afterwards are the repaired ones, and on a sound store no packet of either half is changed |
| `Holder.HolderStore.MergeBoth` | `crates/ndn-repo/src/held.rs:614-633` | the peeking loop is the merge |
| `HolderRuns.OwnNamesAreNeverLost` | `crates/ndn-repo/src/held.rs:6-12` | over every run of inserts, removes, reads and scans with anything at all happening to the stripes in between, a name under the device's own or under `/localhost` reads as it was last written |
| `HolderRuns.LostStripesLoseNothing` | `crates/ndn-repo/src/held.rs:33-39` | losing any `n - k` whole stripes of a store with nothing else wrong loses no packet and brings none back |
| `HolderRuns.StoredSurvivesLoss` | `crates/ndn-repo/src/held.rs:33-39` | a packet stored for another device, over whatever the store held, reads after any `n - k` stripes are lost |
| `Coding.SumCodecIsLawful` | `crates/ndn-repo/src/held.rs:49` | the laws the codec is used under can be met: a sum-parity codec satisfies them for every `k` and `n = k + 1` |
| `Cluster.ClusterState.ObserveHeartbeat` | `crates/ndn-repo-cluster/src/coord.rs:126-137` | the fold of a heartbeat |
| `Cluster.ClusterState.SortByRank` | `crates/ndn-repo-cluster/src/coord.rs:188-201` | whatever order a map gives its nodes up in, sorting them yields the one sequence sorted by utilisation and name |
| `Cluster.ClusterState.RankedLiveNodes` | `crates/ndn-repo-cluster/src/coord.rs:188-201` | the live nodes in rank order |
| `Cluster.ClusterState.Keepers` | `crates/ndn-repo-cluster/src/coord.rs:329-350` | the designated keepers, through the sort of the live claimants |
| `Cluster.LiveExactly` | `crates/ndn-repo-cluster/src/coord.rs:57-61` | a known node is live up to and including its last stamp plus the interval times the heartbeats it may miss, in unbounded numbers, whether or not the product fits 64 bits |
| `Ranking.EmptierClaimsFirst` | `crates/ndn-repo-cluster/src/coord.rs:182-201` | of two live nodes that do not claim a job, the one with the smaller used share, compared on the gossiped numbers, or the same share and the earlier name, is asked first if it is below the watermark |
| `Ranking.EmptierKeepsFirst` | `crates/ndn-repo-cluster/src/coord.rs:329-350` | of two live claimants that one keeps the job first, below the watermark or not |
| `Ranking.EmptierHoldsFirst` | `crates/ndn-repo-cluster/src/coord.rs:216-222` | of two live nodes that one gets the lower shard index if it is below the watermark |
| `Ranking.PoolsHaveRoom` | `crates/ndn-repo-cluster/src/coord.rs:180-184` | the nodes that can be asked are exactly the live ones whose used amount is below the watermark times their total, a total of 0 counting as empty |
| `Ranking.FullTakeNothing` | `crates/ndn-repo-cluster/src/coord.rs:180-184` | a node at or above that is never designated and never a shard holder |
| `Placement.BestIsUnique` | `crates/ndn-repo-cluster/src/coord.rs:195-200` | there is one sequence of the `count` best of a pool: rank order, no node left out before a chosen one |
| `Placement.ClaimersAreBest` | `crates/ndn-repo-cluster/src/coord.rs:291-306` | claimers are the best of the live nodes with room that do not claim, exactly enough to reach the factor |
| `Placement.KeepersAreBest` | `crates/ndn-repo-cluster/src/coord.rs:329-350` | keepers are the best of the live claimants, up to the factor |
| `Placement.HoldersAreBest` | `crates/ndn-repo-cluster/src/coord.rs:216-222` | shard holders are the best of the live nodes with room |
| `Placement.IndicesAreARange` | `crates/ndn-repo-cluster/src/coord.rs:226-231` | in one view no two nodes share a shard index, and the indices in use are exactly `0..min(n, eligible nodes)` |
| `Placement.PlanExactly` | `crates/ndn-repo-cluster/src/coord.rs:246-255` | a node has a plan exactly when the job is an erasure job, the node is live with room and fewer such nodes than shards rank before it; its index is how many do, and its `k` and `n` are the job's |
| `Placement.ClaimersHaveShards` | `crates/ndn-repo-cluster/src/coord.rs:246-255` | every node designated to claim an erasure job has a plan with the job's `k` and `n` and an index below `n`, in every state |
| `Placement.ClaimerIsHolder` | `crates/ndn-repo-cluster/src/coord.rs:210-215` | a designated claimer is among the shard holders, however many claimants there are and whatever their capacity |
| `Placement.FreshClaimersAreHolders` | `crates/ndn-repo-cluster/src/coord.rs:210-215` | with no claimants yet, the claimers are the shard holders in shard order |
| `Custody.PlanIsAnnounced` | `crates/ndn-repo-cluster/src/coord.rs:246-255` | after any messages a plan carries the spec last announced for its job |
| `Custody.AnyHoldersRebuild` | `crates/ndn-repo-cluster/src/coord.rs:246-255` | of the nodes one view gives plans for a job, any `k` of them, `k` and `n` as their plans say, each giving the shard of its plan, give the object back through `reconstruct`, whatever junk failing its hash comes with them |
| `Custody.AnyClaimersRebuild` | `crates/ndn-repo-cluster/src/coord.rs:287-306` | the same for any `k` of the designated claimers |
| `Gossip.StepsCommute` | `crates/ndn-repo-cluster/src/node.rs:102-126` | any two messages commute except a claim and a release of one job by one node, two heartbeats of one node with one stamp, and two announcements of one target with different specs |
| `Gossip.InterleavingsAgree` | `crates/ndn-repo-cluster/src/node.rs:102-126` | two interleavings that keep each publisher's own order fold to one state when messages of different publishers are independent |
| `Gossip.HonestGossipConverges` | `crates/ndn-repo-cluster/src/node.rs:102-126` | so they do when each node speaks only for itself and every target has one announced spec |
| `Gossip.FoldOfSet` | `crates/ndn-repo-cluster/src/coord.rs:126-170` | pairwise independent messages fold to one state in any order and with any repetition |
| `Gossip.BeatsAndClaimsReorder` | `crates/ndn-repo-cluster/src/coord.rs:125-163` | heartbeats with distinct stamps and claims tolerate any order and duplication |
| `Gossip.LatestBeatWins` | `crates/ndn-repo-cluster/src/coord.rs:125-137` | whatever order heartbeats came in, a node is known as its latest one says |
| `Gossip.LastWordStands` | `crates/ndn-repo-cluster/src/coord.rs:158-170` | after any messages, a node claims a job exactly when its last word on it was a claim, or nothing was said and it did before |
| `Gossip.AnnouncementsStand` | `crates/ndn-repo-cluster/src/coord.rs:139-156` | after any messages, a job has the last erasure spec and the last copy count other than 0 announced for it, or those it had; claims, releases and heartbeats change neither, and neither kind of announcement the other |
| `Node.ClusterNode.Observe` | `crates/ndn-repo-cluster/src/node.rs:102-126` | a gossiped message is folded into the view |
| `Node.ClusterNode.Tick` | `crates/ndn-repo-cluster/src/node.rs:131-170` | the heartbeat, then exactly the jobs to release, each once, then exactly the jobs to claim, each once, with the view after it and the messages for all of them |
| `Node.NeverDropAndIngest` | `crates/ndn-repo-cluster/src/node.rs:150-168` | from any state a tick never drops and ingests the same job |
| `Node.ClaimsAreDesignated` | `crates/ndn-repo-cluster/src/node.rs:150-168` | shedding first does not change what a node claims |
| `Shedding.ReleasedExactly` | `crates/ndn-repo-cluster/src/coord.rs:352-365` | a node sheds a job exactly when it is a live claimant and at least as many live claimants as the factor rank before it; its own capacity plays no other part |
| `Shedding.EmptyNodeSheds` | `crates/ndn-repo-cluster/src/node.rs:128-129` | a view in which a node with nothing stored sheds a job, contrary to the comment |
| `Shedding.RoomyKeep` | `crates/ndn-repo-cluster/src/node.rs:128-129` | no node below the watermark sheds a job if and only if no more live claimants than its factor are below the watermark |
| `Shedding.FullShed` | `crates/ndn-repo-cluster/src/coord.rs:40-42` | every live claimant at or above the watermark sheds a job if and only if there is none, or the live claimants below it reach the factor |
| `Shedding.NonFullShedNothing` | `crates/ndn-repo-cluster/src/node.rs:128-129` | over the whole view, nodes below the watermark shed nothing if and only if every job has no more live claimants below it than its factor |
| `Node.TickSettles` | `crates/ndn-repo-cluster/src/node.rs:131-170` | after a tick the node has nothing to release or claim at that time, so a second tick with the same capacity emits only a heartbeat and changes nothing |
| `Rounds.ClaimantsLeft` | `crates/ndn-repo-cluster/src/node.rs:295-314` | the live claimants a round leaves are those that owed no release and those that were designated |
| `Rounds.AnySubsetStaysBetween` | `crates/ndn-repo-cluster/src/node.rs:295-314` | whichever live nodes tick from a shared view, a job with `L` live claimants and factor `R` ends with between `min(L, R)` and `max(L, R)` |
| `Rounds.AllTickReachFactor` | `crates/ndn-repo-cluster/src/node.rs:295-314` | when all live nodes tick it ends with exactly `R` if `L >= R`, and otherwise with `min(R, L + E)`, `E` the live nodes with room that did not claim |
| `Simulation.SettledRoundsAreQuiet` | `crates/ndn-repo-cluster/src/node.rs:295-314` | from a settled view, every later round publishes heartbeats only |
| `Simulation.NextLive` | `crates/ndn-repo-cluster/src/coord.rs:174-178` | nodes that ticked are live at the next round, and nobody counted dead comes back |
| `SharedView.TickIsWhatItPublished` | `crates/ndn-repo-cluster/src/node.rs:131-170` | what a node publishes in a tick, folded, is the view the tick leaves |
| `SharedView.PlayedIsIndependent` | `crates/ndn-repo-cluster/src/node.rs:295-314` | the messages of a round are pairwise independent, whatever view it starts from and whatever the capacities |
| `SharedView.EveryRoundCanBePlayed` | `crates/ndn-repo-cluster/src/node.rs:295-314` | from any view, any nodes with any capacities can play a round at any time |
| `SharedView.RoundKeepsOneView` | `crates/ndn-repo-cluster/src/node.rs:307-313` | from any view, with any nodes ticking, live in it or not, with any capacities: a node that ticked and folded the others' messages, and one that only listened, end the round with the same view |
| `SharedView.RunKeepsOneView` | `crates/ndn-repo-cluster/src/node.rs:295-314` | over every run of such rounds all nodes, each folding what it heard into what its own ticks left it, have one view before every round |
| `SharedView.TickersAreKnown` | `crates/ndn-repo-cluster/src/coord.rs:126-137` | after a round everyone who ticked is live in the view and, unless its clock went back, known by the capacity it ticked with |
| `SharedView.SilentAreKept` | `crates/ndn-repo-cluster/src/coord.rs:126-137` | what is known of a node that did not tick does not change |
| `Convergence.ConvergesFromAnywhere` | `crates/ndn-repo-cluster/src/node.rs:295-314` | rounds of any nodes from any view, fresh or stale about them: from the second round on every round moves every job towards its factor and not past it, and the first whose live nodes are the ticking ones reaches it, after which only heartbeats are published |
| `Convergence.SteadyRoundsExist` | `crates/ndn-repo-cluster/src/node.rs:295-314` | from any view and for any nodes there are such runs, at any times no further apart than the limit |
| `Convergence.FreshClusterReaches` | `crates/ndn-repo-cluster/src/node.rs:327-341` | nodes that know nobody, any number of them, told of any jobs, bring each job in two rounds to exactly the smaller of its factor and the number of nodes below the watermark, and publish heartbeats only ever after |
| `Convergence.FailoverReaches` | `crates/ndn-repo-cluster/src/node.rs:343-379` | in the first round by which the nodes that stopped have been silent for longer than the limit, the live nodes are the survivors, every job reaches its factor or takes everyone with room, and every later round is quiet |
| `Convergence.SurvivorsTakeOver` | `crates/ndn-repo-cluster/src/node.rs:343-379` | the same for rounds as they are played, from any view, the survivors' own standing in it included |
| `Convergence.EveryNodeHasIt` | `crates/ndn-repo-cluster/src/node.rs:316-324` | the view those theorems speak of is the one every node computes from its own ticks and what it heard |
| `Convergence.FactorIsAnnounced` | `crates/ndn-repo-cluster/src/coord.rs:233-244` | the number wanted of a job is the `n` of the last spec announced, or the last copy count, or what the job had, or else the configured number |
| `Convergence.AnnouncedCountIsReached` | `crates/ndn-repo-cluster/src/coord.rs:233-244` | so a job announced with a count ends a round of all live nodes with that many live claimants, one announced without with the configured number, one announced with a spec with one for each shard, or as far as there are nodes with room |
| `ObjectCoder.EncodeObject` | `crates/ndn-repo-cluster/src/erasure.rs:139-188` | refused exactly when `k < 1` or `k + redundancy > 255` (or the sum overflows); otherwise shard `i` is the codec's shard `i` of the padded split under its own name, and the manifest describes them |
| `ObjectCoder.Reconstruct` | `crates/ndn-repo-cluster/src/erasure.rs:195-225` | the filtering, absorbing loop computes the reconstruction |
| `ObjectCoder.FedIsGenuine` | `crates/ndn-repo-cluster/src/erasure.rs:197-216` | the decoder is fed genuine shards only, and until it has `k` all that were offered |
| `ObjectCoder.ReconstructsExactly` | `crates/ndn-repo-cluster/src/erasure.rs:190-225` | for any data, any `1 <= k <= n <= 255` and any list of shards in any order with repeats and junk: exactly the data when at least `k` distinct shards are genuine, nothing otherwise |
| `ObjectCoder.ShardNamesDiffer` | `crates/ndn-repo-cluster/src/erasure.rs:65-71` | shards of one object have different names, and none has the manifest's |
| `ObjectCoder.DecimalRoundTrip` | `crates/ndn-repo-cluster/src/erasure.rs:70` | an index can be read back from its decimal component |
| `Manifests.ToBytes` | `crates/ndn-repo-cluster/src/erasure.rs:82-97` | the header, the name TLV and the digests, end to end |
| `Manifests.ManifestOctets` | `crates/ndn-repo-cluster/src/erasure.rs:75-97` | where each field lies in the bytes, and that each number is big-endian |
| `Manifests.ManifestRoundTrip` | `crates/ndn-repo-cluster/src/erasure.rs:82-125` | a manifest is recovered from its bytes if and only if it has `n` digests and its name's TLV is under 2^32 octets |
| `Manifests.ReadsBack` | `crates/ndn-repo-cluster/src/erasure.rs:99-125` | the header and the name followed by any octets read as this manifest with those octets for digests, or are refused when there are not `n` of them |
| `Manifests.OnlyWholeManifestsRead` | `crates/ndn-repo-cluster/src/erasure.rs:99-117` | every strict prefix of a manifest's bytes and every extension of them is refused |
| `Manifests.PublishedManifestReads` | `crates/ndn-repo-cluster/src/erasure.rs:139-188` | the manifest of an encoded object is read back as published |
| `Tlv.TlvRoundTrip` | `crates/ndn-repo/src/tlv.rs:246-258` | a TLV is read back from what was written, whatever follows it (NDN Packet Format Specification 0.3, Type-Length-Value Encoding) |
| `Tlv.TlvPrefixRefused` | `crates/ndn-repo/src/tlv.rs:169-171` | a TLV cut short anywhere does not read |
| `Tlv.TlvCancel` | `crates/ndn-repo/src/store.rs:24-28` | TLVs are self-delimiting: equal beginnings mean equal TLVs |
| `Tlv.DecodeNni` | `crates/ndn-repo/src/tlv.rs:260-266` | the shift-and-or loop is the big-endian value modulo 2^64, however many octets there are |
| `Tlv.NniRoundTrip` | `crates/ndn-repo/src/tlv.rs:246-266` | a non-negative integer is read back from its shortest form |
| `Tlv.NniIsShortest` | `crates/ndn-repo/src/tlv.rs:246-258` | no other of the four widths that can hold the number is shorter |
| `Octets.MostSignificantFirst` | `crates/ndn-repo/src/tlv.rs:252-256` | the first octet of a number weighs most |
| `FieldLoops.FoldKnown` | `crates/ndn-repo/src/tlv.rs:185-201` | fields of types a decoder does not know can stand anywhere among the others |
| `FieldLoops.RunOfFields` | `crates/ndn-repo/src/tlv.rs:183-203` | a read loop over printed fields is the fold of those fields |
| `FieldLoops.RunWhileOkStops` | `crates/ndn-repo-cluster/src/msg.rs:161-182` | a loop over fields followed by octets that do not read keeps what the fields gave |
| `Commands.Encode` | `crates/ndn-repo/src/tlv.rs:138-164` | the nested printers write the command's one TLV |
| `Commands.Decode` | `crates/ndn-repo/src/tlv.rs:169-178` | the first TLV's type picks the loop parser that reads its value |
| `Commands.DecodeSyncJoin` | `crates/ndn-repo/src/tlv.rs:181-204` | the loop, with the nested history loop and its early exits, is the fold of the fields |
| `Commands.DecodeSyncLeave` | `crates/ndn-repo/src/tlv.rs:206-218` | the loop is the fold of the fields |
| `Commands.DecodeBlobFetch` | `crates/ndn-repo/src/tlv.rs:220-232` | the loop is the fold of the fields, blobs in order |
| `Commands.UnknownFieldsIgnored` | `crates/ndn-repo/src/tlv.rs:181-232` | whatever fields a body holds, those of unknown types change no result |
| `Commands.PaddedCommandDecodes` | `crates/ndn-repo/src/tlv.rs:169-232` | a command is understood from its own fields with unknown ones anywhere among them, in its history too, and anything after the command |
| `Commands.CommandRoundTrip` | `crates/ndn-repo/src/tlv.rs:138-178` | every command decodes from its own encoding to itself, nested threshold, optional names and blob order kept, and every strict prefix decodes to nothing |
| `Commands.CommandBegins` | `crates/ndn-repo/src/tlv.rs:305-307` | the three octets each command begins with |
| `Commands.JoinMeans` | `crates/ndn-repo/src/tlv.rs:181-204` | whatever fields a join has, in whatever order: the last of each type counts, and one that holds no name clears the others |
| `Commands.JoinFailsOnlyOnHistory` | `crates/ndn-repo/src/tlv.rs:190-198` | a body of readable fields is refused if and only if one of its histories does not read |
| `Commands.HistoryMeans` | `crates/ndn-repo/src/tlv.rs:190-198` | in a history the last threshold counts, and one without leaves the one read before |
| `Commands.HistoriesJoin` | `crates/ndn-repo/src/tlv.rs:190-198` | histories one after the other read as one |
| `Commands.LeaveMeans` | `crates/ndn-repo/src/tlv.rs:206-218` | the same for a leave |
| `Commands.BlobMeans` | `crates/ndn-repo/src/tlv.rs:220-232` | the last name counts, and every blob in order |
| `Replies.EncodeReply` | `crates/ndn-repo/src/tlv.rs:108-115` | the status, and the message when there is one |
| `Replies.DecodeReply` | `crates/ndn-repo/src/tlv.rs:117-132` | the loop is the fold of the fields |
| `Replies.ReplyRoundTrip` | `crates/ndn-repo/src/tlv.rs:108-132` | every reply decodes from its own encoding to itself |
| `Replies.PaddedReplyDecodes` | `crates/ndn-repo/src/tlv.rs:117-132` | also with fields of unknown types anywhere among its own |
| `Replies.BadMessageRefused` | `crates/ndn-repo/src/tlv.rs:125-127` | a message that is not UTF-8 makes the whole reply unreadable, wherever it stands |
| `Replies.ReplyMeans` | `crates/ndn-repo/src/tlv.rs:117-132` | of status and message fields that come more than once the last counts |
| `Replies.Utf8Exactly` | `crates/ndn-repo/src/tlv.rs:125-127` | the octet strings taken for messages are exactly the UTF-8 encodings of sequences of Unicode scalar values |
| `ClusterWire.Encode` | `crates/ndn-repo-cluster/src/msg.rs:54-99` | the nested printers write the message's one TLV |
| `ClusterWire.ParseFields` | `crates/ndn-repo-cluster/src/msg.rs:161-183` | the loop that stops at the first unreadable field, or at the end, is the fold of the fields before it |
| `ClusterWire.Decode` | `crates/ndn-repo-cluster/src/msg.rs:103-145` | the message the fields make, if they have the names it needs |
| `ClusterWire.MessageRoundTrip` | `crates/ndn-repo-cluster/src/msg.rs:54-145` | a message decodes from its encoding to itself if and only if it has no erasure spec or one with no zero part; every strict prefix decodes to nothing |
| `ClusterWire.DecodesAsRead` | `crates/ndn-repo-cluster/src/msg.rs:103-183` | it also does with unreadable octets after its fields and anything after the message; a spec with a zero part is dropped |
| `ClusterWire.FieldsMean` | `crates/ndn-repo-cluster/src/msg.rs:161-182` | whatever fields a message has, in whatever order: the last of each type counts, a missing number is 0, and a last field that holds no name is no name |
| `ClusterWire.WideSpecIsCut` | `crates/ndn-repo-cluster/src/msg.rs:116-124` | a spec with parts of any size, both not zero, is taken with the low 16 bits of each |
| `ClusterWire.MessageBegins` | `crates/ndn-repo-cluster/src/msg.rs:11-16` | the three octets each message begins with |
| `ClusterWire.HeardSpec` | `crates/ndn-repo-cluster/src/node.rs:117-120` | a peer stores the spec it heard exactly when `k` is not zero and `n` exceeds `k` or both are saturated |
| `ClusterWire.PeersStoreTheSameSpec` | `crates/ndn-repo-cluster/src/node.rs:86-91` | gossiping the spec a local erasure announcement stored gives a peer the same spec, for every `k` and redundancy, saturation included |
| `Ingest.GroupIngester.IngestUpdate` | `crates/ndn-repo/src/ingest.rs:54-80` | the sequence loop of both modes: store, check, acknowledge, stop at the first hole |
| `Ingest.AcksUpToTheHole` | `crates/ndn-repo/src/ingest.rs:54-71` | a two-phase update acknowledges exactly the run of publications in the store when it ends, from its first number to its first hole, and no other publisher's |
| `Ingest.TwoPhaseStores` | `crates/ndn-repo/src/ingest.rs:54-71` | a two-phase update stores what its fetches bring up to the first hole, that one's included, and nothing behind it |
| `Ingest.EagerStoresAll` | `crates/ndn-repo/src/ingest.rs:54-80` | an eager update stores what every one of its fetches brings, past failures, and leaves the vector alone |
| `Ingest.EagerPromise` | `crates/ndn-repo/src/ingest.rs:27-31` | with a vector that moved before the fetches: it covers only held publications afterwards if and only if each it moved over was in the store or came in with one of them |
| `Ingest.EagerPromiseByFetch` | `crates/ndn-repo/src/ingest.rs:27-31` | if and only if every fetch of one not in the store succeeded, when fetches bring only their own publications |
| `Ingest.HoldsIsFindUnder` | `crates/ndn-repo/src/ingest.rs:63-66` | presence is what the store's lookup by prefix finds |
| `Ingest.UpdateKeepsPromise` | `crates/ndn-repo/src/ingest.rs:33-41` | after an update the advertised prefix is still fully stored if and only if nothing new was acknowledged or nothing between the vector and the update was missing |
| `Ingest.RunsStayHonest` | `crates/ndn-repo/src/ingest.rs:33-41` | over every run of updates, failed and rejected fetches, re-emitted gaps and other writes, the vector never exceeds the fully stored prefix of any publisher and never goes back |
| `Ingest.HoleHeals` | `crates/ndn-repo/src/ingest.rs:57-69` | once a rejected publication is stored, the re-emitted gap advances the vector over everything held |

## Left out

- `Erasure`'s text form, the erasure record file, directories and `open`: configuration and file handling.
- `sync`, group commit and fsync failures: they belong to the storage engine. The model keeps only that a refused insert is remembered.
- `find_under`: the first row of `scan_under` with limit 1, so what is proved of the scan covers it.
- Reed-Solomon arithmetic and SHA-256: behind the codec laws and the digest function; their sources are not part of this model.
- What the decoder does with a repeated index, a body of another length or more than `k` shards: its source is not part of this model; it is taken to ignore them.
- `Name::decode_from_tlv` on input that is not a name's own TLV: its source is not part of this model. The theorems use it on encoded names and on their strict prefixes only.
- `TlvReader` on lengths and types not in shortest form: they are refused here, as the specification says.
- The order of `Name` values that breaks ties between nodes: its source is not part of this model; the octet order of the store keys, which is the canonical order of NDN names, stands for it.
- Utilisation is a real number: `f64` rounding could merge or split ties of nodes whose ratios differ by less than it resolves.
- The order in which a tick goes through its jobs, and in which a map gives up its nodes, is left open; nothing proved depends on it.
- `epoch` is unbounded in a node and published modulo 2^64.
- Nodes whose views differ: two of them may both release, and claims are not sent again, so the code makes no promise there. The placement theorems are about a shared view, which `SharedView.RoundKeepsOneView` proves rounds preserve.
- Shard indices across changes of membership or capacity: an index is a rank in one view, recomputed on each call.
- Convergence.ConvergesFromAnywhere: no node's last known stamp lies after the first round, because an older heartbeat is ignored (`crates/ndn-repo-cluster/src/coord.rs:132`) and the node's new capacity with it.
- Interleaving.RunsAreSafe: a scan is not among the interleaved steps; it is a sequence of the reads and repairs that are.
- Ingest.GroupIngester.IngestUpdate: the channel, cancellation and the fetch are its inputs, and what a fetch leaves in the store is arbitrary; publication numbers are unbounded.
- Holder.HolderStore.ScanUnder: exact only when the held half's scan is, which `ScanExact.ScanUnderIsMapScan` characterises.
- `service.rs`, `repo.rs`, the binaries, the `run` loop, `reconstruct_with` and `reconstruct_with_async`: plumbing over channels, timers and the forwarder.
- Signing, validation and trust schemas, `shard_data`, `manifest_data` and `decode_manifest_data`: calls into other crates.
- Logging and error texts.
