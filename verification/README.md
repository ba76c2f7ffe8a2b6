# CefasDB core: a verified model

CefasDB is a sharded, Raft-replicated key-value store. This project models the
parts of its core that are hardest to get right, in Dafny, and proves what they
are for. `dafny verify dfyconfig.toml` checks everything.

## What is modelled

- **Online resharding** (`Reshard`, `ReshardSafety`, `ReshardRuns`,
  `RollbackRecords`, `Resumption`, `Rows`, `Requests`, `Reachability`, `ManagerCode`). A step
  system in which fenced writers interleave with split and range-move transitions, copying,
  verification, cutover, cleanup, resumed cleanup and rollback, with an error or
  a crash after any step. Over every run the served map is what a plain
  key-value map would be, ownership only shrinks, and a cleanup never deletes a
  row its shard still serves. The class `Manager` holds the code of the
  operations, and each of its methods is proved to be a run of the step system
  under every pattern of storage errors.
- **Token rings and catalogs** (`Ring`, `Tokens`, `Catalogs`, `Routing`, `Audit`,
  `Tiling`). Ranges on the ring of 2^64 tokens, wrapping and full-ring ranges
  included; coverage validation, routing, the ring audit, subtraction of ranges,
  default tilings and hotspot buckets. The common yardstick is `Owners`, which
  counts how many ranges contain a token.
- **Planning** (`Planner`, `Apply`, `Policy`, `Drain`). Split and
  range-move plans and the gate that admits them; voter selection, membership
  steps, drain and decommission.
- **The Kubernetes identity lease** (`Lease`). Processes that read, compare and
  swap against a versioned store with messages delayed, repeated or lost.
- **Materialized views** (`FastView`, `FastReplay`, `AggregateView`). Changelog replay with
  crashes, and incremental COUNT and SUM.
- **Replication** (`Payload`, `Coalescer`, `Snapshot`) and **admission** (`Quota`).

## Where the code and its stated intent part

- Finalizing a split does not check which child belongs to which parent. After
  a parent has been split twice in a row, a finalize request may pair a shard
  with an older, lower-numbered child, and the tokens it hands over get a lower
  owner id. `MispairedFinalizeLowersOwner` shows such a catalog;
  `CutoverRaisesOwners` shows that ids never decrease exactly when targets are
  above sources.
- `RollbackSplit` without an earlier record saves its record under the ids (0, 0),
  because the flag it tests has been overwritten. `RecordedIffKnown` says exactly
  when, `UnrecordedExists` gives a state, and `ZeroRecordHarmless` shows that no
  run depends on that record.
- A finalize run that stops between publishing its cutover and recording it is
  lost: the pair can be neither resumed nor finalized nor rolled back, and the rows
  it moved stay on the source as well (`LostCutover`). No reader sees it.
  `ResumableIffRecorded` is the exact condition.
- A drain sets every shard it touches to Active, and the plan fails validation if
  one of them was not routable (`DrainValidIff`). The code produces such catalogs:
  a rolled-back child, a source moved away entirely and a shard being created
  keep their voters, and none of these nodes can be drained
  (`RolledBackChildBlocks`, `RetiredSourceBlocks`, `PendingShardBlocks`).
- A put that takes the view key away from a row leaves the old row in a FAST
  view (`DroppedKeyStays`) until that key is written again or deleted;
  `ConvergesIff` is the exact condition.
- A batch that names one key twice may be counted twice by COUNT and SUM views
  (`RepeatedKeyCountsTwice`). A batch with a SUM source that is not a number is
  refused after the base has been written, and the view stays wrong even when the
  row is gone (`RefusalOutlivesTheRow`). `RunInSync` gives the exact condition for
  all runs.
- A Replicate call that enters the channel after the apply loop has exited waits
  for ever (`CallAfterExit`); `StrandedIff` says exactly which calls do.
- The epoch of an identity lease starts again from zero after 2^64 - 1
  (`EpochGrowsIff`); `AcquiresGrow` is the exact condition for a run.
- `NewRouter` documents that its panic cannot happen; it can past 2^32 shards
  (`NewRouter` in `Tiling`).

## Assumptions of the model

- One manager leads all the shards it reshards; opening shards, leadership checks
  and `RefreshPlacement` are not modelled.
- Control operations do not overlap one another; they interleave freely with
  writers that already hold their targets. Persisting a cutover and installing it
  is one step.
- Plans are built by the planner. The gate itself does not compare the ranges of
  shards a plan does not mention.
- A new shard's store may hold any leftover rows of known tables.
- There is one set of tables. The code reads the table list from the source shard's
  own catalog copy; the model assumes that this copy names every table with rows.
- Each storage call may fail, reads of rows and records included. A row loop may
  fail before it starts, at any row, and after its last row; a read error at a row
  and a failed write of that row have the same effect.
- Hashes, snappy and batch encodings are function parameters; only the inverse
  laws of snappy and of batch merging are assumed, and that a batch does not
  start with the compression magic.
- Storage errors, clocks, API replies, limiter answers, candidate rankings and
  iteration orders are parameters or free choices.

## Model

| member | source | states |
|---|---|---|
| Reshard.CreatingForAreCreating | internal/cluster/manager.go:710-731 | a shard is among the mirrors if and only if it is being created and lists the token; each once, in id order |
| ReshardSafety.BeginStep | internal/cluster/manager.go:674-683 | taking write targets keeps the invariant of the running system and changes no read |
| ReshardSafety.WriteReads | internal/server/split_write.go:61-86 | a write to a mirror changes no read; a write to the primary changes the read of its own key only, to what was written |
| ReshardSafety.WriteStep | internal/server/split_write.go:61-86 | the same write keeps the whole invariant, copy in progress or not |
| ReshardSafety.TransitionStep | internal/cluster/apply.go:22-98 | publishing a split or range-move transition changes no read and no owner, whatever rows are left over on the new shard |
| ReshardSafety.MembershipStep | internal/cluster/apply.go:22-98 | publishing a move, drain or decommission changes no read and no owner |
| ReshardSafety.AcceptedIsReady | internal/cluster/split_finalize.go:458-495 | a finalize request the gate accepts names a pending range all of which the source owns, so a cutover is safe |
| ReshardSafety.StartSteps | internal/cluster/split_finalize.go:105-141 | starting a finalize, a resumed cleanup or a rollback keeps the invariant |
| ReshardSafety.SaveStep | internal/cluster/split_finalize.go:528-543 | recording any phase keeps the invariant: a record that says published or done is true when it is written |
| ReshardSafety.CopySteps | internal/cluster/split_finalize.go:565-606 | each copied row keeps the invariant and is invisible to readers |
| ReshardSafety.VerifiedControl | internal/cluster/split_finalize.go:608-628 | equal row counts after the copy mean the two shards hold the same rows in range |
| ReshardSafety.PublishReads | internal/cluster/split_finalize.go:186-214 | at cutover every read goes to the new owner and returns what the old owner would have returned |
| ReshardSafety.PublishStep | internal/cluster/range_move_finalize.go:152-187 | the cutover keeps the invariant, for splits and range moves |
| ReshardSafety.DeleteReads | internal/cluster/split_finalize.go:682-703 | the shard a cleanup deletes from does not serve the deleted row |
| ReshardSafety.DeleteSteps | internal/cluster/split_finalize.go:682-703 | each deleted row keeps the invariant and is invisible to readers |
| ReshardSafety.RollbackSteps | internal/cluster/split_finalize.go:249-336 | wiping the child and publishing the rolled-back placement is invisible to readers |
| ReshardRuns.StepKeeps | internal/cluster/split_finalize.go:105-405 | every step of every operation keeps the invariant, changes no read but a writer's own, and lets no shard past creation gain a token |
| ReshardRuns.RunKeepsInv | internal/cluster/split_finalize.go:105-405 | the invariant holds in every state of every run |
| ReshardRuns.ReshardingIsInvisible | internal/cluster/split_finalize.go:105-405 | over every interleaving of writers, splits, range moves, rollbacks, retries, errors and crashes, a read at the routed owner returns what a plain key-value map would |
| ReshardRuns.PrimaryStaysOwner | internal/cluster/manager.go:674-732 | an in-flight writer's primary is the routed owner of its key until it releases the fence |
| ReshardRuns.OwnershipOnlyShrinks | internal/placement/plan_split.go:76-123 | over every run a shard past creation owns no token it did not own before |
| ReshardRuns.CleanupNeverDeletesServedRow | internal/cluster/split_finalize.go:359-405 | a cleanup, resumed however late, never deletes a row its shard serves |
| ReshardRuns.DoneMeansCleaned | internal/cluster/split_finalize.go:224-231 | a record marked done stays true: the source holds no row of the moved range from then on |
| ReshardRuns.OwnerChangesOnlyAtCutover | internal/cluster/split_finalize.go:186-214 | no step but a cutover changes the owner of any token |
| ReshardRuns.OwnerIdsNeverDecrease | internal/placement/plan_range_move.go:64-124 | if every finalize request names a target above its source, no token's owning shard id decreases over the run |
| ReshardRuns.ChildSplitIsPlanned | internal/cluster/apply.go:247-296 | a concrete catalog and the planned, accepted changes that lead to it: a parent split twice in a row, then the younger child split |
| ReshardRuns.MispairedFinalizeLowersOwner | internal/cluster/split_finalize.go:458-495 | in that catalog the gate lets shard 2 hand its upper half to shard 1: an owner id goes down |
| Requests.ValidateFinalizeSplit | internal/cluster/split_finalize.go:458-495 | accepts exactly the split requests that are in order and computes what the parent keeps |
| Requests.ValidateFinalizeRangeMove | internal/cluster/range_move_finalize.go:267-299 | accepts exactly the range-move requests whose pending range the source owns and computes what it keeps |
| Requests.ValidatePublished | internal/cluster/split_finalize.go:425-447 | accepts exactly the placements that match a published cutover |
| Requests.WriteTargetsForPK | internal/cluster/manager.go:686-732 | the routed shard under either strategy, refused exactly when the epoch is stale or the shard not routable; as mirrors exactly the Creating shards that list the token when the owner is splitting or moving |
| Requests.SelectedKeys | internal/cluster/split_finalize.go:705-732 | the nested table and row loops select every row in range once |
| ManagerCode.CopiedRows | internal/cluster/split_finalize.go:565-628 | after the copy loop the two shards agree in range exactly when the target had no row the source lacks |
| ManagerCode.Manager.SaveStage | internal/cluster/split_finalize.go:528-543 | a phase record is a step; a failed save ends the run with the fence given back |
| ManagerCode.Manager.CopyLoop | internal/cluster/split_finalize.go:565-606 | the copy loop is a run of steps whichever put fails, and adds exactly the source's rows in range to the target |
| ManagerCode.Manager.VerifyStage | internal/cluster/split_finalize.go:608-628 | verification passes only when both shards hold the same rows in range, and without read errors exactly then |
| ManagerCode.Manager.PublishStage | internal/cluster/manager.go:802-843 | the new catalog gets a router that always builds; ownership of the pending range moves |
| ManagerCode.Manager.DeleteLoop | internal/cluster/split_finalize.go:682-703 | the delete loop is a run of steps whichever delete fails, and removes exactly the rows in range |
| ManagerCode.Manager.ResumePublished | internal/cluster/split_finalize.go:359-405 | takes over exactly when a record is past its cutover, unless the record cannot be read; on success the source has lost exactly its rows in range and the record is done; without storage errors it succeeds exactly when the placement still matches |
| ManagerCode.Manager.RunFinalize | internal/cluster/split_finalize.go:105-247 | what a finalize request with nothing to resume gets: an Ok exactly when it is in order and verifies, the whole effect then, and a recorded failure otherwise |
| ManagerCode.Manager.FinalizeSplit | internal/cluster/split_finalize.go:105-247 | a run of the step system under any storage errors, with no read changed; on success exactly the tokens of the pending range have changed owner, one epoch on, both shards are in their final states, the rows have moved, and the record says so; a request out of order changes nothing, and no error leaves half a cutover |
| ManagerCode.Manager.FinalizeRangeMove | internal/cluster/range_move_finalize.go:71-217 | the same for a range move |
| ManagerCode.Manager.RollbackSplit | internal/cluster/split_finalize.go:249-336 | a run of steps under any storage errors; no read changes; on success the parent is Active with its old ranges, the child is empty and retired without ranges, one epoch on, nothing else is different, and the record is filed under the pair exactly when it had one |
| RollbackRecords.RecordedIffKnown | internal/cluster/split_finalize.go:309-323 | a rollback is recorded under its own pair if and only if that pair had a record before; otherwise under (0, 0) |
| RollbackRecords.UnrecordedRollback | internal/cluster/split_finalize.go:249-323 | every rollback of a pair without a record whose child is still empty, as a run of four steps: afterwards the pair has no record and (0, 0) has one |
| RollbackRecords.UnrecordedExists | internal/cluster/split_finalize.go:249-323 | a concrete state those are about: a shard just split, nothing copied and nothing recorded |
| RollbackRecords.ZeroRecordIgnored | internal/cluster/split_finalize.go:359-367 | of two states that differ at most in the record under (0, 0), whatever step one takes the other takes too, and they still differ there at most |
| RollbackRecords.ZeroRecordHarmless | internal/cluster/split_finalize.go:458-495 | so every run has a twin without that record: same steps, catalogs, rows and other records |
| Resumption.CutoverIsResumable | internal/cluster/split_finalize.go:425-447 | a cutover leads to a placement that accepts the resume of its own record, for splits and range moves |
| Resumption.ResumableIffRecorded | internal/cluster/split_finalize.go:359-367 | a finalize run that crashes past its cutover can be resumed if and only if it had recorded the cutover |
| Resumption.LostCutover | internal/cluster/split_finalize.go:206-214 | a crash between any cutover and its record leaves a pair that cannot be resumed, finalized or rolled back |
| Resumption.CrashInRun | internal/cluster/split_finalize.go:105-405 | the same in every state of every run |
| ManagerCode.Manager.WriteItem | internal/server/split_write.go:19-99 | a routed put or delete with errors at any target: other reads unchanged, its own read is the old or the new value; acknowledged, every shard that has to take the write holds it and no other shard has changed |
| Reachability.WriteRun | internal/server/split_write.go:61-86 | the first n targets of a routed write, written in order, form a run after which only that key's read has changed |
| Reachability.RoutedWritesThrough | internal/server/split_write.go:61-86 | only the owner and, during a transition, the shards being created for the token change; the owner first; an acknowledged write is on all of them |
| Reachability.AcknowledgedOnBoth | internal/server/split_write.go:61-86 | what mirrors are for: after an acknowledged write the source and the target of a transition agree at its key, and wherever they agreed before |
| Reachability.QuietReads | internal/cluster/split_finalize.go:105-405 | any run without a writer's write leaves every read alone |
| Rows.DigestPrimaryTokenRange | internal/cluster/split_finalize.go:635-664 | the count and checksum of the rows in range, independent of iteration order |
| Rows.VerifySplitRange | internal/cluster/split_finalize.go:608-628 | compares the two digests |
| Rows.VerificationIsExact | internal/cluster/split_finalize.go:608-664 | for any hash at all: once the source's rows are on the target, equal digests and equal rows are the same thing |
| Rows.DigestNotices | internal/cluster/split_finalize.go:635-664 | a row with another item changes the digest if and only if its hash is another |
| Rows.DigestCounts | internal/cluster/split_finalize.go:635-664 | a missing row always changes the digest |
| Tokens.MidpointToken | internal/placement/tokens.go:15-27 | the default split token is strictly inside the range exactly when its width is at least 2, and then its two sides differ in width by at most one, wrapping and full-ring ranges included |
| Tokens.SplitRange | internal/placement/tokens.go:36-38 | a token strictly inside cuts the range into two disjoint parts that make it up |
| Tokens.SubtractSegment | internal/placement/tokens.go:70-88 | the pieces of a segment outside another one |
| Tokens.SegmentCoveredBySegments | internal/placement/tokens.go:90-105 | one sweep over sorted owners decides whether they cover every token of a segment |
| Tokens.MergeAdjacentSegments | internal/placement/tokens.go:129-145 | merging touching segments keeps how often each token is counted |
| Tokens.SegmentsToRanges | internal/placement/tokens.go:107-116 | writing segments as ranges keeps every token's count, the end of the ring included |
| Tokens.SubtractTokenRanges | internal/placement/tokens.go:40-68 | succeeds exactly when every removed token is owned; then each other token keeps its multiplicity, each removed one loses it, and disjoint inputs give a canonical result |
| Tokens.EmptyRemainder | internal/placement/tokens.go:40-68 | the result is empty exactly when everything owned was removed: never a range that reads as the full ring |
| Ring.RangeSegments | internal/placement/placement.go:424-440 | a range, wrapping or full ring included, and its one or two segments hold the same tokens |
| Catalogs.OwnerUnique | internal/placement/placement.go:389-417 | under an exact cover no two shards serve the same token |
| Catalogs.SweepExact | internal/placement/placement.go:389-417 | the sweep over sorted segments accepts exactly when every token is counted once |
| Catalogs.ValidateTokenCoverage | internal/placement/placement.go:389-417 | accepts a shard list if and only if every one of the 2^64 tokens is in exactly one range of the routable shards |
| Catalogs.ValidatePlacement | internal/placement/placement.go:353-387 | accepts exactly the catalogs of a known version and strategy with contiguous ids, known states, no routable shard without ranges, and exact coverage |
| Routing.NewRouterFromCatalog | internal/routing/router.go:62-94 | builds a router exactly for the catalogs that validate, with every routable range in one of its two tables, as often as the catalog lists it |
| Routing.FirstEndPast | internal/routing/router.go:176-180 | binary search for the first range end past the token |
| Routing.ShardForUint64 | internal/routing/router.go:162-192 | for every token the answer is the one shard a scan over all ranges finds, never the no-shard error; legacy catalogs route by modulo |
| Audit.Collector.Add | internal/placement/audit.go:91-101 | appends until the cap, 200 by default, and then records that it cut the report short |
| Audit.ActiveOwnersForToken | internal/placement/audit.go:297-312 | exactly the ids of the shards that serve the token, in order |
| Audit.Sweep | internal/placement/audit.go:228-269 | one sweep finds the gaps and overlaps: what it reports is so, and untruncated it reports all |
| Audit.AuditTokenCoverage | internal/placement/audit.go:212-269 | the same for a catalog, its empty case included |
| Audit.AuditPlacementCatalog | internal/placement/audit.go:103-130 | an unsupported strategy gets its own report; otherwise reported gaps hold unserved tokens only and overlaps doubly served ones only; untruncated, all of them; nothing is reported exactly when coverage validates |
| Tiling.SplitTokenRanges | internal/placement/placement.go:330-349 | n ranges in ascending order that put every token in exactly one, with widths differing by at most one |
| Tiling.DefaultShards | internal/placement/placement.go:223-244 | the default shards, in ring order and of nearly equal width, cover the ring exactly; ids are truncated to 32 bits |
| Tiling.WrappedIdsAreNotContiguous | internal/placement/placement.go:365-372 | past 2^32 shards two ids coincide and validation refuses |
| Tiling.NewRouter | internal/routing/router.go:54-60 | the panic is reached exactly when more than 2^32 shards are asked for |
| Tiling.BucketInBounds | internal/metrics/hotspot.go:163-169 | a token's bucket index is below the bucket count |
| Tiling.BucketMonotone | internal/metrics/hotspot.go:163-169 | bucket indices never decrease along the ring |
| Tiling.BucketMatchesBounds | internal/metrics/hotspot.go:379-389 | a token lies in the bounds its bucket reports, unless it equals the reported end at an uneven cut |
| Tiling.PowerOfTwoBucketsAreExact | internal/metrics/hotspot.go:379-389 | with a power-of-two bucket count the reported bounds are exact |
| Planner.TransitionInService | internal/placement/plan_split.go:106-127 | the transition catalog of a split or range move is valid and routes every token as before |
| Planner.CutoverInService | internal/cluster/split_finalize.go:186-195 | the cutover catalog is valid; exactly the pending range changes owner, from source to target |
| Planner.CutoverHandsOver | internal/cluster/split_finalize.go:186-195 | a cutover changes exactly the pending range's owner, the two shards' states and the epoch; the source retires if and only if it keeps no token |
| Planner.CutoverRaisesOwners | internal/cluster/range_move_finalize.go:152-165 | a cutover lowers no token's owner id if and only if the target's id is above the source's |
| Planner.RollbackInService | internal/cluster/split_finalize.go:289-301 | the rolled-back catalog is valid and routes every token as before |
| Planner.RollbackUndoes | internal/cluster/split_finalize.go:293-299 | a rollback makes the parent Active with its old ranges, retires the child with none, and changes nothing else but the epoch |
| Planner.NextShardId | internal/placement/plan_split.go:76-87 | a new shard id is given exactly when the shard count fits 32 bits and the request, if any, names it |
| Planner.PlanSplit | internal/placement/plan_split.go:10-127 | refuses exactly the splits that are impossible; the plan marks the source, adds one shard with the given voters and the range above the token, and routes every token as before; the default token halves the range |
| Planner.PlanRangeMove | internal/placement/plan_range_move.go:12-124 | refuses exactly the moves that are impossible; the plan marks the source, adds one shard with the given voters and the range, and routes every token as before |
| Apply.FindTransitioning | internal/cluster/apply.go:204-222 | finds the one existing shard that enters the transition state, if ids are stable and there is exactly one |
| Apply.ValidateSplitApplyRequest | internal/cluster/apply.go:247-296 | accepts exactly the split plans described by the predicate SplitAccepted |
| Apply.ValidateRangeMoveApplyRequest | internal/cluster/apply.go:196-245 | accepts exactly the range-move plans whose pending range the source owns and whose catalog is valid |
| Apply.ValidateDecommissionApplyRequest | internal/cluster/apply.go:144-194 | accepts exactly the plans in which one draining node nothing in use refers to becomes decommissioned and nothing else changes |
| Apply.PlannedDecommissionPasses | internal/cluster/apply.go:144-194 | what the planner makes of a decommission passes the whole gate at the right epoch |
| Apply.ValidateApplyRequest | internal/cluster/apply.go:100-142 | the whole gate for all five operations, epochs and stale plans included |
| Apply.PlannedSplitPasses | internal/cluster/apply.go:247-296 | the planner's split passes the whole gate if and only if the expected epoch is right and no other shard is splitting |
| Apply.PlannedRangeMovePasses | internal/cluster/apply.go:196-245 | the planner's range move passes the whole gate if and only if the expected epoch is right and no other shard is moving |
| Apply.PlannedMembershipPasses | internal/cluster/apply.go:100-142 | so does a drain or move plan that validates |
| Apply.SplitAgain | internal/cluster/split_finalize.go:289-301 | after a rollback the parent can be split again if an id is left, and the plan is accepted if and only if no other shard is splitting |
| Planner.NoNewRoutableShard | internal/placement/plan_move.go:22-31 | although the planner sets touched shards to Active, a membership plan that validates makes no shard routable that was not |
| Planner.MembershipKeepsRouting | internal/placement/plan_drain.go:119-146 | a membership plan that validates changes no token's owner |
| Policy.Unique | internal/placement/helpers.go:54-64 | the distinct non-empty ids |
| Policy.Pass | internal/placement/placement_policy.go:73-111 | a greedy pass goes down the ranking, passes over a candidate only for the reason it was asked to, and stops short only when every candidate left out fails its test |
| Policy.FillVoters | internal/placement/placement_policy.go:50-111 | the three passes reach the wanted number and keep the required nodes; a better-ranked node is passed over, and a zone used twice by a node not required, only when the zones leave no choice |
| Policy.SelectVoters | internal/placement/placement_policy.go:30-121 | succeeds exactly when the required nodes are active and there are enough; distinct active voters, all required ones among them, best first and spread over the zones as above |
| Policy.SameZoneIff | internal/placement/placement_policy.go:73-111 | two nodes clash exactly when they are in the same named zone |
| Policy.MembershipDiffSteps | internal/placement/helpers.go:31-52 | exactly the new voters are added, each is waited for before the first remove, and the steps lead from the old voters to the new, through the union of both |
| Policy.NeverShort | internal/placement/helpers.go:31-52 | after every prefix of the steps the voter set includes all old voters or all new ones |
| Drain.PickVoters | internal/placement/plan_drain.go:157-181 | exactly when it succeeds, and what it gives: survivors kept, the node gone, no fewer distinct active voters than before or than asked for, spread over the zones when the policy picks |
| Drain.DrainShards | internal/placement/plan_drain.go:119-146 | every shard that refers to the node gets such voters and safe steps, listed once and in order, and keeps its leader hint exactly if that is still a voter; the others are untouched |
| Drain.DrainValidIff | internal/placement/plan_drain.go:14-34 | the drained catalog validates if and only if every shard listing the node was routable; under modulo placement it always does |
| Drain.RolledBackChildBlocks | internal/cluster/split_finalize.go:293-299 | after a rollback no node the retired child lists can be drained |
| Drain.RetiredSourceBlocks | internal/cluster/range_move_finalize.go:152-157 | after a move of all its ranges no node the retired source lists can be drained |
| Drain.PendingShardBlocks | internal/placement/plan_split.go:106-127 | while a split or range move is under way no voter of the shard being created can be drained |
| Drain.PlanDrain | internal/placement/plan_drain.go:14-34 | succeeds exactly when a drain is possible; then the node is draining, no shard refers to it, no token changes owner, and the epoch is one higher |
| Drain.PlanDecommission | internal/placement/plan_decommission.go:13-65 | succeeds exactly for a draining node nothing in use refers to, and changes that node and the epoch only |
| Drain.DrainThenDecommission | internal/placement/plan_decommission.go:30-65 | after every successful drain the decommission plan succeeds too, and routing is what it was |
| Lease.ServeStep | internal/identitylease/lease.go:547-569 | a served create or update keeps the invariant, however late or often it is served |
| Lease.StepKeeps | internal/identitylease/lease.go:435-545 | every step of every process, reordered or lost messages included, keeps the invariant |
| Lease.AtMostOneHolder | internal/identitylease/lease.go:511-545 | at every moment of every run at most one process believes its lease is unexpired |
| Lease.AcquirableIff | internal/identitylease/lease.go:511-526 | a process may acquire if and only if nobody holds the lease, it does itself, or the holder's time has run out |
| Lease.ExpiryIsTakeover | internal/identitylease/lease.go:511-545 | what a process is told of a lease it wrote ends at the very moment another may take that lease |
| Lease.CanAcquire | internal/identitylease/lease.go:435-463 | an open process that may acquire can: a run of three steps after which it holds the lease |
| Lease.ReleasedStaysFree | internal/identitylease/lease.go:491-509 | in every run, once a release is served and until the next acquire is, nobody holds the lease and any process may acquire it at any time |
| Lease.ServeEpoch | internal/identitylease/lease.go:465-509 | renew and release leave the stored epoch alone; an acquire moves it on by one, modulo 2^64 |
| Lease.AcquiresGrow | internal/identitylease/lease.go:435-463 | over every run the acquires get larger and larger epochs if and only if, counted on from the first, they do not run past the last 64-bit one |
| Lease.EpochsDistinctIff | internal/identitylease/lease.go:435-463 | acquires that count on from one epoch, as those of every run do, give none out twice if and only if there are at most 2^64 of them |
| Lease.EpochNamesHolder | internal/identitylease/lease.go:753-768 | over every run with at most 2^64 acquires, two processes are never told the same epoch |
| Lease.EpochGrowsIff | internal/identitylease/lease.go:435-463 | an acquire raises the epoch if and only if it was not the last 64-bit value, and then starts again from zero |
| Lease.EpochSurvivesIff | internal/identitylease/lease.go:753-768 | the transition count stands in for a lost annotation if and only if the epoch fits in 31 bits |
| Lease.LeaseObject.ApplyUpdate | internal/identitylease/lease.go:705-730 | the in-place edit of a lease object: a release frees it, a holder is stamped, and the acquire time is kept exactly while the holder stays |
| Lease.AcquireRound | internal/identitylease/lease.go:435-463 | one round of acquire: a create, an update with the next epoch, or nothing when another holds the lease |
| Lease.Attempt | internal/identitylease/lease.go:435-489 | the retry loop of acquire and renew: at most three rounds, each from a fresh read, another only after a conflict |
| Lease.Release | internal/identitylease/lease.go:491-509 | one update with no holder and no renew time, against the version read, sent exactly when the process holds the lease |
| FastView.DeriveItem | internal/server/grpc_materialized_view_maintenance.go:564-598 | the view row of a base item: its key and the projected attributes with their values and no others, or nothing without the key |
| FastView.BuildOps | internal/server/grpc_materialized_view_fast.go:145-179 | the ops of a range of change records, a delete of the old row first when the view key shifts; the new image wins over the item, the old image over the key |
| FastView.ApplyBatch | internal/server/grpc_materialized_view_maintenance.go:160-193 | deriving each op and writing the batch applies the ops in order |
| FastReplay.ExactUnlessDropped | internal/server/grpc_materialized_view_fast.go:145-179 | from an exact view one record leads to an exact view if and only if it does not take the view key away from a row that had it |
| FastReplay.DroppedKeyStays | internal/server/grpc_materialized_view_fast.go:145-179 | a concrete put that takes the view key away and leaves its old view row behind |
| FastReplay.ReplaySettles | internal/server/grpc_materialized_view_fast.go:145-179 | after any replay the rows it settles do not depend on where it started from, and the others are untouched |
| FastReplay.TickKeeps | internal/server/grpc_materialized_view_fast.go:105-131 | a tick, over records applied before or not, with the cursor saved or not, keeps the invariant of the run |
| FastReplay.CrashesLeaveNoTrace | internal/server/grpc_materialized_view_fast.go:105-131 | for every log, every cut into bounded ticks and every crash before a cursor is saved: at the end of the log the view is what one plain replay gives |
| FastReplay.ConvergesIff | internal/server/grpc_materialized_view_fast.go:105-179 | over every run, with the cursor at the end of the log, the view is the image of the base table if and only if every view key taken away from a row has since been written again or deleted |
| FastReplay.Converges | internal/server/grpc_materialized_view_fast.go:105-131 | in particular whenever no put takes a view key away |
| FastReplay.KeySwapOwns | internal/server/grpc_materialized_view_fast.go:140-144 | when the base key's attributes are among the view key's, the view key determines the base key |
| FastReplay.Refresher.RefreshFast | internal/server/grpc_materialized_view_fast.go:41-132 | one refresh is one tick of at most 4096 records |
| AggregateView.AddContribution | internal/server/grpc_materialized_view_maintenance.go:422-456 | adds or takes away an item's share of its group, and refuses exactly the items whose SUM source is not a number |
| AggregateView.ApplyMutations | internal/server/grpc_materialized_view_maintenance.go:383-420 | refused as a whole exactly when an image cannot be summed; otherwise the groups reached before a storage error, and all of them without one, change by what the mutations add to them |
| AggregateView.TotalApplied | internal/server/grpc_materialized_view_maintenance.go:333-354 | one put or delete changes recomputation by the new share less the old |
| AggregateView.BatchTotal | internal/server/grpc_materialized_view_maintenance.go:356-376 | for every batch: recomputation afterwards is what the captured images add, less the drift of keys the batch writes again |
| AggregateView.DistinctKeysDoNotDrift | internal/server/grpc_materialized_view_maintenance.go:356-376 | a batch of distinct keys does not drift |
| AggregateView.InSyncIffNoSlip | internal/server/grpc_materialized_view_maintenance.go:383-420 | from a view in sync a batch, complete, cut short or refused, leads to a view in sync if and only if nothing slips: a condition on the batch, the base before it and the groups reached |
| AggregateView.WriteBatch | internal/server/grpc_server.go:745-758 | the base is written first; the exact conditions for the view to stay in sync after a completed batch (no drift) and after a refused one (nothing added) |
| AggregateView.RunInSync | internal/server/grpc_materialized_view_maintenance.go:333-475 | over every run, refusals, storage errors and repeated keys included, each COUNT and SUM equals recomputation if and only if the slips of the batches cancel |
| AggregateView.StaysInSync | internal/server/grpc_materialized_view_maintenance.go:333-475 | the view is in sync all the way through a run if and only if no batch slips |
| AggregateView.DistinctRunInSync | internal/server/grpc_materialized_view_maintenance.go:333-475 | batches of distinct keys that all complete keep every COUNT and SUM equal to recomputation |
| AggregateView.RepeatedKeyCountsTwice | internal/server/grpc_materialized_view_maintenance.go:356-376 | a concrete batch that puts one new row twice, drifts, and is counted twice |
| AggregateView.RefusalOutlivesTheRow | internal/server/grpc_server.go:745-758 | a concrete run: a row whose SUM source is text makes its batch refused after the base is written, deleting it is refused too, and the good row beside it is never counted |
| Payload.RoundTrip | internal/replication/payload.go:83-160 | decoding undoes encoding, raw or compressed, for every batch that does not start with the magic |
| Payload.RoundTripIff | internal/replication/payload.go:151-160 | exactly which payloads survive: all compressed ones, and the raw ones that are not read as compressed |
| Payload.WorthwhileInBytes | internal/replication/payload.go:95-104 | the savings-ratio test in bytes |
| Payload.Encoder.Encode | internal/replication/payload.go:83-125 | exactly when a batch is compressed, that the payload is never longer than the batch, which of the three counters moves, byte counters modulo 2^64, and exactly when a cooldown starts |
| Coalescer.Drain | internal/replication/db.go:586-618 | the drain merges waiting calls in order until the channel is empty, the batch is full or one cannot be read, and that one alone is turned away |
| Coalescer.StepKeeps | internal/replication/db.go:569-649 | every step of the loop keeps the account of calls, answers and log entries |
| Coalescer.EveryCallAnsweredOnce | internal/replication/db.go:569-649 | every call taken from the channel is answered exactly once, and no other |
| Coalescer.StrandedIff | internal/replication/db.go:541-558 | once the loop has exited, a call the channel took stays unanswered if and only if it was enqueued after the loop last looked at the channel |
| Coalescer.CallAfterExit | internal/replication/db.go:541-558 | a concrete run with such a call |
| Coalescer.NilMeansLoggedOnce | internal/replication/db.go:634-649 | a nil answer means the call is in the log, in exactly one place |
| Coalescer.ReadableCallsSucceed | internal/replication/db.go:569-649 | as long as nothing goes wrong, a call is answered with nil if and only if its batch can be read |
| Coalescer.ReplayIsOneByOne | internal/replication/fsm.go:50-82 | replaying the log gives what applying the logged calls, unchanged, one by one gives, in the order they were taken |
| Snapshot.RangeIsPrefix | internal/replication/snapshot.go:42-46 | the iterator bounds select exactly the keys that start with the state prefix |
| Snapshot.WordRoundTrip | internal/replication/snapshot.go:77-83 | a length comes back from its four bytes modulo 2^32 |
| Snapshot.ParseStream | internal/replication/snapshot.go:105-155 | reading back a written stream gives its entries |
| Snapshot.PrefixRefused | internal/replication/snapshot.go:131-155 | every proper prefix of a written stream is refused |
| Snapshot.WriteSnapshot | internal/replication/snapshot.go:50-98 | the stream lists each key of the state range once, with its value |
| Snapshot.ReadBody | internal/replication/snapshot.go:125-178 | commits all entries of a good stream whatever the flushes; of a refused one exactly the full batches of 1024 among the entries readable before the fault |
| Snapshot.ReadSnapshot | internal/replication/snapshot.go:105-179 | a bad header leaves the store alone; otherwise the state range is wiped and those entries added |
| Snapshot.RestoreInvertsWrite | internal/replication/snapshot.go:50-179 | restoring gives the source's state range and leaves every other key of the target alone |
| Snapshot.Transfer | internal/replication/snapshot.go:50-179 | write then read, into any store: the two properties together |
| Quota.Bucket.Begin | internal/server/quota.go:88-130 | exactly which requests are admitted and which reason each other one is refused for, that a refusal gives its slot back, and that the observer hears of each refusal once |
| Quota.StepKeeps | internal/server/quota.go:105-130 | every interleaved add, check, undo and release keeps the counter equal to the requests counted in |
| Quota.NeverOverCap | internal/server/quota.go:105-130 | never more than the cap running, and the counter is the running requests plus those in doubt |
| Quota.SlotsComeBack | internal/server/quota.go:117-130 | when all requests are answered and released the counter is zero |

## Left out

- Apply.ValidateApplyRequest: says nothing of a decommission when a node has the empty id, because the gate's answer then depends on map order.
- Apply.ValidateDecommissionApplyRequest: the same.
- ManagerCode.Manager.RollbackSplit: the child's rows only; its catalog keys are not modelled.
- Index, stream and catalog-key maintenance beside the base rows of a shard copy.
- Multi-shard batches and transactions; only single-row writes hold the fence in the model.
- `ApplyPlacement`'s own Raft membership calls, its timeouts and its already-prepared shortcut.
- `Normalize` defaults, voter sorting, timestamps, result counters, and 64-bit overflow of placement epochs.
- The order in which voters, warnings and keys are listed; node scores enter only as a ranking.
- Explicit move plans (`planMove`, `replaceVoter`) beyond what `MembershipKeepsRouting` says of them.
- Unicode spaces in node ids; only ASCII spaces are refused.
- FAST refresh after the log was trimmed, COMPLETE refresh, and cross-shard dispatch of view writes.
- Floating-point rounding in SUM views and in the compression ratio; both use real numbers.
- FAST views over change records whose old images are stale, because one batch named a key twice.
- Deletion of a lease by a third party, clock skew between processes, and the file-lock backend.
- Replicate calls refused before the channel: on a non-leader, with an empty batch, or while closing.
- Hot reload of service levels: a reloaded bucket starts from zero, so the cap is per bucket.
- Key order in the snapshot stream; the reader does not depend on it.
- Validation of encoder and lease options, which refuses bad values at start-up.
- Peer scans, change publishing, the rebalance controller, plugins, transports and configuration.
