# XCHandles: the reorg-safe index, slot tables, launch driver and auction pricing, verified

This project models the parts of the repository that run as state machines, indexes or exact
arithmetic, and proves properties of them over every input, every run or every reachable state.

| files | what they model |
|---|---|
| `Versions.dfy` | the record of a current state and a pruned history, with push, prune and rollback |
| `PeakWindow.dfy`, `WindowEntries.dfy`, `ForkDetection.dfy` | the live loop's window of recent block hashes, what any peak leaves in it, and the rollback heights it issues |
| `Registry.dfy`, `Indexer.dfy`, `ListenLoop.dfy` | action logs, the projected index, and the whole live loop over it |
| `ChainHistory.dfy`, `ChainRuns.dfy`, `ChainReorgs.dfy`, `ChainDetection.dfy` | the registries' spends as the chain has them, startup, runs of the live loop, what a rollback and resynchronization do, and what the hash scan guarantees |
| `PendingUpdates.dfy`, `RegistrationStats.dfy`, `IndexRuns.dfy`, `IndexMeaning.dfy`, `PeakRetention.dfy` | the clearing variant of the record, the capped registration event log, both as whole runs of the index, and what the index shows read off the action logs |
| `References.dfy`, `Discoveries.dfy`, `ReferenceCounts.dfy`, `SingletonVersions.dfy` | followed singletons: discovery and what becomes of it, reference counts, cleanup, version history |
| `SlotChain.dfy`, `SlotTables.dfy`, `CatalogTables.dfy`, `SpentHeights.dfy`, `Neighbors.dfy` | the sorted linked list of live slots, the tables that mirror it, the heights they mark spent rows with, and the neighbour query with its client |
| `Listing.dfy`, `HandleListings.dfy`, `HandleTable.dfy`, `Cursors.dfy`, `ExpiringPages.dfy` | the expiring directory: two listings, cursors and pages |
| `LaunchDriver.dfy` | the premine launch driver and the scan of the command it drives |
| `AuctionPremium.dfy`, `AuctionCarries.dfy`, `PremineTiming.dfy` | auction premium, when it rises, and premine purchase times |
| `Common.dfy`, `Arithmetic.dfy` | options, machine widths, quotients |

What the code does not do, though one might expect it to, is stated as lemmas:

- After a reorganization the registries are resynchronized without replaying anything: a spend that the
  new branch includes again, at or above the rollback height, is lost from the index.
- A tip rewound onto another branch, and a reorganization that forked below the remembered window, are
  rolled back only from above the fork: what the orphaned spends below that height created stays in the index.
- A pending update that was cleared comes back after a rollback, because a clear leaves no marker.
- A registration evicted from the 50-entry event log stays counted after the rollback of its block.
- A block whose record was missing is asked for again at the next peak only if no later block of that peak had
  one; the comment on `follow_blocks_after` promises the retry without that condition.
- A reference found only by a block that is then rolled back stays active without a state: no later block is
  searched for it, whatever it shows.
- A new handle that names a launcher one of its spent neighbours names is not counted as a reference.
- The auction premium can rise from one second to the next when the fraction of the day carries, and does
  on every day whose value is small beside the precision; the pricing alone decides whether it ever does. For
  smoothly decaying multipliers the rise is at most the number of multipliers the carry drops.
- `reaches_base_at` saturates, and at the last representable second the premium need not be zero.
- A listing cursor whose expiration is 2^63 or more shows nothing from memory and everything from SQL.
- A page limit of zero indexes before the first row whenever there is a row to show.
- The active expiring view stops at the first page whose fetch contains a row without a premium; the
  comment on its window describes the membership with the premium filter, which the window itself does not apply.
- On 1 January 1970 the premine reference wraps around the unsigned range.

Modelling choices: hashing is injective, so a value stands for its hash and a 32-byte hash is the
number it spells. Heights are 32 bits and amounts and times 64 bits; saturating, checked and
truncating operations are written out where they occur. What the node, the coin set, the wallet and
the clock answer are inputs of each step. Allowed action logs are those the registry's puzzles
accept (`rue-puzzles/actions/xchandles`); constants fixed in the SDK (premium start, end,
multipliers, precision, registration period, the two launch slots) are parameters with the range the
code needs. Stores, tables and query results are maps, sets and their ordered listings.

## Model

| member | source | states |
|---|---|---|
| Versions.VersionedRecord.PruneHistory | src/cli/xchandles/listener/store.rs:138-156 | the loop keeps every state within 32 blocks of the peak and the last one older |
| Versions.VersionedRecord.PushReplacement | src/cli/xchandles/listener/handle_store.rs:201-211 | the previous state moves to the history, which is then pruned |
| Versions.VersionedRecord.RollbackToBefore | src/cli/xchandles/listener/registration_store.rs:172-190 | history keeps what is below the height; a lost current state is restored from it and stays in it too |
| Versions.PruneKeepsAnswers | src/cli/xchandles/listener/store.rs:138-156 | pruning changes no answer to a rollback at or above the cutoff |
| Versions.PruneIsSuffix | src/cli/xchandles/listener/store.rs:138-156 | of a height-sorted history pruning keeps a suffix |
| Versions.PruneShape | src/cli/xchandles/listener/store.rs:138-156 | a pruned history is still sorted and has at most one entry older than the cutoff |
| Versions.PushRefines | src/cli/xchandles/listener/store.rs:158-168 | a height-ordered push keeps the record in agreement with the unpruned log, and leaves at most one entry older than peak - 32 |
| Versions.RollbackRefines | src/cli/xchandles/listener/store.rs:171-189 | a rollback no lower than the high-water mark minus 32 yields the last log entry below it and keeps agreement with the truncated log |
| Versions.PrunedRecordAgreesWithLog | src/cli/xchandles/listener/store.rs:138-189 | over every interleaving of ordered pushes and rollbacks within 32 of the high-water mark, current is the last surviving entry of the full log, history stays sorted and pruned |
| Versions.RetentionBoundIsSharp | src/cli/xchandles/listener/handle_store.rs:181-232 | one block deeper than the bound, a record can have lost a state its log still has |
| PeakWindow.ReorgRollbackFrom | src/cli/xchandles/listen.rs:1036-1059 | the scan returns the height after a rewound tip, nothing for a linear extension, else the first contradicted height before a missing answer |
| PeakWindow.ScanFindsIff | src/cli/xchandles/listen.rs:1051-1058 | with answers missing or not, the scan gives a height if and only if some entry there has a contradicting answer and every entry before it an equal one |
| PeakWindow.MissedAnswerIsNoFork | src/cli/xchandles/listen.rs:1052-1058 | a missing answer ahead of any contradiction is no reorganization |
| PeakWindow.RollbackReasonIff | src/cli/xchandles/listen.rs:1036-1059 | with the tip's header known a rollback height is issued if and only if the tip is below the window's top, and then it is the one above the tip, or the tip does not extend the top and the scan finds that height |
| PeakWindow.PeakLoop.constructor | src/cli/xchandles/listen.rs:789-802 | the window starts at the tip seen after catch-up |
| PeakWindow.PeakLoop.Retain | src/cli/xchandles/listen.rs:888-897 | retaining keeps exactly the window entries below a height, in order |
| PeakWindow.PeakLoop.HashCache | src/cli/xchandles/listen.rs:863-880 | the hash answers asked for are enough: the scan gives the same result on them as on all answers |
| PeakWindow.PeakLoop.DetectReorg | src/cli/xchandles/listen.rs:863-911 | the rollback height issued for a peak and the window left by it |
| PeakWindow.PeakLoop.FollowBlocks | src/cli/xchandles/listen.rs:938-972 | the window after absorbing the followed blocks, trimming to 32 and appending the tip |
| PeakWindow.FollowBlocksAfter | src/cli/xchandles/listen.rs:412-434 | all blocks of the range with a record, in height order |
| PeakWindow.FollowedIs | src/cli/xchandles/listen.rs:412-434 | followed are exactly the blocks of the range that have a record, in climbing order |
| WindowEntries.MissedIsRetriedIff | src/cli/xchandles/listen.rs:412-434 | a block whose record was missing is in the next peak's range if and only if no later block of this peak had a record |
| PeakWindow.FollowExtends | src/cli/xchandles/listen.rs:938-958 | following every block from just above a contiguous window extends it contiguously to the tip |
| PeakWindow.DetectKeepsShape | src/cli/xchandles/listen.rs:863-911 | after any rollback the window is a contiguous prefix ending at the last followed height, and the rollback was not below its bottom |
| PeakWindow.PeakKeepsDiscipline | src/cli/xchandles/listen.rs:863-972 | every served peak keeps the window contiguous, at most 32 long, its bottom non-decreasing and at least hw - 31, and issues no rollback below hw - 31 |
| WindowEntries.PeakEndsAtTip | src/cli/xchandles/listen.rs:938-972 | whatever the node answers: at most thirty-two entries at climbing heights, each one kept, followed or the tip under its header's hash, and the tip on top when its header is known |
| ForkDetection.FirstForkIsFirst | src/cli/xchandles/listen.rs:1036-1059 | with hashes that commit to ancestry, the scan finds a height exactly when some entry is not canonical, and it is the first such |
| ForkDetection.RollbackIsForkHeight | src/cli/xchandles/listen.rs:1036-1059 | for a tip not rewound: nothing is returned only if every stored entry is canonical, and keeping the heights below the result leaves exactly the canonical entries |
| ForkDetection.PeakRestoresCanonicalWindow | src/cli/xchandles/listen.rs:863-972 | after a peak whose tip was not rewound the whole window is canonical; after any peak it is linked |
| Indexer.SingletonIndexer.ProjectHandleSlot | src/cli/xchandles/listener/index.rs:102-136 | one created slot is pushed to the record of its handle |
| Indexer.SingletonIndexer.ProjectHandleSlotsFromLogs | src/cli/xchandles/listener/index.rs:138-156 | all created slots of a transition are pushed in order |
| Indexer.SingletonIndexer.ProjectRegistrationsFromLogs | src/cli/xchandles/listener/index.rs:158-224 | register and expire facts are pushed and counted in order |
| Indexer.SingletonIndexer.ProjectPendingUpdatesFromLogs | src/cli/xchandles/listener/index.rs:226-305 | an initiation replaces, any later action on the handle clears, the pending update |
| Indexer.SingletonIndexer.ClearPendingForHandle | src/cli/xchandles/listener/index.rs:307-331 | clearing moves the current update to the history and removes an empty record |
| Indexer.SingletonIndexer.ApplyRegistryTransition | src/cli/xchandles/listen.rs:470-499 | one registry spend changes the slot, registration, statistics and pending projections as specified |
| Indexer.SingletonIndexer.Rollback | src/cli/xchandles/listener/index.rs:579-626 | every record of every store is rolled back, empty ones are removed, statistics of every touched registry follow |
| Indexer.RollbackStore | src/cli/xchandles/listener/index.rs:579-589 | the loop over keys visits each record once |
| Indexer.RollbackStats | src/cli/xchandles/listener/index.rs:591-613 | each touched registry's statistics are rolled back exactly once |
| Indexer.CommitRefines | src/cli/xchandles/listener/index.rs:102-156 | committing a transition's items keeps every record in agreement with its unpruned journal |
| Indexer.RollbackStoreRefines | src/cli/xchandles/listener/index.rs:579-626 | a rollback within retention leaves each key's current at the last journal entry below it, absent keys included |
| ListenLoop.ValidateRecords | src/cli/xchandles/listen.rs:501-533 | a coin-record response is accepted exactly when it names each followed coin once and nothing else |
| ListenLoop.Listener.ProcessSpentRegistryRecords | src/cli/xchandles/listen.rs:501-560 | records in any order update the projections of the registry their coin belongs to; a bad response changes nothing |
| ListenLoop.Listener.OnPeak | src/cli/xchandles/listen.rs:863-972 | one peak whose node answers arrive: rollback, move to the resynchronized tips, spent records, then following, as one step |
| ListenLoop.SyncFailsIff | src/cli/xchandles/listen.rs:534-560 | processing fails exactly when a spent followed coin has no sync result |
| ListenLoop.SyncRefines | src/cli/xchandles/listen.rs:534-560 | replaying the spent registries keeps the index in agreement with its journals |
| ListenLoop.PeakKeepsSound | src/cli/xchandles/listen.rs:863-972 | the window discipline supplies the retention precondition, so after the rollback and after the peak every current equals the truncated journal |
| ListenLoop.EveryRunIsSound | src/cli/xchandles/listen.rs:863-972 | over every run of the live loop, reorganizations included, the window discipline holds and every handle slot and registration is what the unpruned journal of the replayed and not rolled back spends says |
| ChainHistory.StartupRefines | src/cli/xchandles/listen.rs:666-716 | replaying each registry's whole history in turn, whatever their heights relative to each other, gives an index that refines the journals of exactly those histories |
| ChainRuns.StartIsSound | src/cli/xchandles/listen.rs:666-802 | so a cold start at a tip no lower than the histories is sound, tracked and up to date |
| ChainRuns.PeakKeepsTracked | src/cli/xchandles/listen.rs:863-972 | a peak leaves the index showing exactly the spends replayed and not rolled back, however its chain relates to the one before; the tips stand where their syncs ended |
| ChainRuns.EveryRunShowsReplayed | src/cli/xchandles/listen.rs:863-972 | the same over every run of peaks |
| ChainReorgs.ResyncShowsIff | src/cli/xchandles/listen.rs:892-906 | right after any rollback and resynchronization the index shows what the tips stand at if and only if those spends last made the same of every key as the old ones below the rollback height |
| ChainReorgs.ForkShowsIff | src/cli/xchandles/listen.rs:892-906 | the same from a fork at or below the rollback height: if and only if the orphaned spends between the two and the new branch's from the fork on last made the same of every key |
| ChainReorgs.ResyncShowsChainIff | src/cli/xchandles/listen.rs:892-906 | when both branches agree below the rollback height: if and only if no spend at or above it creates a slot or a fact |
| ChainReorgs.PeakResyncShowsIff | src/cli/xchandles/listen.rs:883-906 | both conditions for any peak of the live loop, whose window keeps the rollback within the retention |
| ChainRuns.LosslessRunShowsChain | src/cli/xchandles/listen.rs:863-972 | over every run whose rollbacks leave the logs the tips move to, the index is what the surviving chain last made of each key |
| ChainReorgs.ReincludedSpendIsLost | src/cli/xchandles/listen.rs:892-906 | a reorganization whose new branch has the same spends: what those at or above its height created leaves the index and stays out |
| ChainReorgs.ReplacedBlockLosesSpend | src/cli/xchandles/sync.rs:249-257 | a concrete start and peak at which that happens |
| ChainReorgs.OrphanIsKept | src/cli/xchandles/listen.rs:1044-1059 | a rollback from above the height of an orphaned creating spend leaves the index differing from the chain although nothing creating is passed |
| ChainReorgs.RewoundTipKeepsOrphan | src/cli/xchandles/listen.rs:1044-1046 | so with a tip rewound onto another branch |
| ChainReorgs.DeepReorgKeepsOrphan | src/cli/xchandles/listen.rs:1050-1059 | so with a branch that forked below the only remembered block |
| ChainDetection.DetectedForkAgrees | src/cli/xchandles/listen.rs:1036-1059 | when block hashes fix the spends up to them, a rollback height found by the scan above the window's bottom is one below which both branches have the same spends |
| ChainDetection.UndetectedGrows | src/cli/xchandles/listen.rs:1036-1059 | and when it finds none, what the tips have walked is a prefix of the chain |
| ChainDetection.SnapshotKeepsStep | src/cli/xchandles/listen.rs:863-972 | a peak seen from one snapshot, with no creating spend included again, leaves the index showing exactly the chain it presents |
| ChainDetection.DetectedRunShowsChain | src/cli/xchandles/listen.rs:863-972 | over every run of such peaks, any number of reorganizations in it, the index shows exactly the last chain; nothing is assumed of how the branches relate |
| PendingUpdates.ClearPendingCurrent | src/cli/xchandles/listener/pending_store.rs:127-133 | a clear moves current to the pruned history |
| PendingUpdates.CurrentIsLastEvent | src/cli/xchandles/listener/pending_store.rs:114-133 | over any run of initiations and clears, current is the update of the last event, or none once that is a clear |
| PendingUpdates.RollbackAnswers | src/cli/xchandles/listener/pending_store.rs:135-153 | after a rollback within retention current is the last surviving initiation |
| PendingUpdates.RestoredEqualsReplayIff | src/cli/xchandles/listener/pending_store.rs:94-153 | for ordered events, the restored update equals a replay of the truncated log if and only if no clear below the height follows the last initiation below it |
| PendingUpdates.ClearedUpdateComesBack | src/cli/xchandles/listener/pending_store.rs:127-153 | a concrete run in which a cleared update is restored |
| PendingUpdates.UpdatesAnswer | src/cli/xchandles/listener/pending_store.rs:94-153 | over every interleaving of initiations, clears and rollbacks within retention, each rollback leaves the last surviving initiation as current |
| RegistrationStats.RegistryStats.PushEvent | src/cli/xchandles/listener/registration_store.rs:196-201 | the event log keeps the newest fifty |
| RegistrationStats.RegistryStats.Record | src/cli/xchandles/listener/index.rs:207-221 | a register event is counted and logged, another only logged |
| RegistrationStats.RegistryStats.RollbackToBefore | src/cli/xchandles/listener/registration_store.rs:204-214 | the pop loop removes the newest events down to the height, saturating the count |
| RegistrationStats.RollbackNeverSaturates | src/cli/xchandles/listener/registration_store.rs:204-214 | in a conserved state the count never meets zero while popping |
| RegistrationStats.CountsAreConserved | src/cli/xchandles/listener/registration_store.rs:196-214 | over every run, total minus retained register events equals the register events the cap has evicted |
| RegistrationStats.RollbackExactIff | src/cli/xchandles/listener/registration_store.rs:204-214 | when the total was exact before, a rollback leaves it the register count of the truncated log if and only if no register event at or above the height had been evicted |
| RegistrationStats.EvictedRegisterStaysCounted | src/cli/xchandles/listener/registration_store.rs:196-214 | the run of m registrations in one block and its rollback leaves a total of m - 50 beside an empty log |
| IndexRuns.PendingIsEvents | src/cli/xchandles/listener/index.rs:226-331 | over any transitions, the stored pending record of each handle is what the initiations and clears of that handle make of it |
| IndexRuns.IndexedPendingRestoredIff | src/cli/xchandles/listener/index.rs:226-331 | in the index itself, a rollback restores the last surviving initiation, which is the replayed answer if and only if no later surviving action invalidated it |
| IndexRuns.IndexedPendingIsExec | src/cli/xchandles/listener/index.rs:226-331 | over every run of the index, rollbacks included, each pending record is what its own initiations, clears and rollbacks make of it |
| IndexRuns.IndexedPendingRestored | src/cli/xchandles/listener/index.rs:615-625 | so right after a rollback each pending update of the index is its last surviving initiation |
| PeakRetention.PeakRestoresPending | src/cli/xchandles/listen.rs:883-892 | for a rollback issued at a served peak the window discipline supplies that bound |
| PeakRetention.PeakRestoresSingletons | src/cli/xchandles/listen.rs:883-892 | and for the followed singletons, each left at the last entry of its truncated log |
| IndexRuns.IndexedStatsAreExec | src/cli/xchandles/listener/index.rs:158-224 | over every run of the index, each registry's statistics depend only on its own facts and the rollbacks |
| IndexRuns.IndexedCountsAreConserved | src/cli/xchandles/listener/index.rs:207-221 | so each registry's counts are conserved in every reachable index |
| IndexMeaning.PendingShownIff | src/cli/xchandles/listener/index.rs:226-305 | over any run without rollbacks, an update is pending if and only if it was initiated and no later log of its handle initiates, executes, extends, serves, expires or refunds |
| IndexMeaning.RegistrationIsCarried | src/cli/xchandles/listener/index.rs:158-205 | and a handle's registration is the purchase of the last register or expire log that created its slot, with that kind |
| IndexMeaning.StatsCountLogs | src/cli/xchandles/listener/index.rs:207-221 | and the total is the number of register logs up to the counter's limit, the feed the newest fifty of the register and expire logs |
| IndexMeaning.SlotIsCarried | src/cli/xchandles/listener/index.rs:102-156 | and a handle's slot is the last value a log created for it, under the coin and height of its spend |
| IndexMeaning.ShownSlotIsLive | src/cli/xchandles/listener/index.rs:102-156 | so every slot shown is the live one of its handle |
| References.RefsFromTransition | src/cli/xchandles/listener/refs.rs:56-103 | the references newly introduced: named by the created slot, by none of the spent ones, resolved only with its puzzle hash |
| Discoveries.ReferenceHashes | src/cli/xchandles/listener/refs.rs:15-103 | each new reference carries the hashes its action commits to for the owner, or for a different resolved launcher |
| References.SingletonFollower.BumpReference | src/cli/xchandles/listener/store.rs:118-124 | a saturating increment that clears the dereference height |
| References.SingletonFollower.DropReference | src/cli/xchandles/listener/store.rs:126-134 | a saturating decrement that records the height at zero |
| References.SingletonFollower.DiscoverReference | src/cli/xchandles/listener/index.rs:333-397 | an active record is bumped, any other is rediscovered keeping its history and count |
| Discoveries.StatusFollowsFirstShowing | src/cli/xchandles/listener/index.rs:352-397 | through any later blocks a reference is incomplete exactly while nothing was shown, a mismatch for good exactly when several were shown first, active exactly when a single one was |
| Discoveries.FoundStateIsCurrent | src/cli/xchandles/listener/index.rs:444-480 | the block that first shows a single one makes it current at that block's height |
| Discoveries.DiscoveryCounts | src/cli/xchandles/listener/index.rs:341-397 | a rediscovery keeps a positive count and the history, a discovery of a followed one counts one more |
| Discoveries.RecordHasDiscovery | src/cli/xchandles/listener/index.rs:333-397 | over every sequence of changes, a record's hashes and discovery height are those of a discovery that no later rollback went down to |
| Discoveries.UndoneFindIsNotRetried | src/cli/xchandles/listener/index.rs:453-489 | a reference found only by a later block is followed after a rollback if and only if that block is below it; otherwise no block changes it any more |
| References.SingletonFollower.TrackSlotReferenceChanges | src/cli/xchandles/listener/index.rs:399-436 | each replaced slot drops its vanished launchers and re-bumps dropped ones it names |
| References.SingletonFollower.OnRegistryTransition | src/cli/xchandles/listener/index.rs:84-99 | each log's discoveries come before its reference changes |
| Discoveries.TransitionIsOfSpend | src/cli/xchandles/listener/index.rs:84-99 | every change a registry spend makes of the followed singletons is at its own height, every discovery with what its own block shows |
| References.SingletonFollower.OnBlock | src/cli/xchandles/listener/index.rs:439-539 | incomplete discoveries are retried, live coins follow one hop, final records are removed |
| Discoveries.FollowsHops | src/cli/xchandles/listener/index.rs:479-536 | through blocks that each spend the current coin once, the record ends at the last coin, at its block's height |
| Discoveries.MeltedStays | src/cli/xchandles/listener/index.rs:489-491 | once melted no block changes the state |
| References.SingletonFollower.CleanupFinalized | src/cli/xchandles/listener/index.rs:541-554 | exactly the records at zero dropped 32 blocks before the peak go |
| References.SingletonFollower.RollbackAll | src/cli/xchandles/listener/index.rs:557-577 | records discovered at or above the height go; the rest roll back, and a dereference undone restores a count of one |
| Discoveries.RollbackCounts | src/cli/xchandles/listener/index.rs:557-577 | a rollback that undoes the drop to zero leaves exactly one reference, any other leaves the count alone |
| References.ZeroCountIffDereferenced | src/cli/xchandles/listener/index.rs:378-395 | over every sequence of changes, a count is zero if and only if a dereference height is set |
| References.DereferenceHasDrop | src/cli/xchandles/listener/store.rs:126-134 | a recorded dereference height is that of a drop since which the launcher stayed unreferenced |
| References.CleanupNeedsOldDrop | src/cli/xchandles/listener/index.rs:541-554 | cleanup removes only records whose latest drop at zero is at least 32 blocks old |
| Discoveries.CleanupRemovesIff | src/cli/xchandles/listener/index.rs:541-554 | cleanup removes a record if and only if it has been at zero since a drop at least 32 blocks before the peak |
| ReferenceCounts.RegisterExactIff | src/cli/xchandles/listener/refs.rs:15-103 | a registration keeps counts equal to the live slots naming each launcher if and only if each launcher it names is newly learned and countable |
| ReferenceCounts.ReplacementExactIff | src/cli/xchandles/listener/index.rs:399-436 | likewise for every action that replaces one slot: the launchers it newly names must be at zero, or newly learned and countable |
| ReferenceCounts.LogKeepsExactIff | src/cli/xchandles/listener/index.rs:333-436 | every allowed action keeps exact counts if and only if it is clean |
| ReferenceCounts.CleanRunIsExact | src/cli/xchandles/listener/store.rs:69-70 | in every rollback-free clean run the count of each non-zero launcher is the number of live slots naming it |
| ReferenceCounts.LaunchIsExact | src/cli/xchandles/listener/store.rs:69-70 | an empty store is exact for a launched registry |
| ReferenceCounts.SharedNeighbourIsNotCounted | src/cli/xchandles/listener/refs.rs:56-103 | a run from a launch, a clean registration and a second one beside it for the same launcher, that leaves the count too low |
| SingletonVersions.BlockTracksAt | src/cli/xchandles/listener/index.rs:439-539 | following a record through a block appends to its unpruned log what the record now shows |
| SingletonVersions.RollbackTracksAt | src/cli/xchandles/listener/store.rs:171-189 | a rollback within retention leaves a followed singleton at the last entry of its truncated log |
| SingletonVersions.FollowedStatesAgreeWithLogs | src/cli/xchandles/listener/index.rs:333-577 | over every run of discoveries, follows, drops, cleanups and rollbacks in which each launcher's own states ascend, each followed singleton's current state is the last entry of its unpruned log |
| SingletonVersions.ReplayAheadIsInTime | src/cli/xchandles/listen.rs:470-499 | a registry spend replayed before an earlier block is followed is such a run |
| SlotChain.LogKeepsChain | rue-puzzles/actions/xchandles/register.rue:24-226 | every allowed action keeps the live slots a sorted doubly linked list and removes no key |
| SlotChain.LogIsFresh | rue-puzzles/actions/xchandles/register.rue:24-226 | an allowed action creates only values never made before, and spends exactly those it replaces |
| SlotChain.LogsAreClean | src/cli/xchandles/sync.rs:131-205 | a whole transition: created values are new and distinct, spent ones were live or just created, and each live slot is the last created for its handle |
| SlotTables.SlotDb.SaveSlot | src/cli/database.rs:204-243 | a row is written for the value and parent, replacing an old one |
| SlotTables.SlotDb.SaveIndexedSlotValue | src/cli/database.rs:472-493 | the index row of the handle is replaced |
| SlotTables.SlotDb.MarkSlotAsSpent | src/cli/database.rs:428-449 | only unspent rows of the value change, to the height, and that value alone stops being unspent |
| SlotTables.SlotDb.DeleteSlotsSpentBefore | src/cli/database.rs:696-711 | exactly the rows spent below the threshold go, the others are unchanged |
| SlotTables.SlotDb.SaveInitialSlots | src/cli/xchandles/sync.rs:91-105 | the two launch slots are saved and indexed |
| SlotTables.SlotDb.SyncSpend | src/cli/xchandles/sync.rs:174-199 | created slots are saved and indexed first, then spent ones are marked |
| SlotTables.SlotDb.Walk | src/cli/xchandles/sync.rs:131-205 | a walk applies its spends in order |
| SlotTables.SpendShows | src/cli/xchandles/sync.rs:174-199 | one transition, with slots created and spent inside it, moves the unspent rows and the index from the old live slots to the new |
| SlotTables.ColdWalkIsExact | src/cli/xchandles/sync.rs:91-205 | after a cold walk of any valid history over a database filled from it, the unspent rows are exactly the live slots and the index is exactly the live map |
| SlotTables.ResumedWalkIsExact | src/cli/xchandles/sync.rs:131-205 | a walk resumed at an exact state stays exact |
| SlotTables.PruningKeepsUnspent | src/cli/database.rs:696-711 | deleting old spent rows changes no unspent row |
| SlotTables.RewalkIsExact | src/cli/xchandles/sync.rs:49-205 | a cold re-walk over an already walked and pruned database ends exact again |
| SlotTables.ColdWalkRowsAreExact | src/cli/database.rs:204-243 | row by row: each live value has exactly one unspent row, under the coin of the spend that made it, and there is no other unspent row |
| SpentHeights.ColdWalkHeights | src/cli/xchandles/sync.rs:174-199 | after a cold walk each value ever made has its row under the coin that made it, holding the height of the spend that spent it, or zero while live |
| SpentHeights.HeightIsOfSpend | src/cli/xchandles/sync.rs:191-199 | that height is the height of whichever spend of the history spent the value |
| SpentHeights.PruneRemovesIff | src/cli/database.rs:696-711 | after a cold walk, pruning at a threshold removes the rows of a value if and only if some spend below it spent the value |
| CatalogTables.SyncCatalogSpend | src/cli/catalog/sync.rs:229-272 | the two loops mark by index and save the values created more often than spent |
| CatalogTables.NetIsUnspent | src/cli/catalog/sync.rs:236-272 | for unique values the net-created ones are exactly the created but not spent |
| CatalogTables.IndexNamesSpent | src/cli/catalog/sync.rs:229-235 | a live spent value is the one the index names, so marking by index marks it |
| CatalogTables.CatalogAgrees | src/cli/catalog/sync.rs:229-272 | netting and save-then-mark leave the same unspent values and the same index for any clean transition |
| CatalogTables.CatalogAgreesOnHistory | src/cli/xchandles/sync.rs:174-199 | and so for the next transition of any valid history of registry actions |
| SpentHeights.CatalogWalkHeights | src/cli/catalog/sync.rs:229-272 | CATalog's walk over any history leaves exact tables whose spent rows hold the height of the spend that spent them |
| Neighbors.GetNeighbors | src/cli/database.rs:632-694 | the greatest smaller and least greater index keys with unspent values, or an error when either side has none |
| Neighbors.QueryReadsChain | src/cli/database.rs:632-694 | over exact tables the query on a key strictly inside the chain answers its live neighbours |
| Neighbors.RebuiltIsStoredIff | src/cli/xchandles/xchandles_api_client.rs:63-153 | the client's rebuilt left and right values equal the stored ones if and only if the queried key is not live |
| Neighbors.DecrementKey | src/cli/xchandles/xchandles_api_client.rs:155-167 | in place: the key's number goes down by the weight of its last non-zero byte, zero bytes after it stay; an all-zero key is an error |
| Neighbors.DecrementValue | src/cli/xchandles/xchandles_api_client.rs:155-167 | what the decrement takes off the number the key spells |
| Neighbors.LookupFindsSlotIff | src/cli/xchandles/xchandles_api_client.rs:155-172 | the lookup of a live `h` through a smaller key returns its slot if and only if that key is above the first slot and no live key lies from it up to `h` |
| Neighbors.GetSlotValue | src/cli/xchandles/xchandles_api_client.rs:155-172 | the lookup from a key's bytes: the decrement in place, the query and the rebuilt right side, with the same condition on the decremented bytes |
| Neighbors.FirstSlotIsNotFound | src/cli/xchandles/xchandles_api_client.rs:155-172 | the first slot of the list is never found this way |
| HandleListings.ReachableRecordsAreCurrent | src/cli/xchandles/listener/index.rs:579-589 | in every reachable index each slot and registration record has a current state, each slot under its own key |
| HandleListings.ListInMemory | src/cli/xchandles/listener/handle_store.rs:121-177 | whatever order the map yields, the result is the first rows, by expiration and handle, of the named slots in the window after the cursor |
| HandleTable.DbHandleSlotStore.Upsert | src/cli/xchandles/listener/handle_store.rs:260-285 | the row's column is the expiration of the record's current state, so the table keeps mirroring the store |
| HandleTable.DbHandleSlotStore.Project | src/cli/xchandles/listener/index.rs:102-156 | projecting a transition keeps the table mirroring the store |
| HandleTable.DbHandleSlotStore.RollbackAll | src/cli/xchandles/listener/index.rs:579-589 | rolling back keeps the table mirroring the store |
| HandleTable.ListingsAgree | src/cli/database.rs:1002-1059 | for a window and cursor inside the signed range memory and SQL return the same rows in the same order, for every limit and any stored expirations |
| HandleTable.ListingsAgreeIff | src/cli/database.rs:1010-1050 | for a window in the signed range they agree if and only if the cursor fits it too, the limit is zero or the window is empty |
| HandleTable.ReachableListingsAgree | src/cli/xchandles/listener/handle_store.rs:299-331 | agreement in every reachable index, with no assumption on its records |
| Listing.StrLessIff | src/cli/xchandles/listener/handle_store.rs:170-174 | byte order of text: the one is first that is smaller where the two first differ, or that ends there |
| Listing.ListedOnce | src/cli/xchandles/listener/handle_store.rs:170-175 | a set of rows has only one strictly ordered listing |
| Listing.InOrderAscends | src/cli/xchandles/listener/handle_store.rs:170-174 | sorting rows with distinct handles gives a strictly ascending listing |
| Cursors.CursorRoundTrip | src/cli/xchandles/listener/api.rs:158-172 | an encoded cursor decodes to its parts exactly when the handle is canonical |
| Cursors.DecodeIsStable | src/cli/xchandles/listener/api.rs:162-172 | whatever decodes, encodes to a cursor that decodes the same |
| Cursors.PlusSignIsRead | src/cli/xchandles/listener/api.rs:162-172 | a plus sign before the expiration reads the same cursor |
| ExpiringPages.SoonWindowIff | src/cli/xchandles/listener/api.rs:184-189 | the window is now < expiration <= now + 30 days, and at the last second also that second |
| ExpiringPages.ActiveWindowIff | src/cli/xchandles/listener/api.rs:175-182 | the window is expired by now and less than 28 days before the projected time |
| ExpiringPages.PricedInWindow | src/cli/xchandles/listener/api.rs:172-182 | no expired handle with a premium is outside the window |
| ExpiringPages.LookupExpiringSoon | src/cli/xchandles/listener/api.rs:577-634 | a page of the ordered listing after the cursor, with a next cursor exactly when more follows |
| ExpiringPages.PageLimitIs | src/cli/xchandles/listener/api.rs:594-594 | fifty rows unless fewer are asked for |
| ExpiringPages.LookupExpiringActive | src/cli/xchandles/listener/api.rs:509-575 | the same with the premium filter applied after the limit |
| ExpiringPages.VisitYieldsRest | src/cli/xchandles/listener/api.rs:577-634 | following the next cursor from anywhere ends and yields every row past it once, in order |
| ExpiringPages.SoonViewIsComplete | src/cli/xchandles/listener/api.rs:577-634 | from the start the pages concatenate to exactly the ordered listing, for any limit of at least one |
| ExpiringPages.ZeroLimitPanicsIff | src/cli/xchandles/listener/api.rs:594-622 | the soon lookup fails exactly when a limit of zero was asked for and a named slot of the window is past the cursor |
| ExpiringPages.ActiveZeroLimitPanicsIff | src/cli/xchandles/listener/api.rs:528-563 | the active lookup fails exactly when a limit of zero fetches a row that is still priced |
| ExpiringPages.UnreadableCursorRestarts | src/cli/xchandles/listener/api.rs:592-594 | a page ending at a non-canonical handle leads back to the first page |
| ExpiringPages.ActiveVisitYields | src/cli/xchandles/listener/api.rs:540-567 | following the active view yields the priced rows up to the end of the first fetch holding an unpriced one |
| ExpiringPages.ReachIs | src/cli/xchandles/listener/api.rs:540-567 | where the view stops, in closed form from the position of the first decayed row and the limit |
| ExpiringPages.ActiveViewCompleteIff | src/cli/xchandles/listener/api.rs:540-567 | it is complete if and only if no row from there on is priced, so always when no row has decayed |
| ExpiringPages.DecayedRowHidesOthers | src/cli/xchandles/listener/api.rs:556-567 | a decayed first row and a priced one past the first fetch make it incomplete |
| LaunchDriver.Scan | src/cli/xchandles/continue_launch.rs:271-287 | the scan with its jump stops at the first absent handle it visits |
| LaunchDriver.SelectBatch | src/cli/xchandles/continue_launch.rs:580-586 | the next rows up to the batch size |
| LaunchDriver.RunCli | src/cli/xchandles/continue_launch.rs:271-359 | precommits come first while nothing is registered; all registered ends the launch |
| LaunchDriver.ScanIs | src/cli/xchandles/continue_launch.rs:271-287 | over a prefix the scan finds its end, unless the jump lands beyond it |
| LaunchDriver.PromptShowsFrontier | continue-launch-loop.py:232-242 | with the skip one behind, the printed batch is the expected one exactly when the frontier is the position, and starts earlier exactly when progress was truncated, however deep |
| LaunchDriver.DeepTruncationShowsOneBehind | continue-launch-loop.py:177-178 | over a deeper truncation the command shows the batch one behind the position |
| LaunchDriver.YesIffAtFrontier | continue-launch-loop.py:295-385 | the driver answers yes exactly when the printed batch starts at the true frontier |
| LaunchDriver.RunOne | continue-launch-loop.py:295-385 | one run of the command: its status and whether yes was answered |
| LaunchDriver.VerdictIff | continue-launch-loop.py:295-385 | done exactly when all is registered, ok and retry exactly when yes was answered and the push confirmed or was a double spend, exit exactly when the command failed, the push was rejected or the frontier is past the position |
| LaunchDriver.RunOneWithRetries | continue-launch-loop.py:395-443 | double spends retry without limit, a third earlier list gives up |
| LaunchDriver.SettlesAtFirst | continue-launch-loop.py:395-443 | a batch settles at the first verdict that is neither a double spend nor one of the first two earlier lists; a third is an exit |
| LaunchDriver.SettledAtFrontier | continue-launch-loop.py:395-443 | a settled batch was confirmed on a chain whose frontier it starts at |
| LaunchDriver.RunPass | continue-launch-loop.py:446-485 | every confirmed batch starts at the frontier of its chain, a pass that ends normally confirms the planned number of batches, which partition the remaining rows, and all are registrations when every chain seen was one to register on |
| LaunchDriver.ConfirmationExtendsLedger | continue-launch-loop.py:446-485 | a confirmed batch extends the phase of the ledger it was built on |
| LaunchDriver.PrecommitPassesForRegistration | src/cli/xchandles/continue_launch.rs:315-337 | with nothing registered and a row to precommit, yes confirms precommitments in either pass |
| LaunchDriver.ProgressNeverHasAHole | continue-launch-loop.py:295-485 | over any sequence of tries at any positions and batch sizes and reorganizations of any depth, what is on chain stays a prefix of the rows in both phases |
| LaunchDriver.FullSkipHidesTruncation | continue-launch-loop.py:177-178 | with the position itself as skip the command would print the expected batch over a truncation |
| AuctionPremium.PremiumAfterElapsed | src/cli/xchandles/listener/auction_pricing.rs:55-75 | in machine integers, shift, widened product and casts lose nothing |
| AuctionPremium.Apply | src/cli/xchandles/listener/auction_pricing.rs:66-72 | the loop over the digits computes the nested rounded product |
| AuctionPremium.AuctionPremium | src/cli/xchandles/listener/auction_pricing.rs:44-53 | the premium at any buy time, zero before expiration and after 28 days |
| AuctionPremium.RoundingLoss | src/cli/xchandles/listener/auction_pricing.rs:55-75 | the rounded value is at most the exact product over the start shifted by whole days, and below it by at most the number of set fraction bits, at most sixteen |
| AuctionPremium.TotalRoundingLoss | src/cli/xchandles/listener/auction_pricing.rs:55-75 | against the product over the start divided exactly by whole days, one unit more |
| AuctionPremium.DecayedSuperadds | src/cli/xchandles/listener/auction_pricing.rs:66-72 | nested rounding makes two parts worth no more than their sum |
| AuctionPremium.DayHalvesValue | src/cli/xchandles/listener/auction_pricing.rs:60-72 | twice the value a day later never exceeds the value now |
| AuctionPremium.DayHalvesPremium | src/cli/xchandles/listener/auction_pricing.rs:44-75 | the same for the premium, at every time from expiration on |
| AuctionPremium.PremiumBounded | src/cli/xchandles/listener/auction_pricing.rs:44-75 | the premium is at most start minus end, and is that at expiration |
| AuctionPremium.BaseReached | src/cli/xchandles/listener/auction_pricing.rs:27-53 | the premium is zero at and after the announced time whenever that time did not saturate |
| AuctionPremium.BaseReachedIff | src/cli/xchandles/listener/auction_pricing.rs:27-29 | under every pricing the premium is gone at the announced time if and only if it did not saturate |
| AuctionPremium.SaturatedBaseReached | src/cli/xchandles/listener/auction_pricing.rs:27-75 | at a saturated time it is still gone when the whole days have halved the start to the end value |
| AuctionPremium.BaseNotReached | src/cli/xchandles/listener/auction_pricing.rs:27-53 | a handle expiring at the last second is announced at base then and costs the full premium |
| AuctionPremium.NoCarryNoRise | src/cli/xchandles/listener/auction_pricing.rs:66-72 | the value does not rise between any two fractions unless a digit is cleared |
| AuctionCarries.CarryFallsIff | src/cli/xchandles/listener/auction_pricing.rs:66-74 | a carry raises no premium, whatever the digits above it, if and only if the gained multiplier's product is at most that of the dropped ones or the end value |
| AuctionCarries.PremiumNeverRisesIff | src/cli/xchandles/listener/auction_pricing.rs:44-75 | the premium of an auction never rises if and only if on each of its twenty-eight days none of the sixteen carries and the midnight raises it |
| AuctionCarries.LowDaysRise | src/cli/xchandles/listener/auction_pricing.rs:55-75 | on every day whose starting value is so small that the three lowest multipliers each take one unit, the premium is one unit dearer at its sixth second than at its fourth |
| AuctionCarries.RiseAtMostDropped | src/cli/xchandles/listener/auction_pricing.rs:66-72 | for smoothly decaying multipliers one second raises the value by at most the number of multipliers its carry drops |
| AuctionPremium.NearlyNeverRises | src/cli/xchandles/listener/auction_pricing.rs:55-75 | for smoothly decaying multipliers a later value exceeds an earlier one by at most the earlier fraction's set bits |
| PremineTiming.MonthsJoin | src/cli/xchandles/premine_timing.rs:24-33 | calendar months follow each other without gap, across year ends and leap days |
| PremineTiming.FirstDayFromMarch | src/cli/xchandles/premine_timing.rs:24-33 | month starts agree with the count by March years, which writes out no month length |
| PremineTiming.ReferenceIsYesterdaysMonth | src/cli/xchandles/premine_timing.rs:16-34 | from the second day of 1970 the reference is the start of the month of one day ago |
| PremineTiming.ReferenceWraps | src/cli/xchandles/premine_timing.rs:19-34 | on the first day of 1970 the reference wraps around |
| PremineTiming.ReferenceHoldsThroughMonth | src/cli/xchandles/premine_timing.rs:16-34 | the reference equals a month's start if and only if the time is from its second day up to the second day of the next month |
| PremineTiming.PremineBuyTime | src/cli/xchandles/premine_timing.rs:41-70 | succeeds if and only if the expiration reaches one period and its remainder is before the reference; the count is the least, in closed form, and reconstitutes the expiration |
| PremineTiming.FitsIffRemainder | src/cli/xchandles/premine_timing.rs:36-40 | some period count fits if and only if that condition holds |
| PremineTiming.LeastCount | src/cli/xchandles/premine_timing.rs:36-40 | the least fitting count is 1 or floor((expiration - reference) / period) + 1 |
| PremineTiming.AssertBatch | src/cli/xchandles/premine_timing.rs:97-115 | a batch is accepted if and only if it is empty, or the periods agree and every row can be met; its timings reconstitute the rows |

## Left out

- Spend construction, CLVM execution, puzzle parsing and tree hashes: the SDK is not part of this model; action logs are given records.
- Singleton discovery and the parsing of a followed spend: each block brings their results as given answers.
- RPC, websocket, HTTP routing, locking, printing, subprocess plumbing and JSON: errors of the node end the step and restart the loop, and are not modelled further.
- ChainRuns.PeakKeepsTracked: a resynchronization that finds the saved tip's parent unspent on the new branch ends the loop and is not part of a run; a registry built from a mempool item is the SDK's and not modelled. Spends synced at one peak are taken to be no higher than its tip, and not below what the index holds of their registry.
- ChainDetection.DetectedRunShowsChain: a peak's answers come from one snapshot of the chain, its tip not below the last followed block; the other peaks are ChainReorgs'.
- ChainRuns.StartIsSound: a cold start; a restart continues from the persisted index, with slots absent from it projected at height zero from the slot tables, and cannot see a reorganization that happened while it was down.
- Indexer.SingletonIndexer.ApplyRegistryTransition: the discovery and block-follow calls work on the singleton store alone and are stated for SingletonFollower.
- ListenLoop.Listener.ProcessSpentRegistryRecords: the discovery and block-follow half of applying a spend works on the singleton store alone and is stated there, for SingletonFollower.
- ListenLoop.Listener.OnPeak: a node error at any call ends the loop; only a failing sync is modelled.
- References.SingletonFollower.OnRegistryTransition: a block that cannot be parsed ends the pass over the remaining logs; parsing is the SDK's, and its failures are not modelled.
- References.SingletonFollower.OnBlock: likewise, a spend that cannot be parsed ends the pass before cleanup.
- CatalogTables.CatalogAgreesOnHistory: histories are of this registry's actions; CATalog's own actions are not modelled.
- ListenLoop.EveryRunIsSound: speaks of replayed spends, the chain being ChainRuns'; it assumes every block record is available, a rewound tip still inside the window, a window started above height zero, and each registry's spends replayed in height order; it does not claim what the code does not give without them.
- ForkDetection.PeakRestoresCanonicalWindow: after a rewound tip the window may hold stale hashes until the next peak, so only linkage is claimed then.
- SingletonVersions.FollowedStatesAgreeWithLogs: the log is of the states the follower was shown; completeness of following is not claimed, since one call follows one hop.
- ReferenceCounts.CleanRunIsExact: states rollback-free runs only, because a rollback that undoes a dereference restores a count of one whatever it was.
- ReferenceCounts.LogKeepsExactIff: assumes fewer live slots than a 32-bit counter holds, so saturation at the top of a reference count is not described.
- RegistrationStats.CountsAreConserved: assumes the 64-bit register count never reaches its maximum.
- PeakWindow.PeakKeepsDiscipline: assumes the tip is below the greatest 32-bit height.
- LaunchDriver.RunOneWithRetries: the attempts are a finite sequence; a driver that runs out of them counts as having exited.
- LaunchDriver.ProgressNeverHasAHole: what happens on chain when a push is answered with a double spend is that nothing was added.
- LaunchDriver.RunPass: reading the CSV, the options and the precommit wait between passes.
- PremineTiming.ReferenceHoldsThroughMonth: the calendar library's own date limit, far beyond any launch, is not modelled.
- SlotTables.RewalkIsExact: one registry and one nonce; rows of other registries are untouched by every query and not modelled.
- Neighbors.LookupFindsSlotIff: the hash of a handle is any number; collisions are excluded by injectivity.
- ExpiringPages.LookupExpiringSoon: base fees and the freshness check of a response, which do not affect paging.
- HandleTable.ListingsAgree: the query is its where, order and limit meaning; windows at or past 2^63 seconds are excluded, since the clock does not reach them.
- Event logs returned newest first, price schedules, CSV loading, reward distributor, multisig, datastore and the single-handle commands: short scans or orchestration.
