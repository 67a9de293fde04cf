# Harper: verified models of its self-contained algorithms

This project models, in Dafny, the algorithms of the Harper database that carry their own proof obligations, and
proves what they are for. `dafny verify dfyconfig.toml` checks all of it.

| module | what it models |
|---|---|
| `Crdt`, `Versions` | the `add` operation, rewriting a late put or patch before later patches, the comparison of versions |
| `Timelines`, `Places`, `GatheredOrder` | the writes of a record in the order of timestamps and node names, and whether the order shows in which the walk of the audit trail gathers them |
| `Resequencing`, `Convergence` | the commits of puts, patches and deletes that arrive late, tied or repeated, and convergence over all arrival orders |
| `TimestampTies` | when the commit takes an older write for the newest: three nodes at one timestamp |
| `LastWriter` | puts and deletes decided by (timestamp, node name) |
| `RecordHistory` | reconstructing a record as of an earlier time by walking the audit log backwards |
| `ConfigTree`, `EnvConfig`, `EnvConfigSession`, `EnvConfigRuns`, `EnvConfigRestores`, `EnvConfigFixpoint` | layering HARPER_DEFAULT_CONFIG and HARPER_SET_CONFIG over a configuration file across boots and user edits |
| `OptimisticCommit`, `CommitInterleavings` | conditional batches with retries and an exclusive fallback, and serializability over every interleaving |
| `SecondaryIndex`, `IndexSearch` | secondary indexes against the primary store, and what a search by them finds |
| `OrderedSelect`, `SortOrder` | the group-at-a-time streaming sort against a stable sort of everything, and what the order is |
| `LogMerge` | the resumable merge of transaction logs |
| `FrequencyTable` | the table that spreads blobs over storage paths in proportion to their space |
| `ConfigMerge`, `OptionsWatcher` | merging a changed component configuration and announcing the changes |
| `AuditFormat`, `AuditStore` | audit entries as bytes: the shared header buffer, the moving decoder, the RocksDB log prefix |
| `RecordPrefix` | the metadata in front of stored records and the one-shot variables that hand it over |
| `StoredBytes` | what readers get out of entries, and the bytes that stored files hold |

Code that changes state is modelled by classes and methods with loops, each proved to compute a function of the old
state (`Committed`, `Stored`, `Layered`, `Merged`, `Called`, `LeftPending`, ...) or a relation on it (`LayerStep`,
`BootStep`); the theorems are about those. `LayerStep` and `BootStep` say what a turn or a boot does at each path
of the universe, what it leaves alone, and which snapshot it takes; `ApplyRuntimeEnvConfig` is proved to be a `BootStep`
from every well-formed file and state, so the theorems about boots speak of its runs (`BootThreeTimes`).

## What the proofs found

Stated as lemmas on the code as it is, with the exact condition unless the text says otherwise:

- A late put does not remove keys that it does not name, and a late delete is dropped. The stored record is the one of
  timestamp order exactly when the later patches have made every such key forgettable (`LatePutExactly`,
  `LateDeleteExactly`, example `LatePutKeepsOldKey`). A dropped delete is not audited either, so that an older write which
  arrives after it is stored although the delete is newer (example `DroppedDeleteForgotten`).
- Of patches with one version, a late put keeps what the walk of the audit trail met last. It is rebuilt to the same
  record in every order exactly when any two patches of one version commute on each of its keys or a later version
  overwrites them; increments that follow blur values that count as the same number (`PutInAnyOrderExactly`, for two
  patches `PutPairExactly`, example `PutMindsOrder`). A late patch is always rebuilt to the same (`RebuiltAnyOrder`).
- A late write overwrites the entry's node id while the version stays that of the newest write. A redelivery of that
  newest write is then applied a second time if its node's name is the greater one (`RedeliveryIgnoredExactly`, example
  `RedeliveryCountsTwice`: an increment of 1 counts twice). Of three nodes that write at one timestamp, the middle one
  can overwrite what the greatest has set (`MisjudgedMeans`, example `TieOverwritesGreater`); with two nodes that never
  happens (`TwoNodesConverge`).
- All of this together: after an arrival the record is the replay of all that has arrived, by timestamp and node name,
  exactly when the arrival is `Harmless` (`StepExactly`). Its cases are read off the record, the write and the later
  writes key by key. Whatever the order of the walk, it is so exactly when it is for the order of the places and a
  rebuilt put finds all patches of one version settled (`StepInEveryOrder`).
- The backward reconstruction of a record is right at a property exactly when it was not mentioned later, or was
  overwritten later and last written before by a plain value, or was only incremented later and held a number
  (`ReconstructionExactly`). A put after the time asked for is not undone: patches before it are reversed on its value,
  which is right exactly when it is `RecoverableAcross` it (`LaterPutExactly`). Across a delete it never is:
  there is no record, or a TypeError, exactly when one of the patches in between increments something or an unknown key
  was mentioned before (`LaterDeleteExactly`).
- When older entries have been removed from the audit log, the reconstruction stops at the gap: it fails with a TypeError
  exactly when a property set since then is not mentioned by what is left before the time asked for (`PrunedExactly`).
- A value that DEFAULT once found at a path is recorded, and stays so after edits: it is what SET gives back when it lets
  the path go, and not the value that was there when SET took it (`SetRestores`, `DefaultRecords`).
- A write whose key is falsy (the number 0, the empty string) carries no condition, so an update that comes in
  between is lost, and of two writes to one key the first is lost. Every batch over given keys that goes through is
  serial if and only if the keys are truthy and distinct (`SerialExactly`, example `FalsyKeyLosesUpdate`).
- An installation does not look for drift. What it overlooks stays if the owner's variable holds nothing but white
  space, and DEFAULT's path is not named by SET; exactly this drift is left after a boot (`DriftAfterBoot`).
- An index that indexes nulls keeps a (null, id) pair after every eviction, and misses a null that a record has once
  when it is written over a tombstone (`EvictExactly`, `WriteExactly`).
- One boot is not a fixpoint of the configuration: a second one changes something exactly when SET gives back a path
  that DEFAULT names, or takes one over from DEFAULT (`OneBootIsEnoughExactly`). A third never does.
- A component whose section becomes null or a list does not follow it: the new value is stored under the key
  "undefined" of the old section (`FollowsExactly`). The doc comment at components/OptionsWatcher.ts:169-177 says
  that the new object completely overwrites the old one.
- A remote sequence update is read back as a message, more than 255 references are miscounted, and a previous version
  is only recognised by its first byte (`DecodesExactly`). The RocksDB reader does not skip the node of the previous
  version that the writer can put in the prefix: no entry is read back right unless the reader finds the entry's own
  action there, which is necessary and not sufficient (`PreviousNodeIsMisread`, and `NodeCanPass` for one that is read
  back right).

## Model

| member | source | states |
|---|---|---|
| Crdt.Fields.Add | resources/crdt.ts:1-9 | an increment raises a bigint, or the numeric value of a number, boolean or null, by the amount, replaces everything else by it, and touches no other property; a bigint stays one |
| Crdt.Fields.ReverseAdd | resources/crdt.ts:10-17 | the reverse lowers what counts as a number by the amount, keeps bigints, and leaves everything else and a missing property alone |
| Crdt.IncrementRaises | resources/crdt.ts:1-9 | the number that a cell counts for rises by exactly the amount, from 0 where it counts for none, and only bigints end as bigints |
| Crdt.ReverseLowers | resources/crdt.ts:10-17 | and falls by exactly the amount in reverse |
| Crdt.SubtractedUndoesAdded | resources/crdt.ts:10-17 | reversing an increment restores a property exactly when it held a number |
| Crdt.UpdateAndFreeze | resources/tracked.ts:393-439 | applying changes overwrites or operates property by property, on a copy |
| Crdt.PatchTells | resources/tracked.ts:393-439 | a patch sets the keys that it names with a value, raises those that it increments, and keeps all others |
| Crdt.RebuildUpdateBefore | resources/crdt.ts:27-59 | the loop yields the update with what the newer one still leaves to say, and null exactly when that is nothing |
| Crdt.RebuiltTransposes | resources/crdt.ts:27-59 | transposition: on a record that already holds the newer patch, the rebuilt patch ends where timestamp order ends |
| Crdt.LatePatch | resources/Table.ts:1772-1787 | the same through any list of later patches, including the early exit on null |
| Crdt.LatePutRebuilt | resources/Table.ts:1772-1787 | a late put is rebuilt to exactly its own keys, each with the value it has after the later patches |
| Crdt.LatePutOnItsKeys | resources/Table.ts:1803-1812 | the stored record then agrees with timestamp order on every key of the put |
| Crdt.LatePutThrough | resources/Table.ts:1772-1812 | a late put that was rebuilt in any other order of the patches leaves the record of timestamp order if and only if that order does the same to its keys and all other old keys have become forgettable |
| Crdt.LatePutExactly | resources/Table.ts:1803-1812 | and is that of timestamp order if and only if every old key that the put leaves out has become forgettable |
| Crdt.LateDeleteExactly | resources/Table.ts:1954-1954 | dropping a late delete gives the record of timestamp order if and only if every old key has become forgettable |
| Crdt.LatePutKeepsOldKey | resources/Table.ts:1803-1812 | a concrete late put after which an old key is still there |
| Crdt.SameUnrebuiltExactly | resources/Table.ts:1772-1812 | applying a patch without rebuilding it makes no difference if and only if, key by key, it repeats what is there or what is added later cancels out |
| Crdt.KeptThroughout | resources/tracked.ts:393-439 | patches leave a whole record as it is if and only if they leave each key as it is, overwritten with the same or adding up to nothing |
| Versions.PrecedesExistingVersion | resources/Table.ts:3899-3927 | the three-way comparison by timestamp, then node name, with ties of the same node a duplicate |
| Versions.PrecedenceMeans | resources/Table.ts:3899-3927 | when a write wins, is a duplicate, or loses, for known and unknown nodes and names |
| Ordering.TextLessMeans | resources/Table.ts:3899-3927 | which of two names is the greater: at the first difference the greater character, or else the longer name |
| Timelines.TimelineSplit | resources/Table.ts:1772-1772 | a log's writes in order are those before a place, the one at it, and those after it |
| Places.PlaceOrder | resources/Table.ts:3899-3927 | places order the writes of named nodes by timestamp and then node name, and only writes of one stamp share a place |
| GatheredOrder.RebuiltAnyOrder | resources/Table.ts:1772-1787 | a late patch is rebuilt to the same update in whatever order the patches after it have been gathered |
| GatheredOrder.PutPairExactly | resources/Table.ts:1772-1787 | a put is rebuilt through two patches to the same in either order if and only if they commute on its keys |
| GatheredOrder.PutInAnyOrderExactly | resources/Table.ts:1772-1787 | a late put is rebuilt to the same in every order that respects the versions if and only if on each of its keys any two patches of one version commute or something later overwrites them |
| GatheredOrder.PutMindsOrder | resources/Table.ts:1772-1787 | two orders of two patches of one version, and two different records |
| Resequencing.SortByVersion | resources/Table.ts:1772-1772 | sorting the gathered patches by version loses none, adds none and respects the versions |
| Resequencing.SucceedingUpdates | resources/Table.ts:1696-1772 | the patches to rebuild through are exactly the audited ones of later places, in an order of versions; none for a duplicate or behind a newer put or delete |
| Resequencing.RebuildThroughAll | resources/Table.ts:1773-1787 | the loop over the later patches rebuilds through all of them |
| Resequencing.RecordStore.CommitUpdate | resources/Table.ts:1652-1898 | one commit of a put or patch, in order, late, tied or duplicate: the new record, version, node and audit log |
| Resequencing.RecordStore.CommitDelete | resources/Table.ts:1945-1973 | one commit of a delete: no record and its stamp, or no trace when it is late |
| Resequencing.StampTells | resources/Table.ts:1871-1898 | the version is that of the newest write, and the node that of the last write that stored a record |
| Convergence.StepExactly | resources/Table.ts:1652-1898 | after an arrival of a put, patch or delete, new or repeated, tied or not, the record is the replay of all that has arrived if and only if the arrival is harmless |
| Convergence.StepInEveryOrder | resources/Table.ts:1696-1787 | for every order in which the walk can gather the patches that is so if and only if it is for the order of the places and a rebuilt put finds the patches of one version settled on its keys |
| Convergence.RecordIsReplay | resources/Table.ts:1652-1973 | after any run of harmless arrivals the record is that replay |
| Convergence.ReplicasConverge | resources/Table.ts:1652-1973 | two replicas that have seen the same writes in any two orders, each arrival harmless, hold the same record |
| Convergence.CoveringWritesConverge | resources/Table.ts:1652-1898 | patches, and puts that name every key, with distinct timestamps converge in every order of arrival and of the walks |
| Convergence.PatchesConverge | resources/Table.ts:1652-1898 | any finite set of newer patches with distinct timestamps, in any order of arrival, ends in the record of timestamp order |
| Convergence.IncrementsAddUp | resources/Table.ts:1652-1898 | a number or bigint that patches only increment ends, in any order of arrival, at what it was plus the sum of all amounts, and a bigint as a bigint |
| Convergence.RedeliveryIgnoredExactly | resources/Table.ts:1652-1668 | when the check at the top prefers a redelivered write to the last writer; the record stays the same if and only if it does not, or the write repeats what is there key by key |
| Convergence.RedeliveryCountsTwice | resources/Table.ts:1871-1898 | a run in which a redelivered increment counts twice |
| Convergence.DroppedDeleteForgotten | resources/Table.ts:1954-1954 | a run in which an older patch is stored after a delete that was dropped |
| TimestampTies.MisjudgedMeans | resources/Table.ts:3899-3927 | a write is taken for the newest although a later place has arrived if and only if it beats the last writer at its timestamp while a write of a greater name is there |
| TimestampTies.TwoNodesConverge | resources/Table.ts:1652-1898 | with two nodes patches with distinct stamps converge in any order of arrival |
| TimestampTies.TieOverwritesGreater | resources/Table.ts:1871-1898 | a run of three nodes in which the middle one overwrites the value of the greatest |
| LastWriter.RecordSlot.Put | resources/Table.ts:1660-1730 | a put is stored if its stamp is greater, and otherwise changes nothing |
| LastWriter.RecordSlot.Delete | resources/Table.ts:1954-1973 | a delete is stored if its stamp is greater, and otherwise changes nothing |
| LastWriter.BeforeIsTotalOrder | resources/Table.ts:3899-3927 | (timestamp, node name) is a strict total order of operations |
| LastWriter.PrecedenceIsBefore | resources/Table.ts:3899-3927 | the three-way comparison is that order, and 0 means the same stamp |
| LastWriter.GreatestWins | resources/Table.ts:1954-1973 | any order of arrival, with duplicates, leaves the operation with the greatest stamp |
| LastWriter.ReplicasAgree | resources/Table.ts:1954-1973 | two replicas with the same puts and deletes hold the same entry |
| RecordHistory.ApplyReverse | resources/crdt.ts:60-71 | reverses the increments of a patch and marks what it set as unknown |
| RecordHistory.FillFrom | resources/crdt.ts:100-125 | fills unknown properties from an older audit record and strikes them off |
| RecordHistory.GetRecordAtTime | resources/crdt.ts:80-125 | the two loops compute the walk back and the fill, and terminate |
| RecordHistory.GoBackReverses | resources/crdt.ts:80-99 | the first loop reverses exactly the patches after the time asked for |
| RecordHistory.FillInMentions | resources/crdt.ts:100-125 | the second loop gives each unknown property its most recent earlier mention, also across older puts and deletes |
| RecordHistory.RecoverableExactly | resources/crdt.ts:60-125 | one property comes out right if and only if its history since the put is of one of three kinds, whatever came before the put |
| RecordHistory.ReconstructionExactly | resources/crdt.ts:80-125 | for a put and patches after any older history: the walk yields a record, and it is the true one if and only if every property is recoverable |
| RecordHistory.LaterPutExactly | resources/crdt.ts:80-125 | with a put after the time asked for, and anything the walk gets through after that: which properties come out right, exactly |
| RecordHistory.LaterDeleteExactly | resources/crdt.ts:80-125 | with a delete after the time asked for there is no record or a TypeError, and exactly when which |
| RecordHistory.PrunedExactly | resources/crdt.ts:80-125 | with the older part of the log removed: what the walk yields for any time, and exactly when it fails |
| ConfigTree.GetNestedValue | config/harperConfigEnvVars.ts:200-212 | reads the value at a path, or nothing |
| ConfigTree.GetAfterSet | config/harperConfigEnvVars.ts:217-230 | what is set at a path is read there, whatever was in the way |
| ConfigTree.SetFrame | config/harperConfigEnvVars.ts:217-230 | setting changes no path that lies neither above nor below |
| ConfigTree.SetMakesAbove | config/harperConfigEnvVars.ts:217-230 | setting makes objects of everything above the path, and adds no key but those of the path |
| ConfigTree.GetAfterDelete | config/harperConfigEnvVars.ts:235-248 | a deleted path reads as nothing |
| ConfigTree.DeleteFrame | config/harperConfigEnvVars.ts:235-248 | deleting changes no path that lies neither above nor below |
| ConfigTree.DeleteKeepsAbove | config/harperConfigEnvVars.ts:235-248 | deleting takes one key from the object above, which stays an object even when it becomes empty |
| ConfigTree.LeavesExactly | config/harperConfigEnvVars.ts:176-195 | flattening lists exactly the paths that lead to a value that is not an object |
| ConfigTree.HoldsGet | config/harperConfigEnvVars.ts:461-472 | a tree built from prefix-free values reads back each of them and nothing else |
| ConfigTree.HoldsAfterSet | config/harperConfigEnvVars.ts:461-472 | setting one more value extends exactly what the tree holds |
| ConfigTree.HoldsUnique | config/harperConfigEnvVars.ts:461-472 | only one tree holds given values and nothing else |
| EnvConfigSession.ConfigSession.MarkDrift | config/harperConfigEnvVars.ts:352-374 | exactly the paths whose file value has left the snapshot become the user's |
| EnvConfigSession.ConfigSession.OverlayPath | config/harperConfigEnvVars.ts:388-408 | one path of a layer: respected sources stay, the original is kept once, value and source are set |
| EnvConfigSession.ConfigSession.ApplyConfigLayer | config/harperConfigEnvVars.ts:379-409 | every leaf of the environment reaches its target and nothing else changes |
| EnvConfigSession.ConfigSession.ApplyDefaultsAtRuntime | config/harperConfigEnvVars.ts:514-538 | at runtime DEFAULT sets only what it had set or what does not exist |
| EnvConfigSession.ConfigSession.DropPaths | config/harperConfigEnvVars.ts:427-443 | owned paths go back to their recorded original, or away, and nothing else changes |
| EnvConfigSession.ConfigSession.BuildSnapshot | config/harperConfigEnvVars.ts:461-472 | the snapshot holds exactly the values that the source owns in the file |
| EnvConfigSession.ConfigSession.HandleDeletions | config/harperConfigEnvVars.ts:414-444 | paths that a changed variable no longer names are given back |
| EnvConfigSession.ConfigSession.ProcessEnvVar | config/harperConfigEnvVars.ts:477-556 | the whole turn of a variable is the specified step at every path |
| EnvConfigSession.ConfigSession.CleanupRemovedEnvVar | config/harperConfigEnvVars.ts:561-592 | a variable that has gone gives back all its paths and its snapshot |
| EnvConfigSession.ConfigSession.ApplyRuntimeEnvConfig | config/harperConfigEnvVars.ts:631-675 | a boot is drift detection, DEFAULT's turn and SET's turn; a variable that does not parse leaves the saved state alone |
| EnvConfigRuns.NoDriftExactly | config/harperConfigEnvVars.ts:352-374 | nothing has drifted if and only if every owner's value is still in the file |
| EnvConfigRuns.DriftAfterBoot | config/harperConfigEnvVars.ts:352-374 | a path is drifted after a boot if and only if an installation overlooked it and its owner's turn left it, and it is then unchanged |
| EnvConfigRuns.OwnershipAfterBoot | config/harperConfigEnvVars.ts:543-552 | after a boot SET owns exactly its leaves, DEFAULT only its own, with their values in the file; the drift left is exactly what an installation overlooks |
| EnvConfigRuns.OwnershipOverRuns | config/harperConfigEnvVars.ts:543-552 | the same after every boot of any run with any edits, so that drift detection finds nothing else in the untouched result |
| EnvConfigRuns.FileFrame | config/harperConfigEnvVars.ts:631-675 | a boot changes the file only at the leaves of the two environments and at what they owned |
| EnvConfigRuns.UserPathOverRuns | config/harperConfigEnvVars.ts:392-396 | a user's path keeps the value that each boot finds there, whatever DEFAULT becomes, while SET does not name it |
| EnvConfigRuns.DefaultTakesExactly | config/harperConfigEnvVars.ts:514-538 | at runtime DEFAULT takes a path without an owner if and only if it names it and the file has no value there |
| EnvConfigRuns.DefaultDoesNotOverride | config/harperConfigEnvVars.ts:514-538 | over any run of runtime boots and edits DEFAULT never overrides a value that it did not put there |
| EnvConfigRestores.SetRestores | config/harperConfigEnvVars.ts:427-443 | the boot that drops a path from SET puts back what had been recorded for it before it entered, or else the value it had then, with null as absent |
| EnvConfigRestores.DefaultRestores | config/harperConfigEnvVars.ts:427-443 | the boot in which DEFAULT is gone, or no longer names a path, puts back what DEFAULT had overridden there at installation, or nothing where there was nothing |
| EnvConfigRestores.DefaultRecords | config/harperConfigEnvVars.ts:514-538 | where DEFAULT finds a value at runtime, it leaves it and records it |
| EnvConfigRestores.EditSurvives | config/harperConfigEnvVars.ts:352-374 | an edit of a path that an environment owns makes it the user's, and no DEFAULT and no end of an environment takes the value away |
| EnvConfigFixpoint.ThirdBootChangesNothing | config/harperConfigEnvVars.ts:631-675 | after two boots under the same environments, installing or not, a third changes neither file nor tracked state |
| EnvConfigFixpoint.BootThreeTimes | config/harperConfigEnvVars.ts:631-675 | three sessions in turn, from any file and saved state, end with the file and state that the second had left |
| EnvConfigFixpoint.OneBootIsEnoughExactly | config/harperConfigEnvVars.ts:631-675 | a second boot changes nothing if and only if SET gives back and takes over no path of DEFAULT's in the first |
| EnvConfigFixpoint.DroppedThenReadded | config/harperConfigEnvVars.ts:572-584 | a path that SET drops is deleted by one boot and put back by DEFAULT in the next |
| OptimisticCommit.AtMostSixOptimistic | resources/LMDBTransaction.ts:208-223 | whatever the number of writes and the risk, a seventh attempt is never optimistic |
| OptimisticCommit.BudgetHolds | resources/LMDBTransaction.ts:211-211 | the numbers of writes that are tried optimistically: below 100, 50, 25, 12, 6, 3 and 1 |
| OptimisticCommit.SixOptimistic | resources/LMDBTransaction.ts:208-223 | the bound is met |
| OptimisticCommit.FailureRaisesRisk | resources/LMDBTransaction.ts:265-274 | with a database and nothing in between, one failure makes the next attempt exclusive |
| OptimisticCommit.BatchIsSerial | resources/LMDBTransaction.ts:177-207 | a batch whose conditions hold stores what the writes would have stored one after the other |
| OptimisticCommit.PutTells | resources/LMDBTransaction.ts:179-181 | what a write stores or removes is seen under its key and nowhere else |
| OptimisticCommit.SerialTells | resources/LMDBTransaction.ts:214-222 | the writes run one after the other, each with the entry that those before it have left and with the time of the transaction |
| OptimisticCommit.ConditionTells | resources/LMDBTransaction.ts:192-192 | a condition wants the version, or that there is no entry |
| OptimisticCommit.FalsyKeys | resources/LMDBTransaction.ts:186-186 | the keys that carry no condition are the number 0 and the empty text |
| OptimisticCommit.SerialExactly | resources/LMDBTransaction.ts:177-207 | every batch over the given keys that goes through is the serial run, whatever callbacks, entries and store, if and only if the keys are truthy and distinct |
| OptimisticCommit.FalsyKeyLosesUpdate | resources/LMDBTransaction.ts:177-207 | a literal run in which a write to the key 0 goes through over an update that it has not seen |
| OptimisticCommit.Database.WriteExclusively | resources/LMDBTransaction.ts:208-223 | the exclusive transaction runs the writes on current entries |
| OptimisticCommit.Database.WriteConditionally | resources/LMDBTransaction.ts:177-224 | all the writes if all the conditions hold, and none otherwise |
| OptimisticCommit.NextCondition | resources/LMDBTransaction.ts:177-207 | the loop over the writes builds the conditions and the results from the entries, loaded again on a retry |
| OptimisticCommit.Commit | resources/LMDBTransaction.ts:113-291 | the transaction runs at once on the store of its last attempt; the first attempt is optimistic exactly for fewer than 100 writes and risk together, and goes through exactly when nothing has changed since the entries were loaded; with a database one failed attempt is the last optimistic one, without there are at most six |
| CommitInterleavings.FailureQueues | resources/LMDBTransaction.ts:265-274 | after an attempt that fails, with nothing in between, the transaction asks for exclusive access |
| CommitInterleavings.RiskTells | resources/LMDBTransaction.ts:208-274 | the risk decays by a hundredth with each attempt and grows by 50 with each failure |
| CommitInterleavings.SettleKeeps | resources/LMDBTransaction.ts:225-291 | handing in a batch keeps the invariant, whether it goes through or not |
| CommitInterleavings.Serializable | resources/LMDBTransaction.ts:113-291 | any interleaving of loading, handing in, waiting for the exclusive lock and running is the committed transactions run one at a time in commit order, each all or nothing |
| SecondaryIndex.GetIndexedValues | utility/lmdb/commonUtility.js:60-99 | the keys of an attribute: scalars, list elements, shortened strings, nulls if they are indexed |
| SecondaryIndex.Diff | resources/Table.ts:3514-3529 | what to remove is old and not new; what to add is new, or listed again |
| SecondaryIndex.RemoveAndPut | resources/Table.ts:3536-3549 | removals precede additions |
| SecondaryIndex.UpdateIndex | resources/Table.ts:3490-3553 | one index after an update, and nothing to do for an identical value |
| SecondaryIndex.ReindexExactly | resources/Table.ts:3490-3553 | an index ends right for a record if and only if stale keys were seen and keys taken for stored are stored |
| SecondaryIndex.WriteExactly | resources/Table.ts:1867-1867 | a put or a patch keeps all indexes right if and only if it misses no null over a tombstone |
| SecondaryIndex.DeleteKeepsConsistent | resources/Table.ts:1955-1955 | a delete keeps all indexes right |
| SecondaryIndex.InvalidateKeepsConsistent | resources/Table.ts:1303-1311 | a plain invalidation does |
| SecondaryIndex.EvictExactly | resources/Table.ts:1425-1444 | an eviction does if and only if no index indexes nulls |
| SecondaryIndex.IndexesFollowPrimary | resources/Table.ts:3490-3553 | over any run, ordinary indexes are the (value, id) pairs of the primary store |
| SecondaryIndex.NullIndexesFollowPrimary | resources/Table.ts:3490-3553 | the same with null-indexing indexes, for runs that keep clear of the two failures |
| IndexSearch.SearchFinds | utility/lmdb/commonUtility.js:60-99 | in a consistent table a scalar of at most 256 characters is in the index for exactly the records that have it, as a value, a date or in a list; a longer text by its first 256 characters and the marker; and null exactly for nulls in the indexes that index them |
| IndexSearch.SearchAfterRun | resources/Table.ts:3490-3553 | and so it is after any run of operations |
| IndexSearch.RecordAfter | resources/Table.ts:1954-1973 | the primary store after each operation, and all other records as they were |
| IndexSearch.InvalidationKeeps | resources/Table.ts:1303-1311 | an invalidation keeps the indexed attributes and no others |
| SecondaryIndex.TableResource.WriteRecord | resources/Table.ts:1867-1898 | the stored record and every index after a put or a patch |
| SecondaryIndex.TableResource.DeleteRecord | resources/Table.ts:1954-1973 | the tombstone or nothing, and every index, after a delete |
| SecondaryIndex.TableResource.EvictRecord | resources/Table.ts:1425-1444 | the store and every index after an eviction |
| OrderedSelect.ComparePreorder | resources/Table.ts:2258-2272 | the comparator over all criteria is a total preorder |
| SortOrder.SortedByCriteria | resources/Table.ts:2258-2272 | of two entries of the sorted result the first one comes first by the first criterion on which they differ: smaller when ascending, greater when descending, and across kinds in the order undefined, null, false, true, numbers, texts |
| SortOrder.ValueRead | resources/Table.ts:2262-2263 | an attribute that an entry does not have counts as undefined |
| SortOrder.AllAgreeIsTie | resources/Table.ts:2258-2272 | entries that agree on all criteria are tied |
| OrderedSelect.StableSortIs | resources/Table.ts:2323-2323 | the specification sort permutes, orders, and keeps the order of ties |
| OrderedSelect.OrderedIterator.LoadGroup | resources/Table.ts:2288-2319 | reads the entries of one group and keeps the first of the next one |
| OrderedSelect.OrderedIterator.SortNextGroup | resources/Table.ts:2288-2331 | what is still to come is the same before and after a group is sorted |
| OrderedSelect.OrderedIterator.Next | resources/Table.ts:2274-2332 | each call emits the first entry still to come, and ends only when there is none |
| OrderedSelect.EmitsEachOnce | resources/Table.ts:2247-2332 | every input entry is emitted exactly once, whatever the input order |
| OrderedSelect.StreamIsWholeSort | resources/Table.ts:2247-2332 | on input ordered by the grouping attribute the stream is a stable sort of the whole by that attribute and the rest |
| SortOrder.StreamByCriteria | resources/Table.ts:2247-2332 | so is the stream of an ordered input, by the grouping attribute and then by the sort |
| SortOrder.OrderedMeans | resources/Table.ts:2288-2319 | what it means that the input is ordered by an attribute |
| SortOrder.WholeInputSorted | resources/Table.ts:2288-2331 | without an order from the database everything is sorted at once |
| LogMerge.AggregateIterator.UpdateIterators | resources/RocksTransactionLogStore.ts:199-232 | new logs get iterators and every iterator its next entry, and nothing already delivered comes back |
| LogMerge.AggregateIterator.Next | resources/RocksTransactionLogStore.ts:236-267 | a call delivers the earliest next entry and replaces it, or fetches again when all are done |
| LogMerge.CallDelivers | resources/RocksTransactionLogStore.ts:236-267 | a call delivers the next undelivered entry of one log, or nothing |
| LogMerge.FirstLogOnTie | resources/RocksTransactionLogStore.ts:243-257 | of the first undelivered entries of all logs a call delivers the one with the least timestamp, on a tie that of the log that was added first |
| LogMerge.DoneExactly | resources/RocksTransactionLogStore.ts:236-267 | a call that starts afresh ends if and only if everything in every log has been delivered |
| LogMerge.DeliversExactlyOnce | resources/RocksTransactionLogStore.ts:199-267 | over any run of calls, appends and new logs, no entry comes twice or out of its own log's order, and none is passed over |
| LogMerge.DeliversEverything | resources/RocksTransactionLogStore.ts:199-267 | after any run, one call more than there are undelivered entries leaves none: each log has come out whole, once and in order |
| LogMerge.CallIsEarliest | resources/RocksTransactionLogStore.ts:236-267 | on sorted logs no later entry precedes one that is delivered by a call that has fetched, or fetches, from every log |
| LogMerge.MergedIsSorted | resources/RocksTransactionLogStore.ts:199-267 | between appends the merged stream up to done is sorted by timestamp, from any state of the iterator, resumed or not |
| FrequencyTable.CreateFrequencyTable | resources/blob.ts:842-860 | the nested loops choose, entry by entry, the first path with the lowest period, 128 times |
| FrequencyTable.TableIsFair | resources/blob.ts:844-859 | in every prefix, c_i * s_j <= (c_j + 1) * s_i for all paths i with space and all j |
| FrequencyTable.FullPathNeverChosen | resources/blob.ts:844-859 | a full path is never chosen while another has space |
| FrequencyTable.FirstPathOnTie | resources/blob.ts:844-855 | every path before the chosen one would have been strictly worse |
| FrequencyTable.NoSpaceIsFirst | resources/blob.ts:844-855 | while no path has space the first one is chosen |
| FrequencyTable.ProportionalShare | resources/blob.ts:844-859 | (n + 1) * s_i <= (c_i + 1) * S and c_i * S <= (n + m - 1) * s_i in every prefix of length n, as repeated addition |
| FrequencyTable.TimesIsProduct | resources/blob.ts:844-859 | the repeated addition, by which periods are accumulated, is the product |
| ConfigMerge.MergedReadsAsNew | components/OptionsWatcher.ts:177-226 | after a merge every path reads as in the new configuration, dropped keys as undefined |
| ConfigMerge.SilentExactly | components/OptionsWatcher.ts:177-226 | a merge announces nothing if and only if nothing has changed and no dropped key is still there as undefined |
| ConfigMerge.EveryDifferenceAnnounced | components/OptionsWatcher.ts:177-226 | a path that reads differently is covered by an announced change with its new value |
| OptionsWatcher.OptionsWatcher.GetValue | components/OptionsWatcher.ts:232-242 | reads the value at a path, or undefined |
| OptionsWatcher.OptionsWatcher.SetValue | components/OptionsWatcher.ts:244-276 | writes one property and announces it, or changes nothing and throws one of three errors, each in exactly its case, with the first key that is missing |
| OptionsWatcher.OptionsWatcher.Merge | components/OptionsWatcher.ts:177-226 | for objects it never throws and ends in the merged object; the announced changes are exactly the touched paths, each once, and folding them over the old object gives the merged one; otherwise it writes the key "undefined" or throws |
| OptionsWatcher.OptionsWatcher.HandleChange | components/OptionsWatcher.ts:107-137 | what a changed file does to the followed section, and what is announced |
| OptionsWatcher.SectionAfter | components/OptionsWatcher.ts:107-137 | the section after a change, for every kind of section before: null, false, 0 and empty text count as none, other plain values stay, and objects and lists are written to |
| OptionsWatcher.FollowsExactly | components/OptionsWatcher.ts:107-137 | a reader sees the new section if and only if both are objects, nothing had been followed, or a plain value is unchanged |
| OptionsWatcher.RunFollowsLatest | components/OptionsWatcher.ts:107-137 | over any run in which the section is an object or missing, readers see the latest one |
| AuditFormat.IntRoundTrip | resources/auditStore.ts:405-419 | every 32-bit natural is read back from its 1, 2, 4 or 5 byte form |
| AuditFormat.ValueRoundTrip | resources/auditStore.ts:382-404 | a key of up to 0x3fff bytes is read back, and a longer one as empty |
| AuditFormat.FlagsKept | resources/auditStore.ts:376-377 | the action's bits do not reach the flags |
| AuditFormat.RefsRoundTrip | resources/auditStore.ts:361-372 | up to 255 references are read back, and more never are |
| AuditFormat.DecodesExactly | resources/auditStore.ts:428-528 | an entry is read back as written if and only if the format can carry it and its previous version, if any, looks like a time |
| StoredBytes.ReadersGet | resources/auditStore.ts:499-515 | what readers of a stored entry get: the record of a put or message, the changes of a patch or invalidation unless they ask for a full record, and nothing for the other types |
| StoredBytes.FlagValues | resources/auditStore.ts:264-269 | the flags of an extended type by their values |
| StoredBytes.NumbersOnDisk | resources/auditStore.ts:405-419 | the bytes of numbers at the limits of the forms, with the most significant byte first |
| StoredBytes.LengthOfNumber | resources/auditStore.ts:405-419 | each form is used for exactly the numbers that no shorter one can hold |
| StoredBytes.FirstBytes | resources/auditStore.ts:270-290 | the action byte of each type, and the placeholder of a previous version |
| StoredBytes.SimpleEntry | resources/auditStore.ts:311-381 | all bytes of a put with a user |
| StoredBytes.FullEntry | resources/auditStore.ts:311-381 | all bytes of a patch with a previous version and every flag |
| AuditFormat.LogEntryExactly | resources/RocksTransactionLogStore.ts:289-313 | an entry of the RocksDB log with no previous node is read back if and only if the format can carry it and its previous version is not a placeholder |
| StoredBytes.LogEntryOnDisk | resources/RocksTransactionLogStore.ts:56-70 | the bytes before an entry in the RocksDB log |
| AuditFormat.PreviousNodeIsMisread | resources/RocksTransactionLogStore.ts:66-69 | with any 32-bit previous node id in the prefix the entry is never read back, unless the reader finds the entry's own action, and its previous version, in the bytes of the node |
| AuditFormat.SmallNodeIsMisread | resources/RocksTransactionLogStore.ts:66-69 | no id below 2^24 passes |
| AuditFormat.NodeCanPass | resources/RocksTransactionLogStore.ts:66-69 | an entry and a node that passes, and is read back right although it is not skipped |
| AuditStore.EntryHeader.WriteInt | resources/auditStore.ts:405-419 | appends the shortest of the four forms |
| AuditStore.EntryHeader.WriteValue | resources/auditStore.ts:382-404 | appends length and key, moving a long key on in place |
| AuditStore.EntryHeader.CreateAuditEntry | resources/auditStore.ts:311-381 | the buffer's prefix followed by the encoded entry, or the error for the type or the extended type |
| AuditStore.EntryHeader.PutInLog | resources/RocksTransactionLogStore.ts:56-70 | the prefix of the RocksDB log and the entry after it |
| AuditStore.Decoder.ReadInt | resources/auditStore.ts:532-551 | reads a number in any of the four forms, or fails past the end |
| AuditStore.Decoder.ReadAuditEntry | resources/auditStore.ts:428-528 | reads the whole entry from a position, or nothing when it runs past the end |
| AuditStore.Decoder.ReadLogEntry | resources/RocksTransactionLogStore.ts:289-313 | reads the prefix of the RocksDB log and the entry after it |
| RecordPrefix.RecordEncoder.Encode | resources/RecordEncoder.ts:99-191 | the prefix and the record, what is left of the one-shot variables, and a complaint exactly when a field is not flagged |
| RecordPrefix.RecordEncoder.Decode | resources/RecordEncoder.ts:227-329 | the reader of the prefix, also of a buffer that ends within the eight bytes of the time, where the rest are those of the last time read |
| RecordPrefix.DecodesExactly | resources/RecordEncoder.ts:227-329 | a record stored with its version is read back if and only if the version starts like a time and the flags name exactly the fields that are there |
| StoredBytes.RecordOnDisk | resources/RecordEncoder.ts:99-191 | all bytes before a record with every field |
| StoredBytes.ShortFlags | resources/RecordEncoder.ts:262-264 | the flags in their old two-byte form |
| StoredBytes.TimeOrPlain | resources/RecordEncoder.ts:227-243 | which buffers are read as a record with a time |
| RecordPrefix.NextIsPlain | resources/RecordEncoder.ts:99-191 | whatever happened in one encoding, the next record gets no metadata unless its own is set |
| RecordPrefix.SpentExactly | resources/RecordEncoder.ts:99-191 | an encoding without complaint uses up all variables if and only if it writes metadata or none was set; a complaint leaves the references |
| RecordPrefix.NothingLeaks | resources/RecordEncoder.ts:99-191 | over any run of encodings, complaints included, each record is written as if it were alone |
| RecordPrefix.UpdatesAreFlagged | resources/RecordEncoder.ts:546-586 | what an update hands over never makes the encoder complain |
| RecordPrefix.UpdatesReadBackExactly | resources/RecordEncoder.ts:227-329 | an update with metadata is read back with all its options if and only if its version starts like a time, its references can be counted in a byte and it sets no flag for an option that it does not give |

## Left out

- Resequencing.SucceedingUpdates: the walk of the audit trail at resources/Table.ts:1696-1762 and additional audit references are not modelled; what it visits is a precondition (the audited writes that are not older, each once, in any order), because a late write records a later `previousVersion` and the walk can revisit entries. Writes of nodes without a name have their timestamps for themselves: of two such writes each is taken for a duplicate of the other.
- Resequencing.RecordStore.CommitUpdate: the RocksDB rule for the stored version only; on LMDB it can go backwards (see the TODO at resources/Table.ts:1664). The branch without auditing and writes without a timestamp are not modelled. A missing or deleted record is one without properties, as for `updateAndFreeze(this, ...)`; with `loadAsInstance` false the changes are stored as they are, operations included.
- Convergence.ReplicasConverge: each arrival must be harmless, without which the record is not the replay, as `StepExactly` shows.
- Crdt.UpdateAndFreeze: numbers are exact integers; floating-point rounding and mixtures of bigint and number are not modelled, and only the `add` operation is.
- Crdt.Fields.Add: dates, empty text and text that spells a number are not among the values; `isNaN` of them is false, so the source goes on to concatenate (or, for `add.reverse`, to subtract from their numeric value).
- Crdt.Fields.ReverseAdd: the same values are left out.
- RecordHistory.ReconstructionExactly: a time before the first put, or between a delete and the next put, and late writes in the history are not modelled.
- RecordHistory.LaterPutExactly: the value that the audit entry of the later put decodes to is one that can be written to. The primary store asks its decoder for frozen data (utility/lmdb/OpenDBIObject.js:25); if that value is frozen, reversing or filling in a property of it throws.
- ConfigTree.GetNestedValue: keys are free of dots and not empty, objects are values (no sharing between trees), and prototype-named keys are not modelled.
- EnvConfigSession.ConfigSession.ApplyRuntimeEnvConfig: leaf paths come from a fixed prefix-free universe, since otherwise deletions that run after sets can clobber values; the configuration hash is injective; reading and saving the state file, and `composeConfigFromEnv`, are left out.
- OptimisticCommit.Commit: keys are distinct and truthy, since otherwise serializability fails, as `SerialExactly` shows; versions identify entries, and the store's conditional batch is atomic. What other threads do to the store and to the risk in between is a parameter. `CommitInterleavings.Serializable` interleaves the steps themselves.
- CommitInterleavings.Serializable: falsy keys and two writes to one key, for the same reason; timestamp placeholders, overload back-pressure and `aftercommit` listeners are not modelled.
- SecondaryIndex.IndexesFollowPrimary: primitive values and lists of them; custom (vector) indexes, computed attributes and the optional `ifVersion?.` of a store without it are not modelled.
- OrderedSelect.StreamIsWholeSort: values compare by database order within one type family; asynchronous sources, early return and throw of the iterator are not modelled.
- LogMerge.DeliversExactlyOnce: adding and removing logs from a running iterator by name, and `startByLog`, are not modelled.
- FrequencyTable.CreateFrequencyTable: spaces are given as exact reals after the power function; at least one path; statfs and creating directories are left out.
- OptionsWatcher.OptionsWatcher.Merge: the watcher's events carry a change and not the configuration object that listeners share; values shared between trees by YAML anchors, or with the default configuration that a deleted file falls back to, are separate values here; an array's `length` is not a key. Values of types that YAML cannot give (the invalid-type error), read errors and the removal of the file are left out.
- AuditStore.EntryHeader.CreateAuditEntry: the buffer is large enough for the entry, which the source leaves to the size of 2816 bytes; keys and user names are the opaque bytes of their coding, and a user name's coding is not empty.
- AuditStore.Decoder.ReadAuditEntry: lazily decoded record values, and the position that two reads of one buffer share, are not modelled.
- AuditFormat.PreviousNodeIsMisread: when the node's bytes pass for the entry's own, as in `NodeCanPass`, whether all that is read after them comes out right too depends on every byte of the entry, and nothing is claimed.
- RecordPrefix.DecodesExactly: the LMDB form, in which the store replaces placeholder bytes by timestamps, is not modelled.
- Residency and relocation, loading from sources, subscriptions, blob streaming and file locking: they rest on timers, files or code outside these files.
- Id allocation and the search for the next file id: random choices and shared memory.
- SQL search, command line, process control, component loading, export, permission checks: they would add nothing of this kind.
