# A verified model of the sysadmin configuration daemon

The daemon keeps typed configuration values under dotted keys. Clients queue writes in buckets of their
own and commit them; a commit is logged as old and new values, saved in `last.*` keys, pushed to a cached
store on disk and followed by hooks; logged commits can be blamed and rolled back. This project models
that machinery, the message framing it talks over, the scheduling of its hooks and the timer its tests
are driven by, and proves what each promises.

How it is laid out:

- Values first. `ConfigSystem` says on plain values what each operation of the configurator does, as a
  step of one state (`Sys`: store, history, queued writes). `Telescoping`, `Undoing`, `RollingBack` and
  `Resetting` prove the theorems about all its runs from one start to the next, and `Locking` what the lock
  of a bucket keeps out. The order in which a hash map is walked is an argument of a step, so the theorems
  hold for every order. What each small function answers is also stated without naming it (`SetIs`,
  `RecordedIff`, `LockSetIs`, `SameTypeIff`, `EncodeBytes` and others).
- `Coherence` proves when the cache and the disk below it agree. `Daemon` puts both together, with the
  restarts, at which the store is loaded from disk again, and proves what holds over all runs of that;
  `Stopping` says what the next start finds after a stop in the middle of a commit. `SavedCommits` has the
  commits on file, and what a start makes of any such files.
- Then the code. The classes (`SizeAgeBoundMap`, `LockedConfigPairMap`, `AllCommitHistories`,
  `TransactionManager`, `MemoryCache`, `LocalYAMLStorage`, `Configurator`, `SysAdminController`) update
  fields in loops as the source does, and every method is proved to do exactly the step of the state.
- `Shortfalls` gives runs from a blank installation in which a promise is not kept.
- `Framing`, `Hooks`/`HookStaging`/`HookManagers` and `DebugTimers` are independent of the rest.

Keys are non-empty lists of parts; a `Key` has no `*` part, a `Pattern` may have one. `Empty` is the value
of a key that is not there.

Where the promise and the code differ, the code is modelled, and the difference is a result with its
exact condition and a run that meets it:

- An erased key that held 0 is not recorded, because an empty value compares equal to 0
  (`ConfigTypes.ValueEqExact`, `Telescoping.UnrecordedChangeIff`). Every statement about the history comes
  in an exact form, for runs that never erase a stored 0, and in a form that allows for it; a commit keeps
  the exact form exactly when no key it so erases is on record (`Telescoping.ExactAfterIff`,
  `Shortfalls.ZeroErasedUnseen`).
- The store on disk never drops a bucket, so a client's old writes are made again at its next commit. That
  is harmless exactly when they are still true or overwritten (`Coherence.CoherentAfterIff`), always over a
  store that does drop its buckets (`Coherence.DrainingRunCoherent`), and over every run in which, from one
  start to the next, each key is committed by one client (`Coherence.OneWriterCoherent`).
- A restart loads what is on disk, so it keeps the history telescoping exactly when the disk has the keys
  on record as the cache had them (`Daemon.RestartTelescopesIff`). It does over every run in which no
  commit gives a key another value than the disk still remembers another client to have written
  (`Daemon.DaemonRun`), and those are exactly the runs at no point of which some next commit could part
  cache and disk (`Daemon.NeverAtRiskIff`). With one client for each key every run is of that kind
  (`Daemon.OneWriterAgrees`, `Daemon.OneClientPerKey`). Three commits by two clients and a restart are
  enough for an old value to come back (`Shortfalls.RestartBringsBack`).
- All rollbacks write as one client, client 5. So a rollback that gives a key back the value it had before
  another client's commit since the last start parts from what the disk remembers of that client; no such
  rollback is in those runs while that client's bucket lasts (`Coherence.StepFreshIff`), and with one
  client for each key only client 5's own keys can be rolled back. A rollback can undo another one's key on
  disk (`Daemon.StepCoherentIff`, `Shortfalls.RollbackRemovesOnDisk`).
- A commit is logged before it is stored. After a stop in between, the next start telescopes exactly if
  every recorded change made it to disk (`Stopping.StopTelescopesIff`); if no file was written, it does not
  unless all that was recorded was to leave absent keys absent (`Stopping.StopBeforeStoreIff`,
  `Shortfalls.StopLeavesHistoryAhead`).
- A commit locks its bucket, so that nothing is set in it or committed from it while its hooks run. That holds
  over every run until the bucket is dropped (`Locking.LockedUntilDropped`), or aged out: the bound on the
  number of buckets spares locked ones no more than others (`Locking.AgedOutIff`).
- Rolling back ignores the answer of `Set`, so it restores a value exactly when the value still has the
  type stored now, or was absent (`RollingBack.RollbackRestoresIff`, `Shortfalls.RollbackRestoresNothing`).
- Reset treats a default for a key that is not stored as a failure (`Resetting.AllAcceptedIff`,
  `Shortfalls.DefaultForNewKey`).
- A chunk that does not fit the length type is never read to its end (`Framing.FinishesIff`).
- Sorting saved commits ends exactly when no commit is met twice (`History.EndsIff`,
  `History.CircleNeverEnds`), and its result is always a chain (`History.LineageIsChain`). It keeps all
  commits exactly when they are those of a chain (`History.KeepsAllIff`, `History.TwoYoungest`); the others
  stay on file, are never counted or dropped, and no later start finds them
  (`SavedCommits.StraysNeverFound`), unless an empty history is logged to while one of them has id 0
  (`SavedCommits.LoggedAsideIff`, `SavedCommits.ZeroNeverEnds`).
- A key is read back from its file exactly when it is addressable (`KeyPaths.ReadBackIff`): `global` as a
  directory, empty parts and slashes are lost.

## Model

| member | source | states |
|---|---|---|
| ConfigTypes.ValueEqExact | src/ConfigTypes.h:128-135 | the comparison of values is equality, but for Empty and int32 0, which it cannot tell apart |
| ConfigTypes.SameTypeIff | src/ConfigTypes.h:115-118 | two values have one type exactly if they are of one of the six alternatives, and no value counts as an int32 |
| ConfigTypes.ToString | src/ConfigTypes.cpp:115-129 | the loop prints the parts joined by dots |
| ConfigTypes.RenderSnoc | src/ConfigTypes.cpp:115-129 | one more part is printed after a dot |
| ConfigTypes.RenderParse | src/ConfigTypes.cpp:106-129 | splitting any string and joining it gives the string back |
| ConfigTypes.ParseRender | src/ConfigTypes.cpp:106-129 | printing and parsing a key gives the key back, except for the key of one empty part |
| ConfigTypes.RenderInjective | src/ConfigTypes.cpp:115-129 | two keys with one text are one key |
| ConfigTypes.LastKey | src/Configurator.cpp:210-210 | parsing "last." before a key's text gives "last" before the key's parts |
| ConfigTypes.SubkeyMatches | src/ConfigTypes.cpp:167-185 | the loop decides part-by-part matching, with a star on either side, and the rule for a shorter key |
| ConfigTypes.ConcreteMatches | src/ConfigTypes.cpp:167-185 | a concrete key matches exactly the patterns no longer than it that agree with it part by part |
| ConfigTypes.MatchesNamespace | src/LockedConfigPairMap.cpp:19-39 | matching "last.*" or "default.*" means two or more parts, the first of them that name |
| ConfigTypes.Namespaces | src/Configurator.cpp:161-170 | the keys of last.* and default.*, spelled out |
| Stores.ApplyAllLookup | src/MemoryCache.cpp:97-110 | after any list of writes each key holds its last write, or what it held before |
| Stores.LastWriteIs | src/MemoryCache.cpp:97-110 | the last write to a key is the one no other write to it comes after |
| Stores.LastWriteConcat | src/MemoryCache.cpp:97-110 | the last write of two lists is the second list's, or else the first's |
| Stores.StoresEqual | src/MemoryCache.cpp:72-81 | two stores with the same value under every key are the same store |
| Stores.ApplyAllConcat | src/MemoryCache.cpp:97-110 | making two lists of writes, one after the other, is making their concatenation |
| SizeAgeBoundMaps.InsertedWellAged | src/SizeAgeBoundMap.h:18-32 | inserting keeps map and age order on the same keys, each once, and the size within the bound |
| SizeAgeBoundMaps.ErasedWellAged | src/SizeAgeBoundMap.h:39-44 | so does erasing |
| SizeAgeBoundMaps.ErasedIs | src/SizeAgeBoundMap.h:39-44 | erasing takes out the key, and the others keep their values and order |
| SizeAgeBoundMaps.NotInsertedTwice | src/SizeAgeBoundMap.h:18-32 | inserting a key that is there changes neither value nor age |
| SizeAgeBoundMaps.YoungestSurvives | src/SizeAgeBoundMap.h:18-63 | over every run, an inserted entry keeps its value through the next max - 1 inserts of other keys, and the bound holds |
| SizeAgeBoundMaps.OldestEvicted | src/SizeAgeBoundMap.h:18-63 | an insert of a new key into a full map loses the oldest key and nothing else |
| SizeAgeBoundMaps.AgeList.PushBack | src/SizeAgeBoundMap.h:27-28 | the linked list gains one node at its end |
| SizeAgeBoundMaps.AgeList.EraseNode | src/SizeAgeBoundMap.h:42-42 | unlinking a node leaves the other nodes, in order |
| SizeAgeBoundMaps.SizeAgeBoundMap.AgeOut | src/SizeAgeBoundMap.h:57-63 | map, list and lookups lose the oldest key |
| SizeAgeBoundMaps.SizeAgeBoundMap.Insert | src/SizeAgeBoundMap.h:18-32 | the three structures together do the abstract insert, and every lookup points at its own node |
| SizeAgeBoundMaps.SizeAgeBoundMap.At | src/SizeAgeBoundMap.h:34-37 | the value of a key that is there |
| SizeAgeBoundMaps.SizeAgeBoundMap.Put | src/SizeAgeBoundMap.h:34-37 | a write through the reference to a value changes that value and nothing else |
| SizeAgeBoundMaps.SizeAgeBoundMap.Erase | src/SizeAgeBoundMap.h:39-44 | the three structures together do the abstract erasure |
| SizeAgeBoundMaps.SizeAgeBoundMap.Count | src/SizeAgeBoundMap.h:46-49 | whether the key is there |
| InFlight.LockSetIs | src/LockedConfigPairMap.cpp:49-63 | setting a lock changes that lock of that bucket and nothing else |
| InFlight.QueuedAllEffect | src/LockedConfigPairMap.cpp:10-17 | queueing appends to the client's own bucket, keeps its lock, changes no other bucket but may age some out, and leaves no bucket empty |
| InFlight.QueuedAllKeeps | src/LockedConfigPairMap.cpp:10-17 | while there is room for one more bucket, queueing ages none out |
| InFlight.OnlyBucketDropped | src/MemoryCache.cpp:112-123 | a map that only ever got one client's writes is empty once that bucket is dropped |
| InFlight.BlanksOnly | src/LockedConfigPairMap.cpp:19-39 | a wildcard erasure queues an empty write for exactly the listed keys outside last.* and default.* |
| InFlight.LockedConfigPairMap.Insert | src/LockedConfigPairMap.cpp:10-17 | appends to the bucket, which is made if need be |
| InFlight.LockedConfigPairMap.Erase | src/LockedConfigPairMap.cpp:19-39 | queues the erasures, without a lock check |
| InFlight.LockedConfigPairMap.Drop | src/LockedConfigPairMap.cpp:41-47 | removes the bucket, if any |
| InFlight.LockedConfigPairMap.LockBucket | src/LockedConfigPairMap.cpp:49-55 | the bucket, if any, is locked |
| History.ChainUnique | src/TransactionManager.cpp:155-169 | two chains with the same commits are in the same order |
| History.EndsIff | src/TransactionManager.cpp:155-169 | following parents back ends exactly when no commit is met twice, and exactly when it has ended after as many steps as there are commits |
| History.CircleNeverEnds | src/TransactionManager.cpp:155-169 | three commits on which it never ends |
| History.ChainLineage | src/TransactionManager.cpp:155-169 | on any listing of a chain's commits, the ancestors of the youngest are the chain |
| History.SortedIff | src/TransactionManager.cpp:155-169 | sorting has a result exactly when following parents back ends |
| History.LineageIsChain | src/TransactionManager.cpp:155-169 | whatever commits are sorted, the result is a chain of some of them, the first has no parent and the last no child among all |
| History.KeepsAllIff | src/TransactionManager.cpp:155-169 | sorting keeps every commit exactly when they are the commits of a chain |
| History.TwoYoungest | src/TransactionManager.cpp:125-138 | two commits without children or parents: only the later in the list is kept |
| History.AllCommitHistories.constructor | src/TransactionManager.cpp:12-16 | sorts all commits on which sorting ends into a chain, no id or parent of it above the highest; those of a chain, given in any order, come back in its order |
| History.AllCommitHistories.GetCommit | src/TransactionManager.cpp:25-36 | the last commit with that id |
| History.AllCommitHistories.GetChild | src/TransactionManager.cpp:38-49 | the last commit with that parent |
| History.LastWithIdIs | src/TransactionManager.cpp:25-36 | of several commits with the id, the last in the list |
| History.LastWithParentIs | src/TransactionManager.cpp:38-49 | of several commits with the parent, the last in the list |
| History.AllCommitHistories.Blame | src/TransactionManager.cpp:83-111 | one entry for each commit that touches the key, the last first: its id and its delta on the key; ids go down if they go up in the history |
| History.PositionsTouch | src/TransactionManager.cpp:83-111 | the positions in the trail are exactly those of the commits that touch the key |
| History.TrailExact | src/TransactionManager.cpp:83-111 | the trail has one entry for each of them, in list order: the id and its delta on the key |
| History.DeltaOnIs | src/TransactionManager.cpp:83-111 | of several deltas of a commit on the key, the last |
| History.AllCommitHistories.FindMaxCommitId | src/TransactionManager.cpp:113-123 | the highest of all ids and parents |
| History.AllCommitHistories.FindMostRecentCommit | src/TransactionManager.cpp:125-138 | the last commit that has no child |
| History.AllCommitHistories.Sort | src/TransactionManager.cpp:155-169 | returns the ancestors of the youngest commit, oldest first, whenever following parents ends |
| SavedCommits.ListingUnique | src/LocalHistoryStorage.cpp:104-121 | files read by ascending id come in one order only |
| SavedCommits.NoStraysIff | src/TransactionManager.cpp:155-169 | a start leaves no commit on file aside exactly when the saved commits are those of a chain |
| SavedCommits.PickedIff | src/TransactionManager.cpp:125-138 | of files read by ascending id, the childless commit of highest id is taken for the youngest |
| SavedCommits.FirstAside | src/TransactionManager.cpp:155-169 | a start leaves aside only commits that nothing in the history leads to |
| SavedCommits.NextStartIff | src/TransactionManager.cpp:12-16 | the next start finds the history exactly when the other commits on file are aside from it |
| SavedCommits.LoggedAsideIff | src/TransactionManager.cpp:197-221 | logging leaves them aside exactly when there is a history or none of them has id 0 |
| SavedCommits.ZeroNeverEnds | src/TransactionManager.cpp:155-169 | a saved commit of id 0 that is its own parent: after one more commit sorting never ends |
| SavedCommits.StraysNeverFound | src/TransactionManager.cpp:186-221 | start on any files on which sorting ends and run any operations: the next start finds exactly the history in memory, none of the commits left aside |
| Transactions.TransactionManager.constructor | src/TransactionManager.cpp:186-195 | starts on any files on which sorting ends: the newest of the lineage are in memory, and on file exactly they and the commits left aside |
| Transactions.TransactionManager.LoadAllCommits | src/LocalHistoryStorage.cpp:104-121 | every commit on file, by ascending id |
| Transactions.TransactionManager.NewCommit | src/TransactionManager.cpp:200-213 | the commit has the next id, and the newest commit as its parent |
| Transactions.TransactionManager.Store | src/TransactionManager.cpp:215-216 | memory and storage get the same commit |
| Transactions.TransactionManager.LogCommit | src/TransactionManager.cpp:197-221 | appends a commit one above the highest id whose parent is the newest, drops the excess, and keeps storage equal to memory and the commits left aside |
| Transactions.TransactionManager.DropExcessiveCommits | src/TransactionManager.cpp:307-318 | exactly the newest commits stay in memory, and in storage they and the commits left aside |
| Transactions.TransactionManager.GenerateDeltas | src/TransactionManager.cpp:291-305 | each item with the value stored before |
| Transactions.TransactionManager.CanRollback | src/TransactionManager.cpp:262-289 | terminates, and is true exactly when no later commit has a delta on a key of the commit |
| ConfigSystem.LineageBounded | src/TransactionManager.cpp:12-16 | whatever was saved, a start leaves a chain with no id or parent above the highest id |
| ConfigSystem.LoggedBounded | src/TransactionManager.cpp:197-221 | and logging keeps it so, so that CanRollback ends |
| ConfigSystem.LoggedIs | src/TransactionManager.cpp:197-221 | the new commit is last, one above the highest id, with the newest commit as its parent or 0; before it are as many of the newest as there is room for |
| ConfigSystem.LoggedSound | src/TransactionManager.cpp:197-221 | logging keeps the history a chain within its bound and uses up one id |
| ConfigSystem.LoggedIncreasing | src/TransactionManager.cpp:197-221 | ids strictly increase (over every run, as part of Telescoping.Inv) |
| ConfigSystem.SetIs | src/Configurator.cpp:82-101 | the four answers of Set; a refused write changes nothing, another one comes last in the unlocked bucket and no other bucket changes, or is aged out |
| ConfigSystem.EraseIs | src/LockedConfigPairMap.cpp:19-39 | an erasure queues an empty write for its key, or for the listed keys outside last.* and default.*, locked or not |
| ConfigSystem.DropIs | src/LockedConfigPairMap.cpp:41-47 | dropping takes that bucket away and no other |
| ConfigSystem.RecordedIff | src/Configurator.cpp:151-187 | recorded is each key outside last.* whose last write is to an absent key, even an erasure, or is not the stored value, an erasure of 0 excepted |
| ConfigSystem.CommitRecords | src/TransactionManager.cpp:291-305 | one delta for each recorded key, with the stored value and the last one queued |
| ConfigSystem.CommitEffect | src/Configurator.cpp:31-75 | one commit, key by key: last queued write, `last.k` gets the old value of k, everything else stays |
| ConfigSystem.ShadowsWrite | src/Configurator.cpp:189-225 | `last.k` is written with the stored value of k exactly for the written keys outside last.* and default.* |
| ConfigSystem.ShadowsOnlyLast | src/Configurator.cpp:189-225 | nothing but last.* keys is written by it |
| Locking.CommitLocks | src/Configurator.cpp:35-50 | a commit leaves its bucket locked, with the last.* writes added, and every other bucket as it was |
| Locking.CommittedOnce | src/Configurator.cpp:35-37 | after a commit, until its bucket is dropped, Set answers TYPE_MISMATCH or LOCKED_QUEUE and queues nothing, and another commit does nothing |
| Locking.LockedStep | src/Configurator.cpp:31-132 | no operation but its own drop unlocks a bucket that it leaves there, and none commits it |
| Locking.LockedUntilDropped | src/Configurator.cpp:31-132 | over every run, a locked bucket stays locked and is not committed again while it is neither dropped nor aged out |
| Locking.AgedOutIff | src/SizeAgeBoundMap.h:18-63 | a write ages a locked bucket out exactly if that is the oldest of as many as there may be and the client has none |
| Telescoping.RestartIsIdentity | src/TransactionManager.cpp:186-195 | reloading a history from its commits in any order changes neither list nor highest id |
| Telescoping.StepShape | src/Configurator.cpp:31-132 | every operation either leaves store and history alone or is one commit of the writes that CommittedBy names |
| Telescoping.FollowsIsEqual | src/ConfigTypes.h:128-135 | linked values are equal for the code's comparison, and equal if exactness is asked for |
| Telescoping.UnrecordedChangeIff | src/Configurator.cpp:151-187 | a commit changes a key without recording it exactly when it erases a stored 0 |
| Telescoping.UnrecordedFollows | src/Configurator.cpp:151-187 | any other write that is pruned leaves the value it found |
| Telescoping.ExactAfterIff | src/Configurator.cpp:31-75 | a commit keeps the links exact exactly when no key that it erases while it holds 0 is on record |
| Telescoping.StepKeepsInv | src/Configurator.cpp:31-187 | each operation keeps the history sound, its ids increasing, and telescoping to the store; exactly, if it erases no stored 0 |
| Telescoping.HistoryTelescopes | src/Configurator.cpp:31-187 | over every run from one start on, each retained change starts from the value the previous one left, and the newest is what is stored; exactly, if no stored 0 is erased |
| Telescoping.FreshInv | src/TransactionManager.cpp:186-195 | a store without a history satisfies all of that |
| Undoing.UndoLatest | src/TransactionManager.cpp:291-305 | writing back the old values of the latest commit rebuilds the store before it; exactly, if it erased no stored 0 |
| Undoing.UndoRebuilds | src/TransactionManager.cpp:197-221 | after every run from one start on, undoing the retained commits since any earlier state, newest first, rebuilds that state's store, if all of them are retained |
| RollingBack.RollbackExact | src/TransactionManager.cpp:223-260 | the value of every key after a rollback |
| RollingBack.RestoresIff | src/Configurator.cpp:82-90 | an old value is written back if it was none, nothing is stored or what is stored has its type |
| Transactions.UntouchedIff | src/TransactionManager.cpp:262-289 | what CanRollback asks: no later commit has a delta on a key of this one |
| Configurators.MayRollbackIff | src/TransactionManager.cpp:223-289 | and what a rollback asks of the commit with the id |
| RollingBack.RollbackRestoresIff | src/TransactionManager.cpp:233-243 | a changed key gets its old value back exactly when that value was Empty or Set accepts its type |
| RollingBack.RollbackInverts | src/TransactionManager.cpp:223-260 | a commit whose changes kept their types is undone on all its keys, and no other key outside last.* changes |
| RollingBack.SecondRollback | src/TransactionManager.cpp:223-289 | the same rollback is possible again exactly when the first one logged nothing |
| RollingBack.LockedRollback | src/TransactionManager.cpp:223-260 | a rollback while the rollback bucket is locked changes neither store nor history |
| Resetting.AllAcceptedIff | src/SysAdminController.cpp:244-256 | every default is accepted exactly when for each stored default the bucket is not locked and the key is stored with its type; without defaults, always |
| Resetting.ResetWrites | src/SysAdminController.cpp:235-255 | what a reset queues last for a key is its default, or its erasure |
| Resetting.ResetExact | src/SysAdminController.cpp:235-271 | after a reset that commits, every key outside last.* and default.* has the value of its default or is absent |
| Controllers.StarInText | src/SysAdminController.cpp:70-70 | a star in a key's text is a star in one of its parts |
| Controllers.OneMoreDefault | src/SysAdminController.cpp:244-248 | whether a default is accepted does not depend on what the reset queued before |
| Controllers.SysAdminController.SetHandler | src/SysAdminController.cpp:57-110 | refuses exactly keys with a star anywhere and last.* keys; otherwise does what Set does, under the given xid |
| Controllers.SysAdminController.ResetHandler | src/SysAdminController.cpp:235-271 | commits exactly when every default is plainly accepted; if not, store, history, cache and disk are unchanged and the bucket is gone |
| KeyPaths.TranslateKeyToPathPair | src/LocalYAMLStorage.cpp:53-67 | the file of all parts but the last, and the last part |
| KeyPaths.TranslatePathToKey | src/LocalYAMLStorage.cpp:69-87 | the key text of a file and an entry |
| KeyPaths.PlaceIs | src/LocalYAMLStorage.cpp:53-67 | an addressable key is in the file named by the parts before the last, joined by slashes, or in global.yaml |
| KeyPaths.AddressableIff | src/LocalYAMLStorage.cpp:53-87 | addressable are the keys without an empty part, a slash or `global` before the last part |
| KeyPaths.ReadBackIff | src/LocalYAMLStorage.cpp:53-87 | key to file and back is the identity exactly for addressable keys |
| KeyPaths.PlacesDistinct | src/LocalYAMLStorage.cpp:53-87 | two addressable keys never share a file entry |
| YamlStorage.WriteAllByFile | src/LocalYAMLStorage.cpp:225-283 | writing items one by one leaves each file as if only its own items had been written to it |
| YamlStorage.WriteAllOnDisk | src/LocalYAMLStorage.cpp:239-260 | under the remove-or-write-NULL rule each addressable key reads as its last write |
| YamlStorage.EntryAfter | src/LocalYAMLStorage.cpp:239-260 | a value makes the entry; an erasure removes one that is there and makes a NULL one where there is none |
| YamlStorage.WriteAllConcat | src/LocalYAMLStorage.cpp:225-283 | writing two lists is writing their concatenation |
| YamlStorage.GroupedIsWriteAll | src/LocalYAMLStorage.cpp:225-283 | files updated from their buckets are what one write at a time leaves |
| YamlStorage.LocalYAMLStorage.GroupByFile | src/LocalYAMLStorage.cpp:227-238 | the items of each file, in list order |
| YamlStorage.LocalYAMLStorage.GroupSet | src/LocalYAMLStorage.cpp:225-283 | bucketing and writing each file once equals writing item by item, for every list |
| YamlStorage.LocalYAMLStorage.Commit | src/LocalYAMLStorage.cpp:333-339 | writes the whole bucket and does not drop it |
| YamlStorage.LocalYAMLStorage.GetAll | src/LocalYAMLStorage.cpp:285-307 | every addressable key with a value that is not NULL, and no other |
| MemoryCaches.MemoryCache.constructor | src/MemoryCache.cpp:8-18 | a cache loaded from disk agrees with the disk |
| MemoryCaches.SelectedIff | src/MemoryCache.cpp:26-60 | a wildcard selects the stored keys it is not longer than and agrees with part by part, any other key itself |
| MemoryCaches.MemoryCache.Get | src/MemoryCache.cpp:26-60 | plain and wildcard reads select from one map |
| MemoryCaches.MemoryCache.TypeCheck | src/MemoryCache.cpp:62-70 | an absent key accepts any type, a stored one its own |
| MemoryCaches.MemoryCache.GetAll | src/MemoryCache.cpp:72-81 | the whole map |
| MemoryCaches.MemoryCache.GetAllKeys | src/MemoryCache.cpp:83-95 | a listing of exactly the stored keys that match |
| MemoryCaches.MemoryCache.UpdateItems | src/MemoryCache.cpp:97-110 | applies the writes in order |
| MemoryCaches.MemoryCache.Commit | src/MemoryCache.cpp:112-123 | applies the bucket to the cache, passes it on to the disk and drops it; the store below always has a bucket |
| Coherence.ReplayLookup | src/LocalYAMLStorage.cpp:225-283 | what cache and disk hold when old writes are made again before new ones |
| Coherence.CoherentAfterIff | src/MemoryCache.cpp:112-123 | cache and disk still agree after a commit exactly when the writes made again are still true or overwritten |
| Coherence.ReloadAfterWrite | src/LocalYAMLStorage.cpp:333-339 | what the disk holds after a commit: the client's old writes again, then its new ones |
| Coherence.DrainingRunCoherent | src/MemoryCache.cpp:112-123 | over every run of any writers, above a store that drops a bucket it has written, cache and disk agree and hold the last write of each key |
| Coherence.AlwaysCoherentIff | src/LocalYAMLStorage.cpp:333-339 | no next commit can make them disagree exactly when every old write is still true |
| Coherence.StepFreshIff | src/LocalYAMLStorage.cpp:333-339 | a commit leaves every old write true exactly when no other client's remaining bucket has another last write of one of its keys |
| Coherence.OneWriterCoherent | src/LocalYAMLStorage.cpp:333-339 | over every run in which each key is committed by one client, aged-out buckets included, cache and disk agree |
| Coherence.RunIsLastWrite | src/MemoryCache.cpp:97-123 | the cache holds the last write of each key over all commits, whatever the disk does |
| Coherence.OutdatedWriteReturns | src/LocalYAMLStorage.cpp:333-339 | a commit that makes an outdated write again leaves the old value on disk |
| Coherence.TwoWritersDiverge | src/LocalYAMLStorage.cpp:333-339 | two clients writing one key, then the first of them others: the disk goes back to the older value, and a restart loads it |
| Daemon.StepCoherentIff | src/Configurator.cpp:31-75 | an operation that commits leaves cache and disk in agreement exactly when its client's old writes are still true or overwritten; for a rollback that client is 5 |
| Daemon.RestartTelescopesIff | src/sysadmin.cpp:51-54 | a restart keeps the history and telescopes exactly when the disk has each key on record as the cache had it |
| Daemon.RestartIsQuiet | src/sysadmin.cpp:51-54 | a restart while cache and disk agree changes nothing but queued and remembered writes |
| Daemon.DaemonRun | src/sysadmin.cpp:51-54 | over every run of requests, rollbacks and restarts in which each commit agrees with what the disk remembers of other clients: the history telescopes, cache and disk agree, and undoing rebuilds the first store if all commits since are retained |
| Daemon.NeverAtRiskIff | src/LocalYAMLStorage.cpp:333-339 | those runs are exactly the ones at no point of which some next commit could make cache and disk disagree |
| Daemon.OneWriterAgrees | src/Configurator.cpp:31-75 | runs with one writer for each key from each start to the next are of that kind, which leaves out rolling back another client's commit since the last start |
| Daemon.OneClientPerKey | src/sysadmin.cpp:51-54 | so are runs in which each key has one client that commits it, last.* keys going with theirs; only keys of client 5 can be rolled back in them |
| Daemon.FirstStart | src/sysadmin.cpp:51-54 | the first start on any disk of addressable keys satisfies what these runs start from |
| Stopping.StopTelescopesIff | src/Configurator.cpp:39-50 | stopped after logging, with each key on disk old or new: the next start telescopes exactly when every recorded change reads back as written |
| Stopping.ReadsBetween | src/LocalYAMLStorage.cpp:225-283 | so it is when each file is old or new |
| Stopping.StopBeforeStoreIff | src/Configurator.cpp:39-50 | stopped before any file is written: exactly when all that was recorded was to leave absent keys absent, or inexactly to set them to 0 |
| Shortfalls.BlankExists | src/sysadmin.cpp:51-54 | there is a blank installation |
| Shortfalls.ZeroErasedUnseen | src/Configurator.cpp:177-185 | a run in which the erasure of a stored 0 is committed, and log and links do not show it |
| Shortfalls.RollbackRestoresNothing | src/TransactionManager.cpp:233-243 | a run in which a rollback that CanRollback lets through changes nothing, because Set refuses the old value's type |
| Shortfalls.DefaultForNewKey | src/SysAdminController.cpp:250-255 | a default for a key that is not stored: reset is refused |
| Shortfalls.RestartBringsBack | src/sysadmin.cpp:51-54 | a run of three commits by two clients after which a restart brings an old value back and the history does not telescope to it |
| Shortfalls.RollbackRemovesOnDisk | src/LocalYAMLStorage.cpp:333-339 | a run in which a rollback of one key removes another client's key on disk |
| Shortfalls.StopLeavesHistoryAhead | src/Configurator.cpp:39-50 | a run stopped in the middle of its first commit: the next start has the commit on record and nothing stored |
| Configurators.Configurator.constructor | src/Configurator.cpp:13-25 | starts on a loaded cache and on any saved commits on which sorting ends, with at most the 100 newest of the lineage |
| SysAdmin.Start | src/sysadmin.cpp:51-54 | a start: the store is what the disk holds, nothing is queued or remembered, and at most 100 of the commits found are kept |
| Configurators.Configurator.Set | src/Configurator.cpp:82-101 | TYPE_MISMATCH exactly for another alternative than the stored one; the other answers, and what is queued |
| Configurators.Configurator.Erase | src/Configurator.cpp:129-132 | queues erasures of a key, or of a listing of the keys a wildcard matches |
| Configurators.Configurator.Drop | src/Configurator.cpp:77-80 | removes the bucket |
| Configurators.Configurator.Merge | src/Configurator.cpp:161-175 | the last write of each key outside last.* |
| Configurators.Configurator.PruneUnchangedValues | src/Configurator.cpp:151-187 | lists exactly the merged writes that differ from the store, or are to absent keys |
| Configurators.Configurator.SaveLastItems | src/Configurator.cpp:189-225 | queues the old values for the last.* keys |
| Configurators.Configurator.LogChanges | src/Configurator.cpp:39-43 | logs the changes as one commit, and nothing if there are none |
| Configurators.Configurator.LockAndLog | src/Configurator.cpp:37-43 | the bucket is locked then, and what changed is logged, if anything did |
| Configurators.Configurator.SaveAndStore | src/Configurator.cpp:44-50 | pushes queue and last.* writes through cache and disk |
| Configurators.Configurator.CommitBucket | src/Configurator.cpp:37-50 | the part of a commit before the hooks is one step of the state, on cache, disk and history |
| Configurators.Configurator.Commit | src/Configurator.cpp:31-75 | the whole commit is one step of the state, on cache, disk and history; while hooks are awaited the bucket is locked |
| Configurators.Configurator.HooksDone | src/Configurator.cpp:54-66 | success and a failed external process drop the bucket; any other error leaves it locked |
| Configurators.Configurator.QueueBack | src/TransactionManager.cpp:233-243 | queues the old values, whatever Set answers |
| Configurators.Configurator.CommitBack | src/TransactionManager.cpp:233-249 | queueing and committing the old values is one step of the state, on cache, disk and history |
| Configurators.Configurator.Rollback | src/TransactionManager.cpp:223-260 | fails exactly for an unknown commit or one touched later; otherwise is one step of the state, on cache, disk and history |
| Arithmetic.QuotientIs | src/HookManager.h:20-26 | a quotient is what bounds its dividend between two multiples |
| HookStaging.BucketIndex | src/HookManager.h:20-26 | the index of every hook is below the number of buckets |
| HookStaging.Batches | src/HookManager.h:19-27 | full buckets, one with the remainder, then empty ones; flattened they are the input in order |
| HookStaging.SplitSubprocessesAcrossCores | src/HookManager.h:15-44 | the future runs the hooks in order, in groups of exactly `cores` and a last one with the remainder |
| HookStaging.StartAtGroup | src/HookManager.h:28-43 | starting a chain of futures starts its first non-empty group |
| HookStaging.FinishAtGroup | src/HookManager.h:28-43 | an ending shrinks the group, fails the whole, or starts the next group |
| HookStaging.StepStaged | src/HookManager.h:28-43 | each ending keeps the execution staged |
| HookStaging.StagedExecution | src/HookManager.h:15-44 | for every order of endings: at most `cores` running, a hook starts once, after all earlier groups succeeded and before any failure; success means all succeeded, and it never waits for nothing |
| HookStaging.OrderlyAt | src/HookManager.h:28-43 | what an orderly execution says of each single start |
| HookStaging.ChainFlat | src/HookManager.h:28-43 | chaining the buckets runs them in order, and the empty ones at the end make no difference |
| HookStaging.RunsBoth | src/HookManager.cpp:38-49 | chaining futures chains their stages |
| Hooks.WatchingIff | src/HookUser.cpp:67-77 | a hook watches a key exactly if one of its patterns agrees with it part by part and is as long, or shorter with a star in it |
| Hooks.HasHook | src/HookUser.cpp:67-77 | true exactly when some pattern is the key or a wildcard that matches it |
| Hooks.AddService | src/HookManager.cpp:91-101 | the service is at its own level, once |
| Hooks.HookTable.Insert | src/HookTable.cpp:24-34 | a hook with a taken name is not inserted |
| Hooks.HookTable.ByName | src/HookTable.cpp:35-48 | finds the hook of that name, if any |
| Hooks.HookTable.ByType | src/HookTable.cpp:50-57 | the hooks of the type, each once |
| Hooks.HookTable.RunLevelOrder | src/HookTable.cpp:79-90 | the hooks of the type by ascending level, those of one level in order of insertion |
| Hooks.InsertedAt | src/HookTable.cpp:79-90 | a hook goes behind the last one of its own level or a lower one |
| Hooks.HookTable.GetOrderedServices | src/HookTable.cpp:59-77 | all services grouped by level |
| Hooks.AmongAll | src/HookManager.cpp:57-107 | the hooks of a commit are among all hooks, at the same levels |
| HookManagers.HookManager.GetAllHooks | src/HookManager.cpp:57-67 | all templates, and all services by level |
| Hooks.FiredOfTypeIff | src/HookManager.cpp:69-107 | the hooks selected, by their patterns and the committed keys |
| HookManagers.HookManager.GetHooksToRun | src/HookManager.cpp:69-107 | exactly the templates, and if asked the services at their own levels, with a pattern for some committed key, spelled out |
| HookManagers.HookManager.RunHooks | src/HookManager.cpp:36-55 | templates first, then services by ascending level, in groups of at most the configured number |
| HookManagers.HookManager.HandleCommit | src/HookManager.cpp:29-34 | selection and staging together, for every execution |
| HookManagers.StagesApart | src/HookManager.cpp:57-107 | a selected pipeline runs no hook twice |
| HookManagers.PipelineExecution | src/HookManager.cpp:36-55 | for every order of endings, services wait for all templates and for all lower levels to succeed, nothing starts after a failure, only hooks of the pipeline start and only started ones end |
| Framing.EncodeBytes | decibel-cpp/include/decibel/messaging/ProtobufProtocol.h:83-83 | byte i of a length is (n / 256^i) % 256: low byte first |
| Framing.DecodeBytes | decibel-cpp/include/decibel/messaging/FramedBuffer.h:46-49 | and a length is read from just these bytes |
| Framing.DecodeEncode | decibel-cpp/include/decibel/messaging/FramedBuffer.h:46-49 | a length that fits is read back from its bytes |
| Framing.EncodeDecode | decibel-cpp/include/decibel/messaging/FramedBuffer.h:46-49 | bytes are the encoding of the length they hold |
| Framing.UnframeConcat | decibel-cpp/include/decibel/messaging/ProtobufProtocol.h:54-69 | a stream may be read up to any byte and the rest later |
| Framing.UnframeIff | decibel-cpp/include/decibel/messaging/ProtobufProtocol.h:54-87 | what is read from any stream is all it is made of: the frames of the messages, and less than one more |
| Framing.RoundTrip | decibel-cpp/include/decibel/messaging/ProtobufProtocol.h:54-87 | however the frames of sendable messages are cut into chunks that the loop ends on, exactly those messages are received, and nothing is left |
| Framing.Taken | decibel-cpp/include/decibel/messaging/FramedBuffer.h:31-67 | AddData takes all bytes or ends at a whole frame |
| Framing.TakenFirst | decibel-cpp/include/decibel/messaging/FramedBuffer.h:31-67 | and never passes the end of a frame |
| Framing.RoundAdvances | decibel-cpp/include/decibel/messaging/ProtobufProtocol.h:57-68 | on a chunk that fits the length type each round takes at least one byte |
| Framing.FinishesIff | decibel-cpp/include/decibel/messaging/ProtobufProtocol.h:54-69 | the receiving loop ends exactly for chunks below the limit of the length type |
| Framing.CastIs | decibel-cpp/include/decibel/messaging/ProtobufProtocol.h:57-68 | a count that does not fit the length type keeps its remainder |
| Framing.FramedBuffer.AddData | decibel-cpp/include/decibel/messaging/FramedBuffer.h:31-67 | takes exactly those bytes, without underflow |
| Framing.FramedBuffer.Ready | decibel-cpp/include/decibel/messaging/FramedBuffer.h:69-73 | true exactly when the buffer holds a whole frame |
| Framing.ProtobufProtocol.ReadOnce | decibel-cpp/include/decibel/messaging/ProtobufProtocol.h:57-68 | one round of the loop on any chunk, and the message it completes |
| Framing.ProtobufProtocol.OnDataReceived | decibel-cpp/include/decibel/messaging/ProtobufProtocol.h:54-69 | what was pending and the chunk are the frames of the messages handled now, in order, and the less than one frame that is pending then |
| Framing.ProtobufProtocol.ReceiveAll | decibel-cpp/include/decibel/messaging/ProtobufProtocol.h:54-69 | the calls for a list of chunks, one after the other, receive what Received says |
| Framing.ProtobufProtocol.Receive | decibel-cpp/include/decibel/messaging/ProtobufProtocol.h:54-87 | on chunks of sendable messages they handle exactly those messages, in order, and leave an empty buffer |
| Framing.ProtobufProtocol.Send | decibel-cpp/include/decibel/messaging/ProtobufProtocol.h:71-87 | writes the length byte by byte, low byte first, and then the message; or refuses one whose length does not fit |
| DebugTimers.FiresSplit | decibel-cpp/src/decibel/niceuv/ITimer.cpp:105-117 | advancing twice is advancing by the sum |
| DebugTimers.FiresClosedForm | decibel-cpp/src/decibel/niceuv/ITimer.cpp:119-171 | a new timer fires 0 times before max(1, timeout), then 1 + (D - max(1, timeout)) / max(1, interval) times |
| DebugTimers.FiringsOver | decibel-cpp/src/decibel/niceuv/ITimer.cpp:105-171 | the same over any sequence of advances with that total |
| DebugTimers.DebugTimer.ProcessTimeChange | decibel-cpp/src/decibel/niceuv/ITimer.cpp:119-171 | exactly the due timers are called, once each |
| DebugTimers.DebugTimer.AdvanceTime | decibel-cpp/src/decibel/niceuv/ITimer.cpp:105-117 | each timer makes the calls it would make alone |

## Left out

- InFlight.LockedConfigPairMap.Insert: keeps its buckets in the value that the class SizeAgeBoundMap is proved to implement, not in an object of that class.
- Transactions.TransactionManager.constructor: asks that sorting the saved commits ends, because it does not return otherwise (EndsIff).
- Configurators.Configurator.constructor: asks the same of the saved commits.
- Framing.ProtobufProtocol.OnDataReceived: asks for a chunk below the limit of the length type, because it does not return otherwise (FinishesIff).
- YamlStorage.LocalYAMLStorage.GetAll: asks that every entry under the root be the place of an addressable key; other entries are read under other keys.
- MemoryCaches.MemoryCache.constructor: asks the same of the disk it loads.
- DebugTimers.DebugTimer.ProcessTimeChange: has callbacks that do not start, stop or change timers.
- DebugTimers.DebugTimer.AdvanceTime: has such callbacks, too.
- Daemon.RestartTelescopesIff: asks for a disk of places of addressable keys only, as the cache's constructor does.
- Daemon.DaemonRun: restarts come between operations; a stop in the middle of a commit is a single step of its own (Stopping).
- Stopping.StopTelescopesIff: a file that is written in part is not modelled, and neither is a commit file that is.
- HookStaging.StagedExecution: a hook that ends while its group is being started counts as ending just after it.
- HookStaging.SplitSubprocessesAcrossCores: asks for at least one core; the source divides by the number.
- Ids, counts and times are unbounded, so the wrap-around of commit ids, timer ids and milliseconds is not modelled.
- The date of a commit, logging, hash functions and the iteration order of hash maps (every order is allowed).
- YAML text and the files of commits: a file is a map of entries and the saved commits are a map by id; an empty list of bools does not survive its YAML form.
- LocalYAMLStorage's own Get, GetAllKeys and TypeCheck, which the cache never calls, and which see NULL entries.
- The pointer from LockedConfigPairMap back to its database: the keys it lists for a wildcard are an argument.
- The process a hook runs, the values it fetches first, and triggering one hook by name.
- Protobuf parsing, the other request handlers, clients, sockets, the event loop and the parsing of the daemon's own configuration.
- Paths are strings, joined as Boost.Filesystem 3 does: a separator is added between non-empty names that lack one; directories, links and relative roots are not modelled.
- Lengths are little-endian, as on the machines the daemon is built for; signed length types are not modelled.
