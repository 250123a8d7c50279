/** The configurator (src/Configurator.cpp), each method against its step in ConfigSystem. */
module Configurators {
  import opened ConfigTypes
  import opened Stores
  import opened InFlight
  import opened Coherence
  import opened History
  import opened ConfigSystem
  import opened Telescoping
  import opened Daemon
  import opened Locking
  import opened SavedCommits
  import opened MemoryCaches
  import opened Transactions

  datatype CommitConfig = DEFAULT_HOOKS | TEMPLATE_ONLY | NO_HOOKS

  /** The writes of the list that are not to last.* keys, merged. */
  function Merged(items: seq<Item>): map<Key, Value> {
    map k | k in Written(items) && !InLast(k) && LastWrite(items, k).Some? :: LastWrite(items, k).value
  }

  lemma MergedSnoc(items: seq<Item>, item: Item)
    ensures Merged(items + [item]) == if InLast(item.key) then Merged(items) else Merged(items)[item.key := item.value]
  {
    var more := items + [item];
    assert more[..|items|] == items;
    assert Written(more) == Written(items) + {item.key};
    forall k: Key
      ensures LastWrite(more, k) == if item.key == k then Some(item.value) else LastWrite(items, k)
    {
    }
    LastWriteOfNone(items, item.key);
  }

  ghost function ChangedApartFrom(store: Store, items: seq<Item>, left: set<Key>): map<Key, Value> {
    Changed(store, items) - left
  }

  lemma ChangedStep(store: Store, items: seq<Item>, left: set<Key>, key: Key)
    requires key in left && key in Merged(items)
    ensures var was := Lookup(store, Parse(Render(key)));
            ChangedApartFrom(store, items, left - {key}) ==
              if was.Empty? || !ValueEq(was, Merged(items)[key])
              then ChangedApartFrom(store, items, left)[key := Merged(items)[key]]
              else ChangedApartFrom(store, items, left)
  {
  }

  /** Locking, logging and storing make up the commit. */
  lemma Assembled(s: Sys, mid: Sys, t: Sys, c: ClientId, changed: seq<Item>)
    requires CanCommit(s, c)
    requires mid == s.(flight := LockSet(s.flight, c, true),
                       log := if changed == [] then s.log else Logged(s.log, s.maxCommits, Deltas(s.store, changed)))
    requires var items := Queue(mid.flight, c);
             var shadows := Shadows(mid.store, items);
             t == mid.(store := ApplyAll(mid.store, items + shadows),
                       flight := QueuedAll(mid.flight, mid.maxClients, c, shadows))
    ensures t == AfterCommit(s, c, changed)
    ensures WriteOf(s, CommitOp(c, changed)) ==
            Some(Write(c, Queue(mid.flight, c) + Shadows(mid.store, Queue(mid.flight, c))))
  {
    LockSetIs(s.flight, c, true);
  }

  /** Without a bucket, or with a locked one, a commit does nothing. */
  lemma NothingToCommit(s: Sys, c: ClientId)
    ensures !CanCommit(s, c) <==> c !in s.flight.items || s.flight.items[c].locked
    ensures !CanCommit(s, c) ==>
              Walks(s, c, []) && AfterCommit(s, c, []) == s && WriteOf(s, CommitOp(c, [])) == None
  {
  }

  class Configurator {
    const mSystemStore: MemoryCache
    const mCommitHistory: TransactionManager
    const mInFlightItems: LockedConfigPairMap

    ghost function View(): Sys
      reads this, mSystemStore, mCommitHistory, mCommitHistory.mCommitHistory, mInFlightItems
    {
      Sys(mSystemStore.mValues, mCommitHistory.TheLog(), mInFlightItems.mStorage,
          mCommitHistory.mMaxStorage, mInFlightItems.mMaxSize)
    }

    /** Between operations the cache has no bucket, and no bucket here is empty. */
    ghost predicate Valid()
      reads this, mCommitHistory, mCommitHistory.mCommitHistory, mInFlightItems
      reads mSystemStore, mSystemStore.mInFlightItems
      reads mSystemStore.mBackingStore, mSystemStore.mBackingStore.mInFlightItems
    {
      && mSystemStore.Valid() && mCommitHistory.Valid() && mInFlightItems.Valid()
      && mSystemStore.mInFlightItems.mStorage == EMPTY_FLIGHT
      && mSystemStore.mBackingStore.mInFlightItems.mMaxSize == DISK_CLIENTS
      && NoEmptyBucket(mInFlightItems.mStorage)
      && mInFlightItems != mSystemStore.mInFlightItems
      && mInFlightItems != mSystemStore.mBackingStore.mInFlightItems
    }

    /** Starts on a loaded store and on what was saved; at most 100 of the commits found are kept. */
    constructor (storage: MemoryCache, saved: Files, maxTransactions: nat, ghost listing: seq<Commit>,
                 ghost r: seq<Commit>)
      requires storage.Valid() && storage.mInFlightItems.mStorage == EMPTY_FLIGHT
      requires storage.mBackingStore.mInFlightItems.mMaxSize == DISK_CLIENTS
      requires maxTransactions >= 1
      requires Listing(saved, listing) && Lineage(listing, r)
      ensures Valid() && mSystemStore == storage && mCommitHistory.mStray == Strays(saved, r)
      ensures View() ==
              Sys(storage.mValues, Log(Newest(r, 100), View().log.highest), EMPTY_FLIGHT, 100, maxTransactions)
      ensures HighestOf(View().log.highest, listing)
    {
      mSystemStore := storage;
      mCommitHistory := new TransactionManager(saved, 100, listing, r);
      mInFlightItems := new LockedConfigPairMap(maxTransactions);
    }

    method Set(item: Item, clientId: ClientId) returns (status: SetStatus)
      requires Valid()
      modifies mInFlightItems
      ensures Valid()
      ensures status == SetOutcome(old(View()), item, clientId)
      ensures View() == AfterSet(old(View()), item, clientId)
      ensures status == TYPE_MISMATCH <==>
                && item.key in mSystemStore.mValues
                && var p := mSystemStore.mValues[item.key];
                   var q := if item.value.Empty? then Int32(0) else item.value.payload;
                   !(|| (p.Int32? && q.Int32?) || (p.Str? && q.Str?) || (p.Bool? && q.Bool?)
                     || (p.Int32List? && q.Int32List?) || (p.StrList? && q.StrList?) || (p.BoolList? && q.BoolList?))
      ensures status == SUCCESS_NEW_KEY ==> item.key !in mSystemStore.mValues
      ensures status == SUCCESS ==> item.key in mSystemStore.mValues
      ensures status in {SUCCESS, SUCCESS_NEW_KEY} ==>
                && clientId in View().flight.items && !View().flight.items[clientId].locked
                && View().flight.items[clientId].items ==
                   (if clientId in old(View()).flight.items then old(View()).flight.items[clientId].items else [])
                   + [item]
      ensures status !in {SUCCESS, SUCCESS_NEW_KEY} ==> View() == old(View())
    {
      SetIs(View(), item, clientId);
      if item.key in mSystemStore.mValues && !item.value.Empty? {
        SameTypeIff(mSystemStore.mValues[item.key], item.value.payload);
      } else if item.key in mSystemStore.mValues {
        SameTypeIff(mSystemStore.mValues[item.key], Int32(0));
      }
      var matches := mSystemStore.TypeCheck(item);
      status := SUCCESS;
      if !matches {
        return TYPE_MISMATCH;
      }
      var locked := mInFlightItems.IsBucketLocked(clientId);
      if locked {
        return LOCKED_QUEUE;
      }
      var existing := mSystemStore.GetOne(item.key);
      if existing.Empty? {
        status := SUCCESS_NEW_KEY;
      }
      QueuedEffect(mInFlightItems.mStorage, mInFlightItems.mMaxSize, clientId, item);
      mInFlightItems.Insert(clientId, item);
    }

    /** There is no lock check here. */
    method Erase(key: Pattern, clientId: ClientId) returns (ghost subkeys: seq<Key>)
      requires Valid()
      modifies mInFlightItems
      ensures Valid()
      ensures IsWildcard(key) ==> Lists(subkeys, old(mSystemStore.mValues), key)
      ensures View() == AfterErase(old(View()), key, clientId, subkeys)
    {
      var keys := [];
      if IsWildcard(key) {
        keys := mSystemStore.GetAllKeys(key);
      }
      subkeys := keys;
      QueuedAllEffect(mInFlightItems.mStorage, mInFlightItems.mMaxSize, clientId, Erasure(key, keys));
      mInFlightItems.Erase(clientId, key, keys);
    }

    method Drop(clientId: ClientId)
      requires Valid()
      modifies mInFlightItems
      ensures Valid()
      ensures View() == AfterDrop(old(View()), clientId)
    {
      mInFlightItems.Drop(clientId);
    }

    /** The last write to each key outside last.*. */
    method Merge(items: seq<Item>) returns (merged: map<Key, Value>)
      ensures merged == Merged(items)
    {
      merged := map[];
      for i := 0 to |items|
        invariant merged == Merged(items[..i])
      {
        assert items[..i + 1] == items[..i] + [items[i]];
        MergedSnoc(items[..i], items[i]);
        var inLast := MatchesNamespace(items[i].key, LAST);
        if inLast {
          continue;
        }
        if items[i].key in merged {
          merged := merged - {items[i].key};
        }
        merged := merged[items[i].key := items[i].value];
      }
      assert items[..|items|] == items;
    }

    /** Looks a key up by its text. */
    method GetByText(key: Key) returns (r: Value)
      ensures r == Lookup(mSystemStore.mValues, Parse(Render(key)))
    {
      var text := ToString(key);
      ParseRender(key);
      if Parse(text) == [] {
        return Empty;
      }
      r := mSystemStore.GetOne(Parse(text));
    }

    method PruneUnchangedValues(clientId: ClientId) returns (pruned: seq<Item>)
      ensures Enumerates(pruned, Changed(mSystemStore.mValues, Queue(mInFlightItems.mStorage, clientId)))
    {
      pruned := [];
      var maybeItems := mInFlightItems.GetBucket(clientId);
      if maybeItems.None? {
        return;
      }
      ghost var items := maybeItems.value;
      var merged := Merge(maybeItems.value);
      var left := merged.Keys;
      while left != {}
        invariant left <= merged.Keys
        invariant Enumerates(pruned, ChangedApartFrom(mSystemStore.mValues, items, left))
        decreases |left|
      {
        var key :| key in left;
        ghost var before := ChangedApartFrom(mSystemStore.mValues, items, left);
        ChangedStep(mSystemStore.mValues, items, left, key);
        EnumeratesAdd(pruned, before, Item(key, merged[key]));
        var was := GetByText(key);
        if was.Empty? || !ValueEq(was, merged[key]) {
          pruned := pruned + [Item(key, merged[key])];
        }
        left := left - {key};
      }
      assert ChangedApartFrom(mSystemStore.mValues, items, {}) == Changed(mSystemStore.mValues, items);
    }

    /** The old value of every written key outside default.* and last.*, for its last.* key. */
    method OldItems(items: seq<Item>) returns (oldItems: seq<Item>)
      ensures oldItems == Shadows(mSystemStore.mValues, items)
    {
      oldItems := [];
      for i := 0 to |items|
        invariant oldItems == Shadows(mSystemStore.mValues, items[..i])
      {
        assert items[..i + 1][..i] == items[..i];
        var was := mSystemStore.GetOne(items[i].key);
        var inDefault := MatchesNamespace(items[i].key, DEFAULT);
        var inLast := MatchesNamespace(items[i].key, LAST);
        if inDefault || inLast {
          continue;
        }
        oldItems := oldItems + [Item(LastKey(items[i].key), was)];
      }
      assert items[..|items|] == items;
    }

    method SaveLastItems(clientId: ClientId)
      requires mInFlightItems.Valid()
      modifies mInFlightItems
      ensures mInFlightItems.Valid()
      ensures mInFlightItems.mStorage == QueuedAll(old(mInFlightItems.mStorage), mInFlightItems.mMaxSize, clientId,
                Shadows(mSystemStore.mValues, Queue(old(mInFlightItems.mStorage), clientId)))
    {
      var maybeItems := mInFlightItems.GetBucket(clientId);
      if maybeItems.None? {
        return;
      }
      var oldItems := OldItems(maybeItems.value);
      for i := 0 to |oldItems|
        invariant mInFlightItems.Valid()
        invariant mInFlightItems.mStorage ==
                  QueuedAll(old(mInFlightItems.mStorage), mInFlightItems.mMaxSize, clientId, oldItems[..i])
      {
        QueuedAllAt(old(mInFlightItems.mStorage), mInFlightItems.mMaxSize, clientId, oldItems, i);
        mInFlightItems.Insert(clientId, oldItems[i]);
      }
      assert oldItems[..|oldItems|] == oldItems;
    }

    /** Sets every item in the system store and commits it there. */
    method StoreAll(toCommit: seq<Item>, clientId: ClientId)
      requires mSystemStore.Valid() && mSystemStore.mInFlightItems.mStorage == EMPTY_FLIGHT && toCommit != []
      modifies mSystemStore`mValues, mSystemStore.mInFlightItems
      modifies mSystemStore.mBackingStore`mFiles, mSystemStore.mBackingStore.mInFlightItems
      ensures mSystemStore.Valid() && mSystemStore.mInFlightItems.mStorage == EMPTY_FLIGHT
      ensures mSystemStore.View() ==
              AfterWrite(old(mSystemStore.View()), mSystemStore.mBackingStore.mInFlightItems.mMaxSize,
                         clientId, toCommit)
    {
      for i := 0 to |toCommit|
        invariant mSystemStore.Valid() && mSystemStore.View() == old(mSystemStore.View())
        invariant mSystemStore.mInFlightItems.mStorage ==
                  QueuedAll(EMPTY_FLIGHT, mSystemStore.mInFlightItems.mMaxSize, clientId, toCommit[..i])
      {
        QueuedAllAt(EMPTY_FLIGHT, mSystemStore.mInFlightItems.mMaxSize, clientId, toCommit, i);
        mSystemStore.Set(toCommit[i], clientId);
      }
      assert toCommit[..|toCommit|] == toCommit;
      QueuedAllEffect(EMPTY_FLIGHT, mSystemStore.mInFlightItems.mMaxSize, clientId, toCommit);
      OnlyBucketDropped(mSystemStore.mInFlightItems.mMaxSize, clientId, toCommit);
      assert [] + toCommit == toCommit;
      mSystemStore.Commit(clientId);
    }

    /** Logs what changed, if anything did. */
    method LogChanges(changed: seq<Item>) returns (id: CommitId)
      requires mCommitHistory.Valid()
      modifies mCommitHistory`mSaved, mCommitHistory.mCommitHistory
      ensures mCommitHistory.Valid()
      ensures id == if changed == [] then 0 else old(mCommitHistory.TheLog()).highest + 1
      ensures mCommitHistory.TheLog() ==
              if changed == [] then old(mCommitHistory.TheLog())
              else Logged(old(mCommitHistory.TheLog()), mCommitHistory.mMaxStorage,
                          Deltas(mSystemStore.mValues, changed))
    {
      id := 0;
      if |changed| > 0 {
        id := mCommitHistory.LogCommit(changed, mSystemStore);
      }
    }

    /** The first half of Commit: lock the bucket, find what changed and log it. */
    method LockAndLog(clientId: ClientId) returns (id: CommitId, changed: seq<Item>)
      requires Valid() && CanCommit(View(), clientId)
      modifies mInFlightItems, mCommitHistory`mSaved, mCommitHistory.mCommitHistory
      ensures Valid()
      ensures Enumerates(changed, Changed(mSystemStore.mValues, Queue(old(mInFlightItems.mStorage), clientId)))
      ensures id == if changed == [] then 0 else old(View()).log.highest + 1
      ensures clientId in View().flight.items && View().flight.items[clientId].locked
      ensures View() == old(View()).(flight := LockSet(old(View()).flight, clientId, true),
                log := if changed == [] then old(View()).log
                       else Logged(old(View()).log, old(View()).maxCommits, Deltas(mSystemStore.mValues, changed)))
    {
      mInFlightItems.LockBucket(clientId);
      changed := PruneUnchangedValues(clientId);
      id := LogChanges(changed);
    }

    /** The second half: queue the last.* writes and push the whole bucket to the store. */
    method SaveAndStore(clientId: ClientId)
      requires Valid() && clientId in mInFlightItems.mStorage.items
      modifies mInFlightItems, mSystemStore`mValues, mSystemStore.mInFlightItems
      modifies mSystemStore.mBackingStore`mFiles, mSystemStore.mBackingStore.mInFlightItems
      ensures Valid()
      ensures var items := Queue(old(mInFlightItems.mStorage), clientId);
              var shadows := Shadows(old(mSystemStore.mValues), items);
              && mInFlightItems.mStorage ==
                 QueuedAll(old(mInFlightItems.mStorage), mInFlightItems.mMaxSize, clientId, shadows)
              && mSystemStore.View() ==
                 AfterWrite(old(mSystemStore.View()), mSystemStore.mBackingStore.mInFlightItems.mMaxSize,
                            clientId, items + shadows)
              && View() == old(View()).(store := ApplyAll(old(View()).store, items + shadows),
                                        flight := QueuedAll(old(View()).flight, old(View()).maxClients, clientId,
                                                            shadows))
    {
      QueuedAllEffect(mInFlightItems.mStorage, mInFlightItems.mMaxSize, clientId,
                      Shadows(mSystemStore.mValues, Queue(mInFlightItems.mStorage, clientId)));
      SaveLastItems(clientId);
      var toCommit := mInFlightItems.GetBucket(clientId);
      StoreAll(toCommit.value, clientId);
    }

    /** A commit that goes ahead, up to the hooks. */
    method CommitBucket(clientId: ClientId) returns (id: CommitId, ghost changed: seq<Item>)
      requires Valid() && CanCommit(View(), clientId)
      modifies mInFlightItems, mCommitHistory`mSaved, mCommitHistory.mCommitHistory
      modifies mSystemStore`mValues, mSystemStore.mInFlightItems
      modifies mSystemStore.mBackingStore`mFiles, mSystemStore.mBackingStore.mInFlightItems
      ensures Valid()
      ensures Walks(old(View()), clientId, changed)
      ensures id == if changed != [] then old(View()).log.highest + 1 else 0
      ensures View() == AfterCommit(old(View()), clientId, changed)
      ensures mSystemStore.View() == Pushed(old(mSystemStore.View()), WriteOf(old(View()), CommitOp(clientId, changed)))
    {
      ghost var s, below := View(), mSystemStore.View();
      var pruned;
      id, pruned := LockAndLog(clientId);
      changed := pruned;
      ghost var mid := View();
      LockSetIs(s.flight, clientId, true);
      SaveAndStore(clientId);
      Assembled(s, mid, View(), clientId, pruned);
    }

    /** A commit that goes ahead, and the drop of its bucket when no hooks are asked for. */
    method CommitAndDrop(clientId: ClientId, opt: CommitConfig)
      returns (id: CommitId, awaiting: bool, ghost changed: seq<Item>)
      requires Valid() && CanCommit(View(), clientId)
      modifies mInFlightItems, mCommitHistory`mSaved, mCommitHistory.mCommitHistory
      modifies mSystemStore`mValues, mSystemStore.mInFlightItems
      modifies mSystemStore.mBackingStore`mFiles, mSystemStore.mBackingStore.mInFlightItems
      ensures Valid()
      ensures Walks(old(View()), clientId, changed)
      ensures awaiting <==> opt != NO_HOOKS
      ensures id == if changed != [] then old(View()).log.highest + 1 else 0
      ensures var after := AfterCommit(old(View()), clientId, changed);
              View() == if awaiting then after else AfterDrop(after, clientId)
      ensures awaiting ==> clientId in View().flight.items && View().flight.items[clientId].locked
      ensures mSystemStore.View() == Pushed(old(mSystemStore.View()), WriteOf(old(View()), CommitOp(clientId, changed)))
    {
      id, changed := CommitBucket(clientId);
      awaiting := opt != NO_HOOKS;
      if awaiting {
        CommitLocks(old(View()), clientId, changed);
      } else {
        Drop(clientId);
      }
    }

    /**
     * Commit up to the hooks. With NO_HOOKS the bucket is dropped at once; otherwise it stays locked
     * until the hooks are done, and `awaiting` says so.
     */
    method Commit(clientId: ClientId, opt: CommitConfig)
      returns (id: CommitId, awaiting: bool, ghost changed: seq<Item>)
      requires Valid()
      modifies mInFlightItems, mCommitHistory`mSaved, mCommitHistory.mCommitHistory
      modifies mSystemStore`mValues, mSystemStore.mInFlightItems
      modifies mSystemStore.mBackingStore`mFiles, mSystemStore.mBackingStore.mInFlightItems
      ensures Valid()
      ensures Walks(old(View()), clientId, changed)
      ensures awaiting <==> CanCommit(old(View()), clientId) && opt != NO_HOOKS
      ensures id == if CanCommit(old(View()), clientId) && changed != [] then old(View()).log.highest + 1 else 0
      ensures var after := AfterCommit(old(View()), clientId, changed);
              View() == if CanCommit(old(View()), clientId) && !awaiting then AfterDrop(after, clientId) else after
      ensures awaiting ==> clientId in View().flight.items && View().flight.items[clientId].locked
      ensures mSystemStore.View() == Pushed(old(mSystemStore.View()), WriteOf(old(View()), CommitOp(clientId, changed)))
    {
      id, awaiting, changed := 0, false, [];
      var exists' := mInFlightItems.Exists(clientId);
      var locked := mInFlightItems.IsBucketLocked(clientId);
      if exists' && !locked {
        id, awaiting, changed := CommitAndDrop(clientId, opt);
      } else {
        NothingToCommit(View(), clientId);
      }
    }

    /**
     * The hooks of a commit are done: success and a failed external process both drop its bucket; any
     * other error passes by, and leaves the bucket locked.
     */
    method HooksDone(clientId: ClientId, commitId: CommitId, outcome: HooksOutcome) returns (error: Option<CommitId>)
      requires Valid()
      modifies mInFlightItems
      ensures Valid()
      ensures View() == if outcome.OTHER_ERROR? then old(View()) else AfterDrop(old(View()), clientId)
      ensures error == if outcome.EXTERNAL_RUNNER_ERROR? then Some(commitId) else None
    {
      error := None;
      if outcome.OTHER_ERROR? {
        return;
      }
      Drop(clientId);
      if outcome.EXTERNAL_RUNNER_ERROR? {
        error := Some(commitId);
      }
    }

    /** Queues the old values of a commit for the rollback's own client. */
    method QueueBack(deltas: seq<Delta>)
      requires Valid()
      modifies mInFlightItems
      ensures Valid() && View() == QueuedBack(old(View()), deltas)
    {
      for i := 0 to |deltas|
        invariant Valid() && View() == QueuedBack(old(View()), deltas[..i])
      {
        assert deltas[..i + 1][..i] == deltas[..i];
        if deltas[i].before.Empty? {
          ghost var subkeys := Erase(deltas[i].key, TRANSACTION_HISTORY_ID);
        } else {
          // The answer of Set is ignored.
          var _ := Set(Item(deltas[i].key, deltas[i].before), TRANSACTION_HISTORY_ID);
        }
      }
      assert deltas[..|deltas|] == deltas;
    }

    /** Queues and commits: what a rollback does once CanRollback lets it. */
    method CommitBack(deltas: seq<Delta>) returns (awaiting: bool, ghost changed: seq<Item>)
      requires Valid()
      modifies mInFlightItems, mCommitHistory`mSaved, mCommitHistory.mCommitHistory
      modifies mSystemStore`mValues, mSystemStore.mInFlightItems
      modifies mSystemStore.mBackingStore`mFiles, mSystemStore.mBackingStore.mInFlightItems
      ensures Valid()
      ensures var queued := QueuedBack(old(View()), deltas);
              && Walks(queued, TRANSACTION_HISTORY_ID, changed)
              && View() == AfterCommit(queued, TRANSACTION_HISTORY_ID, changed)
              && mSystemStore.View() ==
                 Pushed(old(mSystemStore.View()), WriteOf(queued, CommitOp(TRANSACTION_HISTORY_ID, changed)))
    {
      QueueBack(deltas);
      var id;
      id, awaiting, changed := Commit(TRANSACTION_HISTORY_ID, DEFAULT_HOOKS);
    }

    /** TransactionManager::Rollback, whose database is this configurator. */
    method Rollback(commitId: CommitId) returns (status: RollbackStatus, ghost changed: seq<Item>)
      requires Valid()
      modifies mInFlightItems, mCommitHistory`mSaved, mCommitHistory.mCommitHistory
      modifies mSystemStore`mValues, mSystemStore.mInFlightItems
      modifies mSystemStore.mBackingStore`mFiles, mSystemStore.mBackingStore.mInFlightItems
      ensures Valid()
      ensures status.NO_SUCH_COMMIT? <==> LastWithId(old(View()).log.commits, commitId).None?
      ensures status.COMMITTED? <==> MayRollback(old(View()).log.commits, commitId)
      ensures status.COMMITTED? ==> Possible(old(View()), RollbackOp(commitId, changed))
      ensures View() == AfterRollback(old(View()), commitId, changed)
      ensures mSystemStore.View() ==
              Pushed(old(mSystemStore.View()), WriteOf(old(View()), RollbackOp(commitId, changed)))
    {
      changed := [];
      ghost var s := View();
      var maybeCommit := mCommitHistory.mCommitHistory.GetCommit(commitId);
      LastWithIdSound(s.log.commits, commitId);
      if maybeCommit.None? {
        return NO_SUCH_COMMIT, [];
      }
      var commit := maybeCommit.value;
      ghost var at :| 0 <= at < |s.log.commits| && s.log.commits[at] == commit;
      var canRollback := mCommitHistory.CanRollback(commit, at);
      MayRollbackAt(s.log.commits, at);
      if !canRollback {
        return ITEM_CHANGED, [];
      }
      var awaiting;
      awaiting, changed := CommitBack(commit.deltas);
      RollbackPushes(s, commitId, changed);
      status := COMMITTED(awaiting);
    }
  }

  /** A commit may be rolled back exactly if no later one has a delta on any of its keys. */
  lemma MayRollbackIff(cs: seq<Commit>, id: CommitId)
    ensures MayRollback(cs, id) <==>
            exists i | 0 <= i < |cs| ::
              && cs[i].id == id
              && forall j, d, e | i < j < |cs| && d in cs[i].deltas && e in cs[j].deltas :: d.key != e.key
  {
    forall i | 0 <= i < |cs|
      ensures Untouched(cs, i) <==>
              forall j, d, e | i < j < |cs| && d in cs[i].deltas && e in cs[j].deltas :: d.key != e.key
    {
      UntouchedIff(cs, i);
    }
  }

  lemma RollbackPushes(s: Sys, id: CommitId, changed: seq<Item>)
    requires MayRollback(s.log.commits, id) && LastWithId(s.log.commits, id).Some?
    ensures var queued := QueuedBack(s, LastWithId(s.log.commits, id).value.deltas);
            WriteOf(s, RollbackOp(id, changed)) == WriteOf(queued, CommitOp(TRANSACTION_HISTORY_ID, changed))
  {
    QueuedBackQuiet(s, LastWithId(s.log.commits, id).value.deltas);
  }

  /** How the hooks of a commit ended. */
  datatype HooksOutcome = ALL_SUCCEEDED | EXTERNAL_RUNNER_ERROR | OTHER_ERROR

  /** `awaiting` says that the rollback's hooks are still to run. */
  datatype RollbackStatus = NO_SUCH_COMMIT | ITEM_CHANGED | COMMITTED(awaiting: bool)

  lemma MayRollbackAt(cs: seq<Commit>, at: nat)
    requires IsChain(cs) && at < |cs|
    ensures MayRollback(cs, cs[at].id) <==> Untouched(cs, at)
  {
  }
}
