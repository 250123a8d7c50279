/** The write-through cache in front of the disk (src/MemoryCache.cpp). */
module MemoryCaches {
  import opened ConfigTypes
  import opened Stores
  import opened Sequences
  import opened SizeAgeBoundMaps
  import opened InFlight
  import opened YamlStorage
  import opened Coherence
  import opened ConfigSystem

  /** The stored pairs a pattern asks for: those it matches, or just its own key when concrete. */
  function Selected(s: Store, pattern: Pattern): Store {
    map k | k in s && (if IsWildcard(pattern) then Matches(k, pattern) else k == pattern) :: s[k]
  }

  /** The pairs selected: for a wildcard those it agrees with part by part and is not longer than. */
  lemma {:induction false} SelectedIff(s: Store, pattern: Pattern, k: Key)
    ensures k in Selected(s, pattern) <==>
            && k in s
            && if "*" !in pattern then k == pattern
               else |pattern| <= |k| && forall i | 0 <= i < |pattern| :: pattern[i] == "*" || pattern[i] == k[i]
    ensures k in Selected(s, pattern) ==> Selected(s, pattern)[k] == s[k]
  {
    ConcreteMatches(k, pattern);
  }

  class MemoryCache {
    var mValues: Store
    const mInFlightItems: LockedConfigPairMap
    const mBackingStore: LocalYAMLStorage

    ghost predicate Valid()
      reads this, mInFlightItems, mBackingStore, mBackingStore.mInFlightItems
    {
      && mInFlightItems.Valid()
      && mBackingStore.Valid()
      && mInFlightItems != mBackingStore.mInFlightItems
    }

    /** The cache and what is below it. */
    ghost function View(): Stack
      reads this, mBackingStore, mBackingStore.mInFlightItems
    {
      Stack(mValues, mBackingStore.mFiles, mBackingStore.mInFlightItems.mStorage)
    }

    /** Loading everything from disk makes cache and disk coherent. */
    constructor (backingStore: LocalYAMLStorage)
      requires backingStore.Valid() && WellPlaced(backingStore.mFiles)
      ensures Valid() && mBackingStore == backingStore && fresh(mInFlightItems)
      ensures mInFlightItems.mStorage == EMPTY_FLIGHT && mInFlightItems.mMaxSize == 100
      ensures Coherent(View())
    {
      var allValues := backingStore.GetAll();
      mValues := allValues;
      mInFlightItems := new LockedConfigPairMap(100);
      mBackingStore := backingStore;
    }

    method Set(value: Item, id: ClientId)
      requires Valid()
      modifies mInFlightItems
      ensures Valid()
      ensures mInFlightItems.mStorage == Queued(old(mInFlightItems.mStorage), mInFlightItems.mMaxSize, id, value)
    {
      mInFlightItems.Insert(id, value);
    }

    method InternalGet(key: Key) returns (r: Option<Payload>)
      ensures r == if key in mValues then Some(mValues[key]) else None
    {
      r := if key in mValues then Some(mValues[key]) else None;
    }

    method GetAllKeys(ns: Pattern) returns (output: seq<Key>)
      ensures Lists(output, mValues, ns)
    {
      output := [];
      var left := mValues.Keys;
      while left != {}
        invariant left <= mValues.Keys && NoDup(output)
        invariant forall k: Key :: k in output <==> k in mValues && k !in left && Matches(k, ns)
        decreases |left|
      {
        var key :| key in left;
        left := left - {key};
        var matches := SubkeyMatches(key, ns);
        if matches {
          NoDupAppend(output, key);
          output := output + [key];
        }
      }
    }

    method Get(key: Pattern) returns (output: Store)
      ensures output == Selected(mValues, key)
    {
      output := map[];
      if IsWildcard(key) {
        var subKeys := GetAllKeys(key);
        for i := 0 to |subKeys|
          invariant forall k: Key :: k in output <==> k in subKeys[..i]
          invariant forall k | k in output :: k in mValues && output[k] == mValues[k]
        {
          assert subKeys[..i + 1] == subKeys[..i] + [subKeys[i]];
          assert subKeys[i] in subKeys;
          var res := InternalGet(subKeys[i]);
          if res.Some? && subKeys[i] !in output {
            output := output[subKeys[i] := res.value];
          }
        }
        assert subKeys[..|subKeys|] == subKeys;
      } else {
        var res := InternalGet(key);
        if res.Some? {
          output := output[key := res.value];
        }
      }
    }

    /** UnwrapSinglePair(Get(key)) for a concrete key. */
    method GetOne(key: Key) returns (r: Value)
      ensures r == Lookup(mValues, key)
      ensures r == if key in mValues then Of(mValues[key]) else Empty
    {
      var found := Get(key);
      assert found.Keys <= {key};
      r := if key in found then Of(found[key]) else Empty;
    }

    method TypeCheck(comp: Item) returns (r: bool)
      ensures r == ConfigSystem.TypeCheck(mValues, comp)
      ensures r <==> comp.key !in mValues || SameType(Of(mValues[comp.key]), comp.value)
    {
      var existing := GetOne(comp.key);
      if existing.Empty? {
        return true;
      }
      return SameType(existing, comp.value);
    }

    method GetAll() returns (output: Store)
      ensures output == mValues
    {
      output := map[];
      var left := mValues.Keys;
      while left != {}
        invariant left <= mValues.Keys
        invariant output == map k | k in mValues && k !in left :: mValues[k]
        decreases |left|
      {
        var key :| key in left;
        output := output[key := mValues[key]];
        left := left - {key};
      }
    }

    method UpdateItems(items: seq<Item>)
      modifies this`mValues
      ensures mValues == ApplyAll(old(mValues), items)
    {
      for i := 0 to |items|
        invariant mValues == ApplyAll(old(mValues), items[..i])
      {
        assert items[..i + 1][..i] == items[..i];
        var item := items[i];
        if item.key in mValues {
          mValues := mValues - {item.key};
        }
        if !item.value.Empty? {
          mValues := mValues[item.key := item.value.payload];
        }
      }
      assert items[..|items|] == items;
    }

    /** Queues the items in the store below. */
    method PassOn(items: seq<Item>, id: ClientId)
      requires mBackingStore.Valid()
      modifies mBackingStore.mInFlightItems
      ensures mBackingStore.Valid()
      ensures mBackingStore.mInFlightItems.mStorage ==
              QueuedAll(old(mBackingStore.mInFlightItems.mStorage), mBackingStore.mInFlightItems.mMaxSize, id, items)
    {
      for i := 0 to |items|
        invariant mBackingStore.Valid()
        invariant mBackingStore.mInFlightItems.mStorage ==
                  QueuedAll(old(mBackingStore.mInFlightItems.mStorage), mBackingStore.mInFlightItems.mMaxSize,
                            id, items[..i])
      {
        QueuedAllAt(old(mBackingStore.mInFlightItems.mStorage), mBackingStore.mInFlightItems.mMaxSize, id, items, i);
        mBackingStore.Set(items[i], id);
      }
      assert items[..|items|] == items;
    }

    method Drop(id: ClientId)
      requires Valid()
      modifies mInFlightItems
      ensures Valid()
      ensures mInFlightItems.mStorage == Erased(old(mInFlightItems.mStorage), id)
    {
      mInFlightItems.Drop(id);
    }

    /**
     * The bucket must exist, and hold a write: then the store below has a bucket to commit, too.
     */
    method Commit(id: ClientId)
      requires Valid() && id in mInFlightItems.mStorage.items && Queue(mInFlightItems.mStorage, id) != []
      modifies this`mValues, mInFlightItems, mBackingStore`mFiles, mBackingStore.mInFlightItems
      ensures Valid()
      ensures mInFlightItems.mStorage == Erased(old(mInFlightItems.mStorage), id)
      ensures View() == AfterWrite(old(View()), mBackingStore.mInFlightItems.mMaxSize, id,
                                   Queue(old(mInFlightItems.mStorage), id))
    {
      var bucket := mInFlightItems.GetBucket(id);
      var toCommit := bucket.value;
      QueuedAllEffect(mBackingStore.mInFlightItems.mStorage, mBackingStore.mInFlightItems.mMaxSize, id, toCommit);
      UpdateItems(toCommit);
      PassOn(toCommit, id);
      Drop(id);
      mBackingStore.Commit(id);
    }
  }
}
