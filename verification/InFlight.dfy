/** Queued writes of each client, bucket by bucket (src/LockedConfigPairMap.cpp). */
module InFlight {
  import opened ConfigTypes
  import opened Stores
  import opened Sequences
  import opened SizeAgeBoundMaps

  type ClientId = nat

  datatype Bucket = Bucket(locked: bool, items: seq<Item>)

  type Flight = Aged<ClientId, Bucket>

  const EMPTY_FLIGHT: Flight := Aged([], map[])

  function Queue(f: Flight, c: ClientId): seq<Item> {
    if c in f.items then f.items[c].items else []
  }

  predicate Locked(f: Flight, c: ClientId) {
    c in f.items && f.items[c].locked
  }

  /** A write queued at the end of the client's bucket, which is created if need be. */
  ghost function Queued(f: Flight, max: nat, c: ClientId, item: Item): Flight {
    var g := Inserted(f, max, c, Bucket(false, []));
    g.(items := g.items[c := g.items[c].(items := g.items[c].items + [item])])
  }

  ghost function QueuedAll(f: Flight, max: nat, c: ClientId, items: seq<Item>): Flight {
    if items == [] then f else Queued(QueuedAll(f, max, c, items[..|items| - 1]), max, c, items[|items| - 1])
  }

  lemma QueuedAllSnoc(f: Flight, max: nat, c: ClientId, items: seq<Item>, item: Item)
    ensures QueuedAll(f, max, c, items + [item]) == Queued(QueuedAll(f, max, c, items), max, c, item)
  {
    assert (items + [item])[..|items|] == items;
  }

  lemma QueuedAllAt(f: Flight, max: nat, c: ClientId, items: seq<Item>, i: nat)
    requires i < |items|
    ensures QueuedAll(f, max, c, items[..i + 1]) == Queued(QueuedAll(f, max, c, items[..i]), max, c, items[i])
  {
    assert items[..i + 1] == items[..i] + [items[i]];
    QueuedAllSnoc(f, max, c, items[..i], items[i]);
  }

  ghost function LockSet(f: Flight, c: ClientId, locked: bool): Flight {
    if c in f.items then f.(items := f.items[c := f.items[c].(locked := locked)]) else f
  }

  /** Locking sets the lock of the one bucket, and changes nothing else. */
  lemma LockSetIs(f: Flight, c: ClientId, locked: bool)
    ensures var g := LockSet(f, c, locked);
            && g.order == f.order && g.items.Keys == f.items.Keys
            && (c in f.items ==> g.items[c] == Bucket(locked, f.items[c].items))
            && (forall d | d in f.items && d != c :: g.items[d] == f.items[d])
  {
  }

  /** What a wildcard erasure queues: an empty write for each key it names outside last.* and default.*. */
  function Blanks(keys: seq<Key>): seq<Item> {
    if keys == [] then [] else Blanks(keys[..|keys| - 1]) + BlankFor(keys[|keys| - 1])
  }

  function BlankFor(k: Key): seq<Item> {
    if InLast(k) || InDefault(k) then [] else [Item(k, Empty)]
  }

  /** The writes queued by an erasure; `subkeys` is what the database lists for a wildcard. */
  function Erasure(pattern: Pattern, subkeys: seq<Key>): seq<Item> {
    if IsWildcard(pattern) then Blanks(subkeys) else [Item(pattern, Empty)]
  }

  /** Every existing bucket holds at least one write. */
  ghost predicate NoEmptyBucket(f: Flight) {
    forall c | c in f.items :: f.items[c].items != []
  }

  lemma QueuedEffect(f: Flight, max: nat, c: ClientId, item: Item)
    ensures var g := Queued(f, max, c, item);
            && c in g.items
            && Queue(g, c) == Queue(f, c) + [item]
            && Locked(g, c) == Locked(f, c)
            && (forall d | d in g.items && d != c :: d in f.items && g.items[d] == f.items[d])
            && (c in f.items ==> g.order == f.order && g.items.Keys == f.items.Keys)
            && (NoEmptyBucket(f) ==> NoEmptyBucket(g))
  {
  }

  lemma {:induction false} QueuedAllEffect(f: Flight, max: nat, c: ClientId, items: seq<Item>)
    ensures var g := QueuedAll(f, max, c, items);
            && (c in g.items <==> c in f.items || items != [])
            && Queue(g, c) == Queue(f, c) + items
            && Locked(g, c) == Locked(f, c)
            && (forall d | d in g.items && d != c :: d in f.items && g.items[d] == f.items[d])
            && (c in f.items ==> g.order == f.order && g.items.Keys == f.items.Keys)
            && (NoEmptyBucket(f) ==> NoEmptyBucket(g))
  {
    if items != [] {
      var before := items[..|items| - 1];
      QueuedAllEffect(f, max, c, before);
      QueuedEffect(QueuedAll(f, max, c, before), max, c, items[|items| - 1]);
      assert Queue(f, c) + before + [items[|items| - 1]] == Queue(f, c) + items;
    }
  }

  lemma {:induction false} QueuedAllWellAged(f: Flight, max: nat, c: ClientId, items: seq<Item>)
    requires WellAged(f, max) && max >= 1
    ensures WellAged(QueuedAll(f, max, c, items), max)
  {
    if items != [] {
      var g := QueuedAll(f, max, c, items[..|items| - 1]);
      QueuedAllWellAged(f, max, c, items[..|items| - 1]);
      InsertedWellAged(g, max, c, Bucket(false, []));
    }
  }

  /** While there is room for one more bucket, queueing ages none out. */
  lemma {:induction false} QueuedAllKeeps(f: Flight, max: nat, c: ClientId, items: seq<Item>)
    requires WellAged(f, max) && |f.order| < max
    ensures var g := QueuedAll(f, max, c, items);
            f.items.Keys <= g.items.Keys && |g.order| <= |f.order| + 1
    ensures QueuedAll(f, max, c, items) == f || c in QueuedAll(f, max, c, items).items
    ensures |QueuedAll(f, max, c, items).order| == |f.order| || c !in f.items
  {
    if items != [] {
      QueuedAllKeeps(f, max, c, items[..|items| - 1]);
    }
  }

  /** A map with one bucket is empty once that bucket is dropped. */
  lemma {:induction false} OnlyBucketDropped(max: nat, c: ClientId, items: seq<Item>)
    requires max >= 1
    ensures Erased(QueuedAll(EMPTY_FLIGHT, max, c, items), c) == EMPTY_FLIGHT
  {
    var f := QueuedAll(EMPTY_FLIGHT, max, c, items);
    QueuedAllEffect(EMPTY_FLIGHT, max, c, items);
    QueuedAllWellAged(EMPTY_FLIGHT, max, c, items);
    ItemsSize(f, max);
    assert f.items.Keys == if c in f.items then {c} else {};
    assert f.order != [] ==> f.order[0] in Elements(f.order);
    assert c in f.items <==> c in Elements(f.order);
  }

  lemma {:induction false} BlanksOnly(keys: seq<Key>, item: Item)
    ensures item in Blanks(keys) <==>
            && item.value.Empty? && item.key in keys
            && (|item.key| < 2 || (item.key[0] != "last" && item.key[0] != "default"))
  {
    if keys != [] {
      BlanksOnly(keys[..|keys| - 1], item);
      assert keys == keys[..|keys| - 1] + [keys[|keys| - 1]];
    }
  }

  lemma BlanksQueued(f: Flight, max: nat, c: ClientId, keys: seq<Key>, i: nat)
    requires i < |keys|
    ensures QueuedAll(f, max, c, Blanks(keys[..i + 1])) ==
            var g := QueuedAll(f, max, c, Blanks(keys[..i]));
            if InLast(keys[i]) || InDefault(keys[i]) then g else Queued(g, max, c, Item(keys[i], Empty))
  {
    assert keys[..i + 1][..i] == keys[..i];
    if InLast(keys[i]) || InDefault(keys[i]) {
      assert Blanks(keys[..i + 1]) == Blanks(keys[..i]);
    } else {
      QueuedAllSnoc(f, max, c, Blanks(keys[..i]), Item(keys[i], Empty));
    }
  }

  lemma QueuedOne(f: Flight, max: nat, c: ClientId, item: Item)
    ensures QueuedAll(f, max, c, [item]) == Queued(f, max, c, item)
  {
    QueuedAllSnoc(f, max, c, [], item);
    assert [] + [item] == [item];
  }

  /** Holds the bounded map as the value that SizeAgeBoundMap is proved to implement. */
  class LockedConfigPairMap {
    var mStorage: Flight
    const mMaxSize: nat

    ghost predicate Valid()
      reads this
    {
      mMaxSize >= 1 && WellAged(mStorage, mMaxSize)
    }

    constructor (max: nat)
      requires max >= 1
      ensures Valid() && mStorage == EMPTY_FLIGHT && mMaxSize == max
    {
      mStorage := EMPTY_FLIGHT;
      mMaxSize := max;
    }

    method Insert(bucket: ClientId, newItem: Item)
      requires Valid()
      modifies this
      ensures Valid()
      ensures mStorage == Queued(old(mStorage), mMaxSize, bucket, newItem)
    {
      InsertedWellAged(mStorage, mMaxSize, bucket, Bucket(false, []));
      if bucket !in mStorage.items {
        mStorage := Inserted(mStorage, mMaxSize, bucket, Bucket(false, []));
      }
      var b := mStorage.items[bucket];
      mStorage := mStorage.(items := mStorage.items[bucket := b.(items := b.items + [newItem])]);
    }

    /** `subkeys` stands for the answer of the database's GetAllKeys; only a wildcard asks for it. */
    method Erase(bucket: ClientId, key: Pattern, subkeys: seq<Key>)
      requires Valid()
      modifies this
      ensures Valid()
      ensures mStorage == QueuedAll(old(mStorage), mMaxSize, bucket, Erasure(key, subkeys))
    {
      if IsWildcard(key) {
        for i := 0 to |subkeys|
          invariant Valid()
          invariant mStorage == QueuedAll(old(mStorage), mMaxSize, bucket, Blanks(subkeys[..i]))
        {
          BlanksQueued(old(mStorage), mMaxSize, bucket, subkeys, i);
          // Wildcards never erase last.* or default.* keys.
          var inLast := MatchesNamespace(subkeys[i], LAST);
          var inDefault := MatchesNamespace(subkeys[i], DEFAULT);
          if !(inLast || inDefault) {
            Insert(bucket, Item(subkeys[i], Empty));
          }
        }
        assert subkeys[..|subkeys|] == subkeys;
      } else {
        QueuedOne(mStorage, mMaxSize, bucket, Item(key, Empty));
        Insert(bucket, Item(key, Empty));
      }
    }

    method Drop(bucket: ClientId)
      requires Valid()
      modifies this
      ensures Valid()
      ensures mStorage == Erased(old(mStorage), bucket)
    {
      ErasedWellAged(mStorage, mMaxSize, bucket);
      assert bucket in mStorage.items <==> bucket in Elements(mStorage.order);
      if bucket in mStorage.items {
        mStorage := Erased(mStorage, bucket);
      }
    }

    method LockBucket(bucket: ClientId)
      requires Valid()
      modifies this
      ensures Valid()
      ensures mStorage == LockSet(old(mStorage), bucket, true)
      ensures bucket in mStorage.items <==> bucket in old(mStorage).items
      ensures bucket in mStorage.items ==> mStorage.items[bucket].locked
    {
      if bucket in mStorage.items {
        mStorage := mStorage.(items := mStorage.items[bucket := mStorage.items[bucket].(locked := true)]);
      }
    }

    method UnlockBucket(bucket: ClientId)
      requires Valid()
      modifies this
      ensures Valid()
      ensures mStorage == LockSet(old(mStorage), bucket, false)
      ensures bucket in mStorage.items <==> bucket in old(mStorage).items
      ensures bucket in mStorage.items ==> !mStorage.items[bucket].locked
    {
      if bucket in mStorage.items {
        mStorage := mStorage.(items := mStorage.items[bucket := mStorage.items[bucket].(locked := false)]);
      }
    }

    method IsBucketLocked(bucket: ClientId) returns (r: bool)
      ensures r <==> bucket in mStorage.items && mStorage.items[bucket].locked
    {
      r := bucket in mStorage.items && mStorage.items[bucket].locked;
    }

    method Exists(bucket: ClientId) returns (r: bool)
      ensures r <==> bucket in mStorage.items
    {
      r := bucket in mStorage.items;
    }

    method GetBucket(bucket: ClientId) returns (r: Option<seq<Item>>)
      ensures r == if bucket in mStorage.items then Some(mStorage.items[bucket].items) else None
    {
      r := if bucket in mStorage.items then Some(mStorage.items[bucket].items) else None;
    }
  }
}
