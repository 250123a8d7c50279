/** The store on disk: one file per namespace, read and written whole (src/LocalYAMLStorage.cpp). */
module YamlStorage {
  import opened ConfigTypes
  import opened Stores
  import opened InFlight
  import opened KeyPaths

  /** A YAML file: an Empty value is an entry of type NULL. */
  type File = map<string, Value>

  /** The files under the root, by relative path. */
  type Disk = map<string, File>

  /** The write rule: an empty value removes an entry that is there, but makes one that is not. */
  function WriteEntry(f: File, name: string, v: Value): File {
    if v.Empty? && name in f then f - {name} else f[name := v]
  }

  function FileAt(d: Disk, p: string): File {
    if p in d then d[p] else map[]
  }

  /** Reads one file, updates one entry and writes the file back. */
  function WriteOne(d: Disk, item: Item): Disk {
    var p := FileOf(item.key);
    d[p := WriteEntry(FileAt(d, p), NameOf(item.key), item.value)]
  }

  function WriteAll(d: Disk, items: seq<Item>): Disk {
    if items == [] then d else WriteOne(WriteAll(d, items[..|items| - 1]), items[|items| - 1])
  }

  /** The part of a list of writes that goes to the file `p`. */
  function ForFile(items: seq<Item>, p: string): seq<Item> {
    if items == [] then []
    else
      var item := items[|items| - 1];
      ForFile(items[..|items| - 1], p) + if FileOf(item.key) == p then [item] else []
  }

  function Fill(f: File, items: seq<Item>): File {
    if items == [] then f
    else
      var item := items[|items| - 1];
      WriteEntry(Fill(f, items[..|items| - 1]), NameOf(item.key), item.value)
  }

  function Files(items: seq<Item>): set<string> {
    set item | item in items :: FileOf(item.key)
  }

  lemma FillSnoc(f: File, items: seq<Item>, item: Item)
    ensures Fill(f, items + [item]) == WriteEntry(Fill(f, items), NameOf(item.key), item.value)
  {
    assert (items + [item])[..|items|] == items;
  }

  lemma FilesSnoc(items: seq<Item>, item: Item)
    ensures Files(items + [item]) == Files(items) + {FileOf(item.key)}
  {
  }

  lemma ForFileSnoc(items: seq<Item>, item: Item, p: string)
    ensures ForFile(items + [item], p) ==
            if FileOf(item.key) == p then ForFile(items, p) + [item] else ForFile(items, p)
  {
    assert (items + [item])[..|items|] == items;
    assert ForFile(items, p) + [] == ForFile(items, p);
  }

  lemma {:induction false} WriteAllKeys(d: Disk, items: seq<Item>)
    ensures WriteAll(d, items).Keys == d.Keys + Files(items)
  {
    if items != [] {
      var n := |items| - 1;
      WriteAllKeys(d, items[..n]);
      assert items == items[..n] + [items[n]];
      FilesSnoc(items[..n], items[n]);
    }
  }

  /** Writing one item at a time leaves each file as if its own items had been written to it alone. */
  lemma {:induction false} WriteAllByFile(d: Disk, items: seq<Item>, p: string)
    ensures FileAt(WriteAll(d, items), p) == Fill(FileAt(d, p), ForFile(items, p))
  {
    if items != [] {
      var before, item := items[..|items| - 1], items[|items| - 1];
      WriteAllByFile(d, before, p);
      assert items == before + [item];
      ForFileSnoc(before, item, p);
      if FileOf(item.key) == p {
        FillSnoc(FileAt(d, p), ForFile(before, p), item);
      }
    }
  }

  lemma {:induction false} WriteAllConcat(d: Disk, a: seq<Item>, b: seq<Item>)
    ensures WriteAll(d, a + b) == WriteAll(WriteAll(d, a), b)
  {
    if b == [] {
      assert a + b == a;
    } else {
      assert (a + b)[..|a + b| - 1] == a + b[..|b| - 1];
      WriteAllConcat(d, a, b[..|b| - 1]);
    }
  }

  // ----- Logical contents -----

  function OnDisk(d: Disk, k: Key): Value {
    if NameOf(k) in FileAt(d, FileOf(k)) then FileAt(d, FileOf(k))[NameOf(k)] else Empty
  }

  /** What reading the whole disk gives: NULL entries are not reported. */
  ghost predicate Loads(store: Store, d: Disk) {
    forall k: Key :: Lookup(store, k) == if Addressable(k) then OnDisk(d, k) else Empty
  }

  predicate AllAddressable(items: seq<Item>) {
    forall item | item in items :: Addressable(item.key)
  }

  /** Whatever the remove-or-write-NULL rule leaves in the file, the last write is what is read. */
  lemma {:induction false} WriteAllOnDisk(d: Disk, items: seq<Item>, k: Key)
    requires AllAddressable(items) && Addressable(k)
    ensures OnDisk(WriteAll(d, items), k) ==
            match LastWrite(items, k) case None => OnDisk(d, k) case Some(v) => v
  {
    if items != [] {
      var n := |items| - 1;
      WriteAllOnDisk(d, items[..n], k);
      assert items[n] in items;
      if FileOf(items[n].key) == FileOf(k) && NameOf(items[n].key) == NameOf(k) {
        PlacesDistinct(items[n].key, k);
      }
    }
  }

  /** Whether there is an entry for the key, be it NULL. */
  predicate HasEntry(d: Disk, k: Key) {
    FileOf(k) in d && NameOf(k) in d[FileOf(k)]
  }

  /**
   * The entry of a key after a write to it: a value makes it, and an erasure removes it if it is there and
   * makes it NULL if it is not. So every second of several erasures leaves a NULL entry.
   */
  lemma EntryAfter(d: Disk, items: seq<Item>, k: Key, v: Value)
    ensures var before, after := WriteAll(d, items), WriteAll(d, items + [Item(k, v)]);
            && (HasEntry(after, k) <==> v != Empty || !HasEntry(before, k))
            && (HasEntry(after, k) ==> after[FileOf(k)][NameOf(k)] == v)
            && forall p, n | p in before && n in before[p] && (p != FileOf(k) || n != NameOf(k)) ::
                 p in after && n in after[p] && after[p][n] == before[p][n]
  {
    assert (items + [Item(k, v)])[..|items|] == items;
  }

  /** Every entry is the place of an addressable key. */
  ghost predicate WellPlaced(d: Disk) {
    forall p, n | p in d && n in d[p] :: exists k: Key :: Addressable(k) && FileOf(k) == p && NameOf(k) == n
  }

  lemma {:induction false} WriteAllWellPlaced(d: Disk, items: seq<Item>)
    requires WellPlaced(d) && AllAddressable(items)
    ensures WellPlaced(WriteAll(d, items))
  {
    if items != [] {
      var n := |items| - 1;
      var before := WriteAll(d, items[..n]);
      WriteAllWellPlaced(d, items[..n]);
      var item := items[n];
      assert item in items;
      var after := WriteOne(before, item);
      forall p, name | p in after && name in after[p]
        ensures exists k: Key :: Addressable(k) && FileOf(k) == p && NameOf(k) == name
      {
        if p == FileOf(item.key) && name == NameOf(item.key) {
          assert Addressable(item.key);
        } else {
          assert p in before && name in before[p];
        }
      }
    }
  }

  // ----- The class -----

  class LocalYAMLStorage {
    const mRoot: string
    var mFiles: Disk
    const mInFlightItems: LockedConfigPairMap

    ghost predicate Valid()
      reads this, mInFlightItems
    {
      mInFlightItems.Valid()
    }

    constructor (root: string, files: Disk)
      ensures Valid() && fresh(mInFlightItems)
      ensures mRoot == root && mFiles == files
      ensures mInFlightItems.mStorage == EMPTY_FLIGHT && mInFlightItems.mMaxSize == 100
    {
      mRoot, mFiles := root, files;
      mInFlightItems := new LockedConfigPairMap(100);
    }

    method Set(value: Item, id: ClientId)
      requires Valid()
      modifies mInFlightItems
      ensures Valid()
      ensures mInFlightItems.mStorage == Queued(old(mInFlightItems.mStorage), mInFlightItems.mMaxSize, id, value)
    {
      mInFlightItems.Insert(id, value);
    }

    /** The first pass of GroupSet: the items of each file, in list order. */
    method GroupByFile(items: seq<Item>) returns (buckets: map<string, seq<Item>>)
      ensures Grouped(buckets, items)
    {
      buckets := map[];
      for i := 0 to |items|
        invariant Grouped(buckets, items[..i])
      {
        assert items[..i + 1] == items[..i] + [items[i]];
        GroupedSnoc(buckets, items[..i], items[i]);
        var file, _ := TranslateKeyToPathPair(items[i].key);
        if file !in buckets {
          buckets := buckets[file := []];
        }
        buckets := buckets[file := buckets[file] + [items[i]]];
      }
      assert items[..|items|] == items;
    }

    /** The second pass, for one file. */
    method UpdateFile(config: File, bucket: seq<Item>) returns (updated: File)
      ensures updated == Fill(config, bucket)
    {
      updated := config;
      for j := 0 to |bucket|
        invariant updated == Fill(config, bucket[..j])
      {
        assert bucket[..j + 1] == bucket[..j] + [bucket[j]];
        FillSnoc(config, bucket[..j], bucket[j]);
        var item := bucket[j];
        var _, name := TranslateKeyToPathPair(item.key);
        if item.value.Empty? && name in updated {
          updated := updated - {name};
        } else {
          updated := updated[name := item.value];
        }
      }
      assert bucket[..|bucket|] == bucket;
    }

    /** Each file is read and written once, and holds what one write at a time would have left. */
    method GroupSet(items: seq<Item>)
      modifies this`mFiles
      ensures mFiles == WriteAll(old(mFiles), items)
    {
      var buckets := GroupByFile(items);
      var paths := buckets.Keys;
      while paths != {}
        invariant paths <= buckets.Keys
        invariant Updated(old(mFiles), mFiles, buckets, paths)
        decreases |paths|
      {
        var path :| path in paths;
        var config := FileAt(mFiles, path);
        config := UpdateFile(config, buckets[path]);
        UpdatedStep(old(mFiles), mFiles, buckets, paths, path);
        mFiles := mFiles[path := config];
        paths := paths - {path};
      }
      GroupedIsWriteAll(old(mFiles), mFiles, buckets, items);
    }

    /** The bucket is not dropped: its writes are made again by the client's next commit. */
    method Commit(id: ClientId)
      requires Valid() && id in mInFlightItems.mStorage.items
      modifies this`mFiles
      ensures Valid()
      ensures mFiles == WriteAll(old(mFiles), Queue(mInFlightItems.mStorage, id))
    {
      var bucket := mInFlightItems.GetBucket(id);
      GroupSet(bucket.value);
    }

    method GetAll() returns (output: Store)
      requires WellPlaced(mFiles)
      ensures Loads(output, mFiles)
    {
      output := map[];
      var paths := mFiles.Keys;
      ghost var done: set<(string, string)> := {};
      while paths != {}
        invariant paths <= mFiles.Keys
        invariant Gathered(mFiles, output, done)
        invariant forall p, n :: (p, n) in done <==> p in mFiles.Keys - paths && n in mFiles[p]
        decreases |paths|
      {
        var path :| path in paths;
        var names := mFiles[path].Keys;
        while names != {}
          invariant names <= mFiles[path].Keys
          invariant Gathered(mFiles, output, done)
          invariant forall p, n :: (p, n) in done <==>
                      p in mFiles && n in mFiles[p] && (p !in paths || (p == path && n !in names))
          decreases |names|
        {
          var name :| name in names;
          output := GatherOne(path, name, output, done);
          done := done + {(path, name)};
          names := names - {name};
        }
        paths := paths - {path};
      }
      GatheredAll(mFiles, output, done);
    }

    /** A NULL entry and a key that is there are passed over. */
    static method Include(text: string, value: Value, output: Store) returns (more: Store)
      requires Parsed(Parse(text)) && "*" !in Parse(text)
      ensures more == if value.Empty? || Parse(text) in output then output else output[Parse(text) := value.payload]
    {
      more := output;
      if !value.Empty? {
        var key: Key := Parse(text);
        if key !in more {
          more := more[key := value.payload];
        }
      }
    }

    method GatherOne(path: string, name: string, output: Store, ghost done: set<(string, string)>) returns (more: Store)
      requires WellPlaced(mFiles) && Gathered(mFiles, output, done)
      requires path in mFiles && name in mFiles[path] && (path, name) !in done
      ensures Gathered(mFiles, more, done + {(path, name)})
    {
      ghost var k := KeyAt(mFiles, mRoot, path, name);
      NotGathered(mFiles, output, done, k);
      var text := TranslatePathToKey(mRoot, Append(mRoot, path), name);
      var value := mFiles[path][name];
      assert Parse(text) == k;
      more := Include(text, value, output);
      assert more == Apply(output, Item(k, value));
      GatheredStep(mFiles, output, done, k, more);
    }
  }

  /** The key of an entry, and that it is read back as such. */
  lemma KeyAt(d: Disk, root: string, path: string, name: string) returns (k: Key)
    requires WellPlaced(d) && path in d && name in d[path]
    ensures Addressable(k) && FileOf(k) == path && NameOf(k) == name && OnDisk(d, k) == d[path][name]
    ensures root <= WithoutExtension(Append(root, path)) && Parse(KeyText(root, Append(root, path), name)) == k
  {
    k :| Addressable(k) && FileOf(k) == path && NameOf(k) == name;
    ReadBackIff(root, k);
    ReadBackParts(root, k);
  }

  lemma NotGathered(d: Disk, output: Store, done: set<(string, string)>, k: Key)
    requires Gathered(d, output, done) && (FileOf(k), NameOf(k)) !in done
    ensures k !in output
  {
    assert Lookup(output, k) == Empty;
  }

  lemma GatheredStep(d: Disk, output: Store, done: set<(string, string)>, k: Key, more: Store)
    requires Gathered(d, output, done) && Addressable(k)
    requires more == Apply(output, Item(k, OnDisk(d, k)))
    ensures Gathered(d, more, done + {(FileOf(k), NameOf(k))})
  {
    forall j: Key
      ensures Lookup(more, j) ==
              if Addressable(j) && (FileOf(j), NameOf(j)) in done + {(FileOf(k), NameOf(k))} then OnDisk(d, j)
              else Empty
    {
      assert Lookup(output, j) == if Addressable(j) && (FileOf(j), NameOf(j)) in done then OnDisk(d, j) else Empty;
      if Addressable(j) && FileOf(j) == FileOf(k) && NameOf(j) == NameOf(k) {
        PlacesDistinct(j, k);
      }
    }
  }

  /** `output` holds the non-NULL values at the places in `done`. */
  ghost predicate Gathered(d: Disk, output: Store, done: set<(string, string)>) {
    forall k: Key :: Lookup(output, k) ==
      if Addressable(k) && (FileOf(k), NameOf(k)) in done then OnDisk(d, k) else Empty
  }

  lemma GatheredAll(d: Disk, output: Store, done: set<(string, string)>)
    requires Gathered(d, output, done)
    requires forall p, n :: (p, n) in done <==> p in d && n in d[p]
    ensures Loads(output, d)
  {
  }

  /** `buckets` sorts the items by file, keeping their order. */
  ghost predicate Grouped(buckets: map<string, seq<Item>>, items: seq<Item>) {
    && buckets.Keys == Files(items)
    && forall p | p in buckets :: buckets[p] == ForFile(items, p)
  }

  lemma {:induction false} GroupedWith(buckets: map<string, seq<Item>>, items: seq<Item>, more: seq<Item>,
                                       item: Item, p: string)
    requires Grouped(buckets, items)
    requires Files(more) == Files(items) + {p} && (p !in Files(items) ==> ForFile(items, p) == [])
    requires forall q :: ForFile(more, q) == if p == q then ForFile(items, q) + [item] else ForFile(items, q)
    ensures var with := if p in buckets then buckets else buckets[p := []];
            Grouped(with[p := with[p] + [item]], more)
  {
  }

  lemma GroupedSnoc(buckets: map<string, seq<Item>>, items: seq<Item>, item: Item)
    requires Grouped(buckets, items)
    ensures var p := FileOf(item.key);
            var with := if p in buckets then buckets else buckets[p := []];
            Grouped(with[p := with[p] + [item]], items + [item])
  {
    var p := FileOf(item.key);
    FilesSnoc(items, item);
    ForFileNone(items, p);
    forall q {
      ForFileSnoc(items, item, q);
    }
    GroupedWith(buckets, items, items + [item], item, p);
  }

  /** The files of `buckets` outside `left` have been updated, the other files not. */
  ghost predicate Updated(was: Disk, now: Disk, buckets: map<string, seq<Item>>, left: set<string>) {
    && now.Keys == was.Keys + (buckets.Keys - left)
    && forall p | p in now ::
         now[p] == if p in buckets && p !in left then Fill(FileAt(was, p), buckets[p]) else was[p]
  }

  lemma UpdatedStep(was: Disk, now: Disk, buckets: map<string, seq<Item>>, left: set<string>, path: string)
    requires Updated(was, now, buckets, left) && path in left && left <= buckets.Keys
    ensures FileAt(now, path) == FileAt(was, path)
    ensures Updated(was, now[path := Fill(FileAt(was, path), buckets[path])], buckets, left - {path})
  {
  }

  lemma {:induction false} GroupedIsWriteAll(was: Disk, now: Disk, buckets: map<string, seq<Item>>, items: seq<Item>)
    requires Grouped(buckets, items) && Updated(was, now, buckets, {})
    ensures now == WriteAll(was, items)
  {
    var all := WriteAll(was, items);
    WriteAllKeys(was, items);
    forall p | p in now
      ensures now[p] == all[p]
    {
      WriteAllByFile(was, items, p);
      ForFileNone(items, p);
    }
  }

  lemma {:induction false} ForFileNone(items: seq<Item>, p: string)
    ensures p !in Files(items) ==> ForFile(items, p) == []
  {
    if items != [] {
      var n := |items| - 1;
      assert items == items[..n] + [items[n]];
      FilesSnoc(items[..n], items[n]);
      ForFileNone(items[..n], p);
    }
  }
}
