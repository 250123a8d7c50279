/**
 * The write-through cache against the disk below it, on values. The disk keeps each client's writes
 * and makes them again at that client's next commit, so it can fall behind the cache.
 */
module Coherence {
  import opened ConfigTypes
  import opened Stores
  import opened SizeAgeBoundMaps
  import opened InFlight
  import opened KeyPaths
  import opened YamlStorage

  /** A cache over a disk that remembers what each client wrote. */
  datatype Stack = Stack(cache: Store, disk: Disk, pending: Flight)

  /** A client's commit of `items` that reaches the disk. */
  ghost function AfterWrite(s: Stack, max: nat, c: ClientId, items: seq<Item>): Stack {
    var pending := QueuedAll(s.pending, max, c, items);
    Stack(ApplyAll(s.cache, items), WriteAll(s.disk, Queue(pending, c)), pending)
  }

  /** Reading everything back from disk gives the cache. */
  ghost predicate Coherent(s: Stack) {
    WellPlaced(s.disk) && Loads(s.cache, s.disk)
  }

  ghost predicate PendingAddressable(f: Flight) {
    forall c | c in f.items :: AllAddressable(f.items[c].items)
  }

  /** `stale` still says what the cache holds, as far as `items` does not write it again. */
  ghost predicate StillTrue(cache: Store, stale: seq<Item>, items: seq<Item>) {
    forall k: Key | k in Written(stale) && k !in Written(items) :: LastWrite(stale, k) == Some(Lookup(cache, k))
  }

  lemma {:induction false} ReplayLookup(s: Stack, stale: seq<Item>, items: seq<Item>, k: Key)
    requires Coherent(s) && AllAddressable(stale) && AllAddressable(items)
    ensures WellPlaced(WriteAll(s.disk, stale + items))
    ensures Lookup(ApplyAll(s.cache, items), k) == Final(s.cache, items, k)
    ensures Addressable(k) ==> OnDisk(WriteAll(s.disk, stale + items), k) == Final(s.cache, stale + items, k)
    ensures !Addressable(k) ==> Final(s.cache, items, k) == Empty
  {
    assert AllAddressable(stale + items);
    WriteAllWellPlaced(s.disk, stale + items);
    ApplyAllLookup(s.cache, items, k);
    if Addressable(k) {
      WriteAllOnDisk(s.disk, stale + items, k);
    } else {
      LastWriteOfNone(items, k);
    }
  }

  /** One key after one commit: it agrees exactly when what is written again is true, or overwritten. */
  lemma {:induction false} AgreesIff(s: Stack, stale: seq<Item>, items: seq<Item>, k: Key)
    requires Coherent(s) && AllAddressable(stale) && AllAddressable(items)
    ensures (Lookup(ApplyAll(s.cache, items), k) ==
             if Addressable(k) then OnDisk(WriteAll(s.disk, stale + items), k) else Empty) <==>
            (k in Written(stale) && k !in Written(items) ==> LastWrite(stale, k) == Some(Lookup(s.cache, k)))
  {
    ReplayLookup(s, stale, items, k);
    LastWriteConcat(stale, items, k);
    LastWriteOfNone(stale, k);
    LastWriteOfNone(items, k);
  }

  /**
   * One commit leaves cache and disk coherent exactly when every key the client wrote before, and
   * does not write now, still holds that last write.
   */
  lemma CoherentAfterIff(s: Stack, max: nat, c: ClientId, items: seq<Item>)
    requires Coherent(s) && PendingAddressable(s.pending) && AllAddressable(items)
    ensures Coherent(AfterWrite(s, max, c, items)) <==> StillTrue(s.cache, Queue(s.pending, c), items)
  {
    var stale := Queue(s.pending, c);
    QueuedAllEffect(s.pending, max, c, items);
    ReplayLookup(s, stale, items, [""]);
    var cache, disk := ApplyAll(s.cache, items), WriteAll(s.disk, stale + items);
    forall k: Key
      ensures (Lookup(cache, k) == if Addressable(k) then OnDisk(disk, k) else Empty) <==>
              (k in Written(stale) && k !in Written(items) ==> LastWrite(stale, k) == Some(Lookup(s.cache, k)))
    {
      AgreesIff(s, stale, items, k);
    }
    assert AfterWrite(s, max, c, items).disk == disk && AfterWrite(s, max, c, items).cache == cache;
  }

  /** What a restart right after a commit loads: the client's old writes are back, then its new ones. */
  lemma {:induction false} ReloadAfterWrite(s: Stack, max: nat, c: ClientId, items: seq<Item>)
    requires Coherent(s) && PendingAddressable(s.pending) && AllAddressable(items)
    ensures Loads(ApplyAll(s.cache, Queue(s.pending, c) + items), AfterWrite(s, max, c, items).disk)
  {
    var all := Queue(s.pending, c) + items;
    QueuedAllEffect(s.pending, max, c, items);
    var disk := WriteAll(s.disk, all);
    assert AfterWrite(s, max, c, items).disk == disk;
    assert [] + all == all;
    forall k: Key
      ensures Lookup(ApplyAll(s.cache, all), k) == if Addressable(k) then OnDisk(disk, k) else Empty
    {
      ReplayLookup(s, [], all, k);
    }
  }

  /** Every remembered write is still the value of its key. */
  ghost predicate Fresh(s: Stack) {
    forall c | c in s.pending.items :: StillTrue(s.cache, s.pending.items[c].items, [])
  }

  /** The next commit is coherent, whoever makes it and whatever it writes, exactly from a fresh state. */
  lemma AlwaysCoherentIff(s: Stack, max: nat)
    requires Coherent(s) && PendingAddressable(s.pending)
    ensures Fresh(s) <==>
            forall c, items | AllAddressable(items) :: Coherent(AfterWrite(s, max, c, items))
  {
    if Fresh(s) {
      forall c, items | AllAddressable(items)
        ensures Coherent(AfterWrite(s, max, c, items))
      {
        CoherentAfterIff(s, max, c, items);
        if c in s.pending.items {
          assert StillTrue(s.cache, s.pending.items[c].items, []);
        }
      }
    } else {
      var c :| c in s.pending.items && !StillTrue(s.cache, s.pending.items[c].items, []);
      CoherentAfterIff(s, max, c, []);
      assert !Coherent(AfterWrite(s, max, c, []));
    }
  }

  // ----- Runs -----

  datatype Write = Write(c: ClientId, items: seq<Item>)

  ghost function AfterWrites(s: Stack, max: nat, ws: seq<Write>): Stack {
    if ws == [] then s
    else AfterWrite(AfterWrites(s, max, ws[..|ws| - 1]), max, ws[|ws| - 1].c, ws[|ws| - 1].items)
  }

  /** All the writes of a run, in order. */
  function AllItems(ws: seq<Write>): seq<Item> {
    if ws == [] then [] else AllItems(ws[..|ws| - 1]) + ws[|ws| - 1].items
  }

  /** The cache is last-write-wins over all commits, whatever the disk does. */
  lemma {:induction false} RunIsLastWrite(s: Stack, max: nat, ws: seq<Write>)
    ensures AfterWrites(s, max, ws).cache == ApplyAll(s.cache, AllItems(ws))
  {
    if ws != [] {
      var n := |ws| - 1;
      RunIsLastWrite(s, max, ws[..n]);
      ApplyAllConcat(s.cache, AllItems(ws[..n]), ws[n].items);
    }
  }

  /** The same run over a store that drops a client's bucket when it has written it. */
  ghost function DrainingRun(s: Stack, max: nat, ws: seq<Write>): Stack {
    if ws == [] then s
    else
      var w := ws[|ws| - 1];
      var t := AfterWrite(DrainingRun(s, max, ws[..|ws| - 1]), max, w.c, w.items);
      t.(pending := Erased(t.pending, w.c))
  }

  /** Over such a store cache and disk agree after every run, with any number of writers on a key. */
  lemma {:induction false} DrainingRunCoherent(s: Stack, max: nat, ws: seq<Write>)
    requires Coherent(s) && s.pending == EMPTY_FLIGHT && max >= 1
    requires forall w | w in ws :: AllAddressable(w.items)
    ensures var t := DrainingRun(s, max, ws);
            Coherent(t) && t.pending == EMPTY_FLIGHT && t.cache == ApplyAll(s.cache, AllItems(ws))
  {
    if ws != [] {
      var before, w := ws[..|ws| - 1], ws[|ws| - 1];
      assert w in ws && forall v | v in before :: v in ws;
      DrainingRunCoherent(s, max, before);
      CoherentAfterIff(DrainingRun(s, max, before), max, w.c, w.items);
      OnlyBucketDropped(max, w.c, w.items);
      ApplyAllConcat(s.cache, AllItems(before), w.items);
    }
  }

  /** No key is committed under two client ids. */
  ghost predicate OneWriter(ws: seq<Write>) {
    forall v, w, k | v in ws && w in ws && k in Written(v.items) && k in Written(w.items) :: v.c == w.c
  }

  /** What is remembered for a client was written by that client. */
  ghost predicate Owned(f: Flight, ws: seq<Write>) {
    forall c, k | c in f.items && k in Written(f.items[c].items) ::
      exists w :: w in ws && w.c == c && k in Written(w.items)
  }

  /**
   * One writer per key makes the undrained buckets harmless: over every run, with buckets aged out
   * at any point, the disk reads back as the cache.
   */
  lemma {:induction false} OneWriterCoherent(s: Stack, max: nat, ws: seq<Write>)
    requires Coherent(s) && s.pending == EMPTY_FLIGHT
    requires OneWriter(ws) && forall w | w in ws :: AllAddressable(w.items)
    ensures var t := AfterWrites(s, max, ws);
            Coherent(t) && Fresh(t) && PendingAddressable(t.pending) && Owned(t.pending, ws)
  {
    if ws != [] {
      var before, w := ws[..|ws| - 1], ws[|ws| - 1];
      assert forall v | v in before :: v in ws;
      OneWriterCoherent(s, max, before);
      var t := AfterWrites(s, max, before);
      assert w in ws && ws == before + [w];
      StepCoherent(t, max, w);
      StepOwned(t, max, before, w, ws);
      StepFresh(t, max, before, w);
    }
  }

  lemma StepCoherent(t: Stack, max: nat, w: Write)
    requires Coherent(t) && Fresh(t) && PendingAddressable(t.pending) && AllAddressable(w.items)
    ensures Coherent(AfterWrite(t, max, w.c, w.items))
  {
    CoherentAfterIff(t, max, w.c, w.items);
    if w.c in t.pending.items {
      assert StillTrue(t.cache, t.pending.items[w.c].items, []);
    }
  }

  lemma StepAddressable(t: Stack, max: nat, w: Write)
    requires PendingAddressable(t.pending) && AllAddressable(w.items)
    ensures PendingAddressable(AfterWrite(t, max, w.c, w.items).pending)
  {
    QueuedAllEffect(t.pending, max, w.c, w.items);
  }

  lemma WrittenConcat(a: seq<Item>, b: seq<Item>)
    ensures Written(a + b) == Written(a) + Written(b)
  {
  }

  lemma StepOwned(t: Stack, max: nat, before: seq<Write>, w: Write, ws: seq<Write>)
    requires ws == before + [w]
    requires Owned(t.pending, before) && PendingAddressable(t.pending) && AllAddressable(w.items)
    ensures Owned(AfterWrite(t, max, w.c, w.items).pending, ws)
    ensures PendingAddressable(AfterWrite(t, max, w.c, w.items).pending)
  {
    var f := AfterWrite(t, max, w.c, w.items).pending;
    QueuedAllEffect(t.pending, max, w.c, w.items);
    WrittenConcat(Queue(t.pending, w.c), w.items);
    forall c, k | c in f.items && k in Written(f.items[c].items)
      ensures exists v :: v in ws && v.c == c && k in Written(v.items)
    {
      if c == w.c && k in Written(w.items) {
        assert w in ws;
      } else {
        var v :| v in before && v.c == c && k in Written(v.items);
        assert v in ws;
      }
    }
  }

  lemma NotWrittenByOther(t: Stack, before: seq<Write>, w: Write, c: ClientId, k: Key)
    requires Owned(t.pending, before) && OneWriter(before + [w])
    requires c != w.c && c in t.pending.items && k in Written(t.pending.items[c].items)
    ensures k !in Written(w.items)
  {
    var v :| v in before && v.c == c && k in Written(v.items);
    assert v in before + [w] && w in before + [w];
  }

  /** No other client whose bucket is left after it last wrote something else to a key of this commit. */
  ghost predicate Agrees(f: Flight, c: ClientId, items: seq<Item>) {
    forall d, k | d in f.items && d != c && k in Written(f.items[d].items) && k in Written(items) ::
      LastWrite(f.items[d].items, k) == LastWrite(items, k)
  }

  lemma FreshKey(t: Stack, max: nat, c: ClientId, items: seq<Item>, d: ClientId, k: Key)
    requires Fresh(t)
    ensures var u := AfterWrite(t, max, c, items);
            d in u.pending.items && k in Written(u.pending.items[d].items) ==>
              (LastWrite(u.pending.items[d].items, k) == Some(Lookup(u.cache, k)) <==>
               (d != c && k in Written(items) ==> LastWrite(u.pending.items[d].items, k) == LastWrite(items, k)))
  {
    QueuedAllEffect(t.pending, max, c, items);
    ApplyAllLookup(t.cache, items, k);
    LastWriteOfNone(items, k);
    WrittenConcat(Queue(t.pending, c), items);
    LastWriteConcat(Queue(t.pending, c), items, k);
    if d in t.pending.items {
      assert StillTrue(t.cache, t.pending.items[d].items, []);
    }
  }

  /** A commit leaves every remembered write true exactly if it agrees with the other clients' last writes. */
  lemma StepFreshIff(t: Stack, max: nat, c: ClientId, items: seq<Item>)
    requires Fresh(t)
    ensures var u := AfterWrite(t, max, c, items);
            Fresh(u) <==> Agrees(u.pending, c, items)
  {
    var u := AfterWrite(t, max, c, items);
    forall d, k: Key | d in u.pending.items && k in Written(u.pending.items[d].items)
      ensures LastWrite(u.pending.items[d].items, k) == Some(Lookup(u.cache, k)) <==>
              (d != c && k in Written(items) ==> LastWrite(u.pending.items[d].items, k) == LastWrite(items, k))
    {
      FreshKey(t, max, c, items, d, k);
    }
  }

  lemma StepAgrees(t: Stack, max: nat, before: seq<Write>, w: Write)
    requires Owned(t.pending, before) && OneWriter(before + [w])
    ensures Agrees(AfterWrite(t, max, w.c, w.items).pending, w.c, w.items)
  {
    QueuedAllEffect(t.pending, max, w.c, w.items);
    var u := AfterWrite(t, max, w.c, w.items);
    forall d, k | d in u.pending.items && d != w.c && k in Written(u.pending.items[d].items)
      ensures k !in Written(w.items)
    {
      NotWrittenByOther(t, before, w, d, k);
    }
  }

  lemma StepFresh(t: Stack, max: nat, before: seq<Write>, w: Write)
    requires Fresh(t) && Owned(t.pending, before) && OneWriter(before + [w])
    ensures Fresh(AfterWrite(t, max, w.c, w.items))
  {
    StepAgrees(t, max, before, w);
    StepFreshIff(t, max, w.c, w.items);
  }

  /** A client of which the disk remembers nothing, while there is room to remember one more. */
  lemma NewcomerWrites(s: Stack, max: nat, c: ClientId, items: seq<Item>)
    requires Coherent(s) && PendingAddressable(s.pending) && WellAged(s.pending, max) && |s.pending.order| < max
    requires c !in s.pending.items && AllAddressable(items) && items != []
    ensures var t := AfterWrite(s, max, c, items);
            && Coherent(t) && PendingAddressable(t.pending) && WellAged(t.pending, max)
            && |t.pending.order| <= |s.pending.order| + 1
            && t.pending.items.Keys == s.pending.items.Keys + {c} && Queue(t.pending, c) == items
            && forall d | d in s.pending.items :: Queue(t.pending, d) == Queue(s.pending, d)
  {
    CoherentAfterIff(s, max, c, items);
    QueuedAllEffect(s.pending, max, c, items);
    QueuedAllKeeps(s.pending, max, c, items);
    QueuedAllWellAged(s.pending, max, c, items);
    assert [] + items == items;
  }

  /** Two newcomers, one after the other. */
  lemma TwoWriters(s: Stack, max: nat, c: ClientId, one: seq<Item>, d: ClientId, two: seq<Item>, k: Key)
    requires Coherent(s) && s.pending == EMPTY_FLIGHT && max >= 2 && c != d
    requires AllAddressable(one) && AllAddressable(two) && one != [] && LastWrite(two, k).Some?
    ensures var t := AfterWrite(AfterWrite(s, max, c, one), max, d, two);
            && Coherent(t) && PendingAddressable(t.pending) && Queue(t.pending, c) == one
            && Some(Lookup(t.cache, k)) == LastWrite(two, k)
  {
    var r := AfterWrite(s, max, c, one);
    NewcomerWrites(s, max, c, one);
    assert two != [];
    NewcomerWrites(r, max, d, two);
    ApplyAllLookup(r.cache, two, k);
  }

  /** A commit that makes an outdated write again. */
  lemma {:induction false} OutdatedWriteReturns(t: Stack, max: nat, c: ClientId, other: seq<Item>, k: Key)
    requires Coherent(t) && PendingAddressable(t.pending) && AllAddressable(other) && Addressable(k)
    requires LastWrite(Queue(t.pending, c), k).Some? && LastWrite(Queue(t.pending, c), k) != Some(Lookup(t.cache, k))
    requires k !in Written(other)
    ensures var u := AfterWrite(t, max, c, other);
            && !Coherent(u) && WellPlaced(u.disk) && Lookup(u.cache, k) == Lookup(t.cache, k)
            && Some(OnDisk(u.disk, k)) == LastWrite(Queue(t.pending, c), k)
            && Loads(ApplyAll(t.cache, Queue(t.pending, c) + other), u.disk)
  {
    var stale := Queue(t.pending, c);
    CoherentAfterIff(t, max, c, other);
    LastWriteOfNone(stale, k);
    LastWriteOfNone(other, k);
    QueuedAllEffect(t.pending, max, c, other);
    ReplayLookup(t, stale, other, k);
    LastWriteConcat(stale, other, k);
    ReloadAfterWrite(t, max, c, other);
  }

  /**
   * Two writers on one key are enough to leave the disk behind: when one client commits a key, another
   * gives it a new value and the first then commits without writing it, the disk has the first value
   * again, and so will the next start.
   */
  lemma {:induction false} TwoWritersDiverge(s: Stack, max: nat, c: ClientId, one: seq<Item>,
                                             d: ClientId, two: seq<Item>, other: seq<Item>, k: Key)
    requires Coherent(s) && s.pending == EMPTY_FLIGHT && max >= 2 && c != d
    requires AllAddressable(one) && AllAddressable(two) && AllAddressable(other) && Addressable(k)
    requires LastWrite(one, k).Some? && LastWrite(two, k).Some? && LastWrite(one, k) != LastWrite(two, k)
    requires k !in Written(other)
    ensures var t := AfterWrite(AfterWrite(s, max, c, one), max, d, two);
            var u := AfterWrite(t, max, c, other);
            && Coherent(t) && !Coherent(u) && WellPlaced(u.disk)
            && Some(Lookup(u.cache, k)) == LastWrite(two, k) && Some(OnDisk(u.disk, k)) == LastWrite(one, k)
            && Loads(ApplyAll(t.cache, one + other), u.disk)
  {
    assert one != [];
    TwoWriters(s, max, c, one, d, two, k);
    OutdatedWriteReturns(AfterWrite(AfterWrite(s, max, c, one), max, d, two), max, c, other, k);
  }
}
