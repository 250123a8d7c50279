/**
 * The configurator as a state machine on values: what each operation of src/Configurator.cpp and
 * src/TransactionManager.cpp does to the store, the commit history and the queued writes. The order
 * in which a hash map is walked is an argument of the step (`changed`, `subkeys`).
 */
module ConfigSystem {
  import opened Arithmetic
  import opened ConfigTypes
  import opened Stores
  import opened Sequences
  import opened SizeAgeBoundMaps
  import opened InFlight
  import opened History

  datatype Log = Log(commits: seq<Commit>, highest: CommitId)

  datatype Sys = Sys(store: Store, log: Log, flight: Flight, maxCommits: nat, maxClients: nat)

  datatype SetStatus = SUCCESS | TYPE_MISMATCH | LOCKED_QUEUE | SUCCESS_NEW_KEY

  /** The client id that rollbacks queue their writes under. */
  const TRANSACTION_HISTORY_ID: ClientId := 5

  // ----- The history -----

  function Newest(cs: seq<Commit>, max: nat): seq<Commit> {
    if |cs| > max then cs[|cs| - max..] else cs
  }

  function NextCommit(log: Log, deltas: seq<Delta>): Commit {
    Commit(log.highest + 1, if log.commits == [] then 0 else log.commits[|log.commits| - 1].id, deltas)
  }

  function Logged(log: Log, max: nat, deltas: seq<Delta>): Log {
    var c := NextCommit(log, deltas);
    Log(Newest(log.commits + [c], max), Max(Max(log.highest, c.id), c.parent))
  }

  /** A history that a restart would read back unchanged. */
  ghost predicate Sound(log: Log) {
    IsChain(log.commits) && HighestOf(log.highest, log.commits)
  }

  ghost predicate Increasing(cs: seq<Commit>) {
    && (cs != [] ==> cs[0].parent < cs[0].id)
    && (forall i, j | 0 <= i && j == i + 1 && j < |cs| :: cs[i].id < cs[j].id)
  }

  lemma {:induction false} IncreasingPairs(cs: seq<Commit>, i: nat, j: nat)
    requires Increasing(cs) && i < j < |cs|
    ensures cs[i].id < cs[j].id
  {
    if i + 1 < j {
      IncreasingPairs(cs, i, j - 1);
    }
  }

  /** What logging relies on: a chain, and no id or parent above the highest id. */
  ghost predicate Bounded(log: Log) {
    IsChain(log.commits) && forall c | c in log.commits :: c.id <= log.highest && c.parent <= log.highest
  }

  lemma AppendedChain(log: Log, deltas: seq<Delta>)
    requires Bounded(log)
    ensures IsChain(log.commits + [NextCommit(log, deltas)])
    ensures NextCommit(log, deltas).parent <= log.highest
  {
    var c := NextCommit(log, deltas);
    assert forall i | 0 <= i < |log.commits| :: log.commits[i] in log.commits && log.commits[i].id < c.id;
    assert log.commits != [] ==> log.commits[0] in log.commits && log.commits[0].parent < c.id;
    assert log.commits != [] ==> log.commits[|log.commits| - 1] in log.commits;
  }

  lemma NewestChain(cs: seq<Commit>, max: nat)
    requires IsChain(cs)
    ensures IsChain(Newest(cs, max))
  {
    var n := |cs| - max;
    if |cs| > max && max > 0 {
      assert cs[n].parent == cs[n - 1].id;
    }
  }

  lemma KeptHighest(log: Log, max: nat, c: Commit)
    requires HighestOf(log.highest, log.commits) && max >= 1
    requires c.id == log.highest + 1 && c.parent <= c.id
    ensures HighestOf(c.id, Newest(log.commits + [c], max))
    ensures |Newest(log.commits + [c], max)| <= max
  {
    var kept := Newest(log.commits + [c], max);
    assert kept[|kept| - 1] == c;
    forall d | d in kept
      ensures d.id <= c.id && d.parent <= c.id
    {
      assert d in log.commits + [c];
    }
  }

  /** Logging keeps the history sound and within its bound, and uses up one id. */
  lemma LoggedSound(log: Log, max: nat, deltas: seq<Delta>)
    requires Sound(log) && max >= 1
    ensures Sound(Logged(log, max, deltas))
    ensures Logged(log, max, deltas).highest == log.highest + 1
    ensures |Logged(log, max, deltas).commits| <= max
  {
    var c := NextCommit(log, deltas);
    AppendedChain(log, deltas);
    NewestChain(log.commits + [c], max);
    KeptHighest(log, max, c);
  }

  /** Whatever was saved, a start that sorts it leaves a history that can be logged to. */
  lemma LineageBounded(cs: seq<Commit>, r: seq<Commit>, highest: CommitId)
    requires Lineage(cs, r) && HighestOf(highest, cs)
    ensures Bounded(Log(r, highest))
  {
    LineageIsChain(cs, r);
  }

  lemma NewestBounded(log: Log, max: nat)
    requires Bounded(log)
    ensures Bounded(Log(Newest(log.commits, max), log.highest))
  {
    NewestChain(log.commits, max);
    assert forall c | c in Newest(log.commits, max) :: c in log.commits;
  }

  /**
   * What logging leaves: the new commit at the end, one above the highest id and with the newest one as
   * its parent, and before it as many of the newest commits as there is room for.
   */
  lemma LoggedIs(log: Log, max: nat, deltas: seq<Delta>)
    requires max >= 1
    ensures var was, now := log.commits, Logged(log, max, deltas).commits;
            var n := |now| - 1;
            && |now| == (if |was| < max then |was| + 1 else max)
            && now[n] == Commit(log.highest + 1, if was == [] then 0 else was[|was| - 1].id, deltas)
            && now[..n] == was[|was| - n..]
  {
  }

  /** And logging to it keeps it so. */
  lemma LoggedBounded(log: Log, max: nat, deltas: seq<Delta>)
    requires Bounded(log)
    ensures Bounded(Logged(log, max, deltas)) && Logged(log, max, deltas).highest == log.highest + 1
  {
    AppendedChain(log, deltas);
    NewestBounded(Log(log.commits + [NextCommit(log, deltas)], log.highest + 1), max);
  }

  lemma LoggedIncreasing(log: Log, max: nat, deltas: seq<Delta>)
    requires Sound(log) && Increasing(log.commits)
    ensures Increasing(Logged(log, max, deltas).commits)
  {
    var all := log.commits + [NextCommit(log, deltas)];
    AppendedChain(log, deltas);
    assert log.commits != [] ==> log.commits[|log.commits| - 1] in log.commits;
    assert Increasing(all);
    if |all| > max && max > 0 {
      var n := |all| - max;
      assert all[n].parent == all[n - 1].id && all[n - 1].id < all[n].id;
    }
  }

  // ----- Set, Erase, Drop -----

  predicate TypeCheck(store: Store, item: Item) {
    item.key !in store || SameType(Of(store[item.key]), item.value)
  }

  predicate Queueable(s: Sys, item: Item, c: ClientId) {
    TypeCheck(s.store, item) && !Locked(s.flight, c)
  }

  function SetOutcome(s: Sys, item: Item, c: ClientId): SetStatus {
    if !TypeCheck(s.store, item) then TYPE_MISMATCH
    else if Locked(s.flight, c) then LOCKED_QUEUE
    else if item.key in s.store then SUCCESS
    else SUCCESS_NEW_KEY
  }

  ghost function AfterSet(s: Sys, item: Item, c: ClientId): Sys {
    if Queueable(s, item, c) then s.(flight := Queued(s.flight, s.maxClients, c, item)) else s
  }

  /** `subkeys` is a listing of the stored keys that match a wildcard. */
  ghost predicate Lists(subkeys: seq<Key>, store: Store, pattern: Pattern) {
    NoDup(subkeys) && forall k: Key :: k in subkeys <==> k in store && Matches(k, pattern)
  }

  ghost function AfterErase(s: Sys, pattern: Pattern, c: ClientId, subkeys: seq<Key>): Sys {
    s.(flight := QueuedAll(s.flight, s.maxClients, c, Erasure(pattern, subkeys)))
  }

  ghost function AfterDrop(s: Sys, c: ClientId): Sys {
    s.(flight := Erased(s.flight, c))
  }

  /**
   * The answer of Set and what it queues: a stored key keeps its type, a locked bucket takes nothing, and
   * otherwise the write comes last in the client's bucket and no other bucket changes, or is aged out.
   */
  lemma SetIs(s: Sys, item: Item, c: ClientId)
    ensures var r, stored := SetOutcome(s, item, c), item.key in s.store;
            var typed := stored ==> SameType(Of(s.store[item.key]), item.value);
            var locked := c in s.flight.items && s.flight.items[c].locked;
            && (r == TYPE_MISMATCH <==> !typed)
            && (r == LOCKED_QUEUE <==> typed && locked)
            && (r == SUCCESS <==> typed && !locked && stored)
            && (r == SUCCESS_NEW_KEY <==> typed && !locked && !stored)
    ensures var r, t := SetOutcome(s, item, c), AfterSet(s, item, c);
            if r == TYPE_MISMATCH || r == LOCKED_QUEUE then t == s
            else
              && t == s.(flight := t.flight) && c in t.flight.items
              && t.flight.items[c] ==
                 Bucket(false, (if c in s.flight.items then s.flight.items[c].items else []) + [item])
              && forall d | d in t.flight.items && d != c ::
                   d in s.flight.items && t.flight.items[d] == s.flight.items[d]
  {
    QueuedEffect(s.flight, s.maxClients, c, item);
  }

  /** What an erasure queues: for a key itself, and for a wildcard the listed keys outside last.* and default.*. */
  lemma EraseIs(s: Sys, pattern: Pattern, c: ClientId, subkeys: seq<Key>)
    ensures var t := AfterErase(s, pattern, c, subkeys);
            var was := if c in s.flight.items then s.flight.items[c] else Bucket(false, []);
            var now := if c in t.flight.items then t.flight.items[c] else Bucket(false, []);
            && t == s.(flight := t.flight)
            && now.locked == was.locked && was.items <= now.items
            && (forall d | d in t.flight.items && d != c ::
                  d in s.flight.items && t.flight.items[d] == s.flight.items[d])
            && forall item :: item in now.items[|was.items|..] <==>
                 && item.value == Empty
                 && if "*" !in pattern then item.key == pattern
                    else
                      && item.key in subkeys
                      && (|item.key| < 2 || (item.key[0] != "last" && item.key[0] != "default"))
  {
    QueuedAllEffect(s.flight, s.maxClients, c, Erasure(pattern, subkeys));
    forall item
      ensures item in Blanks(subkeys) <==>
              && item.value.Empty? && item.key in subkeys
              && (|item.key| < 2 || (item.key[0] != "last" && item.key[0] != "default"))
    {
      BlanksOnly(subkeys, item);
    }
  }

  /** Dropping takes the bucket away and no other. */
  lemma DropIs(s: Sys, c: ClientId)
    requires WellAged(s.flight, s.maxClients)
    ensures var t := AfterDrop(s, c);
            && t == s.(flight := t.flight) && t.flight.items == s.flight.items - {c}
            && WellAged(t.flight, t.maxClients)
  {
    ErasedWellAged(s.flight, s.maxClients, c);
    assert c in s.flight.order ==> c in Elements(s.flight.order);
    assert c in s.flight.items ==> c in Elements(s.flight.order);
  }

  // ----- Commit -----

  /** Whether PruneUnchangedValues keeps the last write to `k`; it looks the key up by its text. */
  predicate Recorded(store: Store, items: seq<Item>, k: Key) {
    var was, now := Lookup(store, Parse(Render(k))), LastWrite(items, k);
    !InLast(k) && now.Some? && (was.Empty? || !ValueEq(was, now.value))
  }

  /** The changes a commit of `items` records: each written key with its last write. */
  function Changed(store: Store, items: seq<Item>): map<Key, Value> {
    map k | k in Written(items) && Recorded(store, items, k) :: LastWrite(items, k).value
  }

  function Deltas(store: Store, changed: seq<Item>): seq<Delta> {
    seq(|changed|, i requires 0 <= i < |changed| =>
      Delta(changed[i].key, Lookup(store, changed[i].key), changed[i].value))
  }

  predicate Shadowed(k: Key) {
    !InLast(k) && !InDefault(k)
  }

  /** The writes of SaveLastItems: `last.k` gets the value stored under `k` now. */
  function Shadows(store: Store, items: seq<Item>): seq<Item> {
    if items == [] then []
    else
      var k := items[|items| - 1].key;
      Shadows(store, items[..|items| - 1]) +
      if Shadowed(k) then [Item(LastKey(k), Lookup(store, k))] else []
  }

  /** A commit goes ahead only for an existing bucket that is not locked. */
  predicate CanCommit(s: Sys, c: ClientId) {
    c in s.flight.items && !Locked(s.flight, c)
  }

  /**
   * The part of Commit that runs before the hooks: the bucket is left behind, locked, until Drop.
   * `changed` is the order the pruned map was walked in.
   */
  ghost function AfterCommit(s: Sys, c: ClientId, changed: seq<Item>): Sys {
    if !CanCommit(s, c) then s
    else
      var items := Queue(s.flight, c);
      var shadows := Shadows(s.store, items);
      s.(store := ApplyAll(s.store, items + shadows),
         log := if changed == [] then s.log else Logged(s.log, s.maxCommits, Deltas(s.store, changed)),
         flight := QueuedAll(LockSet(s.flight, c, true), s.maxClients, c, shadows))
  }

  ghost predicate Walks(s: Sys, c: ClientId, changed: seq<Item>) {
    CanCommit(s, c) ==> Enumerates(changed, Changed(s.store, Queue(s.flight, c)))
  }

  /**
   * What is recorded: outside last.*, every written key whose last write is to an absent key (be it an
   * erasure), or is another value than the stored one, but for an erasure of 0.
   */
  lemma RecordedIff(store: Store, items: seq<Item>, k: Key)
    requires k != [""]
    ensures Recorded(store, items, k) <==>
            && (|k| < 2 || k[0] != "last")
            && LastWrite(items, k).Some?
            && var now := LastWrite(items, k).value;
               k !in store || (now != Of(store[k]) && (now != Empty || store[k] != Int32(0)))
  {
    ParseRender(k);
  }

  /** One commit's deltas: one for each recorded key, with the stored value and the last one queued. */
  lemma {:induction false} CommitRecords(store: Store, items: seq<Item>, changed: seq<Item>, d: Delta)
    requires Enumerates(changed, Changed(store, items)) && d.key != [""]
    ensures d in Deltas(store, changed) <==>
            && Recorded(store, items, d.key)
            && d.before == (if d.key in store then Of(store[d.key]) else Empty)
            && Some(d.after) == LastWrite(items, d.key)
    ensures forall i, j | 0 <= i < j < |changed| :: Deltas(store, changed)[i].key != Deltas(store, changed)[j].key
  {
    LastWriteOfNone(items, d.key);
    var deltas := Deltas(store, changed);
    if d in deltas {
      var i :| 0 <= i < |changed| && deltas[i] == d;
      assert changed[i] in changed;
    }
    if Recorded(store, items, d.key) {
      var item := Item(d.key, Changed(store, items)[d.key]);
      assert item in changed;
      var i :| 0 <= i < |changed| && changed[i] == item;
      assert deltas[i] in deltas;
    }
  }

  lemma LastKeyOnto(j: Key)
    requires InLast(j)
    ensures Parsed(j[1..]) && "*" !in j[1..]
    ensures LastKey(j[1..]) == j
  {
    assert forall p | p in j[1..] :: p in j;
    assert [LAST] + j[1..] == j;
  }

  lemma {:induction false} ShadowsWrite(store: Store, items: seq<Item>, k: Key)
    ensures LastWrite(Shadows(store, items), LastKey(k)) ==
            if k in Written(items) && Shadowed(k) then Some(Lookup(store, k)) else None
  {
    if items != [] {
      var n := |items| - 1;
      var before, last := Shadows(store, items[..n]), items[n].key;
      ShadowsWrite(store, items[..n], k);
      assert items == items[..n] + [items[n]];
      assert Written(items) == Written(items[..n]) + {last};
      var step := if Shadowed(last) then [Item(LastKey(last), Lookup(store, last))] else [];
      LastWriteConcat(before, step, LastKey(k));
      assert LastKey(last)[1..] == last && LastKey(k)[1..] == k;
    }
  }

  lemma {:induction false} ShadowsOnlyLast(store: Store, items: seq<Item>, j: Key)
    requires !InLast(j)
    ensures LastWrite(Shadows(store, items), j) == None
  {
    if items != [] {
      var before := Shadows(store, items[..|items| - 1]);
      ShadowsOnlyLast(store, items[..|items| - 1], j);
      var k := items[|items| - 1].key;
      LastWriteConcat(before, if Shadowed(k) then [Item(LastKey(k), Lookup(store, k))] else [], j);
    }
  }

  /**
   * One commit of an existing unlocked bucket, key by key: a key outside last.* gets its last queued
   * write, or stays; `last.k` gets the value `k` had, for every k written outside last.* and
   * default.*; any other last.* key gets its own queued write, or stays. Neither the history nor the
   * order of the walk nor the hooks have a say in it.
   */
  lemma CommitEffect(s: Sys, c: ClientId, changed: seq<Item>, k: Key)
    requires CanCommit(s, c)
    ensures var items, t := Queue(s.flight, c), AfterCommit(s, c, changed).store;
            && ((|k| < 2 || k[0] != "last") ==>
                  Lookup(t, k) == Final(s.store, items, k))
            && (LastWrite(items, k).Some? && (|k| < 2 || (k[0] != "last" && k[0] != "default")) ==>
                  Lookup(t, ["last"] + k) == Lookup(s.store, k))
            && (|k| >= 2 && k[0] == "last" &&
                (k[1..] !in Written(items) || (|k| >= 3 && (k[1] == "last" || k[1] == "default"))) ==>
                  Lookup(t, k) == Final(s.store, items, k))
  {
    var items := Queue(s.flight, c);
    var shadows := Shadows(s.store, items);
    Namespaces(k);
    ApplyAllLookup(s.store, items + shadows, k);
    LastWriteConcat(items, shadows, k);
    LastWriteOfNone(items, k);
    ShadowsWrite(s.store, items, k);
    ApplyAllLookup(s.store, items + shadows, LastKey(k));
    LastWriteConcat(items, shadows, LastKey(k));
    if InLast(k) {
      LastKeyOnto(k);
      Namespaces(k[1..]);
      ShadowsWrite(s.store, items, k[1..]);
    } else {
      ShadowsOnlyLast(s.store, items, k);
    }
  }
}
