/** What a rollback does to the store, and when it is an inverse (src/TransactionManager.cpp:223-289). */
module RollingBack {
  import opened ConfigTypes
  import opened Stores
  import opened InFlight
  import opened History
  import opened ConfigSystem
  import opened Telescoping

  /** Whether the old value of a delta gets queued: it is refused when its type is not the stored one. */
  predicate Restores(store: Store, d: Delta) {
    d.before.Empty? || TypeCheck(store, Item(d.key, d.before))
  }

  /** The writes a rollback queues. */
  function Writes(store: Store, deltas: seq<Delta>): seq<Item> {
    if deltas == [] then []
    else
      var d := deltas[|deltas| - 1];
      Writes(store, deltas[..|deltas| - 1]) + if Restores(store, d) then [Item(d.key, d.before)] else []
  }

  lemma {:induction false} QueuedBackWrites(s: Sys, deltas: seq<Delta>)
    requires !Locked(s.flight, TRANSACTION_HISTORY_ID)
    ensures var f := QueuedBack(s, deltas).flight;
            && !Locked(f, TRANSACTION_HISTORY_ID)
            && Queue(f, TRANSACTION_HISTORY_ID) == Queue(s.flight, TRANSACTION_HISTORY_ID) + Writes(s.store, deltas)
            && (TRANSACTION_HISTORY_ID in f.items <==>
                  TRANSACTION_HISTORY_ID in s.flight.items || Writes(s.store, deltas) != [])
  {
    if deltas != [] {
      var d, before := deltas[|deltas| - 1], deltas[..|deltas| - 1];
      QueuedBackWrites(s, before);
      QueuedBackQuiet(s, before);
      var t := QueuedBack(s, before);
      var item := Item(d.key, d.before);
      QueuedEffect(t.flight, t.maxClients, TRANSACTION_HISTORY_ID, item);
      QueuedOne(t.flight, t.maxClients, TRANSACTION_HISTORY_ID, item);
      var q, w := Queue(s.flight, TRANSACTION_HISTORY_ID), Writes(s.store, before);
      assert q + w + [item] == q + (w + [item]);
    }
  }

  lemma {:induction false} WritesLast(store: Store, deltas: seq<Delta>, k: Key)
    requires forall i, j | 0 <= i < j < |deltas| :: deltas[i].key != deltas[j].key
    ensures LastWrite(Writes(store, deltas), k) ==
            match DeltaOn(deltas, k)
            case None => None
            case Some(d) => if Restores(store, d) then Some(d.before) else None
  {
    if deltas != [] {
      var d, before := deltas[|deltas| - 1], deltas[..|deltas| - 1];
      WritesLast(store, before, k);
      DeltaOnSound(before, k);
      LastWriteConcat(Writes(store, before), if Restores(store, d) then [Item(d.key, d.before)] else [], k);
    }
  }

  lemma CommitOf(cs: seq<Commit>, id: CommitId) returns (i: nat)
    requires IsChain(cs) && MayRollback(cs, id)
    ensures i < |cs| && cs[i].id == id && Untouched(cs, i)
    ensures LastWithId(cs, id) == Some(cs[i])
  {
    i :| 0 <= i < |cs| && cs[i].id == id && Untouched(cs, i);
    FindById(cs, cs, i);
  }

  /** The store after a rollback that CanRollback lets through, unless its bucket is locked. */
  ghost function RolledBack(s: Sys, deltas: seq<Delta>, k: Key): Value {
    var d := DeltaOn(deltas, k);
    if d.Some? && Restores(s.store, d.value) then d.value.before
    else Final(s.store, Queue(s.flight, TRANSACTION_HISTORY_ID), k)
  }

  lemma {:induction false} RollbackStores(s: Sys, id: CommitId, changed: seq<Item>, k: Key)
    requires Inv(false, s) && MayRollback(s.log.commits, id) && Possible(s, RollbackOp(id, changed))
    requires !Locked(s.flight, TRANSACTION_HISTORY_ID) && !InLast(k)
    ensures LastWithId(s.log.commits, id).Some?
    ensures Lookup(AfterRollback(s, id, changed).store, k) ==
            RolledBack(s, LastWithId(s.log.commits, id).value.deltas, k)
  {
    var i := CommitOf(s.log.commits, id);
    var deltas := s.log.commits[i].deltas;
    assert Tidy(s.log.commits[i]);
    QueuedBackQuiet(s, deltas);
    QueuedBackWrites(s, deltas);
    WritesLast(s.store, deltas, k);
    var before, writes := Queue(s.flight, TRANSACTION_HISTORY_ID), Writes(s.store, deltas);
    LastWriteConcat(before, writes, k);
    CommittedFinal(s.store, before + writes, k);
  }

  /** What is written back. */
  lemma RestoresIff(store: Store, d: Delta)
    ensures Restores(store, d) <==>
            d.before == Empty || d.key !in store || SameType(Of(store[d.key]), d.before)
  {
  }

  /**
   * A rollback, key by key: a key the commit touched gets its old value back exactly when that value was
   * none, or nothing is stored now, or what is has its type; any other key outside last.* changes only by
   * what was queued under the rollback's client id beforehand (nothing, when no bucket was there).
   */
  lemma {:induction false} RollbackExact(s: Sys, id: CommitId, changed: seq<Item>, k: Key)
    requires Inv(false, s) && MayRollback(s.log.commits, id) && Possible(s, RollbackOp(id, changed))
    requires 5 in s.flight.items ==> !s.flight.items[5].locked
    requires |k| < 2 || k[0] != "last"
    ensures LastWithId(s.log.commits, id).Some?
    ensures var deltas := LastWithId(s.log.commits, id).value.deltas;
            var queued := if 5 in s.flight.items then s.flight.items[5].items else [];
            var now := Lookup(AfterRollback(s, id, changed).store, k);
            && (forall d | d in deltas && d.key == k ::
                  now == if d.before == Empty || k !in s.store || SameType(Of(s.store[k]), d.before) then d.before
                         else Final(s.store, queued, k))
            && ((forall d | d in deltas :: d.key != k) ==> now == Final(s.store, queued, k))
  {
    RollbackStores(s, id, changed, k);
    var i := CommitOf(s.log.commits, id);
    DeltaOnSound(s.log.commits[i].deltas, k);
    assert Tidy(s.log.commits[i]);
    forall d | d in s.log.commits[i].deltas && d.key == k
      ensures DeltaOn(s.log.commits[i].deltas, k) == Some(d)
    {
      DeltaOnTidy(s.log.commits[i], d);
    }
  }

  lemma DeltaOnTidy(c: Commit, d: Delta)
    requires Tidy(c) && d in c.deltas
    ensures DeltaOn(c.deltas, d.key) == Some(d)
  {
    DeltaOnSound(c.deltas, d.key);
  }

  /** Rolling back a key works exactly when the guard of Set lets its old value through. */
  lemma {:induction false} RollbackRestoresIff(s: Sys, id: CommitId, changed: seq<Item>, d: Delta)
    requires Inv(false, s) && MayRollback(s.log.commits, id) && Possible(s, RollbackOp(id, changed))
    requires TRANSACTION_HISTORY_ID !in s.flight.items
    requires LastWithId(s.log.commits, id).Some? && d in LastWithId(s.log.commits, id).value.deltas
    ensures Lookup(AfterRollback(s, id, changed).store, d.key) == d.before <==> Restores(s.store, d)
  {
    var i := CommitOf(s.log.commits, id);
    assert Tidy(s.log.commits[i]);
    RollbackStores(s, id, changed, d.key);
    DeltaOnTidy(s.log.commits[i], d);
    assert Final(s.store, [], d.key) == Lookup(s.store, d.key);
  }

  lemma {:induction false} TrailNone(cs: seq<Commit>, k: Key)
    requires forall c | c in cs :: !Touches(c, k)
    ensures Trail(cs, k) == []
  {
    if cs != [] {
      TrailNone(cs[..|cs| - 1], k);
      DeltaOnSound(cs[|cs| - 1].deltas, k);
      assert cs[|cs| - 1] in cs;
    }
  }

  lemma LastTouch(cs: seq<Commit>, i: nat, d: Delta)
    requires i < |cs| && Untouched(cs, i) && Tidy(cs[i]) && d in cs[i].deltas
    ensures Trail(cs, d.key) != [] && Trail(cs, d.key)[|Trail(cs, d.key)| - 1].delta == d
  {
    var older, later := cs[..i + 1], cs[i + 1..];
    assert cs == older + later;
    TrailConcat(older, later, d.key);
    forall c | c in later
      ensures !Touches(c, d.key)
    {
      var j :| 0 <= j < |later| && later[j] == c;
      assert cs[i + 1 + j] == c;
    }
    TrailNone(later, d.key);
    assert older[i] == cs[i];
    DeltaOnTidy(cs[i], d);
  }

  /** What is stored now under a key of a commit nothing later touched. */
  lemma {:induction false} StoredNow(cs: seq<Commit>, store: Store, i: nat, d: Delta)
    requires Telescopes(false, cs, store)
    requires i < |cs| && Tidy(cs[i]) && Untouched(cs, i) && d in cs[i].deltas
    ensures Follows(false, d.after, Lookup(store, d.key))
  {
    LastTouch(cs, i, d);
    assert Linked(false, Trail(cs, d.key), Lookup(store, d.key));
  }

  /**
   * Rollback is an inverse: when each delta's old and new value have one type or one of them is
   * empty, every key of the commit holds its value from before the commit, and every other key
   * outside last.* is as it was.
   */
  lemma {:induction false} RollbackInverts(s: Sys, id: CommitId, changed: seq<Item>, k: Key)
    requires Inv(false, s) && MayRollback(s.log.commits, id) && Possible(s, RollbackOp(id, changed))
    requires TRANSACTION_HISTORY_ID !in s.flight.items && !InLast(k)
    requires LastWithId(s.log.commits, id).Some?
    requires forall d | d in LastWithId(s.log.commits, id).value.deltas ::
               d.before.Empty? || d.after.Empty? || SameType(d.before, d.after)
    ensures Lookup(AfterRollback(s, id, changed).store, k) ==
            match DeltaOn(LastWithId(s.log.commits, id).value.deltas, k)
            case None => Lookup(s.store, k)
            case Some(d) => d.before
  {
    var i := CommitOf(s.log.commits, id);
    RollbackStores(s, id, changed, k);
    DeltaOnSound(s.log.commits[i].deltas, k);
    if DeltaOn(s.log.commits[i].deltas, k).Some? {
      StoredNow(s.log.commits, s.store, i, DeltaOn(s.log.commits[i].deltas, k).value);
    }
  }

  /** While an earlier rollback's hooks still run, a rollback reports success and does nothing. */
  lemma {:induction false} LockedQueuedBack(s: Sys, deltas: seq<Delta>)
    requires Locked(s.flight, TRANSACTION_HISTORY_ID)
    ensures Locked(QueuedBack(s, deltas).flight, TRANSACTION_HISTORY_ID)
  {
    if deltas != [] {
      var d := deltas[|deltas| - 1];
      LockedQueuedBack(s, deltas[..|deltas| - 1]);
      var t := QueuedBack(s, deltas[..|deltas| - 1]);
      QueuedOne(t.flight, t.maxClients, TRANSACTION_HISTORY_ID, Item(d.key, Empty));
    }
  }

  lemma LockedRollback(s: Sys, id: CommitId, changed: seq<Item>)
    requires Locked(s.flight, TRANSACTION_HISTORY_ID)
    ensures Quiet(s, AfterRollback(s, id, changed))
  {
    if LastWithId(s.log.commits, id).Some? {
      QueuedBackQuiet(s, LastWithId(s.log.commits, id).value.deltas);
      LockedQueuedBack(s, LastWithId(s.log.commits, id).value.deltas);
    }
  }

  /** If the rollback logged anything, rolling the same commit back again fails; otherwise it does not. */
  lemma {:induction false} SecondRollback(s: Sys, id: CommitId, changed: seq<Item>)
    requires Inv(false, s) && MayRollback(s.log.commits, id) && Possible(s, RollbackOp(id, changed))
    requires TRANSACTION_HISTORY_ID !in s.flight.items
    ensures var t := AfterRollback(s, id, changed);
            MayRollback(t.log.commits, id) <==> t.log == s.log
  {
    var t := AfterRollback(s, id, changed);
    if t.log != s.log {
      var i := CommitOf(s.log.commits, id);
      var deltas := s.log.commits[i].deltas;
      QueuedBackQuiet(s, deltas);
      QueuedBackWrites(s, deltas);
      assert [] + Writes(s.store, deltas) == Writes(s.store, deltas);
      var k := changed[0].key;
      assert changed[0] in changed;
      WrittenByRollback(s.store, deltas, k);
      LaterTouch(s.log, s.maxCommits, i, Deltas(s.store, changed), k);
    }
  }

  lemma {:induction false} WrittenByRollback(store: Store, deltas: seq<Delta>, k: Key)
    requires k in Written(Writes(store, deltas))
    ensures exists d | d in deltas :: d.key == k
  {
    var n := |deltas| - 1;
    if deltas[n].key != k {
      assert k in Written(Writes(store, deltas[..n]));
      WrittenByRollback(store, deltas[..n], k);
      var d :| d in deltas[..n] && d.key == k;
      assert d in deltas;
    }
  }

  /** A retained commit with an old id is the commit it was. */
  lemma SameCommit(log: Log, max: nat, deltas: seq<Delta>, i: nat, j: nat)
    requires Sound(log) && i < |log.commits|
    requires j < |Logged(log, max, deltas).commits| && Logged(log, max, deltas).commits[j].id == log.commits[i].id
    ensures Logged(log, max, deltas).commits[j] == log.commits[i]
    ensures j < |Logged(log, max, deltas).commits| - 1
  {
    var all := log.commits + [NextCommit(log, deltas)];
    assert log.commits[i] in log.commits;
    var p := j + |all| - |Logged(log, max, deltas).commits|;
    assert Logged(log, max, deltas).commits[j] == all[p];
    assert p < |log.commits| && all[p] == log.commits[p];
  }

  lemma LaterTouch(log: Log, max: nat, i: nat, deltas: seq<Delta>, k: Key)
    requires Sound(log) && max >= 1 && i < |log.commits| && deltas != [] && deltas[0].key == k
    requires exists d | d in log.commits[i].deltas :: d.key == k
    ensures !MayRollback(Logged(log, max, deltas).commits, log.commits[i].id)
  {
    var after := Logged(log, max, deltas).commits;
    var last := |after| - 1;
    assert after[last] == NextCommit(log, deltas) && deltas[0] in after[last].deltas;
    var d :| d in log.commits[i].deltas && d.key == k;
    assert Touches(after[last], d.key);
    forall j | 0 <= j < |after| && after[j].id == log.commits[i].id
      ensures !Untouched(after, j)
    {
      SameCommit(log, max, deltas, i, j);
    }
  }
}
