/**
 * The lock of a bucket (src/Configurator.cpp:31-101): a commit sets it, and while it is set nothing is
 * set in the bucket and nothing of it is committed.
 */
module Locking {
  import opened ConfigTypes
  import opened Stores
  import opened SizeAgeBoundMaps
  import opened InFlight
  import opened History
  import opened ConfigSystem
  import opened Telescoping

  /** Commit locks its bucket, adds the last.* writes to it, and leaves every other bucket alone. */
  lemma CommitLocks(s: Sys, c: ClientId, changed: seq<Item>)
    requires c in s.flight.items && !s.flight.items[c].locked
    ensures var f := AfterCommit(s, c, changed).flight;
            && f.order == s.flight.order && f.items.Keys == s.flight.items.Keys
            && f.items[c] == Bucket(true, s.flight.items[c].items + Shadows(s.store, s.flight.items[c].items))
            && forall d | d in s.flight.items && d != c :: f.items[d] == s.flight.items[d]
  {
    var shadows := Shadows(s.store, s.flight.items[c].items);
    QueuedAllEffect(LockSet(s.flight, c, true), s.maxClients, c, shadows);
  }

  /** A client whose bucket is locked can neither set nor commit. */
  lemma LockedOut(s: Sys, c: ClientId)
    requires c in s.flight.items && s.flight.items[c].locked
    ensures forall item :: SetOutcome(s, item, c) in {TYPE_MISMATCH, LOCKED_QUEUE} && AfterSet(s, item, c) == s
    ensures forall changed :: AfterCommit(s, c, changed) == s
  {
  }

  /** So a second commit while the hooks of the first one run does nothing, and neither does Set. */
  lemma {:induction false} CommittedOnce(s: Sys, c: ClientId, changed: seq<Item>)
    requires c in s.flight.items && !s.flight.items[c].locked
    ensures var t := AfterCommit(s, c, changed);
            && (forall item :: SetOutcome(t, item, c) in {TYPE_MISMATCH, LOCKED_QUEUE} && AfterSet(t, item, c) == t)
            && (forall again :: AfterCommit(t, c, again) == t)
  {
    CommitLocks(s, c, changed);
    LockedOut(AfterCommit(s, c, changed), c);
  }

  // ----- Until it is dropped -----

  /** Queueing for a rollback leaves a locked bucket locked, or ages it out. */
  lemma {:induction false} QueuedBackLocks(s: Sys, deltas: seq<Delta>, c: ClientId)
    requires c in s.flight.items && s.flight.items[c].locked
    ensures var f := QueuedBack(s, deltas).flight;
            && (c in f.items ==> f.items[c].locked)
            && (c == TRANSACTION_HISTORY_ID ==> c in f.items)
  {
    if deltas != [] {
      var n := |deltas| - 1;
      var t := QueuedBack(s, deltas[..n]);
      QueuedBackLocks(s, deltas[..n], c);
      QueuedOne(t.flight, t.maxClients, TRANSACTION_HISTORY_ID, Item(deltas[n].key, Empty));
      QueuedEffect(t.flight, t.maxClients, TRANSACTION_HISTORY_ID, Item(deltas[n].key, Empty));
      QueuedEffect(t.flight, t.maxClients, TRANSACTION_HISTORY_ID, Item(deltas[n].key, deltas[n].before));
    }
  }

  /** A commit of another client leaves the bucket locked. */
  lemma CommitKeepsLock(s: Sys, d: ClientId, changed: seq<Item>, c: ClientId)
    requires c in s.flight.items && s.flight.items[c].locked
    ensures c in AfterCommit(s, d, changed).flight.items && AfterCommit(s, d, changed).flight.items[c].locked
  {
    if d in s.flight.items && !s.flight.items[d].locked {
      CommitLocks(s, d, changed);
    }
  }

  /** Whatever happens short of dropping the bucket, it is aged out or stays locked, and nothing of it is committed. */
  lemma {:induction false} LockedStep(s: Sys, op: Op, c: ClientId)
    requires c in s.flight.items && s.flight.items[c].locked && op != DropOp(c)
    ensures c in Next(s, op).flight.items ==> Next(s, op).flight.items[c].locked
    ensures CommittedBy(s, op).Some? ==> CommittedBy(s, op).value.c != c
  {
    match op
    case SetOp(item, d) => QueuedEffect(s.flight, s.maxClients, d, item);
    case EraseOp(pattern, d, subkeys) => QueuedAllEffect(s.flight, s.maxClients, d, Erasure(pattern, subkeys));
    case DropOp(d) =>
    case CommitOp(d, changed) => CommitKeepsLock(s, d, changed, c);
    case RollbackOp(id, changed) =>
      if MayRollback(s.log.commits, id) && LastWithId(s.log.commits, id).Some? {
        var deltas := LastWithId(s.log.commits, id).value.deltas;
        var r := QueuedBack(s, deltas);
        QueuedBackLocks(s, deltas, c);
        RollbackKeepsLock(r, changed, c);
      }
  }

  lemma RollbackKeepsLock(r: Sys, changed: seq<Item>, c: ClientId)
    requires c in r.flight.items ==> r.flight.items[c].locked
    ensures var f := AfterCommit(r, TRANSACTION_HISTORY_ID, changed).flight;
            c in f.items ==> f.items[c].locked
  {
    if c in r.flight.items {
      CommitKeepsLock(r, TRANSACTION_HISTORY_ID, changed, c);
    } else {
      var shadows := Shadows(r.store, Queue(r.flight, TRANSACTION_HISTORY_ID));
      QueuedAllEffect(LockSet(r.flight, TRANSACTION_HISTORY_ID, true), r.maxClients, TRANSACTION_HISTORY_ID, shadows);
    }
  }

  /** The bucket of `c` is there throughout, and never dropped. */
  ghost predicate Held(s: Sys, ops: seq<Op>, c: ClientId) {
    && c in Run(s, ops).flight.items
    && (ops != [] ==> Held(s, ops[..|ops| - 1], c) && ops[|ops| - 1] != DropOp(c))
  }

  /** No operation of the run commits writes of `c`. */
  ghost predicate NothingCommitted(s: Sys, ops: seq<Op>, c: ClientId) {
    ops != [] ==>
      var before := Run(s, ops[..|ops| - 1]);
      && NothingCommitted(s, ops[..|ops| - 1], c)
      && (CommittedBy(before, ops[|ops| - 1]).Some? ==> CommittedBy(before, ops[|ops| - 1]).value.c != c)
  }

  /** Over every run: from its commit until it is dropped or aged out, a bucket is locked and not committed again. */
  lemma {:induction false} LockedUntilDropped(s: Sys, ops: seq<Op>, c: ClientId)
    requires c in s.flight.items && s.flight.items[c].locked && Held(s, ops, c)
    ensures Run(s, ops).flight.items[c].locked && NothingCommitted(s, ops, c)
  {
    if ops != [] {
      LockedUntilDropped(s, ops[..|ops| - 1], c);
      LockedStep(Run(s, ops[..|ops| - 1]), ops[|ops| - 1], c);
    }
  }

  /**
   * A write that is queued ages a locked bucket out exactly if that is the oldest of as many as there may
   * be, and the client has none yet.
   */
  lemma AgedOutIff(s: Sys, item: Item, d: ClientId, c: ClientId)
    requires WellAged(s.flight, s.maxClients) && s.maxClients >= 1
    requires c in s.flight.items && s.flight.items[c].locked && Queueable(s, item, d)
    ensures c !in AfterSet(s, item, d).flight.items <==>
            d !in s.flight.items && |s.flight.order| == s.maxClients && s.flight.order[0] == c
  {
    if d !in s.flight.items && |s.flight.order| == s.maxClients {
      OldestEvicted(s.flight, s.maxClients, d, Bucket(false, []));
    }
  }
}
