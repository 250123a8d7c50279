/**
 * A daemon that is stopped in the middle of a commit and started again. The commit is logged, on file,
 * before the store is written (src/Configurator.cpp:42-50), so the history can be ahead of the store.
 */
module Stopping {
  import opened ConfigTypes
  import opened Stores
  import opened InFlight
  import opened KeyPaths
  import opened YamlStorage
  import opened Coherence
  import opened History
  import opened ConfigSystem
  import opened Telescoping
  import opened Daemon

  /**
   * The next start after a stop in the middle of this operation: what it logged was on file, and `disk`
   * is how far the store got.
   */
  ghost function AfterStop(m: Machine, op: Op, disk: Disk, back: Store): Machine {
    Machine(m.sys.(store := back, log := Next(m.sys, op).log, flight := EMPTY_FLIGHT), disk, EMPTY_FLIGHT)
  }

  /** Every key reads back as it was before the operation, or as it is after. */
  ghost predicate Between(before: Store, after: Store, back: Store) {
    forall k: Key | !InLast(k) :: Lookup(back, k) == Lookup(before, k) || Lookup(back, k) == Lookup(after, k)
  }

  /** Every file is as it was before the operation, or as it is after. */
  ghost predicate FilesBetween(before: Disk, after: Disk, disk: Disk) {
    forall p :: FileAt(disk, p) == FileAt(before, p) || FileAt(disk, p) == FileAt(after, p)
  }

  /** Storing writes one file after the other, so the next start reads some keys as before and some as after. */
  lemma ReadsBetween(m: Machine, op: Op, disk: Disk, back: Store)
    requires Possible(m.sys, op) && Coherent(Below(m)) && Coherent(Below(After(m, Serve(op))))
    requires FilesBetween(m.disk, After(m, Serve(op)).disk, disk) && Loads(back, disk)
    ensures Between(m.sys.store, Next(m.sys, op).store, back)
  {
    var after := After(m, Serve(op)).disk;
    forall k: Key | !InLast(k)
      ensures Lookup(back, k) == Lookup(m.sys.store, k) || Lookup(back, k) == Lookup(Next(m.sys, op).store, k)
    {
      assert Lookup(back, k) == if Addressable(k) then OnDisk(disk, k) else Empty;
    }
  }

  /** The trail of a key that the commit does not record is left linked to the value before it. */
  lemma {:induction false} UnrecordedLinked(exact: bool, s: Sys, t: Sys, items: seq<Item>, changed: seq<Item>, k: Key)
    requires Commits(s, t, items, changed) && !InLast(k) && !Recorded(s.store, items, k)
    requires Linked(exact, Trail(s.log.commits, k), Lookup(s.store, k))
    ensures Linked(exact, Trail(t.log.commits, k), Lookup(s.store, k))
  {
    if changed != [] {
      var c := NextCommit(s.log, Deltas(s.store, changed));
      TrailSnoc(s.log.commits, c, k);
      DeltaOnDeltas(s.store, items, changed, k);
      assert Trail(s.log.commits, k) + [] == Trail(s.log.commits, k);
      NewestLinked(exact, s.log.commits + [c], s.maxCommits, k, Lookup(s.store, k));
    }
  }

  lemma EndsWithCommit(cs: seq<Commit>, c: Commit, max: nat, k: Key)
    requires max >= 1 && DeltaOn(c.deltas, k).Some?
    ensures var trail := Trail(Newest(cs + [c], max), k);
            trail != [] && trail[|trail| - 1] == Blamed(c.id, DeltaOn(c.deltas, k).value)
  {
    var kept := Newest(cs + [c], max);
    assert kept == kept[..|kept| - 1] + [c];
    TrailSnoc(kept[..|kept| - 1], c, k);
  }

  /** The trail of a key that it records ends with what it wrote. */
  lemma {:induction false} RecordedEnds(s: Sys, t: Sys, items: seq<Item>, changed: seq<Item>, k: Key)
    requires Commits(s, t, items, changed) && !InLast(k) && Recorded(s.store, items, k) && s.maxCommits >= 1
    ensures var trail := Trail(t.log.commits, k);
            trail != [] && trail[|trail| - 1].delta.after == Final(s.store, items, k)
  {
    var deltas := Deltas(s.store, changed);
    DeltaOnDeltas(s.store, items, changed, k);
    EndsWithCommit(s.log.commits, NextCommit(s.log, deltas), s.maxCommits, k);
  }

  lemma LastLink(exact: bool, trail: seq<Blamed>, u: Value, v: Value)
    requires Linked(exact, trail, u) && trail != []
    ensures Linked(exact, trail, v) <==> Follows(exact, trail[|trail| - 1].delta.after, v)
  {
  }

  lemma {:induction false} StoppedLinkedIff(exact: bool, s: Sys, t: Sys, items: seq<Item>, changed: seq<Item>, k: Key,
                                          v: Value)
    requires Commits(s, t, items, changed) && !InLast(k) && s.maxCommits >= 1
    requires Linked(exact, Trail(s.log.commits, k), Lookup(s.store, k)) && (exact ==> !ErasesZero(s.store, items, k))
    requires v == Lookup(s.store, k) || v == Lookup(t.store, k)
    ensures Linked(exact, Trail(t.log.commits, k), v) <==>
            (Recorded(s.store, items, k) ==> Follows(exact, Final(s.store, items, k), v))
  {
    CommitTelescopes(exact, s, t, items, changed, k);
    if Recorded(s.store, items, k) {
      RecordedEnds(s, t, items, changed, k);
      LastLink(exact, Trail(t.log.commits, k), Lookup(t.store, k), v);
    } else if v == Lookup(s.store, k) {
      UnrecordedLinked(exact, s, t, items, changed, k);
    }
  }

  /** Every recorded change reads back as it was written; short of exactness, nothing will do for 0. */
  ghost predicate ChangesRead(exact: bool, changed: seq<Item>, back: Store) {
    forall item | item in changed :: Follows(exact, item.value, Lookup(back, item.key))
  }

  lemma ChangesReadAt(exact: bool, store: Store, items: seq<Item>, changed: seq<Item>, back: Store)
    requires Enumerates(changed, Changed(store, items))
    ensures ChangesRead(exact, changed, back) <==>
            forall k: Key | !InLast(k) && Recorded(store, items, k) ::
              Follows(exact, Final(store, items, k), Lookup(back, k))
  {
    forall k: Key | !InLast(k) && Recorded(store, items, k)
      ensures Item(k, Final(store, items, k)) in changed
    {
      LastWriteOfNone(items, k);
      assert Item(k, Changed(store, items)[k]) in changed;
    }
    forall item | item in changed
      ensures !InLast(item.key) && Recorded(store, items, item.key) && Final(store, items, item.key) == item.value
    {
    }
  }

  lemma {:induction false} StoppedTelescopesIff(exact: bool, s: Sys, t: Sys, items: seq<Item>, changed: seq<Item>,
                                              back: Store)
    requires Commits(s, t, items, changed) && s.maxCommits >= 1 && Telescopes(exact, s.log.commits, s.store)
    requires (exact ==> KeepsZeros(s.store, items)) && Between(s.store, t.store, back)
    ensures Telescopes(exact, t.log.commits, back) <==> ChangesRead(exact, changed, back)
  {
    ChangesReadAt(exact, s.store, items, changed, back);
    forall k: Key | !InLast(k)
      ensures Linked(exact, Trail(t.log.commits, k), Lookup(back, k)) <==>
              (Recorded(s.store, items, k) ==> Follows(exact, Final(s.store, items, k), Lookup(back, k)))
    {
      assert Linked(exact, Trail(s.log.commits, k), Lookup(s.store, k));
      StoppedLinkedIff(exact, s, t, items, changed, k, Lookup(back, k));
    }
  }

  /**
   * After a stop in the middle of a commit, with each file old or new, the next start telescopes
   * exactly if every recorded change made it to disk.
   */
  lemma {:induction false} StopTelescopesIff(exact: bool, m: Machine, op: Op, disk: Disk, back: Store)
    requires Inv(exact, m.sys) && Possible(m.sys, op) && CommittedBy(m.sys, op).Some?
    requires exact ==> StepKeepsZeros(m.sys, op)
    requires Between(m.sys.store, Next(m.sys, op).store, back)
    ensures Inv(exact, AfterStop(m, op, disk, back).sys) <==> ChangesRead(exact, op.changed, back)
  {
    StepShape(m.sys, op);
    StepKeepsInv(exact, m.sys, op);
    StoppedTelescopesIff(exact, m.sys, Next(m.sys, op), CommittedBy(m.sys, op).value.items, op.changed, back);
  }

  /** Short of exactness, 0 written over nothing can be missing, and so can nothing written over nothing. */
  lemma MissingIff(exact: bool, store: Store, items: seq<Item>, k: Key)
    requires !InLast(k) && k != [""] && Recorded(store, items, k)
    ensures Follows(exact, Final(store, items, k), Lookup(store, k)) <==>
            && Lookup(store, k).Empty?
            && (Final(store, items, k).Empty? || (!exact && Final(store, items, k) == Of(Int32(0))))
  {
    ParseRender(k);
  }

  /**
   * A stop before any file is written: the next start telescopes exactly if all that the commit recorded
   * was to leave absent keys absent, or short of exactness to set them to 0.
   */
  lemma {:induction false} StopBeforeStoreIff(exact: bool, m: Machine, op: Op, back: Store)
    requires Inv(exact, m.sys) && Possible(m.sys, op) && CommittedBy(m.sys, op).Some?
    requires Coherent(Below(m)) && Loads(back, m.disk) && AllAddressable(CommittedBy(m.sys, op).value.items)
    requires exact ==> StepKeepsZeros(m.sys, op)
    ensures Inv(exact, AfterStop(m, op, m.disk, back).sys) <==>
            forall item | item in op.changed ::
              && item.key !in m.sys.store
              && (item.value.Empty? || (!exact && item.value == Of(Int32(0))))
  {
    var s, items := m.sys, CommittedBy(m.sys, op).value.items;
    StoresEqual(back, s.store);
    StepShape(s, op);
    StopTelescopesIff(exact, m, op, m.disk, back);
    forall item | item in op.changed
      ensures Follows(exact, item.value, Lookup(back, item.key)) <==>
              item.key !in s.store && (item.value.Empty? || (!exact && item.value == Of(Int32(0))))
    {
      LastWriteOfNone(items, item.key);
      MissingIff(exact, s.store, items, item.key);
    }
  }
}
