/**
 * Runs of the configurator from one start to the next, and what the retained history says about the
 * store after any of them: each recorded old value is the one recorded before it, and the newest one
 * is what is stored now. Every statement has an exact form, and one that allows an unrecorded 0.
 */
module Telescoping {
  import opened ConfigTypes
  import opened Stores
  import opened InFlight
  import opened History
  import opened ConfigSystem

  // ----- Rollback -----

  /** CanRollback, for the commit with this id. */
  ghost predicate MayRollback(cs: seq<Commit>, id: CommitId) {
    exists i | 0 <= i < |cs| :: cs[i].id == id && Untouched(cs, i)
  }

  /** Queues the old value of each delta; the status that Set answers is ignored. */
  ghost function QueuedBack(s: Sys, deltas: seq<Delta>): Sys {
    if deltas == [] then s
    else
      var t, d := QueuedBack(s, deltas[..|deltas| - 1]), deltas[|deltas| - 1];
      if d.before.Empty? then AfterErase(t, d.key, TRANSACTION_HISTORY_ID, [])
      else AfterSet(t, Item(d.key, d.before), TRANSACTION_HISTORY_ID)
  }

  ghost function AfterRollback(s: Sys, id: CommitId, changed: seq<Item>): Sys {
    if MayRollback(s.log.commits, id) && LastWithId(s.log.commits, id).Some? then
      AfterCommit(QueuedBack(s, LastWithId(s.log.commits, id).value.deltas), TRANSACTION_HISTORY_ID, changed)
    else s
  }

  lemma {:induction false} QueuedBackQuiet(s: Sys, deltas: seq<Delta>)
    ensures QueuedBack(s, deltas) == s.(flight := QueuedBack(s, deltas).flight)
  {
    if deltas != [] {
      QueuedBackQuiet(s, deltas[..|deltas| - 1]);
    }
  }

  // ----- Steps and runs -----

  /** `DropOp` is also what happens when the hooks of a commit succeed or fail. */
  datatype Op =
    | SetOp(item: Item, c: ClientId)
    | EraseOp(pattern: Pattern, c: ClientId, subkeys: seq<Key>)
    | DropOp(c: ClientId)
    | CommitOp(c: ClientId, changed: seq<Item>)
    | RollbackOp(id: CommitId, changed: seq<Item>)

  /** The walk orders an operation is given are possible ones. */
  ghost predicate Possible(s: Sys, op: Op) {
    match op
    case SetOp(_, _) => true
    case EraseOp(pattern, _, subkeys) => IsWildcard(pattern) ==> Lists(subkeys, s.store, pattern)
    case DropOp(_) => true
    case CommitOp(c, changed) => Walks(s, c, changed)
    case RollbackOp(id, changed) =>
      LastWithId(s.log.commits, id).Some? ==>
        Walks(QueuedBack(s, LastWithId(s.log.commits, id).value.deltas), TRANSACTION_HISTORY_ID, changed)
  }

  ghost function Next(s: Sys, op: Op): Sys {
    match op
    case SetOp(item, c) => AfterSet(s, item, c)
    case EraseOp(pattern, c, subkeys) => AfterErase(s, pattern, c, subkeys)
    case DropOp(c) => AfterDrop(s, c)
    case CommitOp(c, changed) => AfterCommit(s, c, changed)
    case RollbackOp(id, changed) => AfterRollback(s, id, changed)
  }

  ghost function Run(s: Sys, ops: seq<Op>): Sys {
    if ops == [] then s else Next(Run(s, ops[..|ops| - 1]), ops[|ops| - 1])
  }

  ghost predicate PossibleRun(s: Sys, ops: seq<Op>) {
    ops != [] ==>
      PossibleRun(s, ops[..|ops| - 1]) && Possible(Run(s, ops[..|ops| - 1]), ops[|ops| - 1])
  }

  /** `t` has the store and history of `s` after one commit of `items`. */
  ghost predicate Commits(s: Sys, t: Sys, items: seq<Item>, changed: seq<Item>) {
    && t.maxCommits == s.maxCommits
    && t.store == ApplyAll(s.store, items + Shadows(s.store, items))
    && t.log == (if changed == [] then s.log else Logged(s.log, s.maxCommits, Deltas(s.store, changed)))
    && Enumerates(changed, Changed(s.store, items))
  }

  ghost predicate Quiet(s: Sys, t: Sys) {
    t.maxCommits == s.maxCommits && t.store == s.store && t.log == s.log
  }

  lemma HighestUnique(a: CommitId, b: CommitId, cs: seq<Commit>)
    requires HighestOf(a, cs) && HighestOf(b, cs)
    ensures a == b
  {
  }

  /** A restart reads back the history it had, to the list order and the highest id. */
  lemma RestartIsIdentity(log: Log, reloaded: seq<Commit>, highest: CommitId)
    requires Sound(log)
    requires IsChain(reloaded) && SameMembers(reloaded, log.commits) && HighestOf(highest, reloaded)
    ensures Log(reloaded, highest) == log
  {
    ChainUnique(reloaded, log.commits);
    HighestUnique(highest, log.highest, reloaded);
  }

  datatype Batch = Batch(c: ClientId, items: seq<Item>)

  /** The queued writes that an operation commits, if it commits at all. */
  ghost function CommittedBy(s: Sys, op: Op): Option<Batch> {
    match op
    case CommitOp(c, _) => if CanCommit(s, c) then Some(Batch(c, Queue(s.flight, c))) else None
    case RollbackOp(id, _) =>
      if MayRollback(s.log.commits, id) && LastWithId(s.log.commits, id).Some? then
        var r := QueuedBack(s, LastWithId(s.log.commits, id).value.deltas);
        if CanCommit(r, TRANSACTION_HISTORY_ID)
        then Some(Batch(TRANSACTION_HISTORY_ID, Queue(r.flight, TRANSACTION_HISTORY_ID)))
        else None
      else None
    case _ => None
  }

  /** Every operation either leaves store and history alone or is one commit of some writes. */
  lemma StepShape(s: Sys, op: Op)
    requires Possible(s, op)
    ensures match CommittedBy(s, op)
            case None => Quiet(s, Next(s, op))
            case Some(b) =>
              && (op.CommitOp? || op.RollbackOp?) && Commits(s, Next(s, op), b.items, op.changed)
              && b.c == (if op.CommitOp? then op.c else 5)
  {
    if op.RollbackOp? && LastWithId(s.log.commits, op.id).Some? {
      QueuedBackQuiet(s, LastWithId(s.log.commits, op.id).value.deltas);
    }
  }

  // ----- What a commit records about one key -----

  /**
   * `actual` is what the history says, `recorded`; or else, unless exactness is asked for, the one
   * change that goes unrecorded happened since: a key holding int32 0 was erased.
   */
  predicate Follows(exact: bool, recorded: Value, actual: Value) {
    actual == recorded || (!exact && recorded == Of(Int32(0)) && actual.Empty?)
  }

  /** What follows is equal for the code's comparison. */
  lemma FollowsIsEqual(exact: bool, a: Value, b: Value)
    requires Follows(exact, a, b)
    ensures ValueEq(a, b) && (exact ==> a == b)
  {
  }

  /** The last of these writes erases a stored int32 0. */
  predicate ErasesZero(store: Store, items: seq<Item>, k: Key) {
    k != [""] && Lookup(store, k) == Of(Int32(0)) && LastWrite(items, k) == Some(Empty)
  }

  ghost predicate KeepsZeros(store: Store, items: seq<Item>) {
    forall k: Key | !InLast(k) :: !ErasesZero(store, items, k)
  }

  /** A commit changes a key without recording it exactly when it erases a 0. */
  lemma UnrecordedChangeIff(store: Store, items: seq<Item>, k: Key)
    requires !InLast(k)
    ensures !Recorded(store, items, k) && Final(store, items, k) != Lookup(store, k) <==> ErasesZero(store, items, k)
    ensures ErasesZero(store, items, k) ==> Final(store, items, k) == Empty
  {
    ParseRender(k);
    assert [] !in store by {
      assert forall j | j in store :: |j| > 0;
    }
  }

  /** So a key left out of the record is unchanged, up to `Follows`. */
  lemma UnrecordedFollows(exact: bool, store: Store, items: seq<Item>, k: Key)
    requires !InLast(k) && !Recorded(store, items, k)
    requires exact ==> !ErasesZero(store, items, k)
    ensures Follows(exact, Lookup(store, k), Final(store, items, k))
  {
    UnrecordedChangeIff(store, items, k);
  }

  lemma {:induction false} DeltaOnDeltas(store: Store, items: seq<Item>, changed: seq<Item>, k: Key)
    requires Enumerates(changed, Changed(store, items)) && !InLast(k)
    ensures DeltaOn(Deltas(store, changed), k) ==
            if Recorded(store, items, k) then Some(Delta(k, Lookup(store, k), Final(store, items, k))) else None
  {
    var deltas := Deltas(store, changed);
    DeltaOnSound(deltas, k);
    LastWriteOfNone(items, k);
    assert forall i | 0 <= i < |changed| :: changed[i] in changed && deltas[i] in deltas;
    if Recorded(store, items, k) {
      assert Item(k, Changed(store, items)[k]) in changed;
    }
  }

  lemma CommittedFinal(store: Store, items: seq<Item>, k: Key)
    requires !InLast(k)
    ensures Lookup(ApplyAll(store, items + Shadows(store, items)), k) == Final(store, items, k)
  {
    ApplyAllLookup(store, items + Shadows(store, items), k);
    LastWriteConcat(items, Shadows(store, items), k);
    ShadowsOnlyLast(store, items, k);
  }

  // ----- The invariant -----

  ghost predicate Linked(exact: bool, trail: seq<Blamed>, current: Value) {
    && (forall i, j | 0 <= i && j == i + 1 && j < |trail| ::
          Follows(exact, trail[i].delta.after, trail[j].delta.before))
    && (trail != [] ==> Follows(exact, trail[|trail| - 1].delta.after, current))
  }

  ghost predicate Tidy(c: Commit) {
    && (forall i, j | 0 <= i < j < |c.deltas| :: c.deltas[i].key != c.deltas[j].key)
    && (forall d | d in c.deltas :: !InLast(d.key))
  }

  ghost predicate Telescopes(exact: bool, cs: seq<Commit>, store: Store) {
    forall k: Key | !InLast(k) :: Linked(exact, Trail(cs, k), Lookup(store, k))
  }

  /** The history is sound, its ids increase, and it telescopes to the store. */
  ghost predicate Inv(exact: bool, s: Sys) {
    && s.maxCommits >= 1
    && Sound(s.log)
    && Increasing(s.log.commits)
    && (forall c | c in s.log.commits :: Tidy(c))
    && Telescopes(exact, s.log.commits, s.store)
  }

  lemma LinkedSuffix(exact: bool, a: seq<Blamed>, b: seq<Blamed>, v: Value)
    requires Linked(exact, a + b, v)
    ensures Linked(exact, b, v)
  {
    var all := a + b;
    forall i, j | 0 <= i && j == i + 1 && j < |b|
      ensures Follows(exact, b[i].delta.after, b[j].delta.before)
    {
      var p, q := |a| + i, |a| + j;
      assert b[i] == all[p] && b[j] == all[q];
    }
  }

  lemma LinkedSnoc(exact: bool, trail: seq<Blamed>, b: Blamed, v: Value)
    requires Linked(exact, trail, b.delta.before) && Follows(exact, b.delta.after, v)
    ensures Linked(exact, trail + [b], v)
  {
  }

  lemma TrailSnoc(cs: seq<Commit>, c: Commit, k: Key)
    ensures Trail(cs + [c], k) == Trail(cs, k) + TrailStep(c, k)
  {
    assert (cs + [c])[..|cs|] == cs;
  }

  lemma TrailLinked(exact: bool, s: Sys, items: seq<Item>, changed: seq<Item>, k: Key)
    requires Enumerates(changed, Changed(s.store, items)) && !InLast(k)
    requires Linked(exact, Trail(s.log.commits, k), Lookup(s.store, k))
    requires exact ==> !ErasesZero(s.store, items, k)
    ensures var cs := s.log.commits + [NextCommit(s.log, Deltas(s.store, changed))];
            Linked(exact, Trail(cs, k), Final(s.store, items, k))
  {
    var c := NextCommit(s.log, Deltas(s.store, changed));
    var trail := Trail(s.log.commits, k);
    TrailSnoc(s.log.commits, c, k);
    DeltaOnDeltas(s.store, items, changed, k);
    if Recorded(s.store, items, k) {
      var d := Delta(k, Lookup(s.store, k), Final(s.store, items, k));
      assert TrailStep(c, k) == [Blamed(c.id, d)];
      LinkedSnoc(exact, trail, Blamed(c.id, d), d.after);
    } else {
      assert TrailStep(c, k) == [] && trail + [] == trail;
      UnrecordedFollows(exact, s.store, items, k);
    }
  }

  lemma NewestLinked(exact: bool, cs: seq<Commit>, max: nat, k: Key, v: Value)
    requires Linked(exact, Trail(cs, k), v)
    ensures Linked(exact, Trail(Newest(cs, max), k), v)
  {
    if |cs| > max {
      var n := |cs| - max;
      assert cs == cs[..n] + cs[n..];
      TrailConcat(cs[..n], cs[n..], k);
      LinkedSuffix(exact, Trail(cs[..n], k), Trail(cs[n..], k), v);
    }
  }

  lemma NothingRecorded(store: Store, items: seq<Item>, k: Key)
    requires Enumerates([], Changed(store, items))
    ensures !Recorded(store, items, k)
  {
    LastWriteOfNone(items, k);
    assert k !in Changed(store, items);
  }

  lemma {:induction false} CommitTelescopes(exact: bool, s: Sys, t: Sys, items: seq<Item>, changed: seq<Item>, k: Key)
    requires Commits(s, t, items, changed) && !InLast(k)
    requires Linked(exact, Trail(s.log.commits, k), Lookup(s.store, k))
    requires exact ==> !ErasesZero(s.store, items, k)
    ensures Linked(exact, Trail(t.log.commits, k), Lookup(t.store, k))
  {
    CommittedFinal(s.store, items, k);
    if changed == [] {
      NothingRecorded(s.store, items, k);
      UnrecordedFollows(exact, s.store, items, k);
    } else {
      TrailLinked(exact, s, items, changed, k);
      NewestLinked(exact, s.log.commits + [NextCommit(s.log, Deltas(s.store, changed))], s.maxCommits, k,
                   Final(s.store, items, k));
    }
  }

  /** A commit that erases a 0 without recording it: what is retained of the key's trail still ends at 0. */
  lemma {:induction false} ErasedZeroTrail(s: Sys, t: Sys, items: seq<Item>, changed: seq<Item>, k: Key)
    requires Commits(s, t, items, changed) && !InLast(k) && ErasesZero(s.store, items, k)
    requires Linked(true, Trail(s.log.commits, k), Lookup(s.store, k))
    ensures Linked(true, Trail(t.log.commits, k), Of(Int32(0))) && Lookup(t.store, k) == Empty
  {
    CommittedFinal(s.store, items, k);
    UnrecordedChangeIff(s.store, items, k);
    if changed != [] {
      var c := NextCommit(s.log, Deltas(s.store, changed));
      TrailSnoc(s.log.commits, c, k);
      DeltaOnDeltas(s.store, items, changed, k);
      assert Trail(s.log.commits, k) + [] == Trail(s.log.commits, k);
      NewestLinked(true, s.log.commits + [c], s.maxCommits, k, Of(Int32(0)));
    }
  }

  lemma {:induction false} ExactAtIff(s: Sys, t: Sys, items: seq<Item>, changed: seq<Item>, k: Key)
    requires Commits(s, t, items, changed) && !InLast(k)
    requires Linked(true, Trail(s.log.commits, k), Lookup(s.store, k))
    ensures Linked(true, Trail(t.log.commits, k), Lookup(t.store, k)) <==>
            !ErasesZero(s.store, items, k) || Trail(t.log.commits, k) == []
  {
    if ErasesZero(s.store, items, k) {
      ErasedZeroTrail(s, t, items, changed, k);
    } else {
      CommitTelescopes(true, s, t, items, changed, k);
    }
  }

  /**
   * When a commit keeps the links exact: exactly when no key that it erases while it holds 0 is on
   * record.
   */
  lemma {:induction false} ExactAfterIff(s: Sys, t: Sys, items: seq<Item>, changed: seq<Item>)
    requires Commits(s, t, items, changed) && Telescopes(true, s.log.commits, s.store)
    ensures Telescopes(true, t.log.commits, t.store) <==>
            forall k: Key | !InLast(k) && ErasesZero(s.store, items, k) :: Trail(t.log.commits, k) == []
  {
    var before, after, store, now := s.log.commits, t.log.commits, s.store, t.store;
    forall k: Key | !InLast(k)
      ensures Linked(true, Trail(after, k), Lookup(now, k)) <==> !ErasesZero(store, items, k) || Trail(after, k) == []
    {
      assert Linked(true, Trail(before, k), Lookup(store, k));
      ExactAtIff(s, t, items, changed, k);
    }
  }

  lemma DeltasTidy(store: Store, items: seq<Item>, changed: seq<Item>, log: Log)
    requires Enumerates(changed, Changed(store, items))
    ensures Tidy(NextCommit(log, Deltas(store, changed)))
  {
    assert forall i | 0 <= i < |changed| :: changed[i] in changed;
  }

  lemma CommitKeepsLog(s: Sys, t: Sys, items: seq<Item>, changed: seq<Item>)
    requires s.maxCommits >= 1 && Sound(s.log) && Increasing(s.log.commits) && Commits(s, t, items, changed)
    requires forall c | c in s.log.commits :: Tidy(c)
    ensures Sound(t.log) && Increasing(t.log.commits)
    ensures forall c | c in t.log.commits :: Tidy(c)
  {
    if changed != [] {
      var c := NextCommit(s.log, Deltas(s.store, changed));
      LoggedSound(s.log, s.maxCommits, c.deltas);
      LoggedIncreasing(s.log, s.maxCommits, c.deltas);
      DeltasTidy(s.store, items, changed, s.log);
      assert forall d | d in t.log.commits :: d in s.log.commits + [c];
    }
  }

  lemma {:induction false} CommitKeepsInv(exact: bool, s: Sys, t: Sys, items: seq<Item>, changed: seq<Item>)
    requires Inv(exact, s) && Commits(s, t, items, changed)
    requires exact ==> KeepsZeros(s.store, items)
    ensures Inv(exact, t)
  {
    CommitKeepsLog(s, t, items, changed);
    forall k: Key | !InLast(k)
      ensures Linked(exact, Trail(t.log.commits, k), Lookup(t.store, k))
    {
      CommitTelescopes(exact, s, t, items, changed, k);
    }
  }

  /** The operation commits no erasure of a stored 0. */
  ghost predicate StepKeepsZeros(s: Sys, op: Op) {
    CommittedBy(s, op).Some? ==> KeepsZeros(s.store, CommittedBy(s, op).value.items)
  }

  lemma {:induction false} StepKeepsInv(exact: bool, s: Sys, op: Op)
    requires Inv(exact, s) && Possible(s, op)
    requires exact ==> StepKeepsZeros(s, op)
    ensures Inv(exact, Next(s, op))
  {
    StepShape(s, op);
    if CommittedBy(s, op).Some? {
      CommitKeepsInv(exact, s, Next(s, op), CommittedBy(s, op).value.items, op.changed);
    }
  }

  ghost predicate RunKeepsZeros(s: Sys, ops: seq<Op>) {
    ops != [] ==>
      RunKeepsZeros(s, ops[..|ops| - 1]) && StepKeepsZeros(Run(s, ops[..|ops| - 1]), ops[|ops| - 1])
  }

  /**
   * History telescopes, over every run: for each key outside last.*, each retained delta's old value
   * is what the retained delta before it set, and the newest value set is what is stored; exactly so
   * in a run that never erases a stored 0. Ids increase throughout.
   */
  lemma {:induction false} HistoryTelescopes(exact: bool, s: Sys, ops: seq<Op>)
    requires Inv(exact, s) && PossibleRun(s, ops)
    requires exact ==> RunKeepsZeros(s, ops)
    ensures Inv(exact, Run(s, ops))
  {
    if ops != [] {
      HistoryTelescopes(exact, s, ops[..|ops| - 1]);
      StepKeepsInv(exact, Run(s, ops[..|ops| - 1]), ops[|ops| - 1]);
    }
  }

  /** A store without a history satisfies the invariant, exactly. */
  lemma FreshInv(store: Store, maxCommits: nat, maxClients: nat)
    requires maxCommits >= 1
    ensures Inv(true, Sys(store, Log([], 0), EMPTY_FLIGHT, maxCommits, maxClients))
  {
  }
}
