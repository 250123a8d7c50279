/**
 * The whole daemon over its starts: the configurator, the cache it works on, the disk below, and what
 * a restart makes of them (src/sysadmin.cpp:51-54: disk, then cache, then history are loaded again).
 */
module Daemon {
  import opened ConfigTypes
  import opened Stores
  import opened InFlight
  import opened KeyPaths
  import opened YamlStorage
  import opened Coherence
  import opened History
  import opened ConfigSystem
  import opened Telescoping
  import opened Undoing

  /** How many clients' writes the store on disk remembers. */
  const DISK_CLIENTS: nat := 100

  /** `sys.store` is the cache; `pending` is what the disk remembers of each client's writes. */
  datatype Machine = Machine(sys: Sys, disk: Disk, pending: Flight)

  function Below(m: Machine): Stack {
    Stack(m.sys.store, m.disk, m.pending)
  }

  datatype Event =
    | Serve(op: Op)
    | Restart(store: Store, commits: seq<Commit>, highest: CommitId)

  /** A restart loads what is on disk, all of it in places of addressable keys, and sorts the saved commits. */
  ghost predicate CanHappen(m: Machine, e: Event) {
    match e
    case Serve(op) => Possible(m.sys, op)
    case Restart(store, commits, highest) =>
      && WellPlaced(m.disk) && Loads(store, m.disk)
      && IsChain(commits) && SameMembers(commits, m.sys.log.commits) && HighestOf(highest, commits)
  }

  /** What an operation pushes through the cache to the disk: the committed writes and their last.* writes. */
  ghost function WriteOf(s: Sys, op: Op): Option<Write> {
    match CommittedBy(s, op)
    case None => None
    case Some(b) => Some(Write(b.c, b.items + Shadows(s.store, b.items)))
  }

  ghost function Pushed(s: Stack, w: Option<Write>): Stack {
    match w
    case None => s
    case Some(w) => AfterWrite(s, DISK_CLIENTS, w.c, w.items)
  }

  ghost function After(m: Machine, e: Event): Machine {
    match e
    case Serve(op) =>
      var t := Pushed(Below(m), WriteOf(m.sys, op));
      Machine(Next(m.sys, op), t.disk, t.pending)
    case Restart(store, commits, highest) =>
      Machine(m.sys.(store := store, log := Log(commits, highest), flight := EMPTY_FLIGHT), m.disk, EMPTY_FLIGHT)
  }

  ghost function AfterAll(m: Machine, es: seq<Event>): Machine {
    if es == [] then m else After(AfterAll(m, es[..|es| - 1]), es[|es| - 1])
  }

  ghost predicate Feasible(m: Machine, es: seq<Event>) {
    es != [] ==> Feasible(m, es[..|es| - 1]) && CanHappen(AfterAll(m, es[..|es| - 1]), es[|es| - 1])
  }

  /** The machines of a run, one after each event. */
  ghost predicate Trace(ms: seq<Machine>, es: seq<Event>) {
    && |ms| == |es| + 1
    && (forall i | 0 <= i < |es| :: CanHappen(ms[i], es[i]) && ms[i + 1] == After(ms[i], es[i]))
  }

  lemma TraceOn(ms: seq<Machine>, es: seq<Event>, t: Machine, e: Event, u: Machine)
    requires Trace(ms, es) && ms[|es|] == t && CanHappen(t, e) && u == After(t, e)
    ensures Trace(ms + [u], es + [e])
  {
    var more, fs := ms + [u], es + [e];
    forall i | 0 <= i < |fs|
      ensures CanHappen(more[i], fs[i]) && more[i + 1] == After(more[i], fs[i])
    {
      if i < |es| {
        assert more[i] == ms[i] && more[i + 1] == ms[i + 1] && fs[i] == es[i];
      } else {
        assert more[i] == t && more[i + 1] == u && fs[i] == e;
      }
    }
  }

  /** The events can happen from `m`, and lead to `t`. */
  ghost predicate Leads(m: Machine, es: seq<Event>, t: Machine) {
    exists ms :: Trace(ms, es) && ms[0] == m && ms[|es|] == t
  }

  lemma LeadsNowhere(m: Machine)
    ensures Leads(m, [], m)
  {
    assert Trace([m], []);
  }

  lemma LeadsOn(m: Machine, es: seq<Event>, t: Machine, e: Event)
    requires Leads(m, es, t) && CanHappen(t, e)
    ensures Leads(m, es + [e], After(t, e))
  {
    var ms :| Trace(ms, es) && ms[0] == m && ms[|es|] == t;
    TraceOn(ms, es, t, e, After(t, e));
  }

  /** Where events lead is where the run ends. */
  lemma {:induction false} LeadsThere(m: Machine, es: seq<Event>, t: Machine)
    requires Leads(m, es, t)
    ensures Feasible(m, es) && AfterAll(m, es) == t
  {
    var ms :| Trace(ms, es) && ms[0] == m && ms[|es|] == t;
    if es != [] {
      var n := |es| - 1;
      assert Trace(ms[..n + 1], es[..n]);
      assert es[n] == es[|es| - 1] && ms[n + 1] == After(ms[n], es[n]);
      LeadsThere(m, es[..n], ms[n]);
    }
  }

  // ----- One step -----

  lemma ServeBelow(m: Machine, op: Op)
    requires Possible(m.sys, op)
    ensures Below(After(m, Serve(op))) == Pushed(Below(m), WriteOf(m.sys, op))
  {
    StepShape(m.sys, op);
  }

  /**
   * Cache and disk agree after an operation that commits exactly when every key that its client wrote
   * before, and does not write now, still holds that last write. For a rollback the client is 5,
   * whoever asks for it.
   */
  lemma {:induction false} StepCoherentIff(m: Machine, op: Op)
    requires Coherent(Below(m)) && PendingAddressable(m.pending) && Possible(m.sys, op)
    requires WriteOf(m.sys, op).Some? && AllAddressable(WriteOf(m.sys, op).value.items)
    ensures var w := WriteOf(m.sys, op).value;
            && (op.RollbackOp? ==> w.c == TRANSACTION_HISTORY_ID)
            && (Coherent(Below(After(m, Serve(op)))) <==> StillTrue(m.sys.store, Queue(m.pending, w.c), w.items))
  {
    var w := WriteOf(m.sys, op).value;
    ServeBelow(m, op);
    CoherentAfterIff(Below(m), DISK_CLIENTS, w.c, w.items);
  }

  /** The key reads back as it was; short of exactness, also if 0 is on record and 0 or nothing reads back. */
  predicate ReadsBack(exact: bool, trail: seq<Blamed>, was: Value, now: Value)
    requires trail != []
  {
    var newest := trail[|trail| - 1].delta.after;
    now == was || (!exact && newest == Of(Int32(0)) && (now == newest || now == Empty))
  }

  lemma LinkedIff(exact: bool, trail: seq<Blamed>, was: Value, now: Value)
    requires Linked(exact, trail, was)
    ensures Linked(exact, trail, now) <==> trail == [] || ReadsBack(exact, trail, was, now)
  {
  }

  lemma TelescopesIff(exact: bool, cs: seq<Commit>, was: Store, now: Store)
    requires Telescopes(exact, cs, was)
    ensures Telescopes(exact, cs, now) <==>
            forall k: Key | !InLast(k) && Trail(cs, k) != [] ::
              ReadsBack(exact, Trail(cs, k), Lookup(was, k), Lookup(now, k))
  {
    forall k: Key | !InLast(k)
      ensures Linked(exact, Trail(cs, k), Lookup(now, k)) <==>
              Trail(cs, k) == [] || ReadsBack(exact, Trail(cs, k), Lookup(was, k), Lookup(now, k))
    {
      LinkedIff(exact, Trail(cs, k), Lookup(was, k), Lookup(now, k));
    }
  }

  /** A restart keeps the history telescoping exactly when the disk has each key on record as the cache had it. */
  lemma {:induction false} RestartTelescopesIff(exact: bool, m: Machine, e: Event)
    requires Inv(exact, m.sys) && e.Restart? && CanHappen(m, e)
    ensures After(m, e).sys.log == m.sys.log && Loads(After(m, e).sys.store, m.disk)
    ensures Inv(exact, After(m, e).sys) <==>
            forall k: Key | !InLast(k) && Trail(m.sys.log.commits, k) != [] ::
              ReadsBack(exact, Trail(m.sys.log.commits, k), Lookup(m.sys.store, k), Lookup(e.store, k))
  {
    RestartIsIdentity(m.sys.log, e.commits, e.highest);
    TelescopesIff(exact, m.sys.log.commits, m.sys.store, e.store);
  }

  /** A restart of a coherent daemon changes nothing but the queued and remembered writes. */
  lemma RestartIsQuiet(m: Machine, e: Event)
    requires Coherent(Below(m)) && Sound(m.sys.log) && e.Restart? && CanHappen(m, e)
    ensures After(m, e) == Machine(m.sys.(flight := EMPTY_FLIGHT), m.disk, EMPTY_FLIGHT)
  {
    RestartIsIdentity(m.sys.log, e.commits, e.highest);
    StoresEqual(e.store, m.sys.store);
  }

  // ----- Runs -----

  /** The writes pushed since the last restart. */
  ghost function WritesSince(m: Machine, es: seq<Event>): seq<Write> {
    if es == [] || es[|es| - 1].Restart? then []
    else
      var before := es[..|es| - 1];
      WritesSince(m, before) +
      match WriteOf(AfterAll(m, before).sys, es[|es| - 1].op) case None => [] case Some(w) => [w]
  }

  /** From one start to the next, no key is committed under two client ids, and all keys are addressable. */
  ghost predicate OneWriterRun(m: Machine, es: seq<Event>) {
    es != [] ==>
      && OneWriterRun(m, es[..|es| - 1])
      && OneWriter(WritesSince(m, es))
      && forall w | w in WritesSince(m, es) :: AllAddressable(w.items)
  }

  /** No event of the run erases a stored 0. */
  ghost predicate KeepsAllZeros(m: Machine, es: seq<Event>) {
    es != [] ==>
      && KeepsAllZeros(m, es[..|es| - 1])
      && (es[|es| - 1].Serve? ==> StepKeepsZeros(AfterAll(m, es[..|es| - 1]).sys, es[|es| - 1].op))
  }

  /** Cache and disk agree, and nothing remembered by the disk is out of date. */
  ghost predicate InStep(m: Machine) {
    Coherent(Below(m)) && Fresh(Below(m)) && PendingAddressable(m.pending)
  }

  /** What the operation writes is all addressable. */
  ghost predicate WritesAddressable(m: Machine, op: Op) {
    WriteOf(m.sys, op).Some? ==> AllAddressable(WriteOf(m.sys, op).value.items)
  }

  /** What it writes agrees with what the disk then remembers of the other clients. */
  ghost predicate WritesAgreeing(m: Machine, op: Op) {
    var w := WriteOf(m.sys, op);
    w.Some? ==> Agrees(Pushed(Below(m), w).pending, w.value.c, w.value.items)
  }

  lemma {:induction false} ServeInStepIff(m: Machine, op: Op)
    requires InStep(m) && Possible(m.sys, op) && WritesAddressable(m, op)
    ensures InStep(After(m, Serve(op))) <==> WritesAgreeing(m, op)
    ensures Coherent(Below(After(m, Serve(op)))) && PendingAddressable(After(m, Serve(op)).pending)
  {
    ServeBelow(m, op);
    if WriteOf(m.sys, op).Some? {
      var w := WriteOf(m.sys, op).value;
      StepCoherent(Below(m), DISK_CLIENTS, w);
      StepAddressable(Below(m), DISK_CLIENTS, w);
      StepFreshIff(Below(m), DISK_CLIENTS, w.c, w.items);
    }
  }

  ghost predicate AddressableRun(m: Machine, es: seq<Event>) {
    es != [] ==>
      && AddressableRun(m, es[..|es| - 1])
      && (es[|es| - 1].Serve? ==> WritesAddressable(AfterAll(m, es[..|es| - 1]), es[|es| - 1].op))
  }

  /** No commit of the run gives a key another value than the disk still remembers another client to have written. */
  ghost predicate AgreeingRun(m: Machine, es: seq<Event>) {
    es != [] ==>
      && AgreeingRun(m, es[..|es| - 1])
      && (es[|es| - 1].Serve? ==> WritesAgreeing(AfterAll(m, es[..|es| - 1]), es[|es| - 1].op))
  }

  /** What a run keeps. */
  ghost predicate Kept(exact: bool, start: Machine, t: Machine) {
    && Inv(exact, t.sys)
    && InStep(t)
    && Recovers(exact, start.sys.store, start.sys.log.highest, t.sys)
  }

  lemma ServeKeeps(exact: bool, start: Machine, t: Machine, op: Op)
    requires Kept(exact, start, t) && Possible(t.sys, op) && (exact ==> StepKeepsZeros(t.sys, op))
    requires WritesAddressable(t, op) && WritesAgreeing(t, op)
    ensures Kept(exact, start, After(t, Serve(op)))
  {
    StepKeepsInv(exact, t.sys, op);
    StepRecovers(exact, start.sys.store, start.sys.log.highest, t.sys, op);
    ServeInStepIff(t, op);
  }

  lemma RestartKeeps(exact: bool, start: Machine, t: Machine, e: Event)
    requires Kept(exact, start, t) && e.Restart? && CanHappen(t, e)
    ensures Kept(exact, start, After(t, e))
  {
    RestartIsQuiet(t, e);
  }

  /**
   * Over every agreeing run of requests, rollbacks (which write as client 5) and restarts: the history
   * telescopes to the store, cache and disk agree, and undoing what was logged since the beginning, if
   * all of it is retained, gives back the store there.
   */
  lemma {:induction false} DaemonRun(exact: bool, m: Machine, es: seq<Event>)
    requires Inv(exact, m.sys) && InStep(m)
    requires Feasible(m, es) && AddressableRun(m, es) && AgreeingRun(m, es)
    requires exact ==> KeepsAllZeros(m, es)
    ensures Kept(exact, m, AfterAll(m, es))
  {
    if es == [] {
      SinceNone(m.sys.log.commits, m.sys.log.highest);
    } else {
      var before, e := es[..|es| - 1], es[|es| - 1];
      DaemonRun(exact, m, before);
      var t := AfterAll(m, before);
      match e
      case Restart(_, _, _) => RestartKeeps(exact, m, t, e);
      case Serve(op) => ServeKeeps(exact, m, t, op);
    }
  }

  // ----- No other runs will do -----

  /** Cache and disk agree, and will after the next commit, whoever makes it and whatever it writes. */
  ghost predicate NoRisk(m: Machine) {
    && Coherent(Below(m))
    && forall c, items | AllAddressable(items) :: Coherent(AfterWrite(Below(m), DISK_CLIENTS, c, items))
  }

  /** There is no risk at any point of the run. */
  ghost predicate NeverAtRisk(m: Machine, es: seq<Event>) {
    es != [] ==> NeverAtRisk(m, es[..|es| - 1]) && NoRisk(AfterAll(m, es))
  }

  lemma NoRiskIff(m: Machine)
    requires PendingAddressable(m.pending)
    ensures NoRisk(m) <==> InStep(m)
  {
    if Coherent(Below(m)) {
      AlwaysCoherentIff(Below(m), DISK_CLIENTS);
    }
  }

  lemma StepNoRiskIff(m: Machine, e: Event)
    requires InStep(m) && Sound(m.sys.log) && CanHappen(m, e) && (e.Serve? ==> WritesAddressable(m, e.op))
    ensures NoRisk(After(m, e)) <==> (e.Serve? ==> WritesAgreeing(m, e.op))
  {
    match e
    case Restart(_, _, _) =>
      RestartIsQuiet(m, e);
      NoRiskIff(After(m, e));
    case Serve(op) =>
      ServeInStepIff(m, op);
      NoRiskIff(After(m, e));
  }

  /** The agreeing runs are exactly those at no point of which another commit could part cache and disk. */
  lemma {:induction false} NeverAtRiskIff(m: Machine, es: seq<Event>)
    requires Inv(false, m.sys) && InStep(m) && Feasible(m, es) && AddressableRun(m, es)
    ensures NeverAtRisk(m, es) <==> AgreeingRun(m, es)
  {
    if es != [] {
      var before := es[..|es| - 1];
      NeverAtRiskIff(m, before);
      if AgreeingRun(m, before) {
        DaemonRun(false, m, before);
        StepNoRiskIff(AfterAll(m, before), es[|es| - 1]);
      }
    }
  }

  // ----- One writer for each key -----

  /** What a run with one writer for each key keeps besides. */
  ghost predicate Tracked(t: Machine, ws: seq<Write>) {
    Owned(t.pending, ws) && PendingAddressable(t.pending)
  }

  lemma {:induction false} ServeTracked(t: Machine, ws: seq<Write>, op: Op)
    requires Tracked(t, ws) && Possible(t.sys, op) && WritesAddressable(t, op)
    requires WriteOf(t.sys, op).Some? ==> OneWriter(ws + [WriteOf(t.sys, op).value])
    ensures WritesAgreeing(t, op)
    ensures Tracked(After(t, Serve(op)), match WriteOf(t.sys, op) case None => ws case Some(w) => ws + [w])
  {
    ServeBelow(t, op);
    if WriteOf(t.sys, op).Some? {
      var w := WriteOf(t.sys, op).value;
      StepAgrees(Below(t), DISK_CLIENTS, ws, w);
      StepOwned(Below(t), DISK_CLIENTS, ws, w, ws + [w]);
    }
  }

  /**
   * With one writer for each key from each start to the next, every run is agreeing. That rules out
   * rolling back another client's commit since the last start, because a rollback writes as client 5.
   */
  lemma {:induction false} OneWriterAgrees(m: Machine, es: seq<Event>)
    requires m.pending == EMPTY_FLIGHT && Feasible(m, es) && OneWriterRun(m, es)
    ensures AddressableRun(m, es) && AgreeingRun(m, es)
    ensures Tracked(AfterAll(m, es), WritesSince(m, es))
  {
    if es != [] {
      var before, e := es[..|es| - 1], es[|es| - 1];
      OneWriterAgrees(m, before);
      if e.Serve? {
        var t, ws := AfterAll(m, before), WritesSince(m, before);
        if WriteOf(t.sys, e.op).Some? {
          assert WriteOf(t.sys, e.op).value in WritesSince(m, es);
        } else {
          assert ws + [] == ws;
        }
        ServeTracked(t, ws, e.op);
      }
    }
  }

  // ----- One client for each key -----

  /** `owner` gives each key a client, and `last.k` that of k. */
  ghost predicate Owner(owner: Key -> ClientId) {
    forall k :: owner(LastKey(k)) == owner(k)
  }

  /** Every commit of the run is made by the owner of the keys that were queued, all of them addressable. */
  ghost predicate Respects(owner: Key -> ClientId, m: Machine, es: seq<Event>) {
    es != [] ==>
      && Respects(owner, m, es[..|es| - 1])
      && (es[|es| - 1].Serve? ==>
            match CommittedBy(AfterAll(m, es[..|es| - 1]).sys, es[|es| - 1].op)
            case None => true
            case Some(b) => AllAddressable(b.items) && forall k | k in Written(b.items) :: owner(k) == b.c)
  }

  lemma LastKeyAddressable(k: Key)
    requires Addressable(k)
    ensures Addressable(LastKey(k))
  {
    assert LAST != GLOBAL by { assert |LAST| != |GLOBAL|; }
    assert forall i | 0 <= i < |LastKey(k)| - 1 :: LastKey(k)[i] == if i == 0 then LAST else k[i - 1];
  }

  lemma {:induction false} ShadowsOwned(owner: Key -> ClientId, store: Store, items: seq<Item>, c: ClientId)
    requires Owner(owner) && AllAddressable(items) && forall k | k in Written(items) :: owner(k) == c
    ensures AllAddressable(Shadows(store, items)) && forall k | k in Written(Shadows(store, items)) :: owner(k) == c
  {
    if items != [] {
      var n := |items| - 1;
      assert forall item | item in items[..n] :: item in items;
      ShadowsOwned(owner, store, items[..n], c);
      var k := items[n].key;
      assert items[n] in items && k in Written(items);
      assert owner(LastKey(k)) == c;
      LastKeyAddressable(k);
    }
  }

  lemma {:induction false} OwnedWrites(owner: Key -> ClientId, m: Machine, es: seq<Event>)
    requires Owner(owner) && Respects(owner, m, es)
    ensures forall w | w in WritesSince(m, es) ::
              AllAddressable(w.items) && forall k | k in Written(w.items) :: owner(k) == w.c
    ensures OneWriterRun(m, es)
  {
    if es != [] {
      var before, e := es[..|es| - 1], es[|es| - 1];
      OwnedWrites(owner, m, before);
      if e.Serve? && CommittedBy(AfterAll(m, before).sys, e.op).Some? {
        var s, b := AfterAll(m, before).sys, CommittedBy(AfterAll(m, before).sys, e.op).value;
        ShadowsOwned(owner, s.store, b.items, b.c);
        WrittenConcat(b.items, Shadows(s.store, b.items));
      }
    }
  }

  /**
   * So with one client for each key, the last.* keys going with theirs: only client 5's keys can then
   * be rolled back.
   */
  lemma {:induction false} OneClientPerKey(owner: Key -> ClientId, exact: bool, m: Machine, es: seq<Event>)
    requires Inv(exact, m.sys) && Coherent(Below(m)) && m.pending == EMPTY_FLIGHT
    requires Feasible(m, es) && Owner(owner) && Respects(owner, m, es)
    requires exact ==> KeepsAllZeros(m, es)
    ensures Kept(exact, m, AfterAll(m, es))
  {
    OwnedWrites(owner, m, es);
    OneWriterAgrees(m, es);
    DaemonRun(exact, m, es);
  }

  /** The first start on a disk, with no history yet. */
  lemma FirstStart(store: Store, disk: Disk, maxCommits: nat, maxClients: nat)
    requires WellPlaced(disk) && Loads(store, disk) && maxCommits >= 1
    ensures var m := Machine(Sys(store, Log([], 0), EMPTY_FLIGHT, maxCommits, maxClients), disk, EMPTY_FLIGHT);
            Inv(true, m.sys) && Coherent(Below(m))
  {
    FreshInv(store, maxCommits, maxClients);
  }
}
