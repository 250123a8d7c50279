/** Runs in which the daemon falls short of its promises: inputs that meet the conditions proved elsewhere. */
module Shortfalls {
  import opened ConfigTypes
  import opened Stores
  import opened Sequences
  import opened SizeAgeBoundMaps
  import opened InFlight
  import opened KeyPaths
  import opened YamlStorage
  import opened Coherence
  import opened History
  import opened ConfigSystem
  import opened Telescoping
  import opened RollingBack
  import opened Resetting
  import opened Daemon
  import opened Stopping

  // ----- Requests of one key -----

  /** The request that queues a write. */
  function Queueing(item: Item, c: ClientId): Op {
    if item.value.Empty? then EraseOp(item.key, c, []) else SetOp(item, c)
  }

  /** What a commit of just this write pushes: the key, and its last.* key with the old value. */
  function Pair(store: Store, item: Item): seq<Item> {
    [item, Item(LastKey(item.key), Lookup(store, item.key))]
  }

  /** There is room for one more bucket and one more commit. */
  ghost predicate Room(s: Sys) {
    && WellAged(s.flight, s.maxClients) && |s.flight.order| < s.maxClients
    && |s.log.commits| < s.maxCommits
    && Inv(false, s)
  }

  lemma QueueStep(s: Sys, c: ClientId, item: Item)
    requires Room(s) && c !in s.flight.items && (item.value.Empty? || TypeCheck(s.store, item))
    ensures var t := Next(s, Queueing(item, c));
            && t == s.(flight := t.flight) && WellAged(t.flight, s.maxClients)
            && |t.flight.order| == |s.flight.order| + 1
            && t.flight.items == s.flight.items[c := Bucket(false, [item])]
    ensures Possible(s, Queueing(item, c)) && CommittedBy(s, Queueing(item, c)) == None
  {
    InsertedWellAged(s.flight, s.maxClients, c, Bucket(false, []));
    QueuedOne(s.flight, s.maxClients, c, item);
    assert [] + [item] == [item];
  }

  /** The delta that a commit of this write records, if it records one. */
  function Recording(store: Store, item: Item): seq<Delta> {
    if Recorded(store, [item], item.key) then [Delta(item.key, Lookup(store, item.key), item.value)] else []
  }

  function Walk(store: Store, item: Item): seq<Item> {
    if Recorded(store, [item], item.key) then [item] else []
  }

  lemma OneItem(store: Store, item: Item)
    requires Shadowed(item.key)
    ensures Enumerates(Walk(store, item), Changed(store, [item]))
    ensures Deltas(store, Walk(store, item)) == Recording(store, item)
    ensures [item] + Shadows(store, [item]) == Pair(store, item)
  {
    assert Written([item]) == {item.key};
    assert LastWrite([item], item.key) == Some(item.value);
    assert [item][..0] == [];
    assert Shadows(store, [item]) == [] + [Item(LastKey(item.key), Lookup(store, item.key))];
  }

  lemma CommitFlight(f: Flight, max: nat, c: ClientId, item: Item, shadows: seq<Item>)
    requires WellAged(f, max) && max >= 1 && c in f.items
    ensures var g := Erased(QueuedAll(LockSet(f, c, true), max, c, shadows), c);
            g.items == f.items - {c} && WellAged(g, max) && |g.order| == |f.order| - 1
  {
    var locked := LockSet(f, c, true);
    QueuedAllEffect(locked, max, c, shadows);
    ErasedWellAged(QueuedAll(locked, max, c, shadows), max, c);
    assert c in Elements(f.order);
  }

  lemma LoggedWithRoom(log: Log, max: nat, deltas: seq<Delta>)
    requires Sound(log) && |log.commits| < max
    ensures Logged(log, max, deltas) == Log(log.commits + [NextCommit(log, deltas)], log.highest + 1)
  {
    AppendedChain(log, deltas);
  }

  /** `t` has the store and the history of `s` after one commit of this write. */
  ghost predicate Made(s: Sys, t: Sys, item: Item) {
    && t.maxCommits == s.maxCommits && t.maxClients == s.maxClients
    && t.store == ApplyAll(s.store, Pair(s.store, item))
    && t.log == (if Recording(s.store, item) == [] then s.log
                 else Log(s.log.commits + [NextCommit(s.log, Recording(s.store, item))], s.log.highest + 1))
    && Inv(false, t)
  }

  lemma CommitAlone(s: Sys, c: ClientId, item: Item)
    requires c in s.flight.items && s.flight.items[c] == Bucket(false, [item]) && Shadowed(item.key)
    ensures var op := CommitOp(c, Walk(s.store, item));
            && Possible(s, op) && CommittedBy(s, op) == Some(Batch(c, [item]))
            && Commits(s, Next(s, op), [item], Walk(s.store, item))
            && Next(s, op).maxClients == s.maxClients
            && Next(s, op).flight ==
               QueuedAll(LockSet(s.flight, c, true), s.maxClients, c, Shadows(s.store, [item]))
  {
    OneItem(s.store, item);
  }

  lemma MadeBy(s: Sys, t: Sys, item: Item)
    requires Inv(false, s) && |s.log.commits| < s.maxCommits && Shadowed(item.key)
    requires Commits(s, t, [item], Walk(s.store, item)) && t.maxClients == s.maxClients
    ensures Made(s, t, item)
  {
    OneItem(s.store, item);
    LoggedWithRoom(s.log, s.maxCommits, Recording(s.store, item));
    CommitKeepsInv(false, s, t, [item], Walk(s.store, item));
  }

  ghost predicate HasQueued(s: Sys, c: ClientId, item: Item) {
    && Inv(false, s) && |s.log.commits| < s.maxCommits && WellAged(s.flight, s.maxClients)
    && c in s.flight.items && s.flight.items[c] == Bucket(false, [item])
    && Shadowed(item.key)
  }

  lemma CommitStep(s: Sys, c: ClientId, item: Item)
    requires HasQueued(s, c, item)
    ensures var op := CommitOp(c, Walk(s.store, item));
            var t := Next(Next(s, op), DropOp(c));
            && Possible(s, op) && CommittedBy(s, op) == Some(Batch(c, [item]))
            && Made(s, t, item)
            && t.flight.items == s.flight.items - {c} && |t.flight.order| == |s.flight.order| - 1
            && WellAged(t.flight, t.maxClients)
  {
    var op := CommitOp(c, Walk(s.store, item));
    CommitAlone(s, c, item);
    assert c in Elements(s.flight.order);
    CommitFlight(s.flight, s.maxClients, c, item, Shadows(s.store, [item]));
    MadeBy(s, Next(s, op), item);
    StepKeepsInv(false, Next(s, op), DropOp(c));
  }

  // ----- Runs from a blank installation -----

  lemma Ask(m: Machine, es: seq<Event>, t: Machine, c: ClientId, item: Item) returns (fs: seq<Event>, u: Machine)
    requires Leads(m, es, t) && Room(t.sys) && c !in t.sys.flight.items
    requires item.value.Empty? || TypeCheck(t.sys.store, item)
    ensures Leads(m, fs, u) && Below(u) == Below(t)
    ensures u.sys == t.sys.(flight := u.sys.flight) && Inv(false, u.sys)
    ensures WellAged(u.sys.flight, u.sys.maxClients) && |u.sys.flight.order| == |t.sys.flight.order| + 1
    ensures u.sys.flight.items == t.sys.flight.items[c := Bucket(false, [item])]
  {
    var op := Queueing(item, c);
    QueueStep(t.sys, c, item);
    StepKeepsInv(false, t.sys, op);
    fs, u := es + [Serve(op)], After(t, Serve(op));
    LeadsOn(m, es, t, Serve(op));
  }

  lemma ServeCommit(t: Machine, c: ClientId, item: Item)
    requires HasQueued(t.sys, c, item)
    ensures var op := CommitOp(c, Walk(t.sys.store, item));
            var u := After(After(t, Serve(op)), Serve(DropOp(c)));
            && u.sys == Next(Next(t.sys, op), DropOp(c))
            && Below(u) == AfterWrite(Below(t), DISK_CLIENTS, c, Pair(t.sys.store, item))
  {
    CommitAlone(t.sys, c, item);
    OneItem(t.sys.store, item);
    ServeBelow(t, CommitOp(c, Walk(t.sys.store, item)));
  }

  lemma LeadsTwice(m: Machine, es: seq<Event>, t: Machine, one: Event, c: ClientId)
    requires Leads(m, es, t) && CanHappen(t, one)
    ensures Leads(m, es + [one] + [Serve(DropOp(c))], After(After(t, one), Serve(DropOp(c))))
  {
    LeadsOn(m, es, t, one);
    LeadsOn(m, es + [one], After(t, one), Serve(DropOp(c)));
  }

  lemma Do(m: Machine, es: seq<Event>, t: Machine, c: ClientId, item: Item) returns (fs: seq<Event>, u: Machine)
    requires Leads(m, es, t) && HasQueued(t.sys, c, item)
    ensures Leads(m, fs, u) && Made(t.sys, u.sys, item)
    ensures Below(u) == AfterWrite(Below(t), DISK_CLIENTS, c, Pair(t.sys.store, item))
    ensures u.sys.flight.items == t.sys.flight.items - {c} && |u.sys.flight.order| == |t.sys.flight.order| - 1
    ensures WellAged(u.sys.flight, u.sys.maxClients)
  {
    var op := CommitOp(c, Walk(t.sys.store, item));
    CommitStep(t.sys, c, item);
    ServeCommit(t, c, item);
    LeadsTwice(m, es, t, Serve(op), c);
    fs := es + [Serve(op)] + [Serve(DropOp(c))];
    u := After(After(t, Serve(op)), Serve(DropOp(c)));
  }

  /** Nothing is queued, and there is room for one more commit. */
  ghost predicate Idle(s: Sys) {
    s.flight == EMPTY_FLIGHT && s.maxClients >= 1 && Inv(false, s)
  }

  lemma NothingLeft(f: Flight, c: ClientId, b: Bucket)
    requires f.items == EMPTY_FLIGHT.items[c := b] - {c} && |f.order| == 0
    ensures f == EMPTY_FLIGHT
  {
  }

  /** `Made` does not depend on what is queued. */
  lemma MadeFrom(s: Sys, r: Sys, t: Sys, item: Item)
    requires r == s.(flight := r.flight) && Made(r, t, item)
    ensures Made(s, t, item)
  {
  }

  /** One write, queued and committed. */
  lemma Make(m: Machine, es: seq<Event>, t: Machine, c: ClientId, item: Item) returns (fs: seq<Event>, u: Machine)
    requires Leads(m, es, t) && Idle(t.sys) && |t.sys.log.commits| < t.sys.maxCommits
    requires (item.value.Empty? || TypeCheck(t.sys.store, item)) && Shadowed(item.key)
    ensures Leads(m, fs, u) && Idle(u.sys) && Made(t.sys, u.sys, item)
    ensures Below(u) == AfterWrite(Below(t), DISK_CLIENTS, c, Pair(t.sys.store, item))
  {
    var asked, s := Ask(m, es, t, c, item);
    fs, u := Do(m, asked, s, c, item);
    NothingLeft(u.sys.flight, c, Bucket(false, [item]));
    MadeFrom(t.sys, s.sys, u.sys, item);
  }

  lemma PairLookup(store: Store, item: Item, x: Key)
    requires Shadowed(item.key)
    ensures Lookup(ApplyAll(store, Pair(store, item)), x) ==
            if x == item.key then item.value
            else if x == LastKey(item.key) then Lookup(store, item.key)
            else Lookup(store, x)
  {
    var pair := Pair(store, item);
    ApplyAllLookup(store, pair, x);
    assert pair[..1] == [item] && [item][..0] == [];
    assert LastWrite([item], x) == if x == item.key then Some(item.value) else None;
    assert LastWrite(pair, x) == if x == LastKey(item.key) then Some(Lookup(store, item.key)) else LastWrite([item], x);
  }

  lemma RecordingOf(store: Store, item: Item)
    requires Shadowed(item.key) && item.key != [""]
    ensures Recording(store, item) ==
            var was := Lookup(store, item.key);
            if was.Empty? || !ValueEq(was, item.value) then [Delta(item.key, was, item.value)] else []
  {
    ParseRender(item.key);
    assert LastWrite([item], item.key) == Some(item.value);
  }

  /** The first commit there is. */
  lemma FirstMade(s: Sys, t: Sys, k: Key, p: Payload)
    requires s.store == map[] && s.log == Log([], 0) && Shadowed(k) && k != [""]
    requires Made(s, t, Item(k, Of(p)))
    ensures t.log == Log([Commit(1, 0, [Delta(k, Empty, Of(p))])], 1) && Lookup(t.store, k) == Of(p)
  {
    RecordingOf(s.store, Item(k, Of(p)));
    PairLookup(s.store, Item(k, Of(p)), k);
  }

  // ----- A 0 erased without record -----

  lemma TrailOfOne(c: Commit, d: Delta, k: Key)
    requires c.deltas == [d]
    ensures Trail([c], k) == if k == d.key then [Blamed(c.id, d)] else []
  {
    assert [c][..0] == [] && [d][..0] == [];
    assert DeltaOn([d], k) == if k == d.key then Some(d) else None;
    assert Trail([c], k) == [] + TrailStep(c, k) == TrailStep(c, k);
  }

  /** A history of one commit of one key telescopes exactly when that key follows it. */
  lemma OneOnRecord(exact: bool, c: Commit, d: Delta, store: Store)
    requires c.deltas == [d] && !InLast(d.key)
    ensures Telescopes(exact, [c], store) <==> Follows(exact, d.after, Lookup(store, d.key))
  {
    forall k: Key
      ensures Linked(exact, Trail([c], k), Lookup(store, k)) <==>
              k != d.key || Follows(exact, d.after, Lookup(store, k))
    {
      TrailOfOne(c, d, k);
    }
  }

  /** What goes wrong: history and store before and after. */
  ghost predicate ZeroLost(t: Sys, u: Sys, k: Key) {
    && Lookup(t.store, k) == Of(Int32(0)) && Lookup(u.store, k) == Empty
    && t.log == u.log && u.log.commits == [Commit(1, 0, [Delta(k, Empty, Of(Int32(0)))])]
    && Telescopes(true, t.log.commits, t.store)
    && !Telescopes(true, u.log.commits, u.store) && Telescopes(false, u.log.commits, u.store)
  }

  lemma ZeroMade(s: Sys, t: Sys, u: Sys, k: Key)
    requires s.store == map[] && s.log == Log([], 0) && Shadowed(k) && k != [""]
    requires Made(s, t, Item(k, Of(Int32(0)))) && Made(t, u, Item(k, Empty))
    ensures ZeroLost(t, u, k)
  {
    FirstMade(s, t, k, Int32(0));
    RecordingOf(t.store, Item(k, Empty));
    PairLookup(t.store, Item(k, Empty), k);
    var d := Delta(k, Empty, Of(Int32(0)));
    assert u.log.commits == [Commit(1, 0, [d])];
    OneOnRecord(true, Commit(1, 0, [d]), d, t.store);
    OneOnRecord(true, Commit(1, 0, [d]), d, u.store);
    OneOnRecord(false, Commit(1, 0, [d]), d, u.store);
  }

  /** A new installation with room for a few commits and clients. */
  ghost predicate Blank(m: Machine) {
    && Idle(m.sys) && m.sys.store == map[] && m.sys.log == Log([], 0)
    && m.sys.maxCommits >= 6 && m.sys.maxClients >= 2
    && m.disk == map[] && m.pending == EMPTY_FLIGHT
  }

  /** There is one: what the daemon starts from. */
  lemma BlankExists()
    ensures Blank(Machine(Sys(map[], Log([], 0), EMPTY_FLIGHT, 100, 100), map[], EMPTY_FLIGHT))
  {
    FreshInv(map[], 100, 100);
  }

  /**
   * The erasure of a stored 0 is committed and not recorded: the history still ends at 0, the store has
   * nothing, and the links are no longer exact.
   */
  lemma {:induction false} ZeroErasedUnseen(m: Machine, k: Key) returns (before: seq<Event>, es: seq<Event>)
    requires Blank(m) && Shadowed(k) && k != [""]
    ensures Feasible(m, before) && Feasible(m, es)
    ensures ZeroLost(AfterAll(m, before).sys, AfterAll(m, es).sys, k)
  {
    var t, u;
    before, es, t, u := ZeroErased(m, k);
    LeadsThere(m, before, t);
    LeadsThere(m, es, u);
  }

  lemma ZeroErased(m: Machine, k: Key) returns (before: seq<Event>, es: seq<Event>, t: Machine, u: Machine)
    requires Blank(m) && Shadowed(k) && k != [""]
    ensures Leads(m, before, t) && Leads(m, es, u) && ZeroLost(t.sys, u.sys, k)
  {
    LeadsNowhere(m);
    before, t := Make(m, [], m, 1, Item(k, Of(Int32(0))));
    FirstMade(m.sys, t.sys, k, Int32(0));
    es, u := Make(m, before, t, 1, Item(k, Empty));
    ZeroMade(m.sys, t.sys, u.sys, k);
  }

  // ----- A rollback that restores nothing -----

  lemma NewestMayRollback(s: Sys, d: Delta)
    requires Inv(false, s) && s.log.commits != [] && s.log.commits[|s.log.commits| - 1].deltas == [d]
    ensures var id := s.log.commits[|s.log.commits| - 1].id;
            && MayRollback(s.log.commits, id)
            && LastWithId(s.log.commits, id) == Some(s.log.commits[|s.log.commits| - 1])
  {
    var n := |s.log.commits| - 1;
    assert Untouched(s.log.commits, n);
  }

  lemma NothingQueuedBack(s: Sys, d: Delta)
    requires !Restores(s.store, d)
    ensures QueuedBack(s, [d]) == s
  {
    assert [d][..0] == [];
  }

  /** CanRollback agrees, Set refuses the old value, and nothing happens. */
  lemma RollbackOfOtherType(m: Machine, d: Delta)
    requires Inv(false, m.sys) && m.sys.log.commits != [] && m.sys.log.commits[|m.sys.log.commits| - 1].deltas == [d]
    requires !Restores(m.sys.store, d) && TRANSACTION_HISTORY_ID !in m.sys.flight.items
    ensures var op := RollbackOp(m.sys.log.commits[|m.sys.log.commits| - 1].id, []);
            Possible(m.sys, op) && MayRollback(m.sys.log.commits, op.id) && After(m, Serve(op)) == m
  {
    NewestMayRollback(m.sys, d);
    NothingQueuedBack(m.sys, d);
  }

  lemma TwoLookups(s: Sys, t: Sys, u: Sys, one: Item, two: Item, x: Key)
    requires s.store == map[] && Shadowed(one.key) && one.key == two.key && Shadowed(x)
    requires Made(s, t, one) && Made(t, u, two)
    ensures Lookup(u.store, x) == if x == two.key then two.value else Empty
  {
    PairLookup(s.store, one, x);
    PairLookup(t.store, two, x);
  }

  lemma NextLogged(t: Sys, u: Sys, item: Item, d: Delta)
    requires Made(t, u, item) && Recording(t.store, item) == [d] && t.log.commits != []
    ensures u.log.commits ==
            t.log.commits + [Commit(t.log.highest + 1, t.log.commits[|t.log.commits| - 1].id, [d])]
  {
  }

  lemma SecondLogged(t: Sys, u: Sys, c: Commit, k: Key, p: Payload, q: Payload)
    requires t.log == Log([c], 1) && c.id == 1 && Lookup(t.store, k) == Of(p)
    requires Made(t, u, Item(k, Of(q))) && Shadowed(k) && k != [""] && p != q
    ensures u.log.commits == [c, Commit(2, 1, [Delta(k, Of(p), Of(q))])]
  {
    RecordingOf(t.store, Item(k, Of(q)));
    NextLogged(t, u, Item(k, Of(q)), Delta(k, Of(p), Of(q)));
  }

  /** A second commit, of another value for the same key. */
  lemma TwoMade(s: Sys, t: Sys, u: Sys, k: Key, p: Payload, q: Payload)
    requires s.store == map[] && s.log == Log([], 0) && Shadowed(k) && k != [""] && p != q
    requires Made(s, t, Item(k, Of(p))) && Made(t, u, Item(k, Of(q)))
    ensures u.log.commits == [Commit(1, 0, [Delta(k, Empty, Of(p))]), Commit(2, 1, [Delta(k, Of(p), Of(q))])]
    ensures forall x: Key | Shadowed(x) :: Lookup(u.store, x) == if x == k then Of(q) else Empty
  {
    FirstMade(s, t, k, p);
    SecondLogged(t, u, Commit(1, 0, [Delta(k, Empty, Of(p))]), k, p, q);
    forall x: Key | Shadowed(x)
      ensures Lookup(u.store, x) == if x == k then Of(q) else Empty
    {
      TwoLookups(s, t, u, Item(k, Of(p)), Item(k, Of(q)), x);
    }
  }

  lemma TwoAsked(m: Machine, one: Item, two: Item) returns (es: seq<Event>, t: Machine)
    requires Blank(m) && Shadowed(one.key) && Shadowed(two.key)
    ensures Leads(m, es, t) && t.sys == m.sys.(flight := t.sys.flight)
    ensures HasQueued(t.sys, 1, one) && HasQueued(t.sys, 2, two) && t.sys.flight.items.Keys == {1, 2}
  {
    LeadsNowhere(m);
    var asked, s := Ask(m, [], m, 1, one);
    es, t := Ask(m, asked, s, 2, two);
  }

  lemma StillQueued(r: Sys, t: Sys, c: ClientId, item: Item)
    requires HasQueued(r, c, item) && Inv(false, t) && |t.log.commits| < t.maxCommits
    requires t.flight.items == r.flight.items - {1} && WellAged(t.flight, t.maxClients) && c != 1
    ensures HasQueued(t, c, item) && t.flight.items.Keys == r.flight.items.Keys - {1}
  {
  }

  lemma FirstOfTwo(m: Machine, k: Key, p: Payload, two: Item) returns (es: seq<Event>, t: Machine)
    requires Blank(m) && Shadowed(k) && k != [""] && Shadowed(two.key)
    ensures Leads(m, es, t) && HasQueued(t.sys, 2, two) && t.sys.flight.items.Keys == {2}
    ensures Made(m.sys, t.sys, Item(k, Of(p)))
  {
    var one := Item(k, Of(p));
    var asked, r := TwoAsked(m, one, two);
    es, t := Do(m, asked, r, 1, one);
    MadeFrom(m.sys, r.sys, t.sys, one);
    FirstMade(m.sys, t.sys, k, p);
    StillQueued(r.sys, t.sys, 2, two);
  }

  /** Two clients queue values of two types for one new key, and commit one after the other. */
  lemma TwoTypes(m: Machine, k: Key, p: Payload, q: Payload) returns (es: seq<Event>, u: Machine)
    requires Blank(m) && Shadowed(k) && k != [""] && !SameType(Of(p), Of(q))
    ensures Leads(m, es, u) && Inv(false, u.sys)
    ensures u.sys.log.commits == [Commit(1, 0, [Delta(k, Empty, Of(p))]), Commit(2, 1, [Delta(k, Of(p), Of(q))])]
    ensures Lookup(u.sys.store, k) == Of(q) && u.sys.flight.items.Keys == {}
  {
    var half, t := FirstOfTwo(m, k, p, Item(k, Of(q)));
    es, u := Do(m, half, t, 2, Item(k, Of(q)));
    TwoMade(m.sys, t.sys, u.sys, k, p, q);
  }

  /** Rolling back the second commit succeeds, and leaves the key with the value it should undo. */
  lemma {:induction false} RollbackRestoresNothing(m: Machine, k: Key, p: Payload, q: Payload)
    returns (before: seq<Event>)
    requires Blank(m) && Shadowed(k) && k != [""] && !SameType(Of(p), Of(q))
    ensures var es := before + [Serve(RollbackOp(2, []))];
            var t := AfterAll(m, before);
            && Feasible(m, es) && AfterAll(m, es) == t
            && MayRollback(t.sys.log.commits, 2)
            && |t.sys.log.commits| == 2 && t.sys.log.commits[1] == Commit(2, 1, [Delta(k, Of(p), Of(q))])
            && Lookup(t.sys.store, k) == Of(q)
  {
    var t;
    before, t := TwoTypes(m, k, p, q);
    RollbackOfOtherType(t, Delta(k, Of(p), Of(q)));
    LeadsOn(m, before, t, Serve(RollbackOp(2, [])));
    LeadsThere(m, before, t);
    LeadsThere(m, before + [Serve(RollbackOp(2, []))], t);
  }

  // ----- A reset that is refused -----

  /** A default for a key that is not stored: reset is refused, although nothing has another type. */
  lemma DefaultForNewKey(s: Sys, c: ClientId, k: Key)
    requires DefaultOf(k) in s.store && k !in s.store
    ensures !AllAccepted(s, c)
  {
    assert !Accepted(s, c, DefaultOf(k));
  }

  // ----- A restart that brings an old value back -----

  lemma PairWrites(store: Store, item: Item, x: Key)
    requires Shadowed(item.key)
    ensures LastWrite(Pair(store, item), x) ==
            if x == item.key then Some(item.value)
            else if x == LastKey(item.key) then Some(Lookup(store, item.key))
            else None
    ensures x in Written(Pair(store, item)) <==> x == item.key || x == LastKey(item.key)
    ensures Addressable(item.key) ==> AllAddressable(Pair(store, item))
  {
    var pair := Pair(store, item);
    assert pair[..1] == [item] && [item][..0] == [];
    assert LastWrite([item], x) == if x == item.key then Some(item.value) else None;
    LastWriteOfNone(pair, x);
    if Addressable(item.key) {
      LastKeyAddressable(item.key);
    }
  }

  lemma OnRecord(cs: seq<Commit>, k: Key)
    requires |cs| == 2 && |cs[1].deltas| == 1 && cs[1].deltas[0].key == k
    ensures Trail(cs, k) != []
  {
    assert DeltaOn(cs[1].deltas, k) == Some(cs[1].deltas[0]);
  }

  lemma BlankCoherent(m: Machine)
    requires Blank(m)
    ensures Coherent(Below(m))
  {
  }

  lemma ThreeWritten(m: Machine, one: Store, two: Store, k: Key, p: Payload, q: Payload, other: Item)
    requires Blank(m) && Shadowed(k) && Shadowed(other.key) && Addressable(k) && Addressable(other.key)
    requires other.key != k && p != q
    ensures var w1, w2, w3 := Pair(map[], Item(k, Of(p))), Pair(one, Item(k, Of(q))), Pair(two, other);
            var t := AfterWrite(AfterWrite(Below(m), DISK_CLIENTS, 1, w1), DISK_CLIENTS, 2, w2);
            var u := AfterWrite(t, DISK_CLIENTS, 1, w3);
            WellPlaced(u.disk) && Loads(ApplyAll(t.cache, w1 + w3), u.disk)
  {
    BlankCoherent(m);
    PairWrites(map[], Item(k, Of(p)), k);
    PairWrites(one, Item(k, Of(q)), k);
    PairWrites(two, other, k);
    TwoWritersDiverge(Below(m), DISK_CLIENTS, 1, Pair(map[], Item(k, Of(p))), 2, Pair(one, Item(k, Of(q))),
                      Pair(two, other), k);
  }

  /** Commits of two values for one key, by clients 1 and 2. */
  lemma TwoCommits(m: Machine, k: Key, p: Payload, q: Payload) returns (one: Store, es: seq<Event>, t: Machine)
    requires Blank(m) && Shadowed(k) && k != [""] && p != q && SameType(Of(p), Of(q))
    ensures Leads(m, es, t) && Idle(t.sys)
    ensures Below(t) ==
            AfterWrite(AfterWrite(Below(m), DISK_CLIENTS, 1, Pair(map[], Item(k, Of(p)))),
                       DISK_CLIENTS, 2, Pair(one, Item(k, Of(q))))
    ensures |t.sys.log.commits| == 2 && |t.sys.log.commits| + 1 < t.sys.maxCommits && Trail(t.sys.log.commits, k) != []
    ensures forall x: Key | Shadowed(x) :: Lookup(t.sys.store, x) == if x == k then Of(q) else Empty
  {
    LeadsNowhere(m);
    var first, r := Make(m, [], m, 1, Item(k, Of(p)));
    FirstMade(m.sys, r.sys, k, p);
    es, t := Make(m, first, r, 2, Item(k, Of(q)));
    one := r.sys.store;
    TwoMade(m.sys, r.sys, t.sys, k, p, q);
    OnRecord(t.sys.log.commits, k);
  }

  /** Then client 1 commits another key. */
  lemma ThreeCommits(m: Machine, k: Key, p: Payload, q: Payload, other: Item)
    returns (es: seq<Event>, t: Machine, back: Store)
    requires Blank(m) && Shadowed(k) && Shadowed(other.key) && Addressable(k) && Addressable(other.key)
    requires other.key != k && p != q && SameType(Of(p), Of(q))
    ensures Leads(m, es, t) && Idle(t.sys)
    ensures Lookup(t.sys.store, k) == Of(q) && Trail(t.sys.log.commits, k) != []
    ensures WellPlaced(t.disk) && Loads(back, t.disk) && Lookup(back, k) == Of(p)
  {
    var one, two, s;
    one, two, s := TwoCommits(m, k, p, q);
    assert other.key !in s.sys.store by { assert Lookup(s.sys.store, other.key) == Empty; }
    es, t := Make(m, two, s, 1, other);
    TrailSnoc(s.sys.log.commits, NextCommit(s.sys.log, Recording(s.sys.store, other)), k);
    PairLookup(s.sys.store, other, k);
    var stale := Pair(map[], Item(k, Of(p)));
    ThreeWritten(m, one, s.sys.store, k, p, q, other);
    back := ApplyAll(s.sys.store, stale + Pair(s.sys.store, other));
    ApplyAllLookup(s.sys.store, stale + Pair(s.sys.store, other), k);
    PairWrites(map[], Item(k, Of(p)), k);
    PairWrites(s.sys.store, other, k);
    LastWriteConcat(stale, Pair(s.sys.store, other), k);
  }

  lemma NoLongerTelescopes(s: Sys, k: Key, q: Value, back: Store)
    requires Inv(false, s) && !InLast(k) && Trail(s.log.commits, k) != []
    requires Lookup(s.store, k) == q && Lookup(back, k) != q && !q.Empty? && !Lookup(back, k).Empty?
    ensures !Telescopes(false, s.log.commits, back)
  {
    assert Linked(false, Trail(s.log.commits, k), Lookup(s.store, k));
    assert !Linked(false, Trail(s.log.commits, k), Lookup(back, k));
  }

  /**
   * Client 1 gives a key a value, client 2 another one, client 1 commits some other key, and the daemon
   * is started again: the store has the first value, and the history does not telescope to it.
   */
  lemma {:induction false} RestartBringsBack(m: Machine, k: Key, p: Payload, q: Payload, other: Item)
    returns (before: seq<Event>, e: Event)
    requires Blank(m) && Shadowed(k) && Shadowed(other.key) && Addressable(k) && Addressable(other.key)
    requires other.key != k && p != q && SameType(Of(p), Of(q))
    ensures var t := AfterAll(m, before);
            var u := AfterAll(m, before + [e]);
            && Feasible(m, before + [e]) && e.Restart? && Inv(false, t.sys)
            && Lookup(t.sys.store, k) == Of(q) && Lookup(u.sys.store, k) == Of(p)
            && u.sys.log == t.sys.log && !Telescopes(false, u.sys.log.commits, u.sys.store)
  {
    var t, back;
    before, t, back := ThreeCommits(m, k, p, q, other);
    e := Restart(back, t.sys.log.commits, t.sys.log.highest);
    LeadsOn(m, before, t, e);
    NoLongerTelescopes(t.sys, k, Of(q), back);
    LeadsThere(m, before, t);
    LeadsThere(m, before + [e], After(t, e));
  }

  // ----- A stop in the middle of a commit -----

  /** What goes wrong: the commit is on record, and the store has nothing of it. */
  ghost predicate HistoryAhead(t: Machine, k: Key, p: Payload) {
    && t.sys.log.commits == [Commit(1, 0, [Delta(k, Empty, Of(p))])] && t.sys.store == map[]
    && !Telescopes(false, t.sys.log.commits, t.sys.store)
  }

  lemma StoppedFirst(t: Machine, k: Key, p: Payload)
    requires HasQueued(t.sys, 1, Item(k, Of(p))) && k != [""] && p != Int32(0)
    requires t.sys.store == map[] && t.sys.log == Log([], 0)
    ensures var op := CommitOp(1, Walk(t.sys.store, Item(k, Of(p))));
            && Possible(t.sys, op) && CommittedBy(t.sys, op) == Some(Batch(1, [Item(k, Of(p))]))
            && HistoryAhead(AfterStop(t, op, t.disk, map[]), k, p)
  {
    var item := Item(k, Of(p));
    var op := CommitOp(1, Walk(t.sys.store, item));
    CommitAlone(t.sys, 1, item);
    MadeBy(t.sys, Next(t.sys, op), item);
    RecordingOf(t.sys.store, item);
    var d := Delta(k, Empty, Of(p));
    OneOnRecord(false, Commit(1, 0, [d]), d, map[]);
  }

  /**
   * Client 1 gives a key a value, and the daemon is stopped when the commit is logged and no file is
   * written. The next start has the commit on record and nothing in the store.
   */
  lemma {:induction false} StopLeavesHistoryAhead(m: Machine, k: Key, p: Payload)
    returns (before: seq<Event>, op: Op)
    requires Blank(m) && Shadowed(k) && k != [""] && p != Int32(0)
    ensures var t := AfterAll(m, before);
            && Feasible(m, before) && Inv(false, t.sys) && Coherent(Below(t))
            && Possible(t.sys, op) && CommittedBy(t.sys, op).Some?
            && WellPlaced(t.disk) && Loads(map[], t.disk)
            && HistoryAhead(AfterStop(t, op, t.disk, map[]), k, p)
  {
    LeadsNowhere(m);
    BlankCoherent(m);
    var t;
    before, t := Ask(m, [], m, 1, Item(k, Of(p)));
    op := CommitOp(1, Walk(t.sys.store, Item(k, Of(p))));
    StoppedFirst(t, k, p);
    LeadsThere(m, before, t);
  }

  // ----- A rollback that undoes another one's key on disk -----

  ghost predicate LastMade(s: Sys, d: Delta) {
    && s.log.commits != [] && |s.log.commits| < s.maxCommits
    && s.log.commits[|s.log.commits| - 1].deltas == [d] && d.before.Empty?
  }

  lemma QueuedBackOne(s: Sys, d: Delta)
    requires d.before.Empty?
    ensures QueuedBack(s, [d]) == Next(s, Queueing(Item(d.key, Empty), TRANSACTION_HISTORY_ID))
  {
    assert [d][..0] == [];
    assert QueuedBack(s, [d][..0]) == s;
  }

  /** Rolling back a commit that made a key is a commit of its erasure by the rollbacks' client. */
  lemma RollbackAsCommit(s: Sys, d: Delta, w: seq<Item>)
    requires Inv(false, s) && LastMade(s, d)
    ensures var op := RollbackOp(s.log.commits[|s.log.commits| - 1].id, w);
            var asked := Next(s, Queueing(Item(d.key, Empty), TRANSACTION_HISTORY_ID));
            && Next(s, op) == Next(asked, CommitOp(TRANSACTION_HISTORY_ID, w))
            && CommittedBy(s, op) == CommittedBy(asked, CommitOp(TRANSACTION_HISTORY_ID, w))
            && (Possible(s, op) <==> Possible(asked, CommitOp(TRANSACTION_HISTORY_ID, w)))
  {
    NewestMayRollback(s, d);
    QueuedBackOne(s, d);
  }

  /** The daemon with the rollback's write queued. */
  ghost function Asked(t: Machine, item: Item): Machine {
    t.(sys := Next(t.sys, Queueing(item, TRANSACTION_HISTORY_ID)))
  }

  lemma AskedRollback(t: Machine, item: Item)
    requires Idle(t.sys) && |t.sys.log.commits| < t.sys.maxCommits
    requires item.value.Empty? && Shadowed(item.key)
    ensures var u := Asked(t, item);
            && u.sys == t.sys.(flight := u.sys.flight) && Below(u) == Below(t)
            && HasQueued(u.sys, TRANSACTION_HISTORY_ID, item)
            && u.sys.flight.items == map[TRANSACTION_HISTORY_ID := Bucket(false, [item])]
            && |u.sys.flight.order| == 1
  {
    QueueStep(t.sys, TRANSACTION_HISTORY_ID, item);
    StepKeepsInv(false, t.sys, Queueing(item, TRANSACTION_HISTORY_ID));
  }

  lemma AsksFirst(t: Machine, d: Delta, w: seq<Item>)
    requires Idle(t.sys) && LastMade(t.sys, d) && Shadowed(d.key)
    ensures var op := RollbackOp(t.sys.log.commits[|t.sys.log.commits| - 1].id, w);
            var asked := Asked(t, Item(d.key, Empty));
            && After(t, Serve(op)) == After(asked, Serve(CommitOp(TRANSACTION_HISTORY_ID, w)))
            && (Possible(t.sys, op) <==> Possible(asked.sys, CommitOp(TRANSACTION_HISTORY_ID, w)))
  {
    AskedRollback(t, Item(d.key, Empty));
    RollbackAsCommit(t.sys, d, w);
  }

  lemma ServeRollback(t: Machine, d: Delta)
    requires Idle(t.sys) && LastMade(t.sys, d) && Shadowed(d.key)
    ensures var item := Item(d.key, Empty);
            var op := RollbackOp(t.sys.log.commits[|t.sys.log.commits| - 1].id, Walk(t.sys.store, item));
            var u := After(After(t, Serve(op)), Serve(DropOp(TRANSACTION_HISTORY_ID)));
            && Possible(t.sys, op) && Made(t.sys, u.sys, item) && Idle(u.sys)
            && Below(u) == AfterWrite(Below(t), DISK_CLIENTS, TRANSACTION_HISTORY_ID, Pair(t.sys.store, item))
  {
    var item := Item(d.key, Empty);
    AsksFirst(t, d, Walk(t.sys.store, item));
    AskedRollback(t, item);
    var asked := Asked(t, item);
    CommitStep(asked.sys, TRANSACTION_HISTORY_ID, item);
    ServeCommit(asked, TRANSACTION_HISTORY_ID, item);
  }

  lemma Unmake(m: Machine, es: seq<Event>, t: Machine, d: Delta) returns (fs: seq<Event>, u: Machine)
    requires Leads(m, es, t) && Idle(t.sys) && LastMade(t.sys, d) && Shadowed(d.key)
    ensures Leads(m, fs, u) && Idle(u.sys) && Made(t.sys, u.sys, Item(d.key, Empty))
    ensures Below(u) ==
            AfterWrite(Below(t), DISK_CLIENTS, TRANSACTION_HISTORY_ID, Pair(t.sys.store, Item(d.key, Empty)))
  {
    ServeRollback(t, d);
    var op := RollbackOp(t.sys.log.commits[|t.sys.log.commits| - 1].id, Walk(t.sys.store, Item(d.key, Empty)));
    var drop := DropOp(TRANSACTION_HISTORY_ID);
    LeadsTwice(m, es, t, Serve(op), TRANSACTION_HISTORY_ID);
    fs, u := es + [Serve(op)] + [Serve(drop)], After(After(t, Serve(op)), Serve(drop));
  }

  /** Cache and disk agree, and the disk remembers the writes of at most `n` clients. */
  ghost predicate Settled(s: Stack, n: nat) {
    && Coherent(s) && PendingAddressable(s.pending)
    && WellAged(s.pending, DISK_CLIENTS) && |s.pending.order| <= n
  }

  /** `t` remembers in addition the writes of `c`. */
  ghost predicate Remembers(s: Stack, t: Stack, c: ClientId, items: seq<Item>) {
    && Queue(t.pending, c) == items
    && (forall d | d in s.pending.items :: Queue(t.pending, d) == Queue(s.pending, d))
    && (forall d | d in t.pending.items :: d in s.pending.items || d == c)
  }

  lemma SettledNewcomer(s: Stack, n: nat, c: ClientId, store: Store, item: Item)
    requires Settled(s, n) && n < DISK_CLIENTS && c !in s.pending.items && Addressable(item.key) && Shadowed(item.key)
    ensures var t := AfterWrite(s, DISK_CLIENTS, c, Pair(store, item));
            Settled(t, n + 1) && Remembers(s, t, c, Pair(store, item))
  {
    PairWrites(store, item, item.key);
    NewcomerWrites(s, DISK_CLIENTS, c, Pair(store, item));
  }

  /** One write by a newcomer. */
  lemma MakeNew(m: Machine, es: seq<Event>, t: Machine, n: nat, c: ClientId, item: Item)
    returns (fs: seq<Event>, u: Machine)
    requires Leads(m, es, t) && Idle(t.sys) && |t.sys.log.commits| < t.sys.maxCommits
    requires item.key !in t.sys.store && Shadowed(item.key) && Addressable(item.key)
    requires Settled(Below(t), n) && n < DISK_CLIENTS && c !in t.pending.items
    ensures Leads(m, fs, u) && Idle(u.sys) && Made(t.sys, u.sys, item)
    ensures Settled(Below(u), n + 1) && Remembers(Below(t), Below(u), c, Pair(t.sys.store, item))
  {
    fs, u := Make(m, es, t, c, item);
    SettledNewcomer(Below(t), n, c, t.sys.store, item);
  }

  lemma BlankSettled(m: Machine)
    requires Blank(m)
    ensures Settled(Below(m), 0)
  {
  }

  lemma AtMostOneMore(s: Sys, t: Sys, item: Item)
    requires Made(s, t, item)
    ensures |t.log.commits| <= |s.log.commits| + 1 && t.maxCommits == s.maxCommits
  {
  }

  lemma NothingVisible(s: Sys, t: Sys, u: Sys, k: Key, p: Payload)
    requires s.store == map[] && Shadowed(k) && Made(s, t, Item(k, Of(p))) && Made(t, u, Item(k, Empty))
    ensures forall x: Key | Shadowed(x) :: x !in u.store
  {
    forall x: Key | Shadowed(x)
      ensures x !in u.store
    {
      TwoLookups(s, t, u, Item(k, Of(p)), Item(k, Empty), x);
    }
  }

  lemma LastRecorded(s: Sys, t: Sys, j: Key, w: Payload)
    requires Made(s, t, Item(j, Of(w))) && Shadowed(j) && j != [""] && j !in s.store
    requires |s.log.commits| + 1 < s.maxCommits
    ensures LastMade(t, Delta(j, Empty, Of(w))) && Lookup(t.store, j) == Of(w)
    ensures forall x: Key | Shadowed(x) && x != j :: Lookup(t.store, x) == Lookup(s.store, x)
  {
    RecordingOf(s.store, Item(j, Of(w)));
    forall x: Key | Shadowed(x)
      ensures Lookup(t.store, x) == if x == j then Of(w) else Lookup(s.store, x)
    {
      PairLookup(s.store, Item(j, Of(w)), x);
    }
  }

  /** A key is made by client 1. */
  lemma MadeOnce(m: Machine, k: Key, p: Payload) returns (es: seq<Event>, t: Machine)
    requires Blank(m) && Shadowed(k) && Addressable(k)
    ensures Leads(m, es, t) && Idle(t.sys) && |t.sys.log.commits| + 5 <= t.sys.maxCommits
    ensures LastMade(t.sys, Delta(k, Empty, Of(p))) && Made(m.sys, t.sys, Item(k, Of(p)))
    ensures Settled(Below(t), 1) && forall d | d in t.pending.items :: d == 1
  {
    BlankSettled(m);
    LeadsNowhere(m);
    es, t := MakeNew(m, [], m, 0, 1, Item(k, Of(p)));
    FirstMade(m.sys, t.sys, k, p);
  }

  /** The first rollback. */
  lemma UnmakeNew(m: Machine, es: seq<Event>, t: Machine, n: nat, d: Delta) returns (fs: seq<Event>, u: Machine)
    requires Leads(m, es, t) && Idle(t.sys) && LastMade(t.sys, d) && Shadowed(d.key) && Addressable(d.key)
    requires Settled(Below(t), n) && n < DISK_CLIENTS && TRANSACTION_HISTORY_ID !in t.pending.items
    ensures Leads(m, fs, u) && Idle(u.sys) && Made(t.sys, u.sys, Item(d.key, Empty))
    ensures Settled(Below(u), n + 1)
    ensures Remembers(Below(t), Below(u), TRANSACTION_HISTORY_ID, Pair(t.sys.store, Item(d.key, Empty)))
  {
    fs, u := Unmake(m, es, t, d);
    SettledNewcomer(Below(t), n, TRANSACTION_HISTORY_ID, t.sys.store, Item(d.key, Empty));
  }

  /** The disk remembers an erasure of `k` by the rollbacks' client, and no writes of clients 3 and above but 5. */
  ghost predicate RemembersErasure(t: Machine, a: Store, k: Key) {
    && Queue(t.pending, TRANSACTION_HISTORY_ID) == Pair(a, Item(k, Empty)) && TRANSACTION_HISTORY_ID in t.pending.items
    && 3 !in t.pending.items
  }

  lemma QueuedSome(f: Flight, c: ClientId)
    requires Queue(f, c) != []
    ensures c in f.items
  {
  }

  /** A key is made by client 1 and unmade by a rollback. */
  lemma MadeAndUnmade(m: Machine, k: Key, p: Payload) returns (es: seq<Event>, t: Machine, a: Store)
    requires Blank(m) && Shadowed(k) && Addressable(k)
    ensures Leads(m, es, t) && Idle(t.sys) && |t.sys.log.commits| + 4 <= t.sys.maxCommits
    ensures forall x: Key | Shadowed(x) :: x !in t.sys.store
    ensures Settled(Below(t), 2) && RemembersErasure(t, a, k) && 2 !in t.pending.items
  {
    var one, r := MadeOnce(m, k, p);
    a := r.sys.store;
    es, t := UnmakeNew(m, one, r, 1, Delta(k, Empty, Of(p)));
    QueuedSome(t.pending, TRANSACTION_HISTORY_ID);
    AtMostOneMore(r.sys, t.sys, Item(k, Empty));
    NothingVisible(m.sys, r.sys, t.sys, k, p);
  }

  /** Then client 2 makes it again. */
  lemma MadeAgain(m: Machine, k: Key, p: Payload, q: Payload) returns (es: seq<Event>, t: Machine, a: Store)
    requires Blank(m) && Shadowed(k) && Addressable(k)
    ensures Leads(m, es, t) && Idle(t.sys) && |t.sys.log.commits| + 3 <= t.sys.maxCommits
    ensures forall x: Key | Shadowed(x) :: Lookup(t.sys.store, x) == if x == k then Of(q) else Empty
    ensures Settled(Below(t), 3) && RemembersErasure(t, a, k)
  {
    var two, s;
    two, s, a := MadeAndUnmade(m, k, p);
    es, t := MakeNew(m, two, s, 2, 2, Item(k, Of(q)));
    QueuedSome(t.pending, TRANSACTION_HISTORY_ID);
    AtMostOneMore(s.sys, t.sys, Item(k, Of(q)));
    LastRecorded(s.sys, t.sys, k, q);
  }

  /** And client 3 another key. */
  lemma AnotherMade(m: Machine, k: Key, p: Payload, q: Payload, j: Key, w: Payload)
    returns (es: seq<Event>, u: Machine, a: Store)
    requires Blank(m) && Shadowed(k) && Shadowed(j) && Addressable(k) && Addressable(j) && j != k
    ensures Leads(m, es, u) && Idle(u.sys) && LastMade(u.sys, Delta(j, Empty, Of(w)))
    ensures Lookup(u.sys.store, k) == Of(q) && Lookup(u.sys.store, j) == Of(w)
    ensures Settled(Below(u), 4) && Queue(u.pending, TRANSACTION_HISTORY_ID) == Pair(a, Item(k, Empty))
  {
    var three, t;
    three, t, a := MadeAgain(m, k, p, q);
    assert Lookup(t.sys.store, j) == Empty;
    es, u := MakeNew(m, three, t, 3, 3, Item(j, Of(w)));
    LastRecorded(t.sys, u.sys, j, w);
  }

  /**
   * Client 1 makes a key, its commit is rolled back, client 2 makes the key again, and client 3 makes
   * another key. Rolling that last commit back touches no other key in the cache, as it should, but on
   * disk it removes client 2's key.
   */
  lemma {:induction false} RollbackRemovesOnDisk(m: Machine, k: Key, p: Payload, q: Payload, j: Key, w: Payload)
    returns (before: seq<Event>, es: seq<Event>)
    requires Blank(m) && Shadowed(k) && Shadowed(j) && Addressable(k) && Addressable(j) && j != k
    ensures var t, u := AfterAll(m, before), AfterAll(m, es);
            && Feasible(m, before) && Feasible(m, es)
            && Coherent(Below(t)) && !Coherent(Below(u))
            && Lookup(t.sys.store, j) == Of(w) && Lookup(u.sys.store, j) == Empty
            && Lookup(u.sys.store, k) == Of(q) && OnDisk(u.disk, k) == Empty
  {
    var t, u;
    before, es, t, u := RemovedOnDisk(m, k, p, q, j, w);
    LeadsThere(m, before, t);
    LeadsThere(m, es, u);
  }

  lemma RemovedOnDisk(m: Machine, k: Key, p: Payload, q: Payload, j: Key, w: Payload)
    returns (before: seq<Event>, es: seq<Event>, t: Machine, u: Machine)
    requires Blank(m) && Shadowed(k) && Shadowed(j) && Addressable(k) && Addressable(j) && j != k
    ensures Leads(m, before, t) && Leads(m, es, u) && Coherent(Below(t)) && !Coherent(Below(u))
    ensures Lookup(t.sys.store, j) == Of(w) && Lookup(u.sys.store, j) == Empty
    ensures Lookup(u.sys.store, k) == Of(q) && OnDisk(u.disk, k) == Empty
  {
    var a;
    before, t, a := AnotherMade(m, k, p, q, j, w);
    es, u := Unmake(m, before, t, Delta(j, Empty, Of(w)));
    var gone := Item(j, Empty);
    PairLookup(t.sys.store, gone, j);
    PairWrites(a, Item(k, Empty), k);
    PairWrites(t.sys.store, gone, k);
    OutdatedWriteReturns(Below(t), DISK_CLIENTS, TRANSACTION_HISTORY_ID, Pair(t.sys.store, gone), k);
  }
}
