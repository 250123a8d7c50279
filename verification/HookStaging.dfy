/**
 * Running hooks in stages (src/HookManager.h:15-44, src/HookManager.cpp:36-55): futures as a small
 * language, and their execution while processes end in any order.
 */
module HookStaging {
  import opened Arithmetic
  import opened Sequences
  import opened Hooks

  // ----- Batches -----

  /** Buckets fill up one after the other: `q` are full, and the next one holds `r` hooks. */
  ghost predicate Filled(buckets: seq<seq<HookUser>>, q: int, r: int, cores: int) {
    forall k | 0 <= k < |buckets| :: |buckets[k]| == if k < q then cores else if k == q then r else 0
  }

  lemma {:induction false} NextIndex(j: nat, cores: nat)
    requires cores >= 1
    ensures j % cores < cores
    ensures if j % cores + 1 < cores then (j + 1) / cores == j / cores && (j + 1) % cores == j % cores + 1
            else (j + 1) / cores == j / cores + 1 && (j + 1) % cores == 0
  {
    Divided(j, cores);
    if j % cores + 1 < cores {
      QuotientIs(j + 1, j / cores, cores);
    } else {
      QuotientIs(j + 1, j / cores + 1, cores);
    }
  }

  /** The index is always within the number of buckets the code makes. */
  lemma {:induction false} BucketIndex(j: nat, n: nat, cores: nat)
    requires cores >= 1 && j < n
    ensures j / cores < n / cores + n % cores
  {
    var p, q := j / cores, n / cores;
    Divided(j, cores);
    Divided(n, cores);
    if q < p {
      TimesApart(p, q, cores);
    }
  }

  lemma {:induction false} FlattenPush(batches: seq<seq<HookUser>>, k: nat, hook: HookUser)
    requires k < |batches| && forall i | k < i < |batches| :: batches[i] == []
    ensures Flatten(batches[k := batches[k] + [hook]]) == Flatten(batches) + [hook]
    decreases |batches|
  {
    var n := |batches| - 1;
    var more := batches[k := batches[k] + [hook]];
    if k < n {
      FlattenPush(batches[..n], k, hook);
      assert more[..n] == batches[..n][k := batches[k] + [hook]];
    } else {
      assert more[..n] == batches[..n];
    }
  }

  lemma {:induction false} FlattenEmpty(batches: seq<seq<HookUser>>)
    requires forall i | 0 <= i < |batches| :: batches[i] == []
    ensures Flatten(batches) == []
  {
    if batches != [] {
      FlattenEmpty(batches[..|batches| - 1]);
    }
  }

  /** One more hook, in bucket `q`. */
  lemma FilledPush(buckets: seq<seq<HookUser>>, q: nat, r: nat, cores: nat, hook: HookUser)
    requires Filled(buckets, q, r, cores) && q < |buckets| && r < cores
    ensures var more := buckets[q := buckets[q] + [hook]];
            && Flatten(more) == Flatten(buckets) + [hook]
            && if r + 1 < cores then Filled(more, q, r + 1, cores) else Filled(more, q + 1, 0, cores)
  {
    FlattenPush(buckets, q, hook);
  }

  /** The hooks in order, each once: all buckets full, then one with the remainder, then empty ones. */
  method Batches(subprocs: seq<HookUser>, cores: nat)
    returns (coreBuckets: seq<seq<HookUser>>, ghost q: nat, ghost r: nat)
    requires cores >= 1
    ensures q == |subprocs| / cores && r == |subprocs| % cores && r < cores
    ensures |coreBuckets| == q + r
    ensures Flatten(coreBuckets) == subprocs
    ensures Filled(coreBuckets, q, r, cores)
    ensures forall b | b in coreBuckets :: |b| <= cores
  {
    coreBuckets := seq(|subprocs| / cores + |subprocs| % cores, _ => []);
    FlattenEmpty(coreBuckets);
    QuotientIs(0, 0, cores);
    q, r := 0, 0;
    for j := 0 to |subprocs|
      invariant |coreBuckets| == |subprocs| / cores + |subprocs| % cores
      invariant q == j / cores && r == j % cores && r < cores
      invariant Flatten(coreBuckets) == subprocs[..j]
      invariant Filled(coreBuckets, q, r, cores)
    {
      BucketIndex(j, |subprocs|, cores);
      FilledPush(coreBuckets, q, r, cores, subprocs[j]);
      var coreCounter := j / cores;
      coreBuckets := coreBuckets[coreCounter := coreBuckets[coreCounter] + [subprocs[j]]];
      NextIndex(j, cores);
      q, r := (j + 1) / cores, (j + 1) % cores;
    }
    assert subprocs[..|subprocs|] == subprocs;
  }

  // ----- Futures -----

  /** makeFuture(), collect() of the hooks it starts, and thenValue(). */
  datatype Future = Ready | Together(hooks: seq<HookUser>) | Then(first: Future, next: Future)

  /** The groups of hooks that run together, in order. */
  function Flat(f: Future): (bs: seq<seq<HookUser>>)
    ensures forall b | b in bs :: b != []
  {
    match f
    case Ready => []
    case Together(hooks) => if hooks == [] then [] else [hooks]
    case Then(first, next) => Flat(first) + Flat(next)
  }

  ghost predicate Small(bs: seq<seq<HookUser>>, cores: nat) {
    forall b | b in bs :: |b| <= cores
  }

  function Chain(buckets: seq<seq<HookUser>>): Future {
    if buckets == [] then Ready else Then(Chain(buckets[..|buckets| - 1]), Together(buckets[|buckets| - 1]))
  }

  /** The empty buckets at the end make no difference. */
  lemma {:induction false} ChainFlat(buckets: seq<seq<HookUser>>, used: nat)
    requires used <= |buckets| && forall k | 0 <= k < |buckets| :: buckets[k] != [] <==> k < used
    ensures Flat(Chain(buckets)) == buckets[..used]
    ensures Flatten(buckets[..used]) == Flatten(buckets)
  {
    if buckets == [] {
    } else if used == |buckets| {
      ChainFlat(buckets[..used - 1], used - 1);
      assert buckets[..used - 1] + [buckets[used - 1]] == buckets[..used] == buckets;
    } else {
      ChainFlat(buckets[..|buckets| - 1], used);
      assert buckets[..|buckets| - 1][..used] == buckets[..used];
      assert Flatten(buckets) == Flatten(buckets[..|buckets| - 1]) + [];
    }
  }

  method ChainOf(coreBuckets: seq<seq<HookUser>>) returns (finalFuture: Future)
    ensures finalFuture == Chain(coreBuckets)
  {
    finalFuture := Ready;
    for i := 0 to |coreBuckets|
      invariant finalFuture == Chain(coreBuckets[..i])
    {
      assert coreBuckets[..i + 1][..i] == coreBuckets[..i];
      finalFuture := Then(finalFuture, Together(coreBuckets[i]));
    }
    assert coreBuckets[..|coreBuckets|] == coreBuckets;
  }

  lemma UsedBuckets(buckets: seq<seq<HookUser>>, q: nat, r: nat, cores: nat)
    requires r < cores && |buckets| == q + r && Filled(buckets, q, r, cores)
    ensures var bs := Flat(Chain(buckets));
            && Flatten(bs) == Flatten(buckets) && Small(bs, cores)
            && Filled(bs, q, r, cores) && |bs| == q + if r > 0 then 1 else 0
  {
    var used := q + if r > 0 then 1 else 0;
    assert forall k | 0 <= k < |buckets| :: buckets[k] != [] <==> |buckets[k]| > 0;
    ChainFlat(buckets, used);
    assert forall k | 0 <= k < used :: buckets[..used][k] == buckets[k];
  }

  /** As many full groups as the hooks fill, then one with the remainder, if any; in order. */
  method SplitSubprocessesAcrossCores(subprocs: seq<HookUser>, cores: nat) returns (finalFuture: Future)
    requires cores >= 1
    ensures Flatten(Flat(finalFuture)) == subprocs && Small(Flat(finalFuture), cores)
    ensures Filled(Flat(finalFuture), |subprocs| / cores, |subprocs| % cores, cores)
    ensures |Flat(finalFuture)| == |subprocs| / cores + if |subprocs| % cores > 0 then 1 else 0
  {
    var coreBuckets;
    ghost var q, r;
    coreBuckets, q, r := Batches(subprocs, cores);
    UsedBuckets(coreBuckets, q, r, cores);
    finalFuture := ChainOf(coreBuckets);
  }

  // ----- Running a future -----

  /** What a running future waits for, and what comes then. */
  datatype Run = Succeeded | Failed | Waiting(hooks: set<HookUser>) | Before(now: Run, next: Future)

  function Start(f: Future): Run
    decreases f, 0
  {
    match f
    case Ready => Succeeded
    case Together(hooks) => if hooks == [] then Succeeded else Waiting(Elements(hooks))
    case Then(first, next) => Continue(Start(first), next)
  }

  /** thenValue: the next future starts when the first one has succeeded, and never if it failed. */
  function Continue(now: Run, next: Future): Run
    decreases next, 1
  {
    match now
    case Succeeded => Start(next)
    case Failed => Failed
    case _ => Before(now, next)
  }

  /** The hooks that starting the future starts. */
  function Launched(f: Future): seq<HookUser> {
    match f
    case Ready => []
    case Together(hooks) => hooks
    case Then(first, next) => if Start(first).Succeeded? then Launched(next) else Launched(first)
  }

  /** A process ends. collect() fails with the first failure; the others of its group run on. */
  function Finish(r: Run, h: HookUser, ok: bool): Run {
    match r
    case Waiting(hooks) =>
      if h !in hooks then r else if !ok then Failed else if hooks == {h} then Succeeded else Waiting(hooks - {h})
    case Before(now, next) => Continue(Finish(now, h, ok), next)
    case _ => r
  }

  function LaunchedBy(r: Run, h: HookUser, ok: bool): seq<HookUser> {
    match r
    case Before(now, next) => if Finish(now, h, ok).Succeeded? then Launched(next) else LaunchedBy(now, h, ok)
    case _ => []
  }

  datatype Event = Started(hook: HookUser) | Finished(hook: HookUser, ok: bool)

  datatype World = World(run: Run, running: set<HookUser>, log: seq<Event>)

  function Starts(hooks: seq<HookUser>): seq<Event> {
    seq(|hooks|, i requires 0 <= i < |hooks| => Started(hooks[i]))
  }

  datatype Ending = Ending(hook: HookUser, ok: bool)

  function Next(w: World, h: HookUser, ok: bool): World {
    var launched := LaunchedBy(w.run, h, ok);
    World(Finish(w.run, h, ok), w.running - {h} + Elements(launched), w.log + [Finished(h, ok)] + Starts(launched))
  }

  /** The execution of a future in which processes end in this order. */
  function After(f: Future, endings: seq<Ending>): World {
    if endings == [] then World(Start(f), Elements(Launched(f)), Starts(Launched(f)))
    else
      var e := endings[|endings| - 1];
      Next(After(f, endings[..|endings| - 1]), e.hook, e.ok)
  }

  /** Only running processes end. */
  predicate Possible(f: Future, endings: seq<Ending>) {
    endings == [] ||
    (Possible(f, endings[..|endings| - 1]) &&
     endings[|endings| - 1].hook in After(f, endings[..|endings| - 1]).running)
  }

  // ----- Nested futures as one list of groups -----

  predicate Active(r: Run) {
    match r
    case Waiting(hooks) => hooks != {}
    case Before(now, _) => Active(now)
    case _ => false
  }

  function Current(r: Run): set<HookUser> {
    match r
    case Waiting(hooks) => hooks
    case Before(now, _) => Current(now)
    case _ => {}
  }

  function Left(r: Run): seq<seq<HookUser>> {
    match r
    case Before(now, next) => Left(now) + Flat(next)
    case _ => []
  }

  /** The run waits for the first of these groups, and the others come after it. */
  predicate AtGroup(r: Run, launched: seq<HookUser>, bs: seq<seq<HookUser>>) {
    if bs == [] then r.Succeeded? && launched == []
    else Active(r) && Current(r) == Elements(bs[0]) && Left(r) == bs[1..] && launched == bs[0]
  }

  lemma {:induction false} StartAtGroup(f: Future)
    ensures AtGroup(Start(f), Launched(f), Flat(f))
  {
    match f
    case Ready =>
    case Together(hooks) =>
      assert hooks != [] ==> hooks[0] in Elements(hooks);
    case Then(first, next) =>
      StartAtGroup(first);
      StartAtGroup(next);
      if Flat(first) == [] {
        assert Flat(f) == Flat(next);
        assert Start(f) == Start(next) && Launched(f) == Launched(next);
      } else {
        assert Active(Start(first)) && Start(f) == Before(Start(first), next);
        assert (Flat(first) + Flat(next))[1..] == Flat(first)[1..] + Flat(next);
      }
  }

  /** One ending: the group shrinks, fails, or gives way to the next group. */
  lemma {:induction false} FinishAtGroup(r: Run, h: HookUser, ok: bool)
    requires Active(r)
    ensures var t, launched := Finish(r, h, ok), LaunchedBy(r, h, ok);
            if h !in Current(r) then t == r && launched == []
            else if !ok then t.Failed? && launched == []
            else if Current(r) == {h} then AtGroup(t, launched, Left(r))
            else Active(t) && Current(t) == Current(r) - {h} && Left(t) == Left(r) && launched == []
  {
    match r
    case Waiting(hooks) =>
    case Before(now, next) =>
      FinishAtGroup(now, h, ok);
      if h in Current(now) && ok && Current(now) == {h} {
        if Left(now) == [] {
          StartAtGroup(next);
          assert Left(now) + Flat(next) == Flat(next);
        } else {
          assert (Left(now) + Flat(next))[1..] == Left(now)[1..] + Flat(next);
        }
      }
  }

  // ----- Every execution is staged -----

  /** No hook is in two groups, or twice in one. */
  ghost predicate Apart(bs: seq<seq<HookUser>>) {
    && (forall i, j, h | 0 <= i < j < |bs| && h in bs[i] :: h !in bs[j])
    && (forall i | 0 <= i < |bs| :: NoDup(bs[i]))
  }

  /** A hook may start once, with no failure so far and every hook of every earlier group succeeded. */
  ghost predicate MayStart(before: seq<Event>, bs: seq<seq<HookUser>>, h: HookUser) {
    && Started(h) !in before
    && (forall g :: Finished(g, false) !in before)
    && (forall i, j, g | 0 <= i < j < |bs| && h in bs[j] && g in bs[i] :: Finished(g, true) in before)
  }

  ghost predicate Orderly(log: seq<Event>, bs: seq<seq<HookUser>>) {
    log == [] ||
    var before, e := log[..|log| - 1], log[|log| - 1];
    Orderly(before, bs) && (e.Started? ==> MayStart(before, bs, e.hook))
  }

  lemma OrderlySnoc(log: seq<Event>, bs: seq<seq<HookUser>>, e: Event)
    requires Orderly(log, bs) && (e.Started? ==> MayStart(log, bs, e.hook))
    ensures Orderly(log + [e], bs)
  {
    assert (log + [e])[..|log|] == log;
  }

  /** The first `i` groups have been started, and all but the last of them have succeeded. */
  ghost predicate Stage(w: World, bs: seq<seq<HookUser>>, i: nat) {
    && i <= |bs|
    && (forall h :: Started(h) in w.log ==> exists k :: 0 <= k < i && h in bs[k])
    && (forall k, h | 0 <= k < i - 1 && h in bs[k] :: Finished(h, true) in w.log)
    && (i > 0 ==> w.running <= Elements(bs[i - 1]))
    && (i == 0 ==> w.running == {})
    && (i > 0 && !w.run.Failed? ==> forall h | h in bs[i - 1] && h !in w.running :: Finished(h, true) in w.log)
  }

  /** A hook is running from its start to its end. */
  ghost predicate Tracks(w: World) {
    && (forall h :: h in w.running <==>
                    Started(h) in w.log && Finished(h, true) !in w.log && Finished(h, false) !in w.log)
    && (forall h, ok :: Finished(h, ok) in w.log ==> Started(h) in w.log)
  }

  ghost predicate Staged(w: World, bs: seq<seq<HookUser>>, i: nat) {
    && Stage(w, bs, i) && Tracks(w) && Orderly(w.log, bs)
    && (w.run.Failed? <==> exists h :: Finished(h, false) in w.log)
    && (w.run.Succeeded? ==> i == |bs| && w.running == {})
    && (|| w.run.Failed? || w.run.Succeeded?
        || (Active(w.run) && i > 0 && Current(w.run) == w.running && Left(w.run) == bs[i..]))
  }

  lemma StartsHave(hooks: seq<HookUser>)
    ensures forall h :: Started(h) in Starts(hooks) <==> h in hooks
    ensures forall h, ok :: Finished(h, ok) !in Starts(hooks)
  {
    forall h | h in hooks
      ensures Started(h) in Starts(hooks)
    {
      var i :| 0 <= i < |hooks| && hooks[i] == h;
      assert Starts(hooks)[i] == Started(h);
    }
  }

  lemma GroupMayStart(log: seq<Event>, bs: seq<seq<HookUser>>, i: nat, before: seq<HookUser>, h: HookUser)
    requires i < |bs| && Apart(bs) && h in bs[i] && h !in before
    requires Started(h) !in log && forall g :: Finished(g, false) !in log
    requires forall k, g | 0 <= k < i && g in bs[k] :: Finished(g, true) in log
    ensures MayStart(log + Starts(before), bs, h)
  {
    StartsHave(before);
    assert forall j | 0 <= j < |bs| && h in bs[j] :: j == i;
  }

  /** Starting a group, hook by hook, when everything before it has succeeded. */
  lemma {:induction false} OrderlyGroup(log: seq<Event>, bs: seq<seq<HookUser>>, i: nat, n: nat)
    requires i < |bs| && n <= |bs[i]| && Apart(bs) && Orderly(log, bs)
    requires forall h | h in bs[i] :: Started(h) !in log
    requires forall h :: Finished(h, false) !in log
    requires forall k, h | 0 <= k < i && h in bs[k] :: Finished(h, true) in log
    ensures Orderly(log + Starts(bs[i][..n]), bs)
  {
    if n == 0 {
      assert log + Starts(bs[i][..n]) == log;
    } else {
      var before, h := bs[i][..n - 1], bs[i][n - 1];
      OrderlyGroup(log, bs, i, n - 1);
      assert NoDup(bs[i]);
      assert forall p | 0 <= p < n - 1 :: Nth(bs[i], p) == before[p] && before[p] != Nth(bs[i], n - 1);
      GroupMayStart(log, bs, i, before, h);
      OrderlySnoc(log + Starts(before), bs, Started(h));
      assert log + Starts(bs[i][..n]) == log + Starts(before) + [Started(h)];
    }
  }

  /** The next group starts: the world moves from one stage to the next. */
  lemma NextGroup(t: Run, bs: seq<seq<HookUser>>, i: nat, log: seq<Event>)
    requires i < |bs| && Apart(bs) && Orderly(log, bs)
    requires AtGroup(t, bs[i], bs[i..])
    requires forall h :: Started(h) in log ==> exists k :: 0 <= k < i && h in bs[k]
    requires forall h :: Finished(h, false) !in log
    requires forall k, h | 0 <= k < i && h in bs[k] :: Finished(h, true) in log
    requires forall h :: Started(h) in log ==> Finished(h, true) in log
    requires forall h :: Finished(h, true) in log ==> Started(h) in log
    ensures Staged(World(t, Elements(bs[i]), log + Starts(bs[i])), bs, i + 1)
  {
    StartsHave(bs[i]);
    assert bs[i][..|bs[i]|] == bs[i];
    OrderlyGroup(log, bs, i, |bs[i]|);
    assert bs[i..][1..] == bs[i + 1..];
  }

  lemma Begins(f: Future)
    requires Apart(Flat(f))
    ensures exists i :: Staged(After(f, []), Flat(f), i)
  {
    var bs := Flat(f);
    StartAtGroup(f);
    if bs == [] {
      assert Staged(After(f, []), bs, 0);
    } else {
      assert bs[0..] == bs;
      NextGroup(Start(f), bs, 0, []);
      assert [] + Starts(bs[0]) == Starts(bs[0]);
      assert Staged(After(f, []), bs, 1);
    }
  }

  /** The world after an ending that starts nothing. */
  function Ended(w: World, t: Run, h: HookUser, ok: bool): World {
    World(t, w.running - {h}, w.log + [Finished(h, ok)])
  }

  lemma EndedTracks(w: World, bs: seq<seq<HookUser>>, t: Run, h: HookUser, ok: bool)
    requires Tracks(w) && Orderly(w.log, bs) && h in w.running
    ensures Tracks(Ended(w, t, h, ok)) && Orderly(Ended(w, t, h, ok).log, bs)
    ensures forall e :: e in Ended(w, t, h, ok).log <==> e in w.log || e == Finished(h, ok)
  {
    OrderlySnoc(w.log, bs, Finished(h, ok));
  }

  lemma AfterFailure(w: World, bs: seq<seq<HookUser>>, i: nat, h: HookUser, ok: bool)
    requires Staged(w, bs, i) && h in w.running
    requires w.run.Failed? || !ok
    ensures Staged(Ended(w, Failed, h, ok), bs, i)
  {
    EndedTracks(w, bs, Failed, h, ok);
    var v := Ended(w, Failed, h, ok);
    if w.run.Failed? {
      var g :| Finished(g, false) in w.log;
      assert Finished(g, false) in v.log;
    } else {
      assert Finished(h, false) in v.log;
    }
  }

  lemma GroupGoesOn(w: World, bs: seq<seq<HookUser>>, i: nat, h: HookUser, t: Run)
    requires Staged(w, bs, i) && h in w.running && !w.run.Failed?
    requires Active(t) && Current(t) == w.running - {h} && Left(t) == bs[i..]
    ensures Staged(Ended(w, t, h, true), bs, i)
  {
    EndedTracks(w, bs, t, h, true);
  }

  lemma GroupDone(w: World, bs: seq<seq<HookUser>>, i: nat, h: HookUser, t: Run, launched: seq<HookUser>)
    requires Apart(bs) && Staged(w, bs, i) && w.running == {h} && !w.run.Failed?
    requires AtGroup(t, launched, bs[i..])
    ensures exists j :: Staged(World(t, Elements(launched), w.log + [Finished(h, true)] + Starts(launched)), bs, j)
  {
    EndedTracks(w, bs, t, h, true);
    var v := Ended(w, t, h, true);
    forall k, g | 0 <= k < i && g in bs[k]
      ensures Finished(g, true) in v.log
    {
      if k == i - 1 {
        assert g in w.running || Finished(g, true) in w.log;
      }
    }
    if i == |bs| {
      assert v.log + Starts(launched) == v.log;
      assert Staged(World(t, Elements(launched), v.log), bs, i);
    } else {
      assert bs[i..][0] == bs[i];
      NextGroup(t, bs, i, v.log);
      assert Staged(World(t, Elements(launched), v.log + Starts(launched)), bs, i + 1);
    }
  }

  lemma StepStaged(w: World, bs: seq<seq<HookUser>>, i: nat, h: HookUser, ok: bool) returns (j: nat)
    requires Apart(bs) && Staged(w, bs, i) && h in w.running
    ensures Staged(Next(w, h, ok), bs, j)
  {
    j := i;
    var t, launched := Finish(w.run, h, ok), LaunchedBy(w.run, h, ok);
    if w.run.Failed? || !ok {
      if !w.run.Failed? {
        FinishAtGroup(w.run, h, ok);
      }
      AfterFailure(w, bs, i, h, ok);
      NothingLaunched(w, t, h, ok);
    } else {
      FinishAtGroup(w.run, h, ok);
      if w.running == {h} {
        GroupDone(w, bs, i, h, t, launched);
        assert w.running - {h} + Elements(launched) == Elements(launched);
        j :| Staged(Next(w, h, ok), bs, j);
      } else {
        GroupGoesOn(w, bs, i, h, t);
        NothingLaunched(w, t, h, ok);
      }
    }
  }

  lemma NothingLaunched(w: World, t: Run, h: HookUser, ok: bool)
    requires LaunchedBy(w.run, h, ok) == [] && t == Finish(w.run, h, ok)
    ensures Next(w, h, ok) == Ended(w, t, h, ok)
  {
    assert w.log + [Finished(h, ok)] + Starts([]) == w.log + [Finished(h, ok)];
  }

  lemma {:induction false} StaysStaged(f: Future, endings: seq<Ending>) returns (i: nat)
    requires Apart(Flat(f)) && Possible(f, endings)
    ensures Staged(After(f, endings), Flat(f), i)
  {
    if endings == [] {
      Begins(f);
      i :| Staged(After(f, []), Flat(f), i);
    } else {
      var before, e := endings[..|endings| - 1], endings[|endings| - 1];
      i := StaysStaged(f, before);
      i := StepStaged(After(f, before), Flat(f), i, e.hook, e.ok);
    }
  }

  lemma {:induction false} SomeOf(which: set<HookUser>, hooks: seq<HookUser>)
    requires which <= Elements(hooks)
    ensures |which| <= |hooks|
  {
    if hooks != [] {
      var last := hooks[|hooks| - 1];
      assert hooks == hooks[..|hooks| - 1] + [last];
      SomeOf(which - {last}, hooks[..|hooks| - 1]);
    } else {
      assert which == {};
    }
  }

  lemma FewRunning(w: World, bs: seq<seq<HookUser>>, i: nat, cores: nat)
    requires Stage(w, bs, i) && Small(bs, cores)
    ensures |w.running| <= cores
  {
    if i > 0 {
      assert bs[i - 1] in bs;
      SomeOf(w.running, bs[i - 1]);
    }
  }

  lemma AllSucceeded(w: World, bs: seq<seq<HookUser>>, i: nat, b: seq<HookUser>, h: HookUser)
    requires Staged(w, bs, i) && w.run.Succeeded? && b in bs && h in b
    ensures Finished(h, true) in w.log
  {
    var k :| 0 <= k < |bs| && bs[k] == b;
    assert k < i - 1 || k == i - 1;
  }

  /**
   * Whatever order processes end in: at most `cores` run at once; a hook starts once, after every hook
   * of every earlier group has succeeded and before any failure; the whole succeeds only when every
   * hook has, fails only when one has failed, and until then never waits for nothing.
   */
  lemma {:induction false} StagedExecution(f: Future, cores: nat, endings: seq<Ending>)
    requires Small(Flat(f), cores) && Apart(Flat(f)) && Possible(f, endings)
    ensures var w := After(f, endings);
            && |w.running| <= cores && Tracks(w)
            && Orderly(w.log, Flat(f))
            && (w.run.Succeeded? ==> forall b, h | b in Flat(f) && h in b :: Finished(h, true) in w.log)
            && (w.run.Failed? <==> exists h :: Finished(h, false) in w.log)
            && (w.run.Succeeded? || w.run.Failed? || w.running != {})
            && (forall h :: Started(h) in w.log ==> exists b :: b in Flat(f) && h in b)
  {
    var w, bs := After(f, endings), Flat(f);
    var i := StaysStaged(f, endings);
    FewRunning(w, bs, i, cores);
    if w.run.Succeeded? {
      forall b, h | b in bs && h in b {
        AllSucceeded(w, bs, i, b, h);
      }
    } else if !w.run.Failed? {
      ActiveWaits(w.run);
    }
  }

  lemma {:induction false} ActiveWaits(r: Run)
    requires Active(r)
    ensures Current(r) != {}
  {
    match r
    case Before(now, _) => ActiveWaits(now);
    case _ =>
  }

  /** What an orderly log says of each start. */
  lemma {:induction false} OrderlyAt(log: seq<Event>, bs: seq<seq<HookUser>>, n: nat)
    requires Orderly(log, bs) && n < |log| && log[n].Started?
    ensures MayStart(log[..n], bs, log[n].hook)
  {
    if n < |log| - 1 {
      OrderlyAt(log[..|log| - 1], bs, n);
      assert log[..|log| - 1][..n] == log[..n];
    }
  }

  // ----- Stages: groups of groups -----

  ghost predicate Earlier(bs: seq<seq<HookUser>>, g: HookUser, h: HookUser) {
    exists i, j :: 0 <= i < j < |bs| && g in bs[i] && h in bs[j]
  }

  /** The hooks of a stage are in earlier groups than those of the stages after it. */
  ghost predicate InOrder(stages: seq<seq<HookUser>>, bs: seq<seq<HookUser>>) {
    forall i, j, g, h | 0 <= i < j < |stages| && g in stages[i] && h in stages[j] :: Earlier(bs, g, h)
  }

  lemma {:induction false} GroupOf(bs: seq<seq<HookUser>>, h: HookUser)
    ensures h in Flatten(bs) <==> exists i :: 0 <= i < |bs| && h in bs[i]
  {
    if bs != [] {
      var n := |bs| - 1;
      GroupOf(bs[..n], h);
      assert forall i | 0 <= i < n :: bs[..n][i] == bs[i];
    }
  }

  lemma EarlierIn(a: seq<seq<HookUser>>, b: seq<seq<HookUser>>, g: HookUser, h: HookUser)
    ensures Earlier(a, g, h) || Earlier(b, g, h) ==> Earlier(a + b, g, h)
    ensures g in Flatten(a) && h in Flatten(b) ==> Earlier(a + b, g, h)
  {
    GroupOf(a, g);
    GroupOf(b, h);
    var c := a + b;
    assert forall i | 0 <= i < |a| :: c[i] == a[i];
    assert forall i | 0 <= i < |b| :: c[|a| + i] == b[i];
    if Earlier(b, g, h) {
      var i, j :| 0 <= i < j < |b| && g in b[i] && h in b[j];
      assert g in c[|a| + i] && h in c[|a| + j];
    }
    if g in Flatten(a) && h in Flatten(b) {
      var i :| 0 <= i < |a| && g in a[i];
      var j :| 0 <= j < |b| && h in b[j];
      assert g in c[i] && h in c[|a| + j];
    }
  }

  lemma {:induction false} EarlierAcross(stages: seq<seq<HookUser>>, bs: seq<seq<HookUser>>,
                                         more: seq<seq<HookUser>>, cs: seq<seq<HookUser>>,
                      i: nat, j: nat, g: HookUser, h: HookUser)
    requires InOrder(stages, bs) && Flatten(bs) == Flatten(stages)
    requires InOrder(more, cs) && Flatten(cs) == Flatten(more)
    requires i < j < |stages + more| && g in (stages + more)[i] && h in (stages + more)[j]
    ensures Earlier(bs + cs, g, h)
  {
    EarlierIn(bs, cs, g, h);
    if i < |stages| <= j {
      GroupOf(stages, g);
      GroupOf(more, h);
      assert g in stages[i] && h in more[j - |stages|];
    } else if j < |stages| {
      assert g in stages[i] && h in stages[j];
    } else {
      assert g in more[i - |stages|] && h in more[j - |stages|];
    }
  }

  /** The future runs these stages, one after the other, in groups of at most `cores`. */
  ghost predicate RunsStages(f: Future, stages: seq<seq<HookUser>>, cores: nat) {
    && Small(Flat(f), cores)
    && InOrder(stages, Flat(f))
    && Flatten(Flat(f)) == Flatten(stages)
  }

  lemma RunsBoth(f: Future, stages: seq<seq<HookUser>>, next: Future, more: seq<seq<HookUser>>, cores: nat)
    requires RunsStages(f, stages, cores) && RunsStages(next, more, cores)
    ensures RunsStages(Then(f, next), stages + more, cores)
  {
    FlattenConcat(Flat(f), Flat(next));
    FlattenConcat(stages, more);
    forall i, j, g, h | 0 <= i < j < |stages + more| && g in (stages + more)[i] && h in (stages + more)[j]
      ensures Earlier(Flat(f) + Flat(next), g, h)
    {
      EarlierAcross(stages, Flat(f), more, Flat(next), i, j, g, h);
    }
  }

  lemma RunsOne(f: Future, stage: seq<HookUser>, cores: nat)
    requires Flatten(Flat(f)) == stage && Small(Flat(f), cores)
    ensures RunsStages(f, [stage], cores)
  {
    assert Flatten([stage]) == stage;
  }

  /** No hook is repeated over all groups exactly if they are apart. */
  lemma {:induction false} ApartIff(bs: seq<seq<HookUser>>)
    ensures NoDup(Flatten(bs)) <==> Apart(bs)
  {
    if bs != [] {
      var n := |bs| - 1;
      ApartIff(bs[..n]);
      NoDupConcat(Flatten(bs[..n]), bs[n]);
      forall h
        ensures h in Flatten(bs[..n]) <==> exists i :: 0 <= i < n && h in bs[i]
      {
        GroupOf(bs[..n], h);
        assert forall i | 0 <= i < n :: bs[..n][i] == bs[i];
      }
      assert Apart(bs) <==> Apart(bs[..n]) && NoDup(bs[n]) && forall i, h | 0 <= i < n && h in bs[i] :: h !in bs[n];
    }
  }

  /** Groups and stages of the same hooks in the same order: if no stage repeats a hook, no group does. */
  lemma SameOnce(stages: seq<seq<HookUser>>, bs: seq<seq<HookUser>>)
    requires Apart(stages) && Flatten(bs) == Flatten(stages)
    ensures Apart(bs)
  {
    ApartIff(stages);
    ApartIff(bs);
  }

  /** An execution that is orderly group by group is orderly stage by stage. */
  lemma {:induction false} OrderlyStages(log: seq<Event>, bs: seq<seq<HookUser>>, stages: seq<seq<HookUser>>)
    requires Orderly(log, bs) && InOrder(stages, bs)
    ensures Orderly(log, stages)
  {
    if log != [] {
      var before, e := log[..|log| - 1], log[|log| - 1];
      OrderlyStages(before, bs, stages);
      if e.Started? {
        forall i, j, g | 0 <= i < j < |stages| && e.hook in stages[j] && g in stages[i]
          ensures Finished(g, true) in before
        {
          assert Earlier(bs, g, e.hook);
        }
      }
    }
  }
}
