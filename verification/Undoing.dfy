/** Earlier stores, rebuilt from the current one by undoing retained commits newest first. */
module Undoing {
  import opened ConfigTypes
  import opened Stores
  import opened History
  import opened ConfigSystem
  import opened Telescoping

  /** The old values of a commit as writes. */
  function OldValues(deltas: seq<Delta>): seq<Item> {
    seq(|deltas|, i requires 0 <= i < |deltas| => Item(deltas[i].key, deltas[i].before))
  }

  function Undo(store: Store, cs: seq<Commit>): Store
    decreases |cs|
  {
    if cs == [] then store
    else Undo(ApplyAll(store, OldValues(cs[|cs| - 1].deltas)), cs[..|cs| - 1])
  }

  /** The retained commits made after the id `mark` was handed out. */
  function Since(cs: seq<Commit>, mark: CommitId): seq<Commit> {
    if cs == [] then []
    else Since(cs[..|cs| - 1], mark) + if cs[|cs| - 1].id > mark then [cs[|cs| - 1]] else []
  }

  /** `rebuilt` agrees with `earlier` outside last.*; unless exactly, an erased int32 0 apart. */
  ghost predicate Rebuilds(exact: bool, earlier: Store, rebuilt: Store) {
    forall k: Key | !InLast(k) :: Follows(exact, Lookup(earlier, k), Lookup(rebuilt, k))
  }

  lemma {:induction false} SinceConcat(a: seq<Commit>, b: seq<Commit>, mark: CommitId)
    ensures Since(a + b, mark) == Since(a, mark) + Since(b, mark)
  {
    if b == [] {
      assert a + b == a;
    } else {
      assert (a + b)[..|a + b| - 1] == a + b[..|b| - 1];
      SinceConcat(a, b[..|b| - 1], mark);
    }
  }

  lemma {:induction false} SinceNone(cs: seq<Commit>, mark: CommitId)
    requires forall c | c in cs :: c.id <= mark
    ensures Since(cs, mark) == []
  {
    if cs != [] {
      SinceNone(cs[..|cs| - 1], mark);
    }
  }

  lemma UndoOneFollows(exact: bool, a: Store, b: Store, items: seq<Item>)
    requires Rebuilds(exact, a, b)
    ensures Rebuilds(exact, ApplyAll(a, items), ApplyAll(b, items))
  {
    forall k: Key | !InLast(k)
      ensures Follows(exact, Lookup(ApplyAll(a, items), k), Lookup(ApplyAll(b, items), k))
    {
      ApplyAllLookup(a, items, k);
      ApplyAllLookup(b, items, k);
      assert Follows(exact, Lookup(a, k), Lookup(b, k));
    }
  }

  lemma {:induction false} UndoFollows(exact: bool, a: Store, b: Store, cs: seq<Commit>)
    requires Rebuilds(exact, a, b)
    ensures Rebuilds(exact, Undo(a, cs), Undo(b, cs))
    decreases |cs|
  {
    if cs != [] {
      var items := OldValues(cs[|cs| - 1].deltas);
      UndoOneFollows(exact, a, b, items);
      UndoFollows(exact, ApplyAll(a, items), ApplyAll(b, items), cs[..|cs| - 1]);
    }
  }

  lemma RebuildsTransitive(exact: bool, a: Store, b: Store, c: Store)
    requires Rebuilds(exact, a, b) && Rebuilds(exact, b, c)
    ensures Rebuilds(exact, a, c)
  {
    forall k: Key | !InLast(k)
      ensures Follows(exact, Lookup(a, k), Lookup(c, k))
    {
      assert Follows(exact, Lookup(a, k), Lookup(b, k)) && Follows(exact, Lookup(b, k), Lookup(c, k));
    }
  }

  /** The last old value written for a key of a tidy commit is that of its delta. */
  lemma {:induction false} OldValuesWrite(deltas: seq<Delta>, k: Key)
    ensures LastWrite(OldValues(deltas), k) ==
            match DeltaOn(deltas, k) case None => None case Some(d) => Some(d.before)
  {
    if deltas != [] {
      var n := |deltas| - 1;
      OldValuesWrite(deltas[..n], k);
      assert OldValues(deltas)[..n] == OldValues(deltas[..n]);
    }
  }

  /** Undoing the commit just made takes the store back. */
  lemma {:induction false} UndoLatest(exact: bool, s: Sys, t: Sys, items: seq<Item>, changed: seq<Item>)
    requires Commits(s, t, items, changed) && (exact ==> KeepsZeros(s.store, items))
    ensures Rebuilds(exact, s.store, ApplyAll(t.store, OldValues(Deltas(s.store, changed))))
  {
    var deltas := Deltas(s.store, changed);
    forall k: Key | !InLast(k)
      ensures Follows(exact, Lookup(s.store, k), Lookup(ApplyAll(t.store, OldValues(deltas)), k))
    {
      ApplyAllLookup(t.store, OldValues(deltas), k);
      OldValuesWrite(deltas, k);
      DeltaOnDeltas(s.store, items, changed, k);
      CommittedFinal(s.store, items, k);
      if !Recorded(s.store, items, k) {
        UnrecordedFollows(exact, s.store, items, k);
      }
    }
  }

  /** At most the commits made since are there, and if all of them are, undoing them rebuilds `from`. */
  ghost predicate Recovers(exact: bool, from: Store, mark: CommitId, t: Sys) {
    var since := Since(t.log.commits, mark);
    && t.log.highest >= mark
    && |since| <= t.log.highest - mark
    && (|since| == t.log.highest - mark ==> Rebuilds(exact, from, Undo(t.store, since)))
  }

  lemma UndoSnoc(store: Store, cs: seq<Commit>, c: Commit)
    ensures Undo(store, cs + [c]) == Undo(ApplyAll(store, OldValues(c.deltas)), cs)
  {
    assert (cs + [c])[..|cs|] == cs;
  }

  lemma SinceSnoc(cs: seq<Commit>, c: Commit, mark: CommitId)
    requires c.id > mark
    ensures Since(cs + [c], mark) == Since(cs, mark) + [c]
  {
    assert (cs + [c])[..|cs|] == cs;
  }

  /** Logging adds one commit to those made since, or drops some of them. */
  lemma LoggedSince(log: Log, max: nat, deltas: seq<Delta>, mark: CommitId)
    requires log.highest >= mark
    ensures var after, since := Since(Logged(log, max, deltas).commits, mark), Since(log.commits, mark);
            && |after| <= |since| + 1
            && (|after| == |since| + 1 ==> after == since + [NextCommit(log, deltas)])
  {
    var all := log.commits + [NextCommit(log, deltas)];
    SinceSnoc(log.commits, NextCommit(log, deltas), mark);
    if |all| > max {
      var n := |all| - max;
      assert all == all[..n] + all[n..];
      SinceConcat(all[..n], all[n..], mark);
    }
  }

  lemma StepRecovers(exact: bool, from: Store, mark: CommitId, t: Sys, op: Op)
    requires Inv(exact, t) && Possible(t, op) && Recovers(exact, from, mark, t)
    requires exact ==> StepKeepsZeros(t, op)
    ensures Recovers(exact, from, mark, Next(t, op))
  {
    StepShape(t, op);
    if CommittedBy(t, op).Some? {
      CommitRecovers(exact, from, mark, t, Next(t, op), CommittedBy(t, op).value.items, op.changed);
    }
  }

  lemma {:induction false} CommitRecovers(exact: bool, from: Store, mark: CommitId, t: Sys, u: Sys,
                                         items: seq<Item>, changed: seq<Item>)
    requires Inv(exact, t) && Recovers(exact, from, mark, t) && Commits(t, u, items, changed)
    requires exact ==> KeepsZeros(t.store, items)
    ensures Recovers(exact, from, mark, u)
  {
    var since := Since(t.log.commits, mark);
    var back := ApplyAll(u.store, OldValues(Deltas(t.store, changed)));
    UndoLatest(exact, t, u, items, changed);
    UndoFollows(exact, t.store, back, since);
    if |since| == t.log.highest - mark {
      RebuildsTransitive(exact, from, Undo(t.store, since), Undo(back, since));
    }
    if changed != [] {
      var deltas := Deltas(t.store, changed);
      LoggedSound(t.log, t.maxCommits, deltas);
      LoggedSince(t.log, t.maxCommits, deltas, mark);
      UndoSnoc(u.store, since, NextCommit(t.log, deltas));
    }
  }

  /**
   * Undoing rebuilds: take any two states of a run. If every commit logged between them is still
   * retained in the later one, undoing those commits there, newest first, gives back the earlier
   * store outside last.*: exactly, if no stored 0 was erased, and else an erased 0 apart.
   */
  lemma {:induction false} UndoRebuilds(exact: bool, s: Sys, ops: seq<Op>)
    requires Inv(exact, s) && PossibleRun(s, ops)
    requires exact ==> RunKeepsZeros(s, ops)
    ensures Inv(exact, Run(s, ops))
    ensures Recovers(exact, s.store, s.log.highest, Run(s, ops))
  {
    if ops == [] {
      SinceNone(s.log.commits, s.log.highest);
    } else {
      var before := ops[..|ops| - 1];
      UndoRebuilds(exact, s, before);
      StepRecovers(exact, s.store, s.log.highest, Run(s, before), ops[|ops| - 1]);
      StepKeepsInv(exact, Run(s, before), ops[|ops| - 1]);
    }
  }
}
