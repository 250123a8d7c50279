/**
 * The commits on file (src/LocalHistoryStorage.cpp:67-147) and what a start makes of them. Commits that
 * are not ancestors of the youngest one stay on file; they are strays, and no start finds them again.
 */
module SavedCommits {
  import opened ConfigTypes
  import opened History
  import opened ConfigSystem
  import opened Telescoping

  type Files = map<CommitId, Commit>

  /** The files, by id, are exactly `cs`. */
  ghost predicate SavedAs(saved: Files, cs: seq<Commit>) {
    && (forall i | 0 <= i < |cs| :: cs[i].id in saved && saved[cs[i].id] == cs[i])
    && (forall id | id in saved :: saved[id] in cs && saved[id].id == id)
  }

  ghost predicate Ascending(cs: seq<Commit>) {
    forall i, j | 0 <= i < j < |cs| :: cs[i].id < cs[j].id
  }

  /** The files are read in the order of their ids. */
  ghost predicate Listing(saved: Files, cs: seq<Commit>) {
    SavedAs(saved, cs) && Ascending(cs)
  }

  lemma SavedMember(saved: Files, cs: seq<Commit>, c: Commit)
    requires SavedAs(saved, cs)
    ensures c in cs <==> c.id in saved && saved[c.id] == c
  {
  }

  lemma DropHighest(saved: Files, cs: seq<Commit>)
    requires Listing(saved, cs) && cs != []
    ensures Listing(saved - {cs[|cs| - 1].id}, cs[..|cs| - 1])
  {
    var n := |cs| - 1;
    var left := saved - {cs[n].id};
    forall id | id in left
      ensures left[id] in cs[..n]
    {
      var i :| 0 <= i < |cs| && cs[i] == saved[id];
      assert cs[..n][i] == cs[i];
    }
  }

  lemma SameHighest(saved: Files, a: seq<Commit>, b: seq<Commit>)
    requires Listing(saved, a) && Listing(saved, b) && a != []
    ensures b != [] && a[|a| - 1] == b[|b| - 1]
  {
    assert a[|a| - 1] in a;
    SavedMember(saved, b, a[|a| - 1]);
    assert b[|b| - 1] in b;
    SavedMember(saved, a, b[|b| - 1]);
  }

  /** So there is one order only. */
  lemma {:induction false} ListingUnique(saved: Files, a: seq<Commit>, b: seq<Commit>)
    requires Listing(saved, a) && Listing(saved, b)
    ensures a == b
  {
    if a != [] {
      SameHighest(saved, a, b);
      DropHighest(saved, a);
      DropHighest(saved, b);
      ListingUnique(saved - {a[|a| - 1].id}, a[..|a| - 1], b[..|b| - 1]);
    } else if b != [] {
      SameHighest(saved, b, a);
    }
  }

  lemma SavedAppend(saved: Files, cs: seq<Commit>, c: Commit)
    requires SavedAs(saved, cs) && forall d | d in cs :: d.id != c.id
    ensures SavedAs(saved[c.id := c], cs + [c])
  {
    assert forall i | 0 <= i < |cs| :: cs[i] in cs;
  }

  lemma ListedNext(saved: Files, left: set<CommitId>, cs: seq<Commit>, id: CommitId)
    requires Listing(saved - left, cs) && id in left && left <= saved.Keys && saved[id].id == id
    requires forall c | c in cs :: c.id < id
    ensures Listing(saved - (left - {id}), cs + [saved[id]])
  {
    SavedAppend(saved - left, cs, saved[id]);
    assert saved - (left - {id}) == (saved - left)[id := saved[id]];
    assert forall i | 0 <= i < |cs| :: cs[i] in cs;
  }

  lemma SavedDrop(saved: Files, cs: seq<Commit>)
    requires SavedAs(saved, cs) && cs != [] && forall i | 0 < i < |cs| :: cs[i].id != cs[0].id
    ensures SavedAs(saved - {cs[0].id}, cs[1..])
  {
    var left := saved - {cs[0].id};
    forall id | id in left
      ensures left[id] in cs[1..]
    {
      var i :| 0 <= i < |cs| && cs[i] == saved[id];
      assert cs[1..][i - 1] == cs[i];
    }
  }

  // ----- Strays -----

  /** What is on file besides `r`. */
  function Strays(saved: Files, r: seq<Commit>): Files {
    map id | id in saved && saved[id] !in r :: saved[id]
  }

  /** No id or parent anywhere is above the highest id. */
  ghost predicate Capped(stray: Files, log: Log) {
    && Bounded(log)
    && (forall id | id in stray :: stray[id].id == id <= log.highest && stray[id].parent <= log.highest)
  }

  /** The strays are on file, and with them exactly the history. */
  ghost predicate OnFile(saved: Files, stray: Files, cs: seq<Commit>) {
    && SavedAs(saved - stray.Keys, cs)
    && (forall id | id in stray :: id in saved && saved[id] == stray[id])
  }

  /** What is kept of an installation: the files, and the history in memory. */
  ghost predicate Stored(saved: Files, stray: Files, log: Log) {
    Capped(stray, log) && OnFile(saved, stray, log.commits)
  }

  /** There are none exactly if the saved commits are those of a chain. */
  lemma {:induction false} NoStraysIff(saved: Files, listing: seq<Commit>, r: seq<Commit>)
    requires Listing(saved, listing) && Lineage(listing, r)
    ensures Strays(saved, r) == map[] <==> exists chain :: IsChain(chain) && SameMembers(listing, chain)
  {
    LineageIsChain(listing, r);
    KeepsAllIff(listing, r);
    forall c | c in listing
      ensures c in r <==> c.id !in Strays(saved, r)
    {
      SavedMember(saved, listing, c);
    }
    if Strays(saved, r) != map[] {
      var id :| id in Strays(saved, r);
      assert saved[id] in listing;
    }
  }

  /** A start finds its commits on file, and leaves the others there. */
  lemma FirstStored(saved: Files, listing: seq<Commit>, r: seq<Commit>, highest: CommitId)
    requires Listing(saved, listing) && Lineage(listing, r) && HighestOf(highest, listing)
    ensures Stored(saved, Strays(saved, r), Log(r, highest))
  {
    LineageBounded(listing, r, highest);
    LineageIsChain(listing, r);
    assert forall i | 0 <= i < |r| :: r[i] in listing;
  }

  lemma OnFileAppend(saved: Files, stray: Files, cs: seq<Commit>, c: Commit)
    requires OnFile(saved, stray, cs) && c.id !in stray && forall d | d in cs :: d.id != c.id
    ensures OnFile(saved[c.id := c], stray, cs + [c])
  {
    SavedAppend(saved - stray.Keys, cs, c);
    assert saved[c.id := c] - stray.Keys == (saved - stray.Keys)[c.id := c];
  }

  lemma OnFileDrop(saved: Files, stray: Files, cs: seq<Commit>)
    requires OnFile(saved, stray, cs) && cs != [] && forall i | 0 < i < |cs| :: cs[i].id != cs[0].id
    ensures OnFile(saved - {cs[0].id}, stray, cs[1..])
  {
    var id := cs[0].id;
    SavedDrop(saved - stray.Keys, cs);
    assert id in saved - stray.Keys;
    assert saved - {id} - stray.Keys == saved - stray.Keys - {id};
  }

  lemma StoredAppend(saved: Files, stray: Files, log: Log, deltas: seq<Delta>)
    requires Stored(saved, stray, log)
    ensures var c := NextCommit(log, deltas);
            Stored(saved[c.id := c], stray, Log(log.commits + [c], c.id))
  {
    AppendedChain(log, deltas);
    OnFileAppend(saved, stray, log.commits, NextCommit(log, deltas));
  }

  lemma StoredDrop(saved: Files, stray: Files, log: Log)
    requires Stored(saved, stray, log) && log.commits != []
    ensures Stored(saved - {log.commits[0].id}, stray, Log(log.commits[1..], log.highest))
  {
    NewestBounded(log, |log.commits| - 1);
    OnFileDrop(saved, stray, log.commits);
  }

  ghost predicate HasChild(stray: Files, id: CommitId) {
    exists j :: j in stray && stray[j].parent == id
  }

  /**
   * Nothing leads from the history to a stray or from a stray to the newest commit, and any stray with a
   * higher id has a child.
   */
  ghost predicate Aside(stray: Files, cs: seq<Commit>) {
    && (forall c | c in cs :: c.id !in stray && c.parent !in stray)
    && (forall id | id in stray && cs != [] :: stray[id].parent != cs[|cs| - 1].id)
    && (forall id | id in stray && (cs == [] || id > cs[|cs| - 1].id) :: HasChild(stray, id))
  }

  /** The childless commit that is picked has the highest id of them. */
  lemma {:induction false} PickedIff(cs: seq<Commit>, part: seq<Commit>, x: Commit)
    requires Ascending(part)
    ensures Childless(cs, part) == Some(x) <==>
            && x in part && LastWithParent(cs, x.id).None?
            && forall c | c in part && LastWithParent(cs, c.id).None? :: c.id <= x.id
  {
    if part != [] {
      var n := |part| - 1;
      assert part == part[..n] + [part[n]];
      PickedIff(cs, part[..n], x);
      assert forall c | c in part[..n] :: c.id < part[n].id;
    }
  }

  lemma {:induction false} FirstAside(saved: Files, listing: seq<Commit>, r: seq<Commit>)
    requires Listing(saved, listing) && Lineage(listing, r)
    ensures Aside(Strays(saved, r), r)
  {
    var stray := Strays(saved, r);
    LineageIsChain(listing, r);
    ChildlessIn(listing, listing);
    if r != [] {
      assert Ancestor(listing, 0) == Some(r[|r| - 1 - 0]);
      PickedIff(listing, listing, r[|r| - 1]);
    }
    forall c | c in r
      ensures c.id !in stray && c.parent !in stray
    {
      SavedMember(saved, listing, c);
      ParentNotStray(saved, listing, r, c);
    }
    forall id | id in stray && (r == [] || id > r[|r| - 1].id)
      ensures HasChild(stray, id)
    {
      assert LastWithParent(listing, id).Some?;
      LastWithParentSound(listing, id);
      var c := LastWithParent(listing, id).value;
      SavedMember(saved, listing, c);
      if c in r {
        ParentNotStray(saved, listing, r, c);
      }
      assert c.id in stray && stray[c.id].parent == id;
    }
  }

  lemma ParentNotStray(saved: Files, listing: seq<Commit>, r: seq<Commit>, c: Commit)
    requires Listing(saved, listing) && Lineage(listing, r) && c in r
    ensures c.parent !in Strays(saved, r)
  {
    LineageIsChain(listing, r);
    var i :| 0 <= i < |r| && r[i] == c;
    if i > 0 {
      assert r[i - 1] in r;
      SavedMember(saved, listing, r[i - 1]);
    }
  }

  lemma NewestAside(stray: Files, cs: seq<Commit>, max: nat)
    requires Aside(stray, cs) && max >= 1
    ensures Aside(stray, Newest(cs, max))
  {
    assert forall c | c in Newest(cs, max) :: c in cs;
  }

  lemma AppendedAside(stray: Files, log: Log, deltas: seq<Delta>)
    requires Capped(stray, log) && Aside(stray, log.commits)
    requires log.commits != [] || 0 !in stray
    ensures Aside(stray, log.commits + [NextCommit(log, deltas)])
  {
    if log.commits != [] {
      assert log.commits[|log.commits| - 1] in log.commits;
    }
  }

  /** Logging leaves the strays aside, unless the first commit of all names a stray of id 0 as its parent. */
  lemma LoggedAsideIff(stray: Files, log: Log, max: nat, deltas: seq<Delta>)
    requires Capped(stray, log) && Aside(stray, log.commits) && max >= 1
    ensures Aside(stray, Logged(log, max, deltas).commits) <==> log.commits != [] || 0 !in stray
  {
    var all := log.commits + [NextCommit(log, deltas)];
    if log.commits != [] || 0 !in stray {
      AppendedAside(stray, log, deltas);
      NewestAside(stray, all, max);
    } else {
      assert all[0] in Newest(all, max);
    }
  }

  /** Such a stray: a commit of id 0 that is its own parent is sorted away, and after one commit sorting never ends. */
  lemma {:induction false} ZeroNeverEnds(first: seq<Delta>, second: seq<Delta>)
    ensures var c := Commit(0, 0, first);
            Lineage([c], []) && !Ends([c, NextCommit(Log([], 0), second)])
  {
    var c, d := Commit(0, 0, first), NextCommit(Log([], 0), second);
    ChildlessIn([c], [c]);
    LastWithParentSound([c], 0);
    var cs := [c, d];
    LastWithParentSound(cs, 1);
    assert cs[..1] == [c];
    assert LastWithId([c], 0) == Some(c) && LastWithId(cs, 0) == Some(c);
    assert Ancestor(cs, 0) == Some(d) && Ancestor(cs, 1) == Some(c) && Ancestor(cs, 2) == Some(c);
    EndsIff(cs);
  }

  // ----- The next start -----

  lemma ListedIff(saved: Files, stray: Files, log: Log, listing: seq<Commit>, c: Commit)
    requires Stored(saved, stray, log) && Listing(saved, listing)
    ensures c in listing <==> c in log.commits || (c.id in stray && stray[c.id] == c)
    ensures c in log.commits ==> c.id !in stray
  {
    SavedMember(saved, listing, c);
    SavedMember(saved - stray.Keys, log.commits, c);
  }

  /** The parent of a commit of the history is the one before it, and the first one's is not on file. */
  lemma {:induction false} ParentOnFile(saved: Files, stray: Files, log: Log, listing: seq<Commit>, i: nat)
    requires Stored(saved, stray, log) && Aside(stray, log.commits) && Listing(saved, listing) && i < |log.commits|
    ensures LastWithId(listing, log.commits[i].parent) == if i == 0 then None else Some(log.commits[i - 1])
  {
    var cs := log.commits;
    LastWithIdSound(listing, cs[i].parent);
    var found := LastWithId(listing, cs[i].parent);
    assert cs[i] in cs;
    if i > 0 {
      assert cs[i - 1] in cs && cs[i].parent == cs[i - 1].id;
      ListedIff(saved, stray, log, listing, cs[i - 1]);
    }
    if found.Some? {
      ListedIff(saved, stray, log, listing, found.value);
      var j :| 0 <= j < |cs| && cs[j] == found.value;
    }
  }

  /** The newest commit is the one picked as youngest. */
  lemma {:induction false} NewestPicked(saved: Files, stray: Files, log: Log, listing: seq<Commit>)
    requires Stored(saved, stray, log) && Aside(stray, log.commits) && Listing(saved, listing)
    ensures Ancestor(listing, 0) == if log.commits == [] then None else Some(log.commits[|log.commits| - 1])
  {
    var cs := log.commits;
    forall c | c in listing
      ensures LastWithParent(listing, c.id).None? ==> cs != [] && c.id <= cs[|cs| - 1].id
    {
      if cs == [] || c.id > cs[|cs| - 1].id {
        HasChildOnFile(saved, stray, log, listing, c);
      }
    }
    ChildlessIn(listing, listing);
    if cs != [] {
      var x := cs[|cs| - 1];
      assert x in cs;
      ListedIff(saved, stray, log, listing, x);
      LastWithParentSound(listing, x.id);
      var child := LastWithParent(listing, x.id);
      if child.Some? {
        ListedIff(saved, stray, log, listing, child.value);
        ChildFollows(cs, |cs| - 1, child.value);
      }
      PickedIff(listing, listing, x);
    }
  }

  /** Any commit on file above the newest one has a child. */
  lemma {:induction false} HasChildOnFile(saved: Files, stray: Files, log: Log, listing: seq<Commit>, c: Commit)
    requires Stored(saved, stray, log) && Aside(stray, log.commits) && Listing(saved, listing) && c in listing
    requires log.commits == [] || c.id > log.commits[|log.commits| - 1].id
    ensures LastWithParent(listing, c.id).Some?
  {
    LastWithParentSound(listing, c.id);
    ListedIff(saved, stray, log, listing, c);
    if c in log.commits {
      OlderHasChild(saved, stray, log, listing, c);
    } else {
      assert HasChild(stray, c.id);
      var j :| j in stray && stray[j].parent == c.id;
      ListedIff(saved, stray, log, listing, stray[j]);
    }
  }

  /** And so has any commit of the history but the newest. */
  lemma {:induction false} OlderHasChild(saved: Files, stray: Files, log: Log, listing: seq<Commit>, c: Commit)
    requires Stored(saved, stray, log) && Listing(saved, listing)
    requires c in log.commits && c.id != log.commits[|log.commits| - 1].id
    ensures exists d :: d in listing && d.parent == c.id
  {
    var cs := log.commits;
    var i :| 0 <= i < |cs| && cs[i] == c;
    assert cs[i + 1] in cs && cs[i + 1].parent == c.id;
    ListedIff(saved, stray, log, listing, cs[i + 1]);
  }

  lemma {:induction false} HistoryAncestor(saved: Files, stray: Files, log: Log, listing: seq<Commit>, n: nat)
    requires Stored(saved, stray, log) && Aside(stray, log.commits) && Listing(saved, listing)
    ensures Ancestor(listing, n) ==
            if n < |log.commits| then Some(log.commits[|log.commits| - 1 - n]) else None
  {
    if n == 0 {
      NewestPicked(saved, stray, log, listing);
    } else {
      HistoryAncestor(saved, stray, log, listing, n - 1);
      if n - 1 < |log.commits| {
        ParentOnFile(saved, stray, log, listing, |log.commits| - n);
      }
    }
  }

  /** The strays are what is on file besides the history. */
  lemma StraysOf(saved: Files, stray: Files, log: Log)
    requires Stored(saved, stray, log)
    ensures Strays(saved, log.commits) == stray
  {
    forall c | c in log.commits
      ensures c.id !in stray
    {
      SavedMember(saved - stray.Keys, log.commits, c);
    }
    forall id | id in saved
      ensures saved[id] !in log.commits <==> id in stray
    {
      if id !in stray {
        assert (saved - stray.Keys)[id] == saved[id];
      }
    }
  }

  /** A start finds the history it had exactly if the strays are aside. */
  lemma {:induction false} NextStartIff(saved: Files, stray: Files, log: Log, listing: seq<Commit>)
    requires Stored(saved, stray, log) && Listing(saved, listing)
    ensures Lineage(listing, log.commits) <==> Aside(stray, log.commits)
  {
    if Aside(stray, log.commits) {
      forall n: nat
        ensures Ancestor(listing, n) ==
                if n < |log.commits| then Some(log.commits[|log.commits| - 1 - n]) else None
      {
        HistoryAncestor(saved, stray, log, listing, n);
      }
    }
    if Lineage(listing, log.commits) {
      StraysOf(saved, stray, log);
      FirstAside(saved, listing, log.commits);
    }
  }

  /** The next start will find this history, and those logged to it. */
  ghost predicate Found(stray: Files, log: Log) {
    Capped(stray, log) && Aside(stray, log.commits) && (log.commits != [] || 0 !in stray)
  }

  lemma LoggedFound(stray: Files, log: Log, max: nat, deltas: seq<Delta>)
    requires Found(stray, log) && max >= 1
    ensures Found(stray, Logged(log, max, deltas))
  {
    LoggedBounded(log, max, deltas);
    LoggedAsideIff(stray, log, max, deltas);
  }

  lemma {:induction false} RunFound(stray: Files, s: Sys, ops: seq<Op>)
    requires Found(stray, s.log) && s.maxCommits >= 1 && PossibleRun(s, ops)
    ensures Found(stray, Run(s, ops).log) && Run(s, ops).maxCommits == s.maxCommits
  {
    if ops != [] {
      var t, op := Run(s, ops[..|ops| - 1]), ops[|ops| - 1];
      RunFound(stray, s, ops[..|ops| - 1]);
      StepShape(t, op);
      if CommittedBy(t, op).Some? && op.changed != [] {
        LoggedFound(stray, t.log, t.maxCommits, Deltas(t.store, op.changed));
      }
    }
  }

  /**
   * Start on any files on which sorting ends, keep the newest commits of the lineage `r` that it finds,
   * and run any operations. If the files are then the history and what was on file besides `r`, the
   * next start finds exactly that history: no stray is ever found.
   */
  lemma {:induction false} StraysNeverFound(saved: Files, listing: seq<Commit>, r: seq<Commit>, s: Sys, ops: seq<Op>,
                                           now: Files, next: seq<Commit>)
    requires Listing(saved, listing) && Lineage(listing, r) && (r != [] || 0 !in saved)
    requires s.log.commits == Newest(r, s.maxCommits) && HighestOf(s.log.highest, listing) && s.maxCommits >= 1
    requires PossibleRun(s, ops)
    requires Stored(now, Strays(saved, r), Run(s, ops).log) && Listing(now, next)
    ensures Lineage(next, Run(s, ops).log.commits)
  {
    var stray := Strays(saved, r);
    FirstStored(saved, listing, r, s.log.highest);
    NewestBounded(Log(r, s.log.highest), s.maxCommits);
    FirstAside(saved, listing, r);
    NewestAside(stray, r, s.maxCommits);
    RunFound(stray, s, ops);
    NextStartIff(now, stray, Run(s, ops).log, next);
  }
}
