/** The commit history kept in memory and in storage (src/TransactionManager.cpp:186-318). */
module Transactions {
  import opened Arithmetic
  import opened ConfigTypes
  import opened Stores
  import opened History
  import opened ConfigSystem
  import opened SavedCommits
  import opened MemoryCaches

  lemma NewestOfTail(cs: seq<Commit>, max: nat)
    requires |cs| > max
    ensures Newest(cs[1..], max) == Newest(cs, max)
  {
  }

  /** The least of these ids. */
  method Least(ids: set<CommitId>) returns (least: CommitId)
    requires ids != {}
    ensures least in ids && forall id | id in ids :: least <= id
  {
    least :| least in ids;
    var left := ids - {least};
    while left != {}
      invariant left <= ids && least in ids
      invariant forall id | id in ids :: id in left || least <= id
      decreases |left|
    {
      var id :| id in left;
      if id < least {
        least := id;
      }
      left := left - {id};
    }
  }

  /** Commits `a` and `b` have deltas on a common key. */
  predicate Collide(a: Commit, b: Commit) {
    exists d, e | d in a.deltas && e in b.deltas :: d.key == e.key
  }

  class TransactionManager {
    const mCommitHistory: AllCommitHistories
    var mSaved: Files
    ghost const mStray: Files
    const mMaxStorage: nat

    ghost function TheLog(): Log
      reads mCommitHistory
    {
      Log(mCommitHistory.mCommits, mCommitHistory.mMaxCommitId)
    }

    /** Memory and storage agree, the strays apart, on a chain no longer than allowed. */
    ghost predicate Valid()
      reads this, mCommitHistory
    {
      && Stored(mSaved, mStray, TheLog())
      && |mCommitHistory.mCommits| <= mMaxStorage
    }

    /**
     * Starts on any saved commits on which sorting ends. The ancestors of the youngest come back, up to
     * the bound; all other commits stay on file.
     */
    constructor (saved: Files, maxStorage: nat, ghost listing: seq<Commit>, ghost r: seq<Commit>)
      requires Listing(saved, listing) && Lineage(listing, r)
      ensures Valid() && fresh(mCommitHistory) && mMaxStorage == maxStorage && mStray == Strays(saved, r)
      ensures mCommitHistory.mCommits == Newest(r, maxStorage)
      ensures HighestOf(mCommitHistory.mMaxCommitId, listing)
    {
      var commits := LoadAllCommits(saved);
      ListingUnique(saved, commits, listing);
      mCommitHistory := new AllCommitHistories(commits);
      mSaved, mMaxStorage, mStray := saved, maxStorage, Strays(saved, r);
      new;
      LineageUnique(listing, mCommitHistory.mCommits, r);
      FirstStored(saved, listing, r, mCommitHistory.mMaxCommitId);
      DropExcessiveCommits();
    }

    /** The files in the order of their ids. */
    static method LoadAllCommits(saved: Files) returns (commits: seq<Commit>)
      requires forall id | id in saved :: saved[id].id == id
      ensures Listing(saved, commits)
    {
      commits := [];
      var left := saved.Keys;
      while left != {}
        invariant left <= saved.Keys
        invariant Listing(saved - left, commits)
        invariant forall c | c in commits :: forall id | id in left :: c.id < id
        decreases |left|
      {
        var id := Least(left);
        ListedNext(saved, left, commits, id);
        commits := commits + [saved[id]];
        left := left - {id};
      }
      assert saved - left == saved;
    }

    method GenerateDeltas(items: seq<Item>, db: MemoryCache) returns (output: seq<Delta>)
      ensures output == Deltas(db.mValues, items)
    {
      output := [];
      for i := 0 to |items|
        invariant output == Deltas(db.mValues, items[..i])
      {
        var was := db.GetOne(items[i].key);
        output := output + [Delta(items[i].key, was, items[i].value)];
        assert output == Deltas(db.mValues, items[..i + 1]);
      }
      assert items[..|items|] == items;
    }

    /** Drops the oldest commit, in memory and in storage. */
    method DropOne()
      requires Stored(mSaved, mStray, TheLog()) && mCommitHistory.mCommits != []
      modifies this`mSaved, mCommitHistory
      ensures Stored(mSaved, mStray, TheLog())
      ensures TheLog() == Log(old(mCommitHistory.mCommits)[1..], old(mCommitHistory.mMaxCommitId))
    {
      StoredDrop(mSaved, mStray, TheLog());
      var maybeCommit := mCommitHistory.DropOldestCommit();
      if maybeCommit.Some? {
        mSaved := mSaved - {maybeCommit.value.id};
      }
    }

    /** Drops the oldest commits while there are too many. */
    method DropExcessiveCommits()
      requires Stored(mSaved, mStray, TheLog())
      modifies this`mSaved, mCommitHistory
      ensures Valid()
      ensures TheLog() == Log(Newest(old(mCommitHistory.mCommits), mMaxStorage), old(mCommitHistory.mMaxCommitId))
    {
      ghost var all := mCommitHistory.mCommits;
      while |mCommitHistory.mCommits| > mMaxStorage
        invariant Stored(mSaved, mStray, TheLog())
        invariant Newest(mCommitHistory.mCommits, mMaxStorage) == Newest(all, mMaxStorage)
        invariant mCommitHistory.mMaxCommitId == old(mCommitHistory.mMaxCommitId)
        decreases |mCommitHistory.mCommits|
      {
        NewestOfTail(mCommitHistory.mCommits, mMaxStorage);
        DropOne();
      }
    }

    /** The commit to log: one above the highest id, its parent the newest commit or 0. */
    method NewCommit(items: seq<Delta>) returns (commit: Commit)
      ensures commit == NextCommit(TheLog(), items)
      ensures commit.id == mCommitHistory.mMaxCommitId + 1 && commit.deltas == items
      ensures commit.parent == if mCommitHistory.mCommits == [] then 0
                               else mCommitHistory.mCommits[|mCommitHistory.mCommits| - 1].id
    {
      var id := mCommitHistory.mMaxCommitId + 1;
      var parentId := 0;
      var parent := mCommitHistory.GetMostRecentCommit();
      if parent.Some? {
        parentId := parent.value.id;
      }
      commit := Commit(id, parentId, items);
    }

    /** Appends it, in memory and in storage. */
    method Store(commit: Commit)
      requires Valid() && commit == NextCommit(TheLog(), commit.deltas)
      modifies this`mSaved, mCommitHistory
      ensures Stored(mSaved, mStray, TheLog())
      ensures TheLog() == Log(old(mCommitHistory.mCommits) + [commit],
                            Max(Max(old(mCommitHistory.mMaxCommitId), commit.id), commit.parent))
    {
      AppendedChain(TheLog(), commit.deltas);
      StoredAppend(mSaved, mStray, TheLog(), commit.deltas);
      mCommitHistory.StoreCommit(commit);
      mSaved := mSaved[commit.id := commit];
    }

    method LogCommit(toBeCommitted: seq<Item>, db: MemoryCache) returns (id: CommitId)
      requires Valid()
      modifies this`mSaved, mCommitHistory
      ensures Valid()
      ensures TheLog() == Logged(old(TheLog()), mMaxStorage, Deltas(db.mValues, toBeCommitted))
      ensures id == old(mCommitHistory.mMaxCommitId) + 1
    {
      var items := GenerateDeltas(toBeCommitted, db);
      var commit := NewCommit(items);
      id := commit.id;
      Store(commit);
      DropExcessiveCommits();
    }

    method Conflicts(commitRolledBack: Commit, childCommit: Commit) returns (r: bool)
      ensures r <==> exists d, e :: d in commitRolledBack.deltas && e in childCommit.deltas && d.key == e.key
    {
      for i := 0 to |commitRolledBack.deltas|
        invariant forall d, e | d in commitRolledBack.deltas[..i] && e in childCommit.deltas :: d.key != e.key
      {
        var key := commitRolledBack.deltas[i].key;
        for j := 0 to |childCommit.deltas|
          invariant forall e | e in childCommit.deltas[..j] :: key != e.key
        {
          if key == childCommit.deltas[j].key {
            assert commitRolledBack.deltas[i] in commitRolledBack.deltas && childCommit.deltas[j] in childCommit.deltas;
            return true;
          }
          assert childCommit.deltas[..j + 1] == childCommit.deltas[..j] + [childCommit.deltas[j]];
        }
        assert childCommit.deltas[..|childCommit.deltas|] == childCommit.deltas;
        assert commitRolledBack.deltas[..i + 1] == commitRolledBack.deltas[..i] + [commitRolledBack.deltas[i]];
      }
      assert commitRolledBack.deltas[..|commitRolledBack.deltas|] == commitRolledBack.deltas;
      return false;
    }

    /** Walks from child to child; ends because a chain has only so many positions left. */
    method CanRollback(commitRolledBack: Commit, ghost at: nat) returns (r: bool)
      requires IsChain(mCommitHistory.mCommits)
      requires at < |mCommitHistory.mCommits| && mCommitHistory.mCommits[at] == commitRolledBack
      ensures r <==> Untouched(mCommitHistory.mCommits, at)
    {
      ghost var cs := mCommitHistory.mCommits;
      ghost var next := at + 1;
      FindInChain(cs, cs, at);
      var current := mCommitHistory.GetChild(commitRolledBack.id);
      while current.Some?
        invariant at < next <= |cs|
        invariant current == if next < |cs| then Some(cs[next]) else None
        invariant forall j | at < j < next :: !Collide(cs[at], cs[j])
        decreases |cs| - next
      {
        var childCommit := current.value;
        FindInChain(cs, cs, next);
        var conflict := Conflicts(commitRolledBack, childCommit);
        if conflict {
          CollideTouches(cs, at, next);
          return false;
        }
        next := next + 1;
        current := mCommitHistory.GetChild(childCommit.id);
      }
      NoCollision(cs, at);
      return true;
    }
  }

  /** No later commit has a delta on a key of this one. */
  lemma UntouchedIff(cs: seq<Commit>, i: nat)
    requires i < |cs|
    ensures Untouched(cs, i) <==>
            forall j, d, e | i < j < |cs| && d in cs[i].deltas && e in cs[j].deltas :: d.key != e.key
  {
    if forall j, d, e | i < j < |cs| && d in cs[i].deltas && e in cs[j].deltas :: d.key != e.key {
      forall j, d | i < j < |cs| && d in cs[i].deltas
        ensures !Touches(cs[j], d.key)
      {
      }
    }
    if Untouched(cs, i) {
      forall j, d, e | i < j < |cs| && d in cs[i].deltas && e in cs[j].deltas
        ensures d.key != e.key
      {
        assert !Touches(cs[j], d.key);
      }
    }
  }

  lemma CollideTouches(cs: seq<Commit>, i: nat, j: nat)
    requires i < j < |cs| && Collide(cs[i], cs[j])
    ensures !Untouched(cs, i)
  {
    var d, e :| d in cs[i].deltas && e in cs[j].deltas && d.key == e.key;
    assert Touches(cs[j], d.key);
  }

  lemma NoCollision(cs: seq<Commit>, i: nat)
    requires i < |cs| && forall j | i < j < |cs| :: !Collide(cs[i], cs[j])
    ensures Untouched(cs, i)
  {
  }
}
