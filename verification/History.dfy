/** The list of retained commits (AllCommitHistories, src/TransactionManager.cpp:12-184). */
module History {
  import opened Arithmetic
  import opened ConfigTypes

  type CommitId = nat

  datatype Delta = Delta(key: Key, before: Value, after: Value)

  datatype Commit = Commit(id: CommitId, parent: CommitId, deltas: seq<Delta>)

  /** One line of blame: the delta a commit made to the key asked about. */
  datatype Blamed = Blamed(id: CommitId, delta: Delta)

  // ----- Chains -----

  /** Oldest first: ids do not repeat, each parent is the id before it, the first parent is gone. */
  ghost predicate IsChain(cs: seq<Commit>) {
    && (forall i, j | 0 <= i < j < |cs| :: cs[i].id != cs[j].id)
    && (forall i, j | 0 <= i && j == i + 1 && j < |cs| :: cs[j].parent == cs[i].id)
    && (cs != [] ==> forall i | 0 <= i < |cs| :: cs[i].id != cs[0].parent)
  }

  ghost predicate SameMembers<T(!new)>(a: seq<T>, b: seq<T>) {
    forall x :: x in a <==> x in b
  }

  /** Only one order of a set of commits is a chain. */
  lemma {:induction false} ChainUnique(a: seq<Commit>, b: seq<Commit>)
    requires IsChain(a) && IsChain(b) && SameMembers(a, b)
    ensures a == b
  {
    assert b != [] ==> b[0] in b && b[0] in a;
    if a != [] {
      var n, m := |a| - 1, |b| - 1;
      assert a[0] in a;
      YoungestAgrees(a, b);
      DropYoungest(a);
      DropYoungest(b);
      forall x
        ensures x in a[..n] <==> x in b[..m]
      {
        assert x in a <==> x in b;
        assert x in a[..|a| - 1] <==> x in a && x != a[n];
        assert x in b[..|b| - 1] <==> x in b && x != b[m];
      }
      ChainUnique(a[..n], b[..m]);
      assert a == a[..n] + [a[n]] && b == b[..m] + [b[m]];
    }
  }

  /** In a chain, a commit's only child is the next one. */
  lemma ChildFollows(a: seq<Commit>, i: nat, child: Commit)
    requires IsChain(a) && i < |a| && child in a && child.parent == a[i].id
    ensures i + 1 < |a| && a[i + 1] == child
  {
    var p :| 0 <= p < |a| && a[p] == child;
    assert p != 0;
    assert a[p].parent == a[p - 1].id;
  }

  lemma YoungestAgrees(a: seq<Commit>, b: seq<Commit>)
    requires IsChain(a) && IsChain(b) && SameMembers(a, b) && a != []
    ensures b != [] && a[|a| - 1] == b[|b| - 1]
  {
    var x := a[|a| - 1];
    assert x in a && x in b;
    var j :| 0 <= j < |b| && b[j] == x;
    if j < |b| - 1 {
      assert b[j + 1] in b && b[j + 1].parent == b[j].id;
      ChildFollows(a, |a| - 1, b[j + 1]);
    }
  }

  lemma DropYoungest(a: seq<Commit>)
    requires IsChain(a) && a != []
    ensures IsChain(a[..|a| - 1])
    ensures forall x :: x in a[..|a| - 1] <==> x in a && x != a[|a| - 1]
  {
    forall x
      ensures x in a[..|a| - 1] <==> x in a && x != a[|a| - 1]
    {
      if x in a && x != a[|a| - 1] {
        var i :| 0 <= i < |a| && a[i] == x;
        assert a[..|a| - 1][i] == x;
      }
    }
  }

  // ----- Looking commits up: the last match in list order wins -----

  function LastWithId(cs: seq<Commit>, id: CommitId): Option<Commit> {
    if cs == [] then None
    else if cs[|cs| - 1].id == id then Some(cs[|cs| - 1])
    else LastWithId(cs[..|cs| - 1], id)
  }

  function LastWithParent(cs: seq<Commit>, id: CommitId): Option<Commit> {
    if cs == [] then None
    else if cs[|cs| - 1].parent == id then Some(cs[|cs| - 1])
    else LastWithParent(cs[..|cs| - 1], id)
  }

  lemma {:induction false} LastWithIdSound(cs: seq<Commit>, id: CommitId)
    ensures LastWithId(cs, id).Some? ==> LastWithId(cs, id).value in cs && LastWithId(cs, id).value.id == id
    ensures LastWithId(cs, id).None? ==> forall c | c in cs :: c.id != id
  {
    if cs != [] {
      LastWithIdSound(cs[..|cs| - 1], id);
      assert cs == cs[..|cs| - 1] + [cs[|cs| - 1]];
    }
  }

  /** Of several commits with one id, it is the last in the list. */
  lemma {:induction false} LastWithIdIs(cs: seq<Commit>, id: CommitId, c: Commit)
    ensures LastWithId(cs, id) == Some(c) <==>
            c.id == id && exists i | 0 <= i < |cs| :: cs[i] == c && forall j | i < j < |cs| :: cs[j].id != id
  {
    if cs != [] {
      var n := |cs| - 1;
      LastWithIdIs(cs[..n], id, c);
      assert forall i | 0 <= i < n :: cs[..n][i] == cs[i];
    }
  }

  /** And of several with one parent. */
  lemma {:induction false} LastWithParentIs(cs: seq<Commit>, id: CommitId, c: Commit)
    ensures LastWithParent(cs, id) == Some(c) <==>
            c.parent == id && exists i | 0 <= i < |cs| :: cs[i] == c && forall j | i < j < |cs| :: cs[j].parent != id
  {
    if cs != [] {
      var n := |cs| - 1;
      LastWithParentIs(cs[..n], id, c);
      assert forall i | 0 <= i < n :: cs[..n][i] == cs[i];
    }
  }

  lemma {:induction false} LastWithParentSound(cs: seq<Commit>, id: CommitId)
    ensures LastWithParent(cs, id).Some? ==>
              LastWithParent(cs, id).value in cs && LastWithParent(cs, id).value.parent == id
    ensures LastWithParent(cs, id).None? ==> forall c | c in cs :: c.parent != id
  {
    if cs != [] {
      LastWithParentSound(cs[..|cs| - 1], id);
      assert cs == cs[..|cs| - 1] + [cs[|cs| - 1]];
    }
  }

  /** In any listing of a chain's commits, ids name positions. */
  lemma FindInChain(listing: seq<Commit>, chain: seq<Commit>, i: nat)
    requires IsChain(chain) && SameMembers(listing, chain) && i < |chain|
    ensures LastWithId(listing, chain[i].id) == Some(chain[i])
    ensures LastWithId(listing, chain[0].parent) == None
    ensures i > 0 ==> LastWithId(listing, chain[i].parent) == Some(chain[i - 1])
    ensures LastWithParent(listing, chain[i].id) == if i + 1 < |chain| then Some(chain[i + 1]) else None
  {
    FindById(listing, chain, i);
    if i > 0 {
      assert chain[i].parent == chain[i - 1].id;
      FindById(listing, chain, i - 1);
    }
    LastWithIdSound(listing, chain[0].parent);
    LastWithParentSound(listing, chain[i].id);
    var child := LastWithParent(listing, chain[i].id);
    if child.Some? {
      ChildFollows(chain, i, child.value);
    } else {
      assert forall j | 0 <= j < |chain| :: chain[j] in listing && chain[j].parent != chain[i].id;
    }
  }

  lemma FindById(listing: seq<Commit>, chain: seq<Commit>, i: nat)
    requires IsChain(chain) && SameMembers(listing, chain) && i < |chain|
    ensures LastWithId(listing, chain[i].id) == Some(chain[i])
  {
    LastWithIdSound(listing, chain[i].id);
    assert chain[i] in chain;
    var found := LastWithId(listing, chain[i].id).value;
    var j :| 0 <= j < |chain| && chain[j] == found;
  }

  // ----- Following parents back -----

  /** The last commit of `part` that has no child in `cs`. */
  function Childless(cs: seq<Commit>, part: seq<Commit>): Option<Commit> {
    if part == [] then None
    else if LastWithParent(cs, part[|part| - 1].id).None? then Some(part[|part| - 1])
    else Childless(cs, part[..|part| - 1])
  }

  /** `n` parents back from the youngest commit, as Sort follows them. */
  function Ancestor(cs: seq<Commit>, n: nat): Option<Commit> {
    if n == 0 then Childless(cs, cs)
    else
      match Ancestor(cs, n - 1)
      case None => None
      case Some(c) => LastWithId(cs, c.parent)
  }

  /** `r` is all the ancestors, oldest first. */
  ghost predicate Lineage(cs: seq<Commit>, r: seq<Commit>) {
    && Ancestor(cs, |r|) == None
    && (forall i | 0 <= i < |r| :: Ancestor(cs, i) == Some(r[|r| - 1 - i]))
  }

  ghost predicate Ends(cs: seq<Commit>) {
    exists n :: Ancestor(cs, n) == None
  }

  lemma {:induction false} ChildlessIn(cs: seq<Commit>, part: seq<Commit>)
    requires forall c | c in part :: c in cs
    ensures Childless(cs, part).Some? ==>
              Childless(cs, part).value in cs && LastWithParent(cs, Childless(cs, part).value.id).None?
    ensures Childless(cs, part).None? ==> forall c | c in part :: LastWithParent(cs, c.id).Some?
  {
    if part != [] {
      assert part == part[..|part| - 1] + [part[|part| - 1]];
      ChildlessIn(cs, part[..|part| - 1]);
    }
  }

  lemma AncestorIn(cs: seq<Commit>, n: nat)
    ensures Ancestor(cs, n).Some? ==> Ancestor(cs, n).value in cs
  {
    ChildlessIn(cs, cs);
    if n > 0 && Ancestor(cs, n - 1).Some? {
      LastWithIdSound(cs, Ancestor(cs, n - 1).value.parent);
    }
  }

  lemma {:induction false} AncestorBefore(cs: seq<Commit>, m: nat, n: nat)
    requires m <= n && Ancestor(cs, n).Some?
    ensures Ancestor(cs, m).Some?
  {
    if m < n {
      AncestorBefore(cs, m, n - 1);
    }
  }

  lemma {:induction false} AncestorShift(cs: seq<Commit>, i: nat, j: nat, k: nat)
    requires Ancestor(cs, i) == Ancestor(cs, j)
    ensures Ancestor(cs, i + k) == Ancestor(cs, j + k)
  {
    if k > 0 {
      AncestorShift(cs, i, j, k - 1);
    }
  }

  /** Meeting a commit twice, the walk never ends. */
  lemma {:induction false} NeverEnds(cs: seq<Commit>, i: nat, j: nat, n: nat)
    requires i < j && Ancestor(cs, i).Some? && Ancestor(cs, i) == Ancestor(cs, j)
    ensures Ancestor(cs, n).Some?
  {
    if n <= j {
      AncestorBefore(cs, n, j);
    } else {
      AncestorShift(cs, i, j, n - j);
      NeverEnds(cs, i, j, i + (n - j));
    }
  }

  lemma {:induction false} Pigeons(p: seq<Commit>, cs: seq<Commit>)
    requires forall i, j | 0 <= i < j < |p| :: p[i] != p[j]
    requires forall i | 0 <= i < |p| :: p[i] in cs
    ensures |p| <= |cs|
  {
    if p != [] {
      var n := |p| - 1;
      var k :| 0 <= k < |cs| && cs[k] == p[n];
      var others := cs[..k] + cs[k + 1..];
      forall i | 0 <= i < n
        ensures p[..n][i] in others
      {
        var l :| 0 <= l < |cs| && cs[l] == p[i];
        assert others[if l < k then l else l - 1] == p[i];
      }
      Pigeons(p[..n], others);
    }
  }

  /** No commit is met twice. */
  ghost predicate NoRepeat(cs: seq<Commit>) {
    forall i: nat, j: nat | i < j && Ancestor(cs, i).Some? :: Ancestor(cs, i) != Ancestor(cs, j)
  }

  lemma RepeatFree(cs: seq<Commit>)
    requires Ends(cs)
    ensures NoRepeat(cs)
  {
    var n :| Ancestor(cs, n) == None;
    forall i: nat, j: nat | i < j && Ancestor(cs, i).Some?
      ensures Ancestor(cs, i) != Ancestor(cs, j)
    {
      if Ancestor(cs, i) == Ancestor(cs, j) {
        NeverEnds(cs, i, j, n);
      }
    }
  }

  lemma {:induction false} AtMostAll(cs: seq<Commit>, n: nat)
    requires NoRepeat(cs) && Ancestor(cs, n).Some?
    ensures n < |cs|
  {
    forall i: nat | i <= n
      ensures Ancestor(cs, i).Some? && Ancestor(cs, i).value in cs
    {
      AncestorBefore(cs, i, n);
      AncestorIn(cs, i);
    }
    var p := seq(n + 1, i requires 0 <= i <= n => Ancestor(cs, i).value);
    Pigeons(p, cs);
  }

  /** Following parents ends exactly when no commit is met twice, and then within as many steps as there are commits. */
  lemma EndsIff(cs: seq<Commit>)
    ensures Ends(cs) <==> NoRepeat(cs)
    ensures Ends(cs) <==> Ancestor(cs, |cs|) == None
  {
    if Ends(cs) {
      RepeatFree(cs);
    }
    if NoRepeat(cs) && Ancestor(cs, |cs|) != None {
      AtMostAll(cs, |cs|);
    }
  }

  /** Commits on which it does not: the parents of a childless commit go round in a circle. */
  lemma {:induction false} CircleNeverEnds(a: Commit, b: Commit, c: Commit)
    requires a.id != b.id && a.id != c.id && b.id != c.id
    requires a.parent == b.id && b.parent == c.id && c.parent == b.id
    ensures !Ends([a, b, c])
  {
    var cs := [a, b, c];
    assert cs[..2] == [a, b] && [a, b][..1] == [a] && [a][..0] == [];
    assert LastWithParent([a], a.id) == None && LastWithParent([a, b], a.id) == None;
    assert LastWithParent(cs, a.id) == None;
    assert LastWithParent([a], c.id) == None && LastWithParent([a, b], c.id) == Some(b);
    assert LastWithParent(cs, b.id) == Some(c) && LastWithParent(cs, c.id) == Some(b);
    assert Childless(cs, [a]) == Some(a) && Childless(cs, [a, b]) == Some(a);
    assert Ancestor(cs, 0) == Some(a);
    assert LastWithId([a], a.parent) == None && LastWithId([a, b], b.id) == Some(b);
    assert Ancestor(cs, 1) == Some(b);
    assert Ancestor(cs, 2) == Some(c);
    assert Ancestor(cs, 3) == Some(b);
    EndsIff(cs);
  }

  /** On any listing of a chain's commits the ancestors are the chain. */
  lemma {:induction false} ChainAncestor(listing: seq<Commit>, chain: seq<Commit>, n: nat)
    requires IsChain(chain) && SameMembers(listing, chain)
    ensures Ancestor(listing, n) == if n < |chain| then Some(chain[|chain| - 1 - n]) else None
  {
    if n == 0 {
      ChildlessIn(listing, listing);
      var c := Childless(listing, listing);
      if c.Some? {
        var j :| 0 <= j < |chain| && chain[j] == c.value;
        FindInChain(listing, chain, j);
      } else if chain != [] {
        assert chain[|chain| - 1] in chain;
        FindInChain(listing, chain, |chain| - 1);
      }
    } else {
      ChainAncestor(listing, chain, n - 1);
      if n - 1 < |chain| {
        FindInChain(listing, chain, |chain| - n);
      }
    }
  }

  lemma LineageUnique(cs: seq<Commit>, a: seq<Commit>, b: seq<Commit>)
    requires Lineage(cs, a) && Lineage(cs, b)
    ensures a == b
  {
    assert |a| == |b|;
    forall j | 0 <= j < |a|
      ensures a[j] == b[j]
    {
      var i := |a| - 1 - j;
      assert Ancestor(cs, i) == Some(a[|a| - 1 - i]);
      assert Ancestor(cs, i) == Some(b[|b| - 1 - i]);
    }
  }

  /** So they are sorted back into it. */
  lemma ChainLineage(listing: seq<Commit>, chain: seq<Commit>, r: seq<Commit>)
    requires IsChain(chain) && SameMembers(listing, chain)
    ensures Lineage(listing, r) <==> r == chain
  {
    forall n: nat
      ensures Ancestor(listing, n) == if n < |chain| then Some(chain[|chain| - 1 - n]) else None
    {
      ChainAncestor(listing, chain, n);
    }
    if Lineage(listing, r) {
      LineageUnique(listing, r, chain);
    }
  }

  /** Sorting has a result exactly if it ends. */
  lemma SortedIff(cs: seq<Commit>)
    ensures Ends(cs) <==> exists r :: Lineage(cs, r)
  {
    if n :| Ancestor(cs, n) == None {
      LineageUpTo(cs, n);
    }
  }

  lemma {:induction false} LineageUpTo(cs: seq<Commit>, n: nat)
    requires Ancestor(cs, n) == None
    ensures exists r :: Lineage(cs, r)
  {
    if n > 0 && Ancestor(cs, n - 1) == None {
      LineageUpTo(cs, n - 1);
    } else {
      forall i: nat | i < n
        ensures Ancestor(cs, i).Some?
      {
        AncestorBefore(cs, i, n - 1);
      }
      var r := seq(n, j requires 0 <= j < n => Ancestor(cs, n - 1 - j).value);
      assert Lineage(cs, r);
    }
  }

  /** Whatever commits are sorted, the result is a chain, and the first of them has no parent among all. */
  lemma {:induction false} LineageIsChain(cs: seq<Commit>, r: seq<Commit>)
    requires Lineage(cs, r)
    ensures IsChain(r)
    ensures forall c | c in r :: c in cs
    ensures r != [] ==> forall c | c in cs :: c.id != r[0].parent && c.parent != r[|r| - 1].id
  {
    RepeatFree(cs);
    forall j | 0 <= j < |r|
      ensures r[j] in cs && Ancestor(cs, |r| - 1 - j) == Some(r[j])
    {
      assert Ancestor(cs, |r| - 1 - j) == Some(r[|r| - 1 - (|r| - 1 - j)]);
      AncestorIn(cs, |r| - 1 - j);
    }
    forall j | 0 <= j < |r|
      ensures j > 0 ==> r[j].parent == r[j - 1].id
      ensures j < |r| - 1 ==> LastWithId(cs, r[j].id) == Some(r[j])
    {
      ParentFound(cs, r, j);
    }
    if r != [] {
      ChildlessIn(cs, cs);
      LastWithParentSound(cs, r[|r| - 1].id);
      LastWithIdSound(cs, r[0].parent);
      assert r[0] in cs && Ancestor(cs, |r|) == LastWithId(cs, r[0].parent);
      assert forall j | 0 < j < |r| :: r[j] in cs && r[j].parent == r[j - 1].id;
      forall i, j | 0 <= i < j < |r|
        ensures r[i].id != r[j].id
      {
        if j == |r| - 1 {
          assert r[i + 1].parent == r[i].id;
        } else {
          assert Ancestor(cs, |r| - 1 - j) != Ancestor(cs, |r| - 1 - i);
        }
      }
    }
  }

  lemma {:induction false} ParentFound(cs: seq<Commit>, r: seq<Commit>, j: nat)
    requires Lineage(cs, r) && j < |r|
    ensures j > 0 ==> r[j].parent == r[j - 1].id
    ensures j < |r| - 1 ==> LastWithId(cs, r[j].id) == Some(r[j])
  {
    var n := |r| - 1 - j;
    assert Ancestor(cs, n) == Some(r[|r| - 1 - n]);
    if j > 0 {
      assert Ancestor(cs, n + 1) == Some(r[|r| - 1 - (n + 1)]);
      LastWithIdSound(cs, r[j].parent);
    }
    if n > 0 {
      assert Ancestor(cs, n - 1) == Some(r[|r| - 1 - (n - 1)]);
      LastWithIdSound(cs, r[j + 1].parent);
    }
  }

  /** Sorting keeps every commit exactly when they are the commits of a chain. */
  lemma {:induction false} KeepsAllIff(cs: seq<Commit>, r: seq<Commit>)
    requires Lineage(cs, r)
    ensures SameMembers(cs, r) <==> exists chain :: IsChain(chain) && SameMembers(cs, chain)
  {
    LineageIsChain(cs, r);
    if chain :| IsChain(chain) && SameMembers(cs, chain) {
      ChainLineage(cs, chain, r);
    }
  }

  /** Two commits that are not of one chain: the one later in the list is kept, and it alone. */
  lemma {:induction false} TwoYoungest(a: Commit, b: Commit)
    requires a.id != b.id && a.parent !in {a.id, b.id} && b.parent !in {a.id, b.id}
    ensures Lineage([a, b], [b]) && !exists chain :: IsChain(chain) && SameMembers([a, b], chain)
  {
    var cs := [a, b];
    LastWithParentSound(cs, b.id);
    LastWithIdSound(cs, b.parent);
    assert Ancestor(cs, 0) == Some(b) && Ancestor(cs, 1) == None;
    KeepsAllIff(cs, [b]);
    assert a in cs && a !in [b];
  }

  // ----- Deltas and blame -----

  predicate Touches(c: Commit, k: Key) {
    exists d | d in c.deltas :: d.key == k
  }

  /** The last delta on `k` in the commit, as Blame's getDelta picks it. */
  function DeltaOn(deltas: seq<Delta>, k: Key): Option<Delta> {
    if deltas == [] then None
    else if deltas[|deltas| - 1].key == k then Some(deltas[|deltas| - 1])
    else DeltaOn(deltas[..|deltas| - 1], k)
  }

  lemma {:induction false} DeltaOnSound(deltas: seq<Delta>, k: Key)
    ensures DeltaOn(deltas, k).Some? ==> DeltaOn(deltas, k).value in deltas && DeltaOn(deltas, k).value.key == k
    ensures DeltaOn(deltas, k).None? ==> forall d | d in deltas :: d.key != k
  {
    if deltas != [] {
      DeltaOnSound(deltas[..|deltas| - 1], k);
      assert deltas == deltas[..|deltas| - 1] + [deltas[|deltas| - 1]];
    }
  }

  lemma {:induction false} DeltaOnIs(deltas: seq<Delta>, k: Key, d: Delta)
    ensures DeltaOn(deltas, k) == Some(d) <==>
            && d.key == k
            && exists i | 0 <= i < |deltas| :: deltas[i] == d && forall j | i < j < |deltas| :: deltas[j].key != k
  {
    if deltas != [] {
      var n := |deltas| - 1;
      DeltaOnIs(deltas[..n], k, d);
      assert forall i | 0 <= i < n :: deltas[..n][i] == deltas[i];
    }
  }

  function TrailStep(c: Commit, k: Key): seq<Blamed> {
    match DeltaOn(c.deltas, k)
    case None => []
    case Some(d) => [Blamed(c.id, d)]
  }

  /** What the commits did to `k`, oldest first. */
  function Trail(cs: seq<Commit>, k: Key): seq<Blamed> {
    if cs == [] then [] else Trail(cs[..|cs| - 1], k) + TrailStep(cs[|cs| - 1], k)
  }

  function Reversed<T>(s: seq<T>): seq<T> {
    seq(|s|, i requires 0 <= i < |s| => s[|s| - 1 - i])
  }

  lemma {:induction false} TrailConcat(a: seq<Commit>, b: seq<Commit>, k: Key)
    ensures Trail(a + b, k) == Trail(a, k) + Trail(b, k)
  {
    if b == [] {
      assert a + b == a;
    } else {
      assert (a + b)[..|a + b| - 1] == a + b[..|b| - 1];
      TrailConcat(a, b[..|b| - 1], k);
    }
  }

  /** The positions of the commits that touch the key. */
  function Positions(cs: seq<Commit>, k: Key): seq<nat> {
    if cs == [] then []
    else Positions(cs[..|cs| - 1], k) + if DeltaOn(cs[|cs| - 1].deltas, k).Some? then [|cs| - 1] else []
  }

  lemma {:induction false} PositionsAscend(cs: seq<Commit>, k: Key)
    ensures forall i | 0 <= i < |Positions(cs, k)| :: Positions(cs, k)[i] < |cs|
    ensures forall i, j | 0 <= i < j < |Positions(cs, k)| :: Positions(cs, k)[i] < Positions(cs, k)[j]
  {
    if cs != [] {
      PositionsAscend(cs[..|cs| - 1], k);
    }
  }

  /** They are exactly those that do. */
  lemma {:induction false} PositionsTouch(cs: seq<Commit>, k: Key, i: nat)
    requires i < |cs|
    ensures i in Positions(cs, k) <==> Touches(cs[i], k)
  {
    var n := |cs| - 1;
    if i < n {
      PositionsTouch(cs[..n], k, i);
      assert cs[..n][i] == cs[i];
    } else {
      PositionsAscend(cs[..n], k);
      DeltaOnSound(cs[n].deltas, k);
    }
  }

  /** The trail has one entry for each commit that touches the key, in list order: its delta on that key. */
  lemma {:induction false} TrailExact(cs: seq<Commit>, k: Key, i: nat)
    requires i < |Positions(cs, k)|
    ensures |Trail(cs, k)| == |Positions(cs, k)| && Positions(cs, k)[i] < |cs|
    ensures var c := cs[Positions(cs, k)[i]];
            DeltaOn(c.deltas, k).Some? && Trail(cs, k)[i] == Blamed(c.id, DeltaOn(c.deltas, k).value)
  {
    TrailLength(cs, k);
    var n := |cs| - 1;
    TrailLength(cs[..n], k);
    if i < |Positions(cs[..n], k)| {
      TrailExact(cs[..n], k, i);
      assert cs[..n][Positions(cs, k)[i]] == cs[Positions(cs, k)[i]];
    }
  }

  lemma {:induction false} TrailLength(cs: seq<Commit>, k: Key)
    ensures |Trail(cs, k)| == |Positions(cs, k)|
  {
    if cs != [] {
      TrailLength(cs[..|cs| - 1], k);
    }
  }

  /** The trail read backwards, entry by entry. */
  lemma {:induction false} Backwards(cs: seq<Commit>, k: Key, i: nat)
    requires i < |Positions(cs, k)|
    ensures var vec := Reversed(Trail(cs, k));
            var p := Positions(cs, k)[|Positions(cs, k)| - 1 - i];
            && |vec| == |Positions(cs, k)| && p < |cs|
            && vec[i].id == cs[p].id && DeltaOn(cs[p].deltas, k) == Some(vec[i].delta)
  {
    TrailExact(cs, k, |Positions(cs, k)| - 1 - i);
  }

  /** One entry for each commit that touches the key, the last of them first: its id and its delta on the key. */
  ghost predicate YoungestFirst(vec: seq<Blamed>, cs: seq<Commit>, k: Key) {
    && |vec| == |Positions(cs, k)|
    && forall i | 0 <= i < |vec| ::
         var p := Positions(cs, k)[|vec| - 1 - i];
         p < |cs| && vec[i].id == cs[p].id && DeltaOn(cs[p].deltas, k) == Some(vec[i].delta)
  }

  lemma AllBackwards(cs: seq<Commit>, k: Key, vec: seq<Blamed>)
    requires vec == Reversed(Trail(cs, k))
    ensures YoungestFirst(vec, cs, k)
    ensures (forall i, j | 0 <= i < j < |cs| :: cs[i].id < cs[j].id) ==>
              forall i, j | 0 <= i < j < |vec| :: vec[i].id > vec[j].id
  {
    TrailLength(cs, k);
    PositionsAscend(cs, k);
    forall i | 0 <= i < |vec|
      ensures var p := Positions(cs, k)[|vec| - 1 - i];
              p < |cs| && vec[i].id == cs[p].id && DeltaOn(cs[p].deltas, k) == Some(vec[i].delta)
    {
      Backwards(cs, k, i);
    }
  }

  /** No commit after position `i` touches a key that commit `i` touched. */
  ghost predicate Untouched(cs: seq<Commit>, i: nat)
    requires i < |cs|
  {
    forall j, d | i < j < |cs| && d in cs[i].deltas :: !Touches(cs[j], d.key)
  }

  // ----- The class -----

  ghost predicate HighestOf(id: CommitId, cs: seq<Commit>) {
    && (forall c | c in cs :: c.id <= id && c.parent <= id)
    && (id == 0 || exists c | c in cs :: c.id == id || c.parent == id)
  }

  class AllCommitHistories {
    var mCommits: seq<Commit>
    var mMaxCommitId: CommitId

    /** Sorts what was saved into a chain; if it is the commits of one, that chain comes back. */
    constructor (commits: seq<Commit>)
      requires Ends(commits)
      ensures Lineage(commits, mCommits) && HighestOf(mMaxCommitId, commits)
      ensures IsChain(mCommits) && forall c | c in mCommits :: c.id <= mMaxCommitId && c.parent <= mMaxCommitId
      ensures forall chain | IsChain(chain) && SameMembers(commits, chain) :: mCommits == chain
    {
      var sorted := Sort(commits);
      var highest := FindMaxCommitId(commits);
      mCommits, mMaxCommitId := sorted, highest;
      LineageIsChain(commits, sorted);
      forall chain | IsChain(chain) && SameMembers(commits, chain)
        ensures sorted == chain
      {
        ChainLineage(commits, chain, sorted);
      }
    }

    method StoreCommit(commit: Commit)
      modifies this
      ensures mCommits == old(mCommits) + [commit]
      ensures mMaxCommitId == Max(Max(old(mMaxCommitId), commit.id), commit.parent)
    {
      mCommits := mCommits + [commit];
      mMaxCommitId := Max(mMaxCommitId, commit.id);
      mMaxCommitId := Max(mMaxCommitId, commit.parent);
    }

    method GetCommit(commitId: CommitId) returns (maybeCommit: Option<Commit>)
      ensures maybeCommit == LastWithId(mCommits, commitId)
    {
      maybeCommit := FindCommit(commitId, mCommits);
    }

    method GetChild(parentId: CommitId) returns (maybeCommit: Option<Commit>)
      ensures maybeCommit == LastWithParent(mCommits, parentId)
    {
      maybeCommit := FindChild(parentId, mCommits);
    }

    method DropOldestCommit() returns (maybeCommit: Option<Commit>)
      modifies this
      ensures mMaxCommitId == old(mMaxCommitId)
      ensures mCommits == if old(mCommits) == [] then [] else old(mCommits)[1..]
      ensures maybeCommit == if old(mCommits) == [] then None else Some(old(mCommits)[0])
    {
      maybeCommit := None;
      if |mCommits| > 0 {
        maybeCommit := Some(mCommits[0]);
        mCommits := mCommits[1..];
      }
    }

    method GetMostRecentCommit() returns (maybeCommit: Option<Commit>)
      ensures maybeCommit == if mCommits == [] then None else Some(mCommits[|mCommits| - 1])
    {
      maybeCommit := None;
      if |mCommits| > 0 {
        maybeCommit := Some(mCommits[|mCommits| - 1]);
      }
    }

    /** Youngest change first. */
    method Blame(key: Key) returns (vec: seq<Blamed>)
      ensures vec == Reversed(Trail(mCommits, key))
      ensures YoungestFirst(vec, mCommits, key)
      ensures (forall i, j | 0 <= i < j < |mCommits| :: mCommits[i].id < mCommits[j].id) ==>
                forall i, j | 0 <= i < j < |vec| :: vec[i].id > vec[j].id
    {
      vec := [];
      for i := 0 to |mCommits|
        invariant vec == Trail(mCommits[..i], key)
      {
        assert mCommits[..i + 1][..i] == mCommits[..i];
        var delta := GetDelta(mCommits[i], key);
        if delta.Some? {
          vec := vec + [Blamed(mCommits[i].id, delta.value)];
        }
      }
      assert mCommits[..|mCommits|] == mCommits;
      vec := Reversed(vec);
      AllBackwards(mCommits, key, vec);
    }

    static method GetDelta(commit: Commit, key: Key) returns (maybeDelta: Option<Delta>)
      ensures maybeDelta == DeltaOn(commit.deltas, key)
    {
      maybeDelta := None;
      for i := 0 to |commit.deltas|
        invariant maybeDelta == DeltaOn(commit.deltas[..i], key)
      {
        assert commit.deltas[..i + 1][..i] == commit.deltas[..i];
        if commit.deltas[i].key == key {
          maybeDelta := Some(commit.deltas[i]);
        }
      }
      assert commit.deltas[..|commit.deltas|] == commit.deltas;
    }

    static method FindMaxCommitId(unsortedCommits: seq<Commit>) returns (id: CommitId)
      ensures HighestOf(id, unsortedCommits)
    {
      id := 0;
      for i := 0 to |unsortedCommits|
        invariant HighestOf(id, unsortedCommits[..i])
      {
        assert unsortedCommits[..i + 1] == unsortedCommits[..i] + [unsortedCommits[i]];
        id := Max(id, unsortedCommits[i].id);
        id := Max(id, unsortedCommits[i].parent);
        assert unsortedCommits[i] in unsortedCommits[..i + 1];
      }
      assert unsortedCommits[..|unsortedCommits|] == unsortedCommits;
    }

    static method FindCommit(commitId: CommitId, unsortedCommits: seq<Commit>) returns (maybeCommit: Option<Commit>)
      ensures maybeCommit == LastWithId(unsortedCommits, commitId)
    {
      maybeCommit := None;
      for i := 0 to |unsortedCommits|
        invariant maybeCommit == LastWithId(unsortedCommits[..i], commitId)
      {
        assert unsortedCommits[..i + 1][..i] == unsortedCommits[..i];
        if unsortedCommits[i].id == commitId {
          maybeCommit := Some(unsortedCommits[i]);
        }
      }
      assert unsortedCommits[..|unsortedCommits|] == unsortedCommits;
    }

    static method FindChild(parentId: CommitId, unsortedCommits: seq<Commit>) returns (maybeCommit: Option<Commit>)
      ensures maybeCommit == LastWithParent(unsortedCommits, parentId)
    {
      maybeCommit := None;
      for i := 0 to |unsortedCommits|
        invariant maybeCommit == LastWithParent(unsortedCommits[..i], parentId)
      {
        assert unsortedCommits[..i + 1][..i] == unsortedCommits[..i];
        if unsortedCommits[i].parent == parentId {
          maybeCommit := Some(unsortedCommits[i]);
        }
      }
      assert unsortedCommits[..|unsortedCommits|] == unsortedCommits;
    }

    /** The last commit without a child. */
    static method FindMostRecentCommit(unsortedCommits: seq<Commit>) returns (maybeCommit: Option<Commit>)
      ensures maybeCommit == Childless(unsortedCommits, unsortedCommits)
    {
      maybeCommit := None;
      for i := 0 to |unsortedCommits|
        invariant maybeCommit == Childless(unsortedCommits, unsortedCommits[..i])
      {
        assert unsortedCommits[..i + 1][..i] == unsortedCommits[..i];
        var maybeChild := FindChild(unsortedCommits[i].id, unsortedCommits);
        if maybeChild.None? {
          maybeCommit := Some(unsortedCommits[i]);
        }
      }
      assert unsortedCommits[..|unsortedCommits|] == unsortedCommits;
    }

    /** Follows parents from the youngest commit back, on all commits on which that ends (EndsIff). */
    static method Sort(unsortedCommits: seq<Commit>) returns (sortedCommits: seq<Commit>)
      requires Ends(unsortedCommits)
      ensures Lineage(unsortedCommits, sortedCommits)
    {
      sortedCommits := [];
      var maybeCurrent := FindMostRecentCommit(unsortedCommits);
      EndsIff(unsortedCommits);
      while maybeCurrent.Some?
        invariant |sortedCommits| <= |unsortedCommits|
        invariant maybeCurrent == Ancestor(unsortedCommits, |sortedCommits|)
        invariant forall i | 0 <= i < |sortedCommits| ::
                    Ancestor(unsortedCommits, i) == Some(sortedCommits[|sortedCommits| - 1 - i])
        decreases |unsortedCommits| - |sortedCommits|
      {
        var commit := maybeCurrent.value;
        sortedCommits := [commit] + sortedCommits;
        maybeCurrent := FindCommit(commit.parent, unsortedCommits);
      }
    }
  }
}
