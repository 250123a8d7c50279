/** Sequences without repetition, and sequences of sequences. */
module Sequences {

  /** `s[i]`, named so that a quantifier over positions is used only where a position is named. */
  function Nth<T>(s: seq<T>, i: int): T
    requires 0 <= i < |s|
  {
    s[i]
  }

  ghost predicate NoDup<T>(s: seq<T>) {
    forall i, j {:trigger Nth(s, i), Nth(s, j)} | 0 <= i < j < |s| :: Nth(s, i) != Nth(s, j)
  }

  function Elements<T(==)>(s: seq<T>): set<T> {
    set x | x in s
  }

  /** `s` with position `i` taken out. */
  function Cut<T>(s: seq<T>, i: nat): seq<T>
    requires i < |s|
  {
    seq(|s| - 1, j requires 0 <= j < |s| - 1 => if j < i then s[j] else s[j + 1])
  }

  lemma CutIs<T>(before: seq<T>, x: T, after: seq<T>)
    ensures Cut(before + [x] + after, |before|) == before + after
  {
  }

  lemma NoDupCut<K>(s: seq<K>, i: nat)
    requires i < |s| && NoDup(s)
    ensures NoDup(Cut(s, i))
    ensures Elements(Cut(s, i)) == Elements(s) - {s[i]}
  {
    var cut := Cut(s, i);
    forall j, k | 0 <= j < k < |cut|
      ensures Nth(cut, j) != Nth(cut, k)
    {
      assert Nth(s, if j < i then j else j + 1) != Nth(s, if k < i then k else k + 1);
    }
    forall x
      ensures x in cut <==> x in s && x != s[i]
    {
      if x in cut {
        var j :| 0 <= j < |cut| && cut[j] == x;
        assert Nth(s, i) != Nth(s, if j < i then j else j + 1);
      }
      if x in s && x != s[i] {
        var j :| 0 <= j < |s| && s[j] == x;
        assert cut[if j < i then j else j - 1] == x;
      }
    }
  }

  lemma NoDupSnoc<K>(s: seq<K>, k: K)
    requires NoDup(s)
    requires forall i {:trigger Nth(s, i)} | 0 <= i < |s| :: Nth(s, i) != k
    ensures NoDup(s + [k])
  {
    forall i, j | 0 <= i < j < |s + [k]|
      ensures Nth(s + [k], i) != Nth(s + [k], j)
    {
      assert j < |s| ==> Nth(s, i) != Nth(s, j);
      assert Nth(s, i) != k;
    }
  }

  lemma NoDupAppend<K>(s: seq<K>, k: K)
    requires NoDup(s) && k !in s
    ensures NoDup(s + [k])
    ensures Elements(s + [k]) == Elements(s) + {k}
  {
    NoDupSnoc(s, k);
  }

  lemma {:induction false} NoDupConcat<T>(a: seq<T>, b: seq<T>)
    ensures NoDup(a + b) <==> NoDup(a) && NoDup(b) && forall x | x in a :: x !in b
  {
    if b == [] {
      assert a + b == a;
    } else {
      var n := |b| - 1;
      NoDupConcat(a, b[..n]);
      NoDupLast(b[..n], b[n]);
      NoDupLast(a + b[..n], b[n]);
      assert b == b[..n] + [b[n]] && a + b == a + b[..n] + [b[n]];
    }
  }

  lemma NoDupLast<T>(s: seq<T>, x: T)
    ensures NoDup(s + [x]) <==> NoDup(s) && x !in s
  {
    if NoDup(s) && x !in s {
      NoDupAppend(s, x);
    }
    var all := s + [x];
    if NoDup(all) {
      assert forall i {:trigger Nth(s, i)} | 0 <= i < |s| :: Nth(s, i) == Nth(all, i) && Nth(all, i) != Nth(all, |s|);
      assert NoDup(s);
      assert forall i | 0 <= i < |s| :: s[i] == Nth(s, i);
    }
  }

  lemma {:induction false} SetSize<K>(s: seq<K>)
    requires NoDup(s)
    ensures |Elements(s)| == |s|
  {
    if s != [] {
      var n := |s| - 1;
      assert Cut(s, n) == s[..n];
      NoDupCut(s, n);
      SetSize(s[..n]);
    }
  }

  function Flatten<T>(batches: seq<seq<T>>): seq<T> {
    if batches == [] then [] else Flatten(batches[..|batches| - 1]) + batches[|batches| - 1]
  }

  lemma {:induction false} FlattenConcat<T>(a: seq<seq<T>>, b: seq<seq<T>>)
    ensures Flatten(a + b) == Flatten(a) + Flatten(b)
  {
    if b == [] {
      assert a + b == a;
    } else {
      var n := |b| - 1;
      FlattenConcat(a, b[..n]);
      assert (a + b)[..|a + b| - 1] == a + b[..n];
    }
  }
}
