/** A map bounded in size that forgets its oldest entry when full (src/SizeAgeBoundMap.h). */
module SizeAgeBoundMaps {
  import opened Sequences

  // ----- What the map means: its entries and their keys from oldest to youngest -----

  datatype Aged<K, V> = Aged(order: seq<K>, items: map<K, V>)

  ghost predicate WellAged<K, V>(a: Aged<K, V>, max: nat) {
    && NoDup(a.order)
    && a.items.Keys == Elements(a.order)
    && |a.order| <= max
  }

  function PositionOf<T(==)>(s: seq<T>, x: T): (i: nat)
    requires x in s
    ensures i < |s| && s[i] == x
  {
    if s[0] == x then 0 else 1 + PositionOf(s[1..], x)
  }

  function Erased<K(==), V>(a: Aged<K, V>, k: K): Aged<K, V> {
    if k in a.order then Aged(Cut(a.order, PositionOf(a.order, k)), a.items - {k}) else a
  }

  function AgedOut<K(==), V>(a: Aged<K, V>): Aged<K, V>
    requires a.order != []
  {
    Aged(Cut(a.order, 0), a.items - {a.order[0]})
  }

  function Inserted<K(==), V>(a: Aged<K, V>, max: nat, k: K, v: V): Aged<K, V> {
    if k in a.items then a
    else
      var b := if |a.order| >= max && a.order != [] then AgedOut(a) else a;
      Aged(b.order + [k], b.items[k := v])
  }

  lemma InsertedWellAged<K, V>(a: Aged<K, V>, max: nat, k: K, v: V)
    requires WellAged(a, max) && max >= 1
    ensures WellAged(Inserted(a, max, k, v), max)
  {
    if k !in a.items {
      assert k !in Elements(a.order);
      if |a.order| >= max {
        AgedOutWellAged(a, max);
        assert k !in AgedOut(a).order;
        NoDupAppend(AgedOut(a).order, k);
      } else {
        NoDupAppend(a.order, k);
      }
    }
  }

  lemma AgedOutWellAged<K, V>(a: Aged<K, V>, max: nat)
    requires WellAged(a, max) && a.order != []
    ensures WellAged(AgedOut(a), max)
  {
    NoDupCut(a.order, 0);
  }

  lemma ErasedWellAged<K, V>(a: Aged<K, V>, max: nat, k: K)
    requires WellAged(a, max)
    ensures WellAged(Erased(a, k), max)
  {
    if k in a.order {
      NoDupCut(a.order, PositionOf(a.order, k));
    }
  }

  /** Erasing takes out the key, and the others keep their values and their order. */
  lemma ErasedIs<K, V>(a: Aged<K, V>, max: nat, before: seq<K>, k: K, after: seq<K>)
    requires WellAged(a, max) && a.order == before + [k] + after
    ensures Erased(a, k) == Aged(before + after, a.items - {k})
  {
    var p := PositionOf(a.order, k);
    assert Nth(a.order, p) == Nth(a.order, |before|);
    CutIs(before, k, after);
  }

  /** A key that is there is not inserted again, and does not get younger. */
  lemma NotInsertedTwice<K, V>(a: Aged<K, V>, max: nat, k: K, v: V)
    ensures k in a.items ==> Inserted(a, max, k, v) == a
    ensures WellAged(a, max) && k !in a.items ==> Erased(a, k) == a
  {
    assert k in a.order ==> k in Elements(a.order);
  }

  // ----- How long an entry is safe -----

  datatype Use<K, V> = Insert(key: K, value: V) | Erase(key: K)

  ghost function AfterUses<K, V>(a: Aged<K, V>, max: nat, ops: seq<Use<K, V>>): Aged<K, V> {
    if ops == [] then a
    else
      var b := AfterUses(a, max, ops[..|ops| - 1]);
      match ops[|ops| - 1]
      case Insert(k, v) => Inserted(b, max, k, v)
      case Erase(k) => Erased(b, k)
  }

  function Inserts<K, V>(ops: seq<Use<K, V>>): nat {
    if ops == [] then 0
    else Inserts(ops[..|ops| - 1]) + if ops[|ops| - 1].Insert? then 1 else 0
  }

  /** `k` is at position `at`, with at most `younger` keys inserted after it. */
  ghost predicate Holds<K, V>(a: Aged<K, V>, k: K, v: V, at: nat, younger: nat) {
    at < |a.order| && a.order[at] == k && k in a.items && a.items[k] == v && |a.order| - 1 - at <= younger
  }

  lemma HoldsThroughInsert<K, V>(a: Aged<K, V>, max: nat, k: K, v: V, at: nat, younger: nat, j: K, w: V)
    returns (to: nat)
    requires WellAged(a, max) && Holds(a, k, v, at, younger) && younger + 1 < max && j != k
    ensures Holds(Inserted(a, max, j, w), k, v, to, younger + 1)
  {
    to := if j !in a.items && |a.order| >= max then at - 1 else at;
    if j !in a.items && |a.order| >= max {
      assert Nth(a.order, 0) != Nth(a.order, at);
    }
  }

  lemma HoldsThroughErase<K, V>(a: Aged<K, V>, max: nat, k: K, v: V, at: nat, younger: nat, j: K)
    returns (to: nat)
    requires WellAged(a, max) && Holds(a, k, v, at, younger) && j != k
    ensures Holds(Erased(a, j), k, v, to, younger)
  {
    to := if j in a.order && PositionOf(a.order, j) < at then at - 1 else at;
  }

  /**
   * However inserts and erasures of other keys interleave, an entry just inserted keeps its value
   * through the next `max - 1` inserts, and no run makes the map larger than `max`.
   */
  lemma {:induction false} YoungestSurvives<K, V>(a: Aged<K, V>, max: nat, k: K, ops: seq<Use<K, V>>)
    returns (at: nat)
    requires WellAged(a, max) && max >= 1
    requires a.order != [] && a.order[|a.order| - 1] == k
    requires forall op | op in ops :: op.key != k
    requires Inserts(ops) < max
    ensures WellAged(AfterUses(a, max, ops), max)
    ensures Holds(AfterUses(a, max, ops), k, a.items[k], at, Inserts(ops))
  {
    if ops == [] {
      assert k in Elements(a.order);
      at := |a.order| - 1;
    } else {
      var before := ops[..|ops| - 1];
      at := YoungestSurvives(a, max, k, before);
      var b := AfterUses(a, max, before);
      match ops[|ops| - 1]
      case Insert(j, v) =>
        InsertedWellAged(b, max, j, v);
        at := HoldsThroughInsert(b, max, k, a.items[k], at, Inserts(before), j, v);
      case Erase(j) =>
        ErasedWellAged(b, max, j);
        at := HoldsThroughErase(b, max, k, a.items[k], at, Inserts(before), j);
    }
  }

  /** One insert of a new key into a full map loses the oldest key and nothing else. */
  lemma OldestEvicted<K, V>(a: Aged<K, V>, max: nat, k: K, v: V)
    requires WellAged(a, max) && max >= 1 && |a.order| == max && k !in a.items
    ensures var b := Inserted(a, max, k, v);
            && b.items.Keys == a.items.Keys - {a.order[0]} + {k}
            && (forall j | j in a.items && j != a.order[0] :: b.items[j] == a.items[j])
            && (forall i | 0 <= i < max :: b.order[i] == if i == max - 1 then k else a.order[i + 1])
  {
  }

  // ----- The implementation: a hash map, a doubly linked list and a map to list nodes -----

  class Node<K> {
    var key: K
    var prev: Node?<K>
    var next: Node?<K>

    constructor (key: K)
      ensures this.key == key && prev == null && next == null
    {
      this.key := key;
      prev, next := null, null;
    }
  }

  /** std::list: `Spine` is the chain of nodes, `Keys` what they hold. */
  class AgeList<K> {
    var mHead: Node?<K>
    var mTail: Node?<K>
    ghost var Spine: seq<Node<K>>
    ghost var Keys: seq<K>
    ghost var Repr: set<object>

    ghost predicate Valid()
      reads this, Repr
      ensures Valid() ==> this in Repr
    {
      && this in Repr
      && |Spine| == |Keys|
      && NoDup(Spine)
      && (forall i {:trigger Nth(Spine, i)} | 0 <= i < |Spine| ::
            Nth(Spine, i) in Repr && Nth(Spine, i).key == Keys[i])
      && (Spine == [] ==> mHead == null && mTail == null)
      && (Spine != [] ==> mHead == Nth(Spine, 0) && mTail == Nth(Spine, |Spine| - 1))
      && (Spine != [] ==> Nth(Spine, 0).prev == null && Nth(Spine, |Spine| - 1).next == null)
      && (forall i, j {:trigger Nth(Spine, i), Nth(Spine, j)} | 0 <= i && j == i + 1 && j < |Spine| ::
            Nth(Spine, i).next == Nth(Spine, j) && Nth(Spine, j).prev == Nth(Spine, i))
    }

    constructor ()
      ensures Valid() && fresh(Repr)
      ensures Keys == [] && Spine == []
    {
      mHead, mTail := null, null;
      Spine, Keys := [], [];
      Repr := {this};
    }

    method PushBack(key: K) returns (n: Node<K>)
      requires Valid()
      modifies Repr
      ensures Valid() && fresh(Repr - old(Repr))
      ensures Keys == old(Keys) + [key] && Spine == old(Spine) + [n]
    {
      ghost var before := Spine;
      n := new Node(key);
      NoDupSnoc(before, n);
      n.prev := mTail;
      if mTail == null {
        mHead := n;
      } else {
        mTail.next := n;
      }
      mTail := n;
      Spine, Keys := Spine + [n], Keys + [key];
      Repr := Repr + {n};
      assert forall i {:trigger Nth(Spine, i)} | 0 <= i < |before| :: Nth(Spine, i) == Nth(before, i);
    }

    /** Removes the node an iterator points at; `i` is its position. */
    method EraseNode(n: Node<K>, ghost i: nat)
      requires Valid()
      requires i < |Spine| && Spine[i] == n
      modifies Repr
      ensures Valid() && Repr == old(Repr)
      ensures Keys == Cut(old(Keys), i) && Spine == Cut(old(Spine), i)
    {
      ghost var before := Spine;
      NoDupCut(before, i);
      assert Nth(before, i) == n;
      var prev, next := n.prev, n.next;
      assert prev == if i == 0 then null else Nth(before, i - 1);
      assert next == if i + 1 == |before| then null else Nth(before, i + 1);
      if prev == null {
        mHead := next;
      } else {
        prev.next := next;
      }
      if next == null {
        mTail := prev;
      } else {
        next.prev := prev;
      }
      Spine, Keys := Cut(Spine, i), Cut(Keys, i);
      assert forall j {:trigger Nth(Spine, j)} | 0 <= j < |Spine| ::
          Nth(Spine, j) == Nth(before, if j < i then j else j + 1);
    }
  }

  /** Every lookup points at the list node of its own key. */
  ghost predicate PointHome<K>(keys: seq<K>, spine: seq<Node<K>>, lookups: map<K, Node<K>>) {
    && |keys| == |spine|
    && lookups.Keys == Elements(keys)
    && (forall i {:trigger Nth(spine, i)} | 0 <= i < |spine| :: keys[i] in lookups && lookups[keys[i]] == Nth(spine, i))
  }

  lemma PointHomeCut<K>(keys: seq<K>, spine: seq<Node<K>>, lookups: map<K, Node<K>>, i: nat)
    requires PointHome(keys, spine, lookups) && NoDup(keys) && i < |keys|
    ensures PointHome(Cut(keys, i), Cut(spine, i), lookups - {keys[i]})
  {
    var ks, ss := Cut(keys, i), Cut(spine, i);
    NoDupCut(keys, i);
    forall j | 0 <= j < |ss|
      ensures ks[j] in lookups - {keys[i]} && lookups[ks[j]] == Nth(ss, j)
    {
      var from := if j < i then j else j + 1;
      assert Nth(keys, from) != Nth(keys, i);
      assert ks[j] == keys[from] && Nth(ss, j) == Nth(spine, from);
    }
  }

  lemma PointHomeAppend<K>(keys: seq<K>, spine: seq<Node<K>>, lookups: map<K, Node<K>>, k: K, n: Node<K>)
    requires PointHome(keys, spine, lookups) && k !in keys
    ensures PointHome(keys + [k], spine + [n], lookups[k := n])
  {
    forall j | 0 <= j < |spine + [n]|
      ensures (keys + [k])[j] in lookups[k := n] && lookups[k := n][(keys + [k])[j]] == Nth(spine + [n], j)
    {
      if j < |spine| {
        assert Nth(spine, j) == Nth(spine + [n], j);
        assert keys[j] in keys;
      }
    }
    assert Elements(keys + [k]) == Elements(keys) + {k};
  }

  lemma AppendedWellAged<K, V>(a: Aged<K, V>, max: nat, k: K, v: V)
    requires WellAged(a, max) && k !in a.items && |a.order| < max
    ensures WellAged(Aged(a.order + [k], a.items[k := v]), max) && k !in a.order
  {
    assert k !in Elements(a.order);
    NoDupAppend(a.order, k);
  }

  class SizeAgeBoundMap<K(==), V> {
    var mItems: map<K, V>
    const mHistory: AgeList<K>
    var mLookups: map<K, Node<K>>
    const mMaxSize: nat
    ghost var Contents: Aged<K, V>
    ghost var Repr: set<object>

    ghost predicate Valid()
      reads this, Repr
      ensures Valid() ==> this in Repr
    {
      && this in Repr && mHistory in Repr
      && mHistory.Repr <= Repr && this !in mHistory.Repr
      && mHistory.Valid()
      && mMaxSize >= 1
      && Contents == Aged(mHistory.Keys, mItems)
      && WellAged(Contents, mMaxSize)
      && PointHome(mHistory.Keys, mHistory.Spine, mLookups)
    }

    constructor (max: nat)
      requires max >= 1
      ensures Valid() && fresh(Repr)
      ensures Contents == Aged([], map[]) && mMaxSize == max
    {
      mItems := map[];
      mHistory := new AgeList();
      mLookups := map[];
      mMaxSize := max;
      Contents := Aged([], map[]);
      new;
      Repr := {this} + mHistory.Repr;
    }

    method AgeOut()
      requires Valid() && Contents.order != []
      modifies Repr
      ensures Valid() && Repr == old(Repr)
      ensures Contents == AgedOut(old(Contents))
    {
      var oldest := mHistory.mHead.key;
      ghost var keys, spine := mHistory.Keys, mHistory.Spine;
      AgedOutWellAged(Contents, mMaxSize);
      PointHomeCut(keys, spine, mLookups, 0);
      mItems := mItems - {oldest};
      mLookups := mLookups - {oldest};
      mHistory.EraseNode(mHistory.mHead, 0);
      Contents := Aged(mHistory.Keys, mItems);
    }

    method Append(key: K, value: V)
      requires Valid() && key !in Contents.items && |Contents.order| < mMaxSize
      modifies Repr
      ensures Valid() && fresh(Repr - old(Repr))
      ensures Contents == Aged(old(Contents).order + [key], old(Contents).items[key := value])
    {
      ghost var keys, spine := mHistory.Keys, mHistory.Spine;
      AppendedWellAged(Contents, mMaxSize, key, value);
      mItems := mItems[key := value];
      var n := mHistory.PushBack(key);
      PointHomeAppend(keys, spine, mLookups, key, n);
      mLookups := mLookups[key := n];
      Contents := Aged(mHistory.Keys, mItems);
      Repr := Repr + mHistory.Repr;
    }

    method Insert(key: K, value: V) returns (inserted: bool)
      requires Valid()
      modifies Repr
      ensures Valid() && fresh(Repr - old(Repr))
      ensures inserted <==> key !in old(mItems)
      ensures Contents == Inserted(old(Contents), mMaxSize, key, value)
    {
      if key in mItems {
        return false;
      }
      ItemsSize(Contents, mMaxSize);
      if |mItems| >= mMaxSize {
        AgeOut();
      }
      Append(key, value);
      return true;
    }

    method At(key: K) returns (value: V)
      requires Valid() && key in Contents.items
      ensures value == Contents.items[key]
    {
      value := mItems[key];
    }

    /** A write through the reference that At returns. */
    method Put(key: K, value: V)
      requires Valid() && key in Contents.items
      modifies this
      ensures Valid() && Repr == old(Repr)
      ensures Contents == old(Contents).(items := old(Contents).items[key := value])
    {
      mItems := mItems[key := value];
      Contents := Contents.(items := mItems);
    }

    method Erase(key: K)
      requires Valid() && key in Contents.items
      modifies Repr
      ensures Valid() && Repr == old(Repr)
      ensures Contents == Erased(old(Contents), key)
    {
      assert key in Elements(mHistory.Keys);
      ghost var i := PositionOf(mHistory.Keys, key);
      NoDupCut(mHistory.Keys, i);
      PointHomeCut(mHistory.Keys, mHistory.Spine, mLookups, i);
      ghost var spine := mHistory.Spine;
      mItems := mItems - {key};
      assert Nth(spine, i) == mLookups[key];
      mHistory.EraseNode(mLookups[key], i);
      mLookups := mLookups - {key};
      Contents := Aged(mHistory.Keys, mItems);
    }

    method Count(key: K) returns (n: nat)
      requires Valid()
      ensures n == if key in Contents.items then 1 else 0
    {
      n := if key in mItems then 1 else 0;
    }
  }

  lemma ItemsSize<K, V>(a: Aged<K, V>, max: nat)
    requires WellAged(a, max)
    ensures |a.items| == |a.order|
  {
    SetSize(a.order);
  }
}
