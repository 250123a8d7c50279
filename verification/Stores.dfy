/** The logical key-value store and lists of writes to it. */
module Stores {
  import opened ConfigTypes

  /** A ConfigPair. An empty value asks for the key to be erased. */
  datatype Item = Item(key: Key, value: Value)

  /** What is stored: never an empty value. */
  type Store = map<Key, Payload>

  /** The value under `k`, absence read as Empty. Any list of parts may be asked for. */
  function Lookup(s: Store, k: seq<string>): Value {
    if k in s then Of(s[k]) else Empty
  }

  function Apply(s: Store, item: Item): Store {
    if item.value.Empty? then s - {item.key} else s[item.key := item.value.payload]
  }

  /** Every write of the list, in order. */
  function ApplyAll(s: Store, items: seq<Item>): Store {
    if items == [] then s else Apply(ApplyAll(s, items[..|items| - 1]), items[|items| - 1])
  }

  /** The last write to `k`, if any. */
  function LastWrite(items: seq<Item>, k: Key): Option<Value> {
    if items == [] then None
    else if items[|items| - 1].key == k then Some(items[|items| - 1].value)
    else LastWrite(items[..|items| - 1], k)
  }

  /** The value of `k` once the writes are made, the last one winning. */
  function Final(s: Store, items: seq<Item>, k: Key): Value {
    match LastWrite(items, k)
    case None => Lookup(s, k)
    case Some(v) => v
  }

  function Written(items: seq<Item>): set<Key> {
    set item | item in items :: item.key
  }

  /** A store is what is looked up in it. */
  lemma StoresEqual(s: Store, t: Store)
    requires forall k: Key :: Lookup(s, k) == Lookup(t, k)
    ensures s == t
  {
    forall k: Key
      ensures k in s <==> k in t
      ensures k in s ==> s[k] == t[k]
    {
      assert Lookup(s, k) == Lookup(t, k);
    }
  }

  /** Applying a list of writes is last-write-wins, key by key. */
  lemma {:induction false} ApplyAllLookup(s: Store, items: seq<Item>, k: Key)
    ensures Lookup(ApplyAll(s, items), k) == Final(s, items, k)
  {
    if items != [] {
      ApplyAllLookup(s, items[..|items| - 1], k);
    }
  }

  lemma {:induction false} LastWriteOfNone(items: seq<Item>, k: Key)
    ensures LastWrite(items, k).None? <==> k !in Written(items)
    ensures LastWrite(items, k).Some? ==> Item(k, LastWrite(items, k).value) in items
  {
    if items != [] {
      var n := |items| - 1;
      LastWriteOfNone(items[..n], k);
      assert items == items[..n] + [items[n]];
      assert Written(items) == Written(items[..n]) + {items[n].key};
    }
  }

  /** The last write to a key is the one that no other write to the key comes after. */
  lemma {:induction false} LastWriteIs(items: seq<Item>, k: Key, v: Value)
    ensures LastWrite(items, k) == Some(v) <==>
            exists i | 0 <= i < |items| ::
              items[i] == Item(k, v) && forall j | i < j < |items| :: items[j].key != k
  {
    if items != [] {
      var n := |items| - 1;
      LastWriteIs(items[..n], k, v);
      if items[n].key == k {
        assert items[n] == Item(k, v) <==> LastWrite(items, k) == Some(v);
      } else {
        assert forall i | 0 <= i < n :: items[..n][i] == items[i];
      }
    }
  }

  lemma {:induction false} LastWriteConcat(a: seq<Item>, b: seq<Item>, k: Key)
    ensures LastWrite(a + b, k) == if LastWrite(b, k).None? then LastWrite(a, k) else LastWrite(b, k)
  {
    if b == [] {
      assert a + b == a;
    } else {
      assert (a + b)[..|a + b| - 1] == a + b[..|b| - 1];
      LastWriteConcat(a, b[..|b| - 1], k);
    }
  }

  /** Two lists of writes, one after the other. */
  lemma {:induction false} ApplyAllConcat(s: Store, a: seq<Item>, b: seq<Item>)
    ensures ApplyAll(s, a + b) == ApplyAll(ApplyAll(s, a), b)
  {
    if b == [] {
      assert a + b == a;
    } else {
      assert (a + b)[..|a + b| - 1] == a + b[..|b| - 1];
      ApplyAllConcat(s, a, b[..|b| - 1]);
    }
  }

  predicate DistinctKeys(items: seq<Item>) {
    forall i, j | 0 <= i < j < |items| :: items[i].key != items[j].key
  }

  /** `items` lists the pairs of `m`, each once, in some order (an unordered_map walked through). */
  predicate Enumerates(items: seq<Item>, m: map<Key, Value>) {
    && DistinctKeys(items)
    && (forall item | item in items :: item.key in m && m[item.key] == item.value)
    && (forall k | k in m :: Item(k, m[k]) in items)
  }

  lemma EnumeratesAdd(items: seq<Item>, m: map<Key, Value>, item: Item)
    requires Enumerates(items, m) && item.key !in m
    ensures Enumerates(items + [item], m[item.key := item.value])
  {
  }
}
