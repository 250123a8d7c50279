/** Resetting every key to its default (src/SysAdminController.cpp:235-271), on values. */
module Resetting {
  import opened ConfigTypes
  import opened Stores
  import opened InFlight
  import opened ConfigSystem
  import opened Telescoping

  const STAR: Pattern := ["*"]

  /** ConfigKey::Tail of a default.* key. */
  function Tail(d: Key): (k: Key)
    requires InDefault(d)
    ensures k == d[1..]
  {
    assert forall p | p in d[1..] :: p in d;
    d[1..]
  }

  function DefaultOf(k: Key): (d: Key)
    ensures InDefault(d) && Tail(d) == k && d == ["default"] + k
  {
    assert DEFAULT != "*" by { assert |DEFAULT| == 7; }
    [DEFAULT] + k
  }

  /** `defaults` is a listing of the stored default.* keys. */
  ghost predicate ListsDefaults(defaults: seq<Key>, store: Store) {
    && (forall d | d in defaults :: InDefault(d))
    && forall d: Key :: d in defaults <==> d in store && InDefault(d)
  }

  predicate Accepted(s: Sys, c: ClientId, d: Key)
    requires d in s.store && InDefault(d)
  {
    SetOutcome(s, Item(Tail(d), Of(s.store[d])), c) == SUCCESS
  }

  /** Every default would overwrite a stored key of its own type: a default for a new key fails. */
  ghost predicate AllAccepted(s: Sys, c: ClientId) {
    forall d: Key | d in s.store && InDefault(d) :: Accepted(s, c, d)
  }

  /**
   * When a reset gets to Commit: for each stored default the bucket is not locked and the key is stored
   * with the default's type. So without defaults it does even when the bucket is locked, and Commit then
   * does nothing.
   */
  lemma AllAcceptedIff(s: Sys, c: ClientId)
    ensures AllAccepted(s, c) <==>
            forall k: Key | ["default"] + k in s.store ::
              && !(c in s.flight.items && s.flight.items[c].locked)
              && k in s.store && SameType(Of(s.store[k]), Of(s.store[["default"] + k]))
  {
    forall k: Key | ["default"] + k in s.store
      ensures Accepted(s, c, DefaultOf(k)) <==>
              && !(c in s.flight.items && s.flight.items[c].locked)
              && k in s.store && SameType(Of(s.store[k]), Of(s.store[["default"] + k]))
    {
      assert DefaultOf(k) == ["default"] + k;
    }
    forall d: Key | d in s.store && InDefault(d)
      ensures d == ["default"] + Tail(d)
    {
    }
  }

  function DefaultItems(store: Store, defaults: seq<Key>): seq<Item>
    requires forall d | d in defaults :: d in store && InDefault(d)
  {
    seq(|defaults|, i requires 0 <= i < |defaults| => Item(Tail(defaults[i]), Of(store[defaults[i]])))
  }

  ghost function ResetItems(s: Sys, subkeys: seq<Key>, defaults: seq<Key>): seq<Item>
    requires forall d | d in defaults :: d in s.store && InDefault(d)
  {
    Blanks(subkeys) + DefaultItems(s.store, defaults)
  }

  ghost function AfterReset(s: Sys, c: ClientId, subkeys: seq<Key>, defaults: seq<Key>, changed: seq<Item>): Sys
    requires forall d | d in defaults :: d in s.store && InDefault(d)
  {
    AfterCommit(s.(flight := QueuedAll(s.flight, s.maxClients, c, ResetItems(s, subkeys, defaults))), c, changed)
  }

  lemma {:induction false} DefaultItemsWrite(store: Store, defaults: seq<Key>, k: Key)
    requires forall d | d in defaults :: d in store && InDefault(d)
    ensures LastWrite(DefaultItems(store, defaults), k) ==
            if DefaultOf(k) in defaults then Some(Of(store[DefaultOf(k)])) else None
  {
    if defaults != [] {
      var n := |defaults| - 1;
      DefaultItemsWrite(store, defaults[..n], k);
      assert defaults == defaults[..n] + [defaults[n]];
      assert DefaultItems(store, defaults)[..n] == DefaultItems(store, defaults[..n]);
      assert Tail(defaults[n]) == k ==> defaults[n] == DefaultOf(k);
    }
  }

  lemma {:induction false} BlanksWrite(keys: seq<Key>, k: Key)
    ensures LastWrite(Blanks(keys), k) == if k in keys && Shadowed(k) then Some(Empty) else None
  {
    if keys != [] {
      var n := |keys| - 1;
      BlanksWrite(keys[..n], k);
      assert keys == keys[..n] + [keys[n]];
      assert LastWrite(BlankFor(keys[n]), k) == if keys[n] == k && Shadowed(k) then Some(Empty) else None;
      LastWriteConcat(Blanks(keys[..n]), BlankFor(keys[n]), k);
    }
  }

  /** What a reset queues last for each key. */
  lemma ResetWrites(s: Sys, subkeys: seq<Key>, defaults: seq<Key>, k: Key)
    requires Lists(subkeys, s.store, STAR) && ListsDefaults(defaults, s.store) && Shadowed(k)
    ensures Final(s.store, ResetItems(s, subkeys, defaults), k) == Lookup(s.store, DefaultOf(k))
  {
    var items := ResetItems(s, subkeys, defaults);
    LastWriteConcat(Blanks(subkeys), DefaultItems(s.store, defaults), k);
    DefaultItemsWrite(s.store, defaults, k);
    BlanksWrite(subkeys, k);
    assert Matches(k, STAR);
  }

  /** From no bucket of its own, a reset queues just its writes, or has nothing to queue and no bucket. */
  lemma ResetQueued(s: Sys, c: ClientId, items: seq<Item>)
    requires c !in s.flight.items
    ensures var t := s.(flight := QueuedAll(s.flight, s.maxClients, c, items));
            if items == [] then !CanCommit(t, c) else CanCommit(t, c) && Queue(t.flight, c) == items
  {
    QueuedAllEffect(s.flight, s.maxClients, c, items);
    assert [] + items == items;
  }

  /**
   * A reset that commits, from no bucket of its own: every key outside last.* and default.* ends up
   * with the value of its default, or absent without one.
   */
  lemma ResetExact(s: Sys, c: ClientId, subkeys: seq<Key>, defaults: seq<Key>, changed: seq<Item>, k: Key)
    requires c !in s.flight.items && Lists(subkeys, s.store, STAR) && ListsDefaults(defaults, s.store)
    requires |k| < 2 || (k[0] != "last" && k[0] != "default")
    ensures Lookup(AfterReset(s, c, subkeys, defaults, changed).store, k) == Lookup(s.store, ["default"] + k)
  {
    Namespaces(k);
    var items := ResetItems(s, subkeys, defaults);
    ResetQueued(s, c, items);
    ResetWrites(s, subkeys, defaults, k);
    CommittedFinal(s.store, items, k);
  }
}
