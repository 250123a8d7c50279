/** What clients may ask for: setting a key and resetting all of them (src/SysAdminController.cpp). */
module Controllers {
  import opened ConfigTypes
  import opened Stores
  import opened InFlight
  import opened History
  import opened ConfigSystem
  import opened Resetting
  import opened Configurators

  datatype SetResponse = INVALID_KEY | ANSWERED(status: SetStatus)

  /** A refused reset answers TYPE_MISMATCH, whatever Set answered. */
  datatype ResetResponse = REFUSED | COMMITTED_AS(id: CommitId, awaiting: bool)

  /** A star anywhere in the text of a key, not only as a whole part. */
  lemma {:induction false} StarInText(k: seq<string>)
    ensures '*' in Render(k) <==> exists p :: p in k && '*' in p
  {
    if k != [] {
      StarInText(k[1..]);
      assert k == [k[0]] + k[1..];
      assert |k| > 1 ==> Render(k) == k[0] + ['.'] + Render(k[1..]);
      assert |k| == 1 ==> Render(k) == k[0];
    }
  }

  /** A reset that has queued these defaults. */
  ghost function Midway(s: Sys, c: ClientId, subkeys: seq<Key>, defaults: seq<Key>): Sys
    requires forall d | d in defaults :: d in s.store && InDefault(d)
  {
    s.(flight := QueuedAll(s.flight, s.maxClients, c, ResetItems(s, subkeys, defaults)))
  }

  lemma NoDefaultYet(s: Sys, c: ClientId, subkeys: seq<Key>)
    ensures Midway(s, c, subkeys, []) == AfterErase(s, STAR, c, subkeys)
  {
    assert Blanks(subkeys) + [] == Blanks(subkeys);
    assert STAR[0] == "*";
  }

  lemma DefaultItemsSnoc(store: Store, defaults: seq<Key>, d: Key)
    requires forall e | e in defaults + [d] :: e in store && InDefault(e)
    requires forall e | e in defaults :: e in store && InDefault(e)
    requires d in store && InDefault(d)
    ensures DefaultItems(store, defaults + [d]) == DefaultItems(store, defaults) + [Item(Tail(d), Of(store[d]))]
  {
  }

  /** One more default: the answer does not depend on what the reset queued before. */
  lemma OneMoreDefault(s: Sys, c: ClientId, subkeys: seq<Key>, defaults: seq<Key>, d: Key)
    requires forall e | e in defaults :: e in s.store && InDefault(e)
    requires forall e | e in defaults + [d] :: e in s.store && InDefault(e)
    requires d in s.store && InDefault(d)
    ensures var item, mid := Item(Tail(d), Of(s.store[d])), Midway(s, c, subkeys, defaults);
            && SetOutcome(mid, item, c) == SetOutcome(s, item, c)
            && AfterSet(mid, item, c) ==
               if Queueable(s, item, c) then Midway(s, c, subkeys, defaults + [d]) else mid
  {
    var item, items := Item(Tail(d), Of(s.store[d])), ResetItems(s, subkeys, defaults);
    DefaultItemsSnoc(s.store, defaults, d);
    assert ResetItems(s, subkeys, defaults + [d]) == items + [item];
    QueuedAllEffect(s.flight, s.maxClients, c, items);
    QueuedAllSnoc(s.flight, s.maxClients, c, items, item);
  }

  class SysAdminController {
    const mpConfigurator: Configurator

    constructor (configurator: Configurator)
      ensures mpConfigurator == configurator
    {
      mpConfigurator := configurator;
    }

    /** A key with a star anywhere in it, and a last.* key, cannot be set. */
    method SetHandler(key: Pattern, value: Value, client: ClientId, xid: Option<ClientId>) returns (r: SetResponse)
      requires mpConfigurator.Valid()
      modifies mpConfigurator.mInFlightItems
      ensures mpConfigurator.Valid()
      ensures r.INVALID_KEY? <==> (|key| >= 2 && key[0] == "last") || exists p :: p in key && '*' in p
      ensures r.INVALID_KEY? ==> mpConfigurator.View() == old(mpConfigurator.View())
      ensures r.ANSWERED? ==>
                var c := if xid.Some? then xid.value else client;
                && "*" !in key
                && r.status == SetOutcome(old(mpConfigurator.View()), Item(key, value), c)
                && mpConfigurator.View() == AfterSet(old(mpConfigurator.View()), Item(key, value), c)
    {
      var text := ToString(key);
      StarInText(key);
      if '*' in text {
        return INVALID_KEY;
      }
      assert forall p | p in key :: p != "*" by {
        assert '*' in "*" by { assert "*"[0] == '*'; }
      }
      var inLast := MatchesNamespace(key, LAST);
      if inLast {
        return INVALID_KEY;
      }
      var status := mpConfigurator.Set(Item(key, value), if xid.Some? then xid.value else client);
      r := ANSWERED(status);
    }

    /** Configurator::Get of "default.*". */
    method DefaultValues() returns (values: Store)
      requires mpConfigurator.Valid()
      ensures forall d: Key :: d in values <==> d in mpConfigurator.View().store && InDefault(d)
      ensures forall d | d in values :: values[d] == mpConfigurator.View().store[d]
    {
      NamespacePattern(["a"], DEFAULT);
      forall k: Key
        ensures Matches(k, [DEFAULT, "*"]) <==> InDefault(k)
      {
        NamespacePattern(k, DEFAULT);
      }
      values := mpConfigurator.mSystemStore.Get([DEFAULT, "*"]);
    }

    /** Queues the stored defaults, in some order, until one is not plainly accepted. */
    method QueueDefaults(client: ClientId, ghost start: Sys, ghost subkeys: seq<Key>)
      returns (accepted: bool, ghost defaults: seq<Key>)
      requires mpConfigurator.Valid()
      requires mpConfigurator.View() == Midway(start, client, subkeys, [])
      modifies mpConfigurator.mInFlightItems
      ensures mpConfigurator.Valid()
      ensures accepted <==> AllAccepted(start, client)
      ensures forall d | d in defaults :: d in start.store && InDefault(d)
      ensures accepted ==> ListsDefaults(defaults, start.store)
      ensures mpConfigurator.View() == Midway(start, client, subkeys, defaults)
    {
      defaults := [];
      var values := DefaultValues();
      var left := values.Keys;
      while left != {}
        invariant mpConfigurator.Valid()
        invariant left <= values.Keys
        invariant forall d: Key :: d in defaults <==> d in values && d !in left
        invariant forall d | d in defaults :: d in start.store && InDefault(d) && Accepted(start, client, d)
        invariant mpConfigurator.View() == Midway(start, client, subkeys, defaults)
        decreases |left|
      {
        var d :| d in left;
        OneMoreDefault(start, client, subkeys, defaults, d);
        var status := mpConfigurator.Set(Item(Tail(d), Of(values[d])), client);
        if status != SUCCESS {
          assert !Accepted(start, client, d);
          accepted := false;
          if status == SUCCESS_NEW_KEY {
            defaults := defaults + [d];
          }
          return;
        }
        defaults := defaults + [d];
        left := left - {d};
      }
      accepted := true;
    }

    /**
     * Reset: all of it or nothing. It is refused, and then changes neither the store nor the history
     * nor the disk, exactly when some default is not accepted; otherwise it gets to Commit.
     */
    method ResetHandler(client: ClientId)
      returns (r: ResetResponse, ghost subkeys: seq<Key>, ghost defaults: seq<Key>, ghost changed: seq<Item>)
      requires mpConfigurator.Valid()
      modifies mpConfigurator.mInFlightItems
      modifies mpConfigurator.mCommitHistory`mSaved, mpConfigurator.mCommitHistory.mCommitHistory
      modifies mpConfigurator.mSystemStore`mValues, mpConfigurator.mSystemStore.mInFlightItems
      modifies mpConfigurator.mSystemStore.mBackingStore`mFiles
      modifies mpConfigurator.mSystemStore.mBackingStore.mInFlightItems
      ensures mpConfigurator.Valid()
      ensures r.COMMITTED_AS? <==> AllAccepted(old(mpConfigurator.View()), client)
      ensures r.REFUSED? ==>
                && mpConfigurator.View().store == old(mpConfigurator.View()).store
                && mpConfigurator.View().log == old(mpConfigurator.View()).log
                && mpConfigurator.mSystemStore.View() == old(mpConfigurator.mSystemStore.View())
                && client !in mpConfigurator.View().flight.items
      ensures r.COMMITTED_AS? ==>
                && Lists(subkeys, old(mpConfigurator.View()).store, STAR)
                && ListsDefaults(defaults, old(mpConfigurator.View()).store)
                && mpConfigurator.View() == AfterReset(old(mpConfigurator.View()), client, subkeys, defaults, changed)
      ensures r.COMMITTED_AS? && client !in old(mpConfigurator.View()).flight.items ==>
                forall k: Key | |k| < 2 || (k[0] != "last" && k[0] != "default") ::
                  Lookup(mpConfigurator.View().store, k) == Lookup(old(mpConfigurator.View()).store, ["default"] + k)
    {
      changed := [];
      ghost var start := mpConfigurator.View();
      subkeys := mpConfigurator.Erase(STAR, client);
      NoDefaultYet(start, client, subkeys);
      var accepted;
      accepted, defaults := QueueDefaults(client, start, subkeys);
      if !accepted {
        mpConfigurator.Drop(client);
        return REFUSED, subkeys, defaults, [];
      }
      var id, awaiting;
      id, awaiting, changed := mpConfigurator.Commit(client, DEFAULT_HOOKS);
      forall k: Key | client !in start.flight.items && (|k| < 2 || (k[0] != "last" && k[0] != "default"))
        ensures Lookup(mpConfigurator.View().store, k) == Lookup(start.store, ["default"] + k)
      {
        ResetExact(start, client, subkeys, defaults, changed, k);
      }
      r := COMMITTED_AS(id, awaiting);
    }
  }
}
