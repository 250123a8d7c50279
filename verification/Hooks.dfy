/** Which hooks a commit fires (src/HookUser.cpp, src/HookTable.cpp, src/HookManager.cpp:56-107). */
module Hooks {
  import opened ConfigTypes
  import opened Stores
  import opened Sequences

  datatype HookType = TEMPLATER | SERVICE

  datatype HookUser = HookUser(name: string, hookType: HookType, hooks: seq<Pattern>, runLevel: nat)

  // ----- One hook -----

  /** The key itself, or a wildcard that matches it. */
  predicate Watches(pattern: Pattern, key: Key) {
    key == pattern || (IsWildcard(pattern) && Matches(key, pattern))
  }

  predicate Watching(hook: HookUser, key: Key) {
    exists p :: p in hook.hooks && Watches(p, key)
  }

  /**
   * A hook watches a key exactly if one of its patterns is no longer than the key and agrees with it part
   * by part, a star agreeing with anything; only a pattern with a star may be shorter.
   */
  lemma {:induction false} WatchingIff(hook: HookUser, key: Key)
    ensures Watching(hook, key) <==>
            exists p | p in hook.hooks ::
              && |p| <= |key| && (|p| == |key| || "*" in p)
              && forall i | 0 <= i < |p| :: p[i] == "*" || p[i] == key[i]
  {
    forall p | p in hook.hooks
      ensures Watches(p, key) <==>
              && |p| <= |key| && (|p| == |key| || "*" in p)
              && forall i | 0 <= i < |p| :: p[i] == "*" || p[i] == key[i]
    {
      WatchesIff(p, key);
    }
  }

  lemma {:induction false} WatchesIff(p: Pattern, key: Key)
    ensures Watches(p, key) <==>
            && |p| <= |key| && (|p| == |key| || "*" in p)
            && forall i | 0 <= i < |p| :: p[i] == "*" || p[i] == key[i]
  {
    ConcreteMatches(key, p);
    if |p| == |key| && "*" !in p && forall i | 0 <= i < |p| :: p[i] == "*" || p[i] == key[i] {
      assert forall i | 0 <= i < |p| :: p[i] in p;
      assert p == key;
    }
  }

  /** Some committed key fires the hook. */
  predicate Fired(hook: HookUser, committed: seq<Item>) {
    exists i :: 0 <= i < |committed| && Watching(hook, committed[i].key)
  }

  lemma FiredSnoc(hook: HookUser, committed: seq<Item>, i: nat)
    requires i < |committed|
    ensures Fired(hook, committed[..i + 1]) <==> Fired(hook, committed[..i]) || Watching(hook, committed[i].key)
  {
    assert committed[..i + 1] == committed[..i] + [committed[i]];
    if Fired(hook, committed[..i]) {
      var j :| 0 <= j < i && Watching(hook, committed[..i][j].key);
      assert Watching(hook, committed[..i + 1][j].key);
    }
    if Watching(hook, committed[i].key) {
      assert Watching(hook, committed[..i + 1][i].key);
    }
  }

  method HasHook(hook: HookUser, key: Key) returns (r: bool)
    ensures r <==> Watching(hook, key)
  {
    for i := 0 to |hook.hooks|
      invariant forall j | 0 <= j < i :: !Watches(hook.hooks[j], key)
    {
      var matches := SubkeyMatches(key, hook.hooks[i]);
      if key == hook.hooks[i] || (IsWildcard(hook.hooks[i]) && matches) {
        assert hook.hooks[i] in hook.hooks && Watches(hook.hooks[i], key);
        return true;
      }
    }
    return false;
  }

  // ----- Services by run level -----

  type ServicesMap = map<nat, seq<HookUser>>

  /** `s` groups exactly the hooks of `which`, each once and at its own run level, with no empty level. */
  ghost predicate Groups(s: ServicesMap, which: set<HookUser>) {
    && (forall level | level in s :: s[level] != [] && NoDup(s[level]))
    && (forall level, h | level in s && h in s[level] :: h in which && h.runLevel == level)
    && (forall h | h in which :: h.runLevel in s && h in s[h.runLevel])
  }

  lemma GroupsIff(s: ServicesMap, which: set<HookUser>, level: nat, h: HookUser)
    requires Groups(s, which)
    ensures level in s && h in s[level] <==> h in which && h.runLevel == level
  {
  }

  /** A service goes to its own level, unless it is there. */
  method AddService(s: ServicesMap, service: HookUser, ghost which: set<HookUser>) returns (t: ServicesMap)
    requires Groups(s, which)
    ensures Groups(t, which + {service})
  {
    t := s;
    var level := service.runLevel;
    if level !in t {
      t := t[level := [service]];
      return;
    }
    if service !in t[level] {
      NoDupAppend(t[level], service);
      t := t[level := t[level] + [service]];
    }
  }

  ghost predicate Ascending(hooks: seq<HookUser>) {
    forall i, j | 0 <= i < j < |hooks| :: hooks[i].runLevel <= hooks[j].runLevel
  }

  /** The place of a new hook in the run level index: after those of its own level. */
  function InsertByLevel(order: seq<HookUser>, hook: HookUser): (r: seq<HookUser>)
    ensures |r| == |order| + 1
    ensures forall h :: h in r <==> h in order || h == hook
  {
    if order == [] || order[|order| - 1].runLevel <= hook.runLevel then order + [hook]
    else
      var last := order[|order| - 1];
      assert order == order[..|order| - 1] + [last];
      InsertByLevel(order[..|order| - 1], hook) + [last]
  }

  lemma AscendingSnoc(order: seq<HookUser>, last: HookUser)
    requires Ascending(order) && forall h | h in order :: h.runLevel <= last.runLevel
    ensures Ascending(order + [last])
  {
  }

  lemma LastHighest(order: seq<HookUser>)
    requires Ascending(order) && order != []
    ensures forall h | h in order :: h.runLevel <= order[|order| - 1].runLevel
    ensures Ascending(order[..|order| - 1])
  {
  }

  lemma {:induction false} InsertedAscending(order: seq<HookUser>, hook: HookUser)
    requires Ascending(order)
    ensures Ascending(InsertByLevel(order, hook))
  {
    if order == [] {
    } else {
      LastHighest(order);
      var before, last := order[..|order| - 1], order[|order| - 1];
      if last.runLevel > hook.runLevel {
        InsertedAscending(before, hook);
        assert forall h | h in before :: h in order;
        AscendingSnoc(InsertByLevel(before, hook), last);
      } else {
        AscendingSnoc(order, hook);
      }
    }
  }

  /** It goes behind the last hook that is not of a higher level. */
  lemma {:induction false} InsertedAt(order: seq<HookUser>, hook: HookUser) returns (m: nat)
    ensures m <= |order| && InsertByLevel(order, hook) == order[..m] + [hook] + order[m..]
    ensures forall k | m <= k < |order| :: order[k].runLevel > hook.runLevel
    ensures m > 0 ==> order[m - 1].runLevel <= hook.runLevel
  {
    m := |order|;
    if order != [] && order[|order| - 1].runLevel > hook.runLevel {
      var before := order[..|order| - 1];
      m := InsertedAt(before, hook);
      assert before[m..] + [order[|order| - 1]] == order[m..];
    }
  }

  /** `g` was put into the table before `h`. */
  ghost predicate Older(table: seq<HookUser>, g: HookUser, h: HookUser) {
    exists p, q :: 0 <= p < q < |table| && table[p] == g && table[q] == h
  }

  ghost predicate OldestFirst(sorted: seq<HookUser>, table: seq<HookUser>) {
    forall i, j | 0 <= i < j < |sorted| && sorted[i].runLevel == sorted[j].runLevel ::
      Older(table, sorted[i], sorted[j])
  }

  lemma OlderSnoc(table: seq<HookUser>, hook: HookUser, g: HookUser, h: HookUser)
    ensures Older(table, g, h) ==> Older(table + [hook], g, h)
    ensures g in table ==> Older(table + [hook], g, hook)
  {
    var more := table + [hook];
    if Older(table, g, h) {
      var p, q :| 0 <= p < q < |table| && table[p] == g && table[q] == h;
      assert more[p] == g && more[q] == h;
    }
    if g in table {
      var p :| 0 <= p < |table| && table[p] == g;
      assert more[p] == g && more[|table|] == hook;
    }
  }

  lemma OldestFirstLater(sorted: seq<HookUser>, table: seq<HookUser>, hook: HookUser)
    requires OldestFirst(sorted, table)
    ensures OldestFirst(sorted, table + [hook])
  {
    forall i, j | 0 <= i < j < |sorted| && sorted[i].runLevel == sorted[j].runLevel
      ensures Older(table + [hook], sorted[i], sorted[j])
    {
      OlderSnoc(table, hook, sorted[i], sorted[j]);
    }
  }

  lemma OldestFirstInserted(sorted: seq<HookUser>, m: nat, table: seq<HookUser>, hook: HookUser)
    requires m <= |sorted| && OldestFirst(sorted, table)
    requires forall k | m <= k < |sorted| :: sorted[k].runLevel > hook.runLevel
    requires forall h | h in sorted :: Older(table, h, hook)
    ensures OldestFirst(sorted[..m] + [hook] + sorted[m..], table)
  {
    var more := sorted[..m] + [hook] + sorted[m..];
    forall i, j | 0 <= i < j < |more| && more[i].runLevel == more[j].runLevel
      ensures Older(table, more[i], more[j])
    {
      if j == m {
        assert more[i] == sorted[i];
      } else if i != m {
        var x, y := if i < m then i else i - 1, if j < m then j else j - 1;
        assert more[i] == sorted[x] && more[j] == sorted[y];
      }
    }
  }

  lemma OldestFirstStep(sorted: seq<HookUser>, table: seq<HookUser>, hook: HookUser)
    requires OldestFirst(sorted, table) && forall h | h in sorted :: h in table
    ensures OldestFirst(sorted, table + [hook]) && OldestFirst(InsertByLevel(sorted, hook), table + [hook])
  {
    var m := InsertedAt(sorted, hook);
    OldestFirstLater(sorted, table, hook);
    forall h | h in sorted
      ensures Older(table + [hook], h, hook)
    {
      OlderSnoc(table, hook, h, hook);
    }
    OldestFirstInserted(sorted, m, table + [hook], hook);
  }

  /** The hooks of one level, in order. */
  function AtLevel(hooks: seq<HookUser>, level: nat): seq<HookUser> {
    if hooks == [] then []
    else
      var last := hooks[|hooks| - 1];
      AtLevel(hooks[..|hooks| - 1], level) + if last.runLevel == level then [last] else []
  }

  lemma {:induction false} InsertedAtLevel(order: seq<HookUser>, hook: HookUser, level: nat)
    requires Ascending(order)
    ensures AtLevel(InsertByLevel(order, hook), level) ==
            AtLevel(order, level) + if hook.runLevel == level then [hook] else []
  {
    if order != [] && order[|order| - 1].runLevel > hook.runLevel {
      InsertedAtLevel(order[..|order| - 1], hook, level);
      assert InsertByLevel(order, hook)[..|order|] == InsertByLevel(order[..|order| - 1], hook);
    } else {
      assert InsertByLevel(order, hook)[..|order|] == order;
    }
  }

  // ----- The table -----

  ghost predicate UniqueNames(table: seq<HookUser>) {
    forall i, j | 0 <= i < j < |table| :: table[i].name != table[j].name
  }

  function OfType(table: seq<HookUser>, t: HookType): (s: set<HookUser>) {
    set h | h in table && h.hookType == t
  }

  function Typed(table: seq<HookUser>, t: HookType): seq<HookUser> {
    if table == [] then []
    else
      var last := table[|table| - 1];
      Typed(table[..|table| - 1], t) + if last.hookType == t then [last] else []
  }

  /** The run level index of one type after one more hook. */
  lemma IndexStep(table: seq<HookUser>, t: HookType, sorted: seq<HookUser>, hook: HookUser)
    requires Ascending(sorted) && Elements(sorted) == OfType(table, t)
    requires forall level: nat :: AtLevel(sorted, level) == AtLevel(Typed(table, t), level)
    ensures var more := if hook.hookType == t then InsertByLevel(sorted, hook) else sorted;
            && Ascending(more) && Elements(more) == OfType(table + [hook], t)
            && forall level: nat :: AtLevel(more, level) == AtLevel(Typed(table + [hook], t), level)
  {
    assert (table + [hook])[..|table|] == table;
    assert OfType(table + [hook], t) == OfType(table, t) + if hook.hookType == t then {hook} else {};
    if hook.hookType == t {
      InsertedAscending(sorted, hook);
      var typed := Typed(table, t);
      assert Typed(table + [hook], t) == typed + [hook];
      assert (typed + [hook])[..|typed|] == typed;
      forall level: nat
        ensures AtLevel(InsertByLevel(sorted, hook), level) == AtLevel(typed + [hook], level)
      {
        InsertedAtLevel(sorted, hook, level);
      }
    } else {
      assert Typed(table + [hook], t) == Typed(table, t);
    }
  }

  /** The hooks in the order of their insertion; no two have one name, so a hook is itself its identity. */
  class HookTable {
    var mTable: seq<HookUser>

    ghost predicate Valid()
      reads this
    {
      UniqueNames(mTable)
    }

    constructor ()
      ensures Valid() && mTable == []
    {
      mTable := [];
    }

    method ByName(name: string) returns (r: Option<HookUser>)
      ensures r.None? ==> forall h | h in mTable :: h.name != name
      ensures r.Some? ==> r.value in mTable && r.value.name == name
    {
      for i := 0 to |mTable|
        invariant forall j | 0 <= j < i :: mTable[j].name != name
      {
        if mTable[i].name == name {
          return Some(mTable[i]);
        }
      }
      return None;
    }

    /** A hook with a name that is taken is not inserted. */
    method Insert(hook: HookUser)
      requires Valid()
      modifies this
      ensures Valid()
      ensures mTable ==
              if exists h :: h in old(mTable) && h.name == hook.name then old(mTable) else old(mTable) + [hook]
    {
      var found := ByName(hook.name);
      if found.None? {
        mTable := mTable + [hook];
      }
    }

    /** In no particular order. */
    method ByType(t: HookType) returns (byType: seq<HookUser>)
      requires Valid()
      ensures NoDup(byType) && Elements(byType) == OfType(mTable, t)
      ensures forall h :: h in byType <==> h in mTable && h.hookType == t
    {
      byType := [];
      for i := 0 to |mTable|
        invariant NoDup(byType) && Elements(byType) == OfType(mTable[..i], t)
      {
        assert mTable[..i + 1] == mTable[..i] + [mTable[i]];
        assert mTable[i] !in mTable[..i];
        if mTable[i].hookType == t {
          assert mTable[i] !in Elements(byType);
          NoDupAppend(byType, mTable[i]);
          byType := byType + [mTable[i]];
        }
      }
      assert mTable[..|mTable|] == mTable;
      assert forall h :: h in byType <==> h in Elements(byType);
    }

    /** By run level, and those of one level in the order of their insertion. */
    method RunLevelOrder(t: HookType) returns (sorted: seq<HookUser>)
      ensures Ascending(sorted) && Elements(sorted) == OfType(mTable, t)
      ensures forall level: nat :: AtLevel(sorted, level) == AtLevel(Typed(mTable, t), level)
      ensures OldestFirst(sorted, mTable)
    {
      sorted := [];
      for i := 0 to |mTable|
        invariant Ascending(sorted) && Elements(sorted) == OfType(mTable[..i], t)
        invariant forall level: nat :: AtLevel(sorted, level) == AtLevel(Typed(mTable[..i], t), level)
        invariant OldestFirst(sorted, mTable[..i])
      {
        assert mTable[..i + 1] == mTable[..i] + [mTable[i]];
        IndexStep(mTable[..i], t, sorted, mTable[i]);
        assert forall h | h in sorted :: h in Elements(sorted);
        OldestFirstStep(sorted, mTable[..i], mTable[i]);
        if mTable[i].hookType == t {
          sorted := InsertByLevel(sorted, mTable[i]);
        }
      }
      assert mTable[..|mTable|] == mTable;
    }

    method GetOrderedServices() returns (s: ServicesMap)
      requires Valid()
      ensures Groups(s, OfType(mTable, SERVICE))
    {
      s := map[];
      var order := RunLevelOrder(SERVICE);
      for i := 0 to |order|
        invariant Groups(s, Elements(order[..i]))
      {
        assert Elements(order[..i + 1]) == Elements(order[..i]) + {order[i]};
        s := AddService(s, order[i], Elements(order[..i]));
      }
      assert order[..|order|] == order;
    }
  }

  // ----- The manager -----

  datatype HookPipeline = HookPipeline(templates: set<HookUser>, services: ServicesMap)

  function Watchers(hooks: set<HookUser>, key: Key): set<HookUser> {
    set h | h in hooks && Watching(h, key)
  }

  function FiredOfType(table: seq<HookUser>, t: HookType, committed: seq<Item>): set<HookUser> {
    set h | h in OfType(table, t) && Fired(h, committed)
  }

  /** The selected hooks are those of the type in the table that have a pattern for some committed key. */
  lemma {:induction false} FiredOfTypeIff(table: seq<HookUser>, t: HookType, committed: seq<Item>, h: HookUser)
    ensures h in FiredOfType(table, t, committed) <==>
            && h in table && h.hookType == t
            && exists item, p | item in committed && p in h.hooks ::
                 && |p| <= |item.key| && (|p| == |item.key| || "*" in p)
                 && forall i | 0 <= i < |p| :: p[i] == "*" || p[i] == item.key[i]
  {
    forall item | item in committed
      ensures Watching(h, item.key) <==>
              exists p | p in h.hooks ::
                && |p| <= |item.key| && (|p| == |item.key| || "*" in p)
                && forall i | 0 <= i < |p| :: p[i] == "*" || p[i] == item.key[i]
    {
      WatchingIff(h, item.key);
    }
    assert Fired(h, committed) <==> exists item :: item in committed && Watching(h, item.key);
  }

  lemma FiredOfTypeSnoc(table: seq<HookUser>, t: HookType, committed: seq<Item>, i: nat)
    requires i < |committed|
    ensures FiredOfType(table, t, committed[..i + 1]) ==
            FiredOfType(table, t, committed[..i]) + Watchers(OfType(table, t), committed[i].key)
  {
    forall h | h in OfType(table, t)
      ensures Fired(h, committed[..i + 1]) <==> Fired(h, committed[..i]) || Watching(h, committed[i].key)
    {
      FiredSnoc(h, committed, i);
    }
  }

  /** The hooks a commit runs are among all of them, and a service is at the level it has there. */
  lemma AmongAll(table: seq<HookUser>, committed: seq<Item>, some: ServicesMap, all: ServicesMap)
    requires Groups(some, FiredOfType(table, SERVICE, committed)) && Groups(all, OfType(table, SERVICE))
    ensures FiredOfType(table, TEMPLATER, committed) <= OfType(table, TEMPLATER)
    ensures forall level | level in some ::
              level in all && forall h | h in some[level] :: h in all[level]
  {
    forall level | level in some
      ensures level in all && forall h | h in some[level] :: h in all[level]
    {
      assert some[level][0] in some[level];
      forall h | h in some[level]
        ensures h in OfType(table, SERVICE) && h.runLevel == level
      {
        assert h in FiredOfType(table, SERVICE, committed);
      }
    }
  }
}
