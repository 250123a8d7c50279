/** Selecting the hooks of a commit and running them (src/HookManager.cpp). */
module HookManagers {
  import opened ConfigTypes
  import opened Stores
  import opened Sequences
  import opened Hooks
  import opened HookStaging

  /** The stages of a pipeline: its templates, then its services level by level. */
  ghost predicate StagesOf(stages: seq<seq<HookUser>>, levels: seq<nat>, p: HookPipeline) {
    && |stages| == |levels| + 1
    && NoDup(stages[0]) && Elements(stages[0]) == p.templates
    && (forall i, j | 0 <= i < j < |levels| :: levels[i] < levels[j])
    && Elements(levels) == p.services.Keys
    && (forall i | 0 <= i < |levels| :: stages[i + 1] == p.services[levels[i]])
  }

  lemma InStage(stages: seq<seq<HookUser>>, levels: seq<nat>, p: HookPipeline, services: set<HookUser>,
                i: nat, h: HookUser)
    requires StagesOf(stages, levels, p) && Groups(p.services, services)
    requires i < |stages| && h in stages[i]
    ensures if i == 0 then h in p.templates else h in services && h.runLevel == levels[i - 1]
  {
    assert i == 0 ==> h in Elements(stages[0]);
    assert i > 0 ==> levels[i - 1] in Elements(levels);
  }

  /** Templates and grouped services: no hook is in two stages. */
  lemma StagesApart(stages: seq<seq<HookUser>>, levels: seq<nat>, p: HookPipeline, services: set<HookUser>)
    requires StagesOf(stages, levels, p) && Groups(p.services, services) && p.templates !! services
    ensures Apart(stages)
  {
    forall i | 0 <= i < |stages|
      ensures NoDup(stages[i])
    {
      assert i > 0 ==> levels[i - 1] in Elements(levels);
    }
    forall i, j, h | 0 <= i < j < |stages| && h in stages[i]
      ensures h !in stages[j]
    {
      InStage(stages, levels, p, services, i, h);
      if h in stages[j] {
        InStage(stages, levels, p, services, j, h);
      }
    }
  }

  /**
   * A pipeline's run, whatever order the processes end in: at most `cores` hooks run at once; each hook
   * starts once, the services only after all templates have succeeded and those of a run level only
   * after all of the lower levels have, and none after a failure; success means that all succeeded.
   */
  lemma {:induction false} PipelineExecution(f: Future, cores: nat, stages: seq<seq<HookUser>>, levels: seq<nat>,
                                             p: HookPipeline, services: set<HookUser>, endings: seq<Ending>)
    requires StagesOf(stages, levels, p) && Groups(p.services, services) && p.templates !! services
    requires RunsStages(f, stages, cores)
    requires Possible(f, endings)
    ensures var w := After(f, endings);
            && |w.running| <= cores
            && Orderly(w.log, stages)
            && (w.run.Succeeded? ==> forall i, h | 0 <= i < |stages| && h in stages[i] :: Finished(h, true) in w.log)
            && (w.run.Failed? <==> exists h :: Finished(h, false) in w.log)
            && (w.run.Succeeded? || w.run.Failed? || w.running != {})
            && (forall h, ok :: Finished(h, ok) in w.log ==> Started(h) in w.log)
            && (forall h :: Started(h) in w.log ==> exists i :: 0 <= i < |stages| && h in stages[i])
  {
    var w, bs := After(f, endings), Flat(f);
    StagesApart(stages, levels, p, services);
    SameOnce(stages, bs);
    StagedExecution(f, cores, endings);
    OrderlyStages(w.log, bs, stages);
    forall i, h | 0 <= i < |stages| && h in stages[i]
      ensures exists b :: b in bs && h in b
    {
      GroupOf(stages, h);
      GroupOf(bs, h);
    }
    forall h | Started(h) in w.log
      ensures exists i :: 0 <= i < |stages| && h in stages[i]
    {
      GroupOf(stages, h);
      GroupOf(bs, h);
    }
  }

  lemma {:induction false} HasLowest(s: set<nat>) returns (m: nat)
    requires s != {}
    ensures m in s && forall x | x in s :: m <= x
  {
    m :| m in s;
    if s != {m} {
      var y := m;
      var others := s - {y};
      assert s == others + {y};
      m := HasLowest(others);
      if y < m {
        m := y;
      }
    }
  }

  /** The levels walked so far, ascending, and their services. */
  ghost predicate Walked(levels: seq<nat>, stages: seq<seq<HookUser>>, services: ServicesMap, left: set<nat>) {
    && left <= services.Keys && Elements(levels) == services.Keys - left
    && |stages| == |levels|
    && (forall i, j | 0 <= i < j < |levels| :: levels[i] < levels[j])
    && (forall i, x | 0 <= i < |levels| && x in left :: levels[i] < x)
    && (forall i | 0 <= i < |levels| :: levels[i] in services && stages[i] == services[levels[i]])
  }

  lemma WalkedNext(levels: seq<nat>, stages: seq<seq<HookUser>>, services: ServicesMap, left: set<nat>, level: nat)
    requires Walked(levels, stages, services, left)
    requires level in left && forall x | x in left :: level <= x
    ensures Walked(levels + [level], stages + [services[level]], services, left - {level})
  {
    assert Elements(levels + [level]) == Elements(levels) + {level};
  }

  method Lowest(s: set<nat>) returns (m: nat)
    requires s != {}
    ensures m in s && forall x | x in s :: m <= x
  {
    ghost var least := HasLowest(s);
    assert least in s && forall x | x in s :: least <= x;
    m :| m in s && forall x | x in s :: m <= x;
  }

  /** What is selected, hook by hook. */
  lemma {:induction false} SelectedIff(table: seq<HookUser>, committed: seq<Item>, runServices: bool, p: HookPipeline)
    requires p.templates == FiredOfType(table, TEMPLATER, committed)
    requires Groups(p.services, if runServices then FiredOfType(table, SERVICE, committed) else {})
    ensures forall h :: h in p.templates <==>
              && h in table && h.hookType == TEMPLATER
              && exists item, w | item in committed && w in h.hooks ::
                   && |w| <= |item.key| && (|w| == |item.key| || "*" in w)
                   && forall i | 0 <= i < |w| :: w[i] == "*" || w[i] == item.key[i]
    ensures forall level, h | level in p.services && h in p.services[level] :: h.runLevel == level
    ensures forall h: HookUser :: h.runLevel in p.services && h in p.services[h.runLevel] <==>
              && runServices && h in table && h.hookType == SERVICE
              && exists item, w | item in committed && w in h.hooks ::
                   && |w| <= |item.key| && (|w| == |item.key| || "*" in w)
                   && forall i | 0 <= i < |w| :: w[i] == "*" || w[i] == item.key[i]
  {
    forall h
      ensures h in p.templates <==>
              && h in table && h.hookType == TEMPLATER
              && exists item, w | item in committed && w in h.hooks ::
                   && |w| <= |item.key| && (|w| == |item.key| || "*" in w)
                   && forall i | 0 <= i < |w| :: w[i] == "*" || w[i] == item.key[i]
    {
      FiredOfTypeIff(table, TEMPLATER, committed, h);
    }
    forall h: HookUser
      ensures h.runLevel in p.services && h in p.services[h.runLevel] <==>
              && runServices && h in table && h.hookType == SERVICE
              && exists item, w | item in committed && w in h.hooks ::
                   && |w| <= |item.key| && (|w| == |item.key| || "*" in w)
                   && forall i | 0 <= i < |w| :: w[i] == "*" || w[i] == item.key[i]
    {
      GroupsIff(p.services, if runServices then FiredOfType(table, SERVICE, committed) else {}, h.runLevel, h);
      FiredOfTypeIff(table, SERVICE, committed, h);
    }
  }

  class HookManager {
    const mpTable: HookTable
    const mParallelHooks: nat

    constructor (table: HookTable, parallelHooks: nat)
      requires parallelHooks >= 1
      ensures mpTable == table && mParallelHooks == parallelHooks
    {
      mpTable, mParallelHooks := table, parallelHooks;
    }

    method GetAllHooks() returns (p: HookPipeline)
      requires mpTable.Valid()
      ensures p.templates == OfType(mpTable.mTable, TEMPLATER) && Groups(p.services, OfType(mpTable.mTable, SERVICE))
    {
      var servicesToRun := mpTable.GetOrderedServices();
      var byType := mpTable.ByType(TEMPLATER);
      var templatesToRender := {};
      for i := 0 to |byType|
        invariant templatesToRender == Elements(byType[..i])
      {
        templatesToRender := templatesToRender + {byType[i]};
      }
      assert byType[..|byType|] == byType;
      p := HookPipeline(templatesToRender, servicesToRun);
    }

    /** The body of the loop over the committed pairs, for templates. */
    method AddTemplates(templates: set<HookUser>, key: Key) returns (more: set<HookUser>)
      requires mpTable.Valid()
      ensures more == templates + Watchers(OfType(mpTable.mTable, TEMPLATER), key)
    {
      more := templates;
      var byType := mpTable.ByType(TEMPLATER);
      for i := 0 to |byType|
        invariant more == templates + Watchers(Elements(byType[..i]), key)
      {
        assert Elements(byType[..i + 1]) == Elements(byType[..i]) + {byType[i]};
        var has := HasHook(byType[i], key);
        if has {
          more := more + {byType[i]};
        }
      }
      assert byType[..|byType|] == byType;
    }

    /** The same for services. */
    method AddServices(services: ServicesMap, key: Key, ghost which: set<HookUser>) returns (more: ServicesMap)
      requires mpTable.Valid() && Groups(services, which)
      ensures Groups(more, which + Watchers(OfType(mpTable.mTable, SERVICE), key))
    {
      more := services;
      var order := mpTable.RunLevelOrder(SERVICE);
      ghost var now := which;
      for i := 0 to |order|
        invariant now == which + Watchers(Elements(order[..i]), key)
        invariant Groups(more, now)
      {
        assert Elements(order[..i + 1]) == Elements(order[..i]) + {order[i]};
        var has := HasHook(order[i], key);
        if has {
          more := AddService(more, order[i], now);
          now := now + {order[i]};
        }
      }
      assert order[..|order|] == order;
    }

    /** Exactly the hooks that some committed key fires, each once and each service at its own level. */
    method GetHooksToRun(committed: seq<Item>, runServices: bool) returns (p: HookPipeline)
      requires mpTable.Valid()
      ensures p.templates == FiredOfType(mpTable.mTable, TEMPLATER, committed)
      ensures Groups(p.services, if runServices then FiredOfType(mpTable.mTable, SERVICE, committed) else {})
      ensures forall h :: h in p.templates <==>
                && h in mpTable.mTable && h.hookType == TEMPLATER
                && exists item, w | item in committed && w in h.hooks ::
                     && |w| <= |item.key| && (|w| == |item.key| || "*" in w)
                     && forall i | 0 <= i < |w| :: w[i] == "*" || w[i] == item.key[i]
      ensures forall level, h | level in p.services && h in p.services[level] :: h.runLevel == level
      ensures forall h: HookUser :: h.runLevel in p.services && h in p.services[h.runLevel] <==>
                && runServices && h in mpTable.mTable && h.hookType == SERVICE
                && exists item, w | item in committed && w in h.hooks ::
                     && |w| <= |item.key| && (|w| == |item.key| || "*" in w)
                     && forall i | 0 <= i < |w| :: w[i] == "*" || w[i] == item.key[i]
    {
      var templatesToRender, servicesToRun := {}, map[];
      for i := 0 to |committed|
        invariant templatesToRender == FiredOfType(mpTable.mTable, TEMPLATER, committed[..i])
        invariant Groups(servicesToRun,
                         if runServices then FiredOfType(mpTable.mTable, SERVICE, committed[..i]) else {})
      {
        FiredOfTypeSnoc(mpTable.mTable, TEMPLATER, committed, i);
        templatesToRender := AddTemplates(templatesToRender, committed[i].key);
        if runServices {
          FiredOfTypeSnoc(mpTable.mTable, SERVICE, committed, i);
          servicesToRun := AddServices(servicesToRun, committed[i].key,
                                       FiredOfType(mpTable.mTable, SERVICE, committed[..i]));
        }
      }
      assert committed[..|committed|] == committed;
      p := HookPipeline(templatesToRender, servicesToRun);
      SelectedIff(mpTable.mTable, committed, runServices, p);
    }

    /** An unordered set is walked in some order. */
    method Walk(templates: set<HookUser>) returns (order: seq<HookUser>)
      ensures NoDup(order) && Elements(order) == templates
    {
      order := [];
      var left := templates;
      while left != {}
        invariant NoDup(order) && Elements(order) == templates - left && left <= templates
        decreases |left|
      {
        var t :| t in left;
        left := left - {t};
        assert t !in Elements(order);
        NoDupAppend(order, t);
        order := order + [t];
      }
    }

    /** The chain of the services, in ascending run level as a std::map is walked. */
    method RunServices(services: ServicesMap)
      returns (finalFuture: Future, ghost stages: seq<seq<HookUser>>, ghost levels: seq<nat>)
      requires mParallelHooks >= 1
      ensures Walked(levels, stages, services, {})
      ensures RunsStages(finalFuture, stages, mParallelHooks)
    {
      finalFuture, stages, levels := Ready, [], [];
      var left := services.Keys;
      while left != {}
        invariant Walked(levels, stages, services, left)
        invariant RunsStages(finalFuture, stages, mParallelHooks)
        decreases |left|
      {
        var rl := Lowest(left);
        WalkedNext(levels, stages, services, left, rl);
        var level := SplitSubprocessesAcrossCores(services[rl], mParallelHooks);
        RunsOne(level, services[rl], mParallelHooks);
        RunsBoth(finalFuture, stages, level, [services[rl]], mParallelHooks);
        finalFuture := Then(finalFuture, level);
        stages, levels, left := stages + [services[rl]], levels + [rl], left - {rl};
      }
    }

    method RunHooks(hooks: HookPipeline) returns (f: Future, ghost stages: seq<seq<HookUser>>, ghost levels: seq<nat>)
      requires mParallelHooks >= 1
      ensures StagesOf(stages, levels, hooks)
      ensures Small(Flat(f), mParallelHooks)
      ensures RunsStages(f, stages, mParallelHooks)
    {
      var order := Walk(hooks.templates);
      var templates := SplitSubprocessesAcrossCores(order, mParallelHooks);
      var services;
      ghost var after;
      services, after, levels := RunServices(hooks.services);
      f := Then(templates, services);
      stages := [order] + after;
      RunsOne(templates, order, mParallelHooks);
      RunsBoth(templates, [order], services, after, mParallelHooks);
    }

    method HandleCommit(committed: seq<Item>, runServices: bool)
      returns (f: Future, ghost hooks: HookPipeline, ghost stages: seq<seq<HookUser>>, ghost levels: seq<nat>)
      requires mpTable.Valid() && mParallelHooks >= 1
      ensures hooks.templates == FiredOfType(mpTable.mTable, TEMPLATER, committed)
      ensures Groups(hooks.services, if runServices then FiredOfType(mpTable.mTable, SERVICE, committed) else {})
      ensures StagesOf(stages, levels, hooks)
      ensures forall endings | Possible(f, endings) :: |After(f, endings).running| <= mParallelHooks
      ensures forall endings | Possible(f, endings) :: Orderly(After(f, endings).log, stages)
      ensures RunsStages(f, stages, mParallelHooks)
    {
      var p := GetHooksToRun(committed, runServices);
      hooks := p;
      f, stages, levels := RunHooks(p);
      forall endings | Possible(f, endings)
        ensures |After(f, endings).running| <= mParallelHooks && Orderly(After(f, endings).log, stages)
      {
        PipelineExecution(f, mParallelHooks, stages, levels, p,
                          if runServices then FiredOfType(mpTable.mTable, SERVICE, committed) else {}, endings);
      }
    }
  }
}
