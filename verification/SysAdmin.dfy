/** Starting the daemon (src/sysadmin.cpp:51-54): the store on disk, the cache over it, the configurator. */
module SysAdmin {
  import opened InFlight
  import opened YamlStorage
  import opened Coherence
  import opened History
  import opened ConfigSystem
  import opened SavedCommits
  import opened MemoryCaches
  import opened Configurators

  /** The store is what the disk holds, nothing is queued or remembered, and at most 100 commits are kept. */
  method Start(root: string, files: Disk, saved: Files, ghost listing: seq<Commit>, ghost r: seq<Commit>)
    returns (configurator: Configurator)
    requires WellPlaced(files) && Listing(saved, listing) && Lineage(listing, r)
    ensures configurator.Valid() && fresh(configurator)
    ensures Coherent(configurator.mSystemStore.View())
    ensures configurator.mSystemStore.View() == Stack(configurator.View().store, files, EMPTY_FLIGHT)
    ensures configurator.View() ==
            Sys(configurator.View().store, Log(Newest(r, 100), configurator.View().log.highest), EMPTY_FLIGHT, 100, 100)
    ensures HighestOf(configurator.View().log.highest, listing)
    ensures configurator.mSystemStore.mBackingStore.mInFlightItems.mMaxSize == 100
    ensures configurator.mCommitHistory.mStray == Strays(saved, r)
  {
    var storage := new LocalYAMLStorage(root, files);
    var cache := new MemoryCache(storage);
    configurator := new Configurator(cache, saved, 100, listing, r);
  }
}
