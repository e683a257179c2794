/**
 * The director's statistics store: one filtered resource snapshot per silo,
 * created on the first notification, smoothed on every later one and deleted
 * when the silo leaves the cluster.
 */
module SiloStatistics {
  import opened Common
  import opened Kalman

  /**
   * The resource fields the director reads: cpu usage in percent, available
   * and used memory, total physical memory (bytes), and the overload flag.
   * The same shape carries a raw notification and a filtered snapshot.
   */
  datatype ResourceStatistics = ResourceStatistics(
    cpuUsage: Option<real>,
    availableMemory: Option<real>,
    memoryUsage: Option<int>,
    totalPhysicalMemory: Option<int>,
    isOverloaded: bool)

  /** The per-silo entry: one dual-mode filter per smoothed signal plus the current values. */
  datatype FilteredSiloStatistics = FilteredSiloStatistics(
    cpuUsageFilter: DualFilter,
    availableMemoryFilter: DualFilter,
    memoryUsageFilter: DualFilter,
    value: ResourceStatistics)

  predicate ValidEntry(e: FilteredSiloStatistics) {
    ValidDualFilter(e.cpuUsageFilter) && ValidDualFilter(e.availableMemoryFilter) && ValidDualFilter(e.memoryUsageFilter)
  }

  type Store = map<SiloAddress, FilteredSiloStatistics>

  predicate ValidStore(store: Store) {
    forall s :: s in store ==> ValidEntry(store[s])
  }

  /** A new entry holds the first notification's values unfiltered, with fresh filters. */
  function NewEntry(raw: ResourceStatistics): (e: FilteredSiloStatistics)
    ensures ValidEntry(e)
    ensures e.value == raw
    ensures e.cpuUsageFilter == InitialDualFilter && e.availableMemoryFilter == InitialDualFilter
    ensures e.memoryUsageFilter == InitialDualFilter
  {
    FilteredSiloStatistics(InitialDualFilter, InitialDualFilter, InitialDualFilter, raw)
  }

  /**
   * A later notification: cpu usage, available memory and memory usage go
   * through their filters (a missing reading counts as 0, and the filtered
   * memory usage is truncated back to an integer); total physical memory and
   * the overload flag are copied from the notification as they are.
   */
  function UpdateEntry(e: FilteredSiloStatistics, raw: ResourceStatistics): (r: FilteredSiloStatistics)
    requires ValidEntry(e)
    ensures ValidEntry(r)
    ensures r.value.totalPhysicalMemory == raw.totalPhysicalMemory
    ensures r.value.isOverloaded == raw.isOverloaded
    ensures r.value.cpuUsage == Some(Filter(e.cpuUsageFilter, raw.cpuUsage).output)
    ensures r.value.availableMemory == Some(Filter(e.availableMemoryFilter, raw.availableMemory).output)
    ensures r.value.memoryUsage == Some(TruncateTowardZero(Filter(e.memoryUsageFilter, ToReal(raw.memoryUsage)).output))
    // every smoothed value has been filtered, so a missing reading no longer shows as missing
    ensures r.value.cpuUsage.Some? && r.value.availableMemory.Some? && r.value.memoryUsage.Some?
  {
    var cpu := Filter(e.cpuUsageFilter, raw.cpuUsage);
    var available := Filter(e.availableMemoryFilter, raw.availableMemory);
    var used := Filter(e.memoryUsageFilter, ToReal(raw.memoryUsage));
    FilteredSiloStatistics(
      cpu.filter, available.filter, used.filter,
      ResourceStatistics(
        Some(cpu.output), Some(available.output), Some(TruncateTowardZero(used.output)),
        raw.totalPhysicalMemory, raw.isOverloaded))
  }

  /** Upsert of a silo's notification into the store. */
  function Notify(store: Store, silo: SiloAddress, raw: ResourceStatistics): (r: Store)
    requires ValidStore(store)
    ensures ValidStore(r)
    ensures r.Keys == store.Keys + {silo}
    ensures forall s :: s in store && s != silo ==> r[s] == store[s]
    ensures silo !in store ==> r[silo] == NewEntry(raw)
    ensures silo in store ==> r[silo] == UpdateEntry(store[silo], raw)
  {
    if silo in store then store[silo := UpdateEntry(store[silo], raw)] else store[silo := NewEntry(raw)]
  }

  /** A silo that left the cluster loses its entry; every other entry stays. */
  function RemoveSilo(store: Store, silo: SiloAddress): (r: Store)
    ensures r.Keys == store.Keys - {silo}
    ensures forall s :: s in r ==> r[s] == store[s]
    ensures ValidStore(store) ==> ValidStore(r)
  {
    map s | s in store && s != silo :: store[s]
  }

  /** Removing a silo undoes a first notification for it. */
  lemma RemoveUndoesFirstNotify(store: Store, silo: SiloAddress, raw: ResourceStatistics)
    requires ValidStore(store) && silo !in store
    ensures RemoveSilo(Notify(store, silo, raw), silo) == store
  {
    var r := RemoveSilo(Notify(store, silo, raw), silo);
    assert r.Keys == store.Keys;
  }

  // ---------------------------------------------------------------------------
  // The update as written: `(float)statistics.MemoryUsage` converts a `long?`
  // to a non-nullable float, which throws on a missing value after the cpu and
  // available-memory fields were already overwritten.
  // ---------------------------------------------------------------------------

  /** Outcome of the as-written update: the entry it leaves behind and whether it threw. */
  datatype UpdateOutcome = UpdateOutcome(entry: FilteredSiloStatistics, threw: bool)

  function UpdateEntryAsWritten(e: FilteredSiloStatistics, raw: ResourceStatistics): (r: UpdateOutcome)
    requires ValidEntry(e)
    ensures ValidEntry(r.entry)
    ensures r.threw <==> raw.memoryUsage.None?
    ensures !r.threw ==> r.entry == UpdateEntry(e, raw)
  {
    if raw.memoryUsage.None? then
      var cpu := Filter(e.cpuUsageFilter, raw.cpuUsage);
      var available := Filter(e.availableMemoryFilter, raw.availableMemory);
      UpdateOutcome(
        FilteredSiloStatistics(
          cpu.filter, available.filter, e.memoryUsageFilter,
          e.value.(cpuUsage := Some(cpu.output), availableMemory := Some(available.output))),
        true)
    else
      UpdateOutcome(UpdateEntry(e, raw), false)
  }

  /**
   * The discrepancy: a notification without memory usage is accepted when it
   * is a silo's first, but on a later one the update throws and leaves an
   * entry whose overload flag and total memory are stale, although cpu and
   * available memory were already smoothed.
   */
  lemma MissingMemoryUsageThrowsOnUpdate(e: FilteredSiloStatistics, raw: ResourceStatistics)
    requires ValidEntry(e)
    requires raw.memoryUsage.None? && raw.isOverloaded != e.value.isOverloaded
    ensures NewEntry(raw).value == raw
    ensures UpdateEntryAsWritten(e, raw).threw
    ensures UpdateEntryAsWritten(e, raw).entry.value.isOverloaded != raw.isOverloaded
    ensures UpdateEntryAsWritten(e, raw).entry.value.cpuUsage == UpdateEntry(e, raw).value.cpuUsage
    ensures UpdateEntry(e, raw).value.isOverloaded == raw.isOverloaded
  {
  }

  /** Outcome of the as-written upsert: the store it leaves behind and whether the call threw. */
  datatype NotifyOutcome = NotifyOutcome(store: Store, threw: bool)

  /**
   * The upsert as written. The update factory changes the stored entry in
   * place, so when the update throws, the store keeps the partly updated entry
   * and the exception reaches the caller of the notification.
   */
  function NotifyAsWritten(store: Store, silo: SiloAddress, raw: ResourceStatistics): (r: NotifyOutcome)
    requires ValidStore(store)
    ensures ValidStore(r.store)
    ensures r.store.Keys == store.Keys + {silo}
    ensures forall s :: s in store && s != silo ==> r.store[s] == store[s]
    // it throws exactly for a known silo whose notification lacks memory usage
    ensures r.threw <==> silo in store && raw.memoryUsage.None?
    ensures !r.threw ==> r.store == Notify(store, silo, raw)
    // a throw leaves smoothed cpu and available memory, but stale memory, total memory and overload flag
    ensures r.threw ==>
              && r.store[silo].value.cpuUsage == Notify(store, silo, raw)[silo].value.cpuUsage
              && r.store[silo].value.availableMemory == Notify(store, silo, raw)[silo].value.availableMemory
              && r.store[silo].value.memoryUsage == store[silo].value.memoryUsage
              && r.store[silo].value.totalPhysicalMemory == store[silo].value.totalPhysicalMemory
              && r.store[silo].value.isOverloaded == store[silo].value.isOverloaded
  {
    if silo in store then
      var u := UpdateEntryAsWritten(store[silo], raw);
      NotifyOutcome(store[silo := u.entry], u.threw)
    else
      NotifyOutcome(Notify(store, silo, raw), false)
  }

  /** A run of as-written updates of one entry, each applied to the entry the previous one left. */
  function UpdateAllAsWritten(e: FilteredSiloStatistics, raws: seq<ResourceStatistics>): (r: FilteredSiloStatistics)
    requires ValidEntry(e)
    ensures ValidEntry(r)
    decreases |raws|
  {
    if |raws| == 0 then e else UpdateAllAsWritten(UpdateEntryAsWritten(e, raws[0]).entry, raws[1..])
  }

  /**
   * As written, once a known silo reports no memory usage, none of those
   * notifications ever refreshes its overload flag, total memory or memory
   * usage: each one throws again.
   */
  lemma {:induction false} AsWrittenNeverRefreshesOverloadWithoutMemoryUsage(
    e: FilteredSiloStatistics, raws: seq<ResourceStatistics>)
    requires ValidEntry(e)
    requires forall k :: 0 <= k < |raws| ==> raws[k].memoryUsage.None?
    ensures UpdateAllAsWritten(e, raws).value.isOverloaded == e.value.isOverloaded
    ensures UpdateAllAsWritten(e, raws).value.totalPhysicalMemory == e.value.totalPhysicalMemory
    ensures UpdateAllAsWritten(e, raws).value.memoryUsage == e.value.memoryUsage
    decreases |raws|
  {
    if |raws| > 0 {
      var next := UpdateEntryAsWritten(e, raws[0]).entry;
      var rest := raws[1..];
      forall k | 0 <= k < |rest| ensures rest[k].memoryUsage.None? {
        assert rest[k] == raws[k + 1];
      }
      AsWrittenNeverRefreshesOverloadWithoutMemoryUsage(next, rest);
    }
  }

  /** The corrected update never fails and treats a missing memory usage like 0. */
  lemma CorrectedUpdateTreatsMissingMemoryAsZero(e: FilteredSiloStatistics, raw: ResourceStatistics)
    requires ValidEntry(e) && raw.memoryUsage.None?
    ensures UpdateEntry(e, raw) == UpdateEntry(e, raw.(memoryUsage := Some(0)))
  {
    MissingMeasurementIsZero(e.memoryUsageFilter);
  }
}
