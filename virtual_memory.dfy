/**
 * The second page-table design of the kernel and the virtual-memory pools built on it.
 * Directory slot 1023 maps the directory itself, so that the directory entry and the
 * table entry of any address are reached through the fixed virtual addresses
 * PDE_address and PTE_address (see Paging.SelfMapReachesDirectoryEntry and
 * Paging.SelfMapReachesTableEntry). A page fault is served only for an address that a
 * registered pool accepts; each pool hands out page-multiple regions by bumping past
 * the last one, and returns a region's pages to the page table when it is released.
 */
module VirtualMemory {
  import opened Wrappers
  import opened FramePool
  import opened Paging

  const MAX_REGIONS: nat := 512
  const MAX_POOLS: nat := 512
  /** Addresses are 32 bits wide. */
  const ADDRESS_LIMIT: nat := 0x1_0000_0000
  /** PAGE_SIZE as a 32-bit quantity. */
  const PAGE_BYTES: bv32 := 0x1000

  // ---------------------------------------------------------------------------
  // Regions
  // ---------------------------------------------------------------------------

  datatype Region = Region(start: nat, size: nat)

  /** The unused slot of the region array. */
  const NO_REGION := Region(0, 0)

  function End(r: Region): nat
  {
    r.start + r.size
  }

  /** allocate's rounding of a size up to whole pages. */
  function RoundUpToPage(n: nat): (r: nat)
    ensures r % PAGE_SIZE == 0 && n <= r < n + PAGE_SIZE
  {
    var pages := n / PAGE_SIZE;
    (if n % PAGE_SIZE != 0 then pages + 1 else pages) * PAGE_SIZE
  }

  /** Live regions do not overlap and appear in address order. */
  ghost predicate Ordered(live: seq<Region>)
  {
    forall i, j :: 0 <= i < j < |live| ==> End(live[i]) <= live[j].start
  }

  /** is_legitimate: the base address, or an address within a live region, end included. */
  predicate Legitimate(base: nat, live: seq<Region>, a: nat)
  {
    a == base || exists i :: 0 <= i < |live| && live[i].start <= a <= End(live[i])
  }

  /** The first region that starts at s. */
  function FindStart(live: seq<Region>, s: nat): (r: Option<nat>)
    ensures r.Some? ==> r.value < |live| && live[r.value].start == s
    ensures r.Some? ==> forall j :: 0 <= j < r.value ==> live[j].start != s
    ensures r.None? ==> forall j :: 0 <= j < |live| ==> live[j].start != s
  {
    if live == [] then None
    else if live[0].start == s then Some(0)
    else match FindStart(live[1..], s)
      case None => None
      case Some(k) => Some(k + 1)
  }

  /** The live regions once entry k is removed and the later ones moved down. */
  function Removed(live: seq<Region>, k: nat): (r: seq<Region>)
    requires k < |live|
  {
    live[..k] + live[k + 1..]
  }

  /** Removing a region keeps every other one, in order. */
  lemma RemovedKeepsOthers(live: seq<Region>, k: nat)
    requires k < |live|
    ensures |Removed(live, k)| == |live| - 1
    ensures forall j :: 0 <= j < k ==> Removed(live, k)[j] == live[j]
    ensures forall j :: k < j < |live| ==> Removed(live, k)[j - 1] == live[j]
  {
  }

  lemma RemovedOrdered(live: seq<Region>, k: nat)
    requires k < |live| && Ordered(live)
    ensures Ordered(Removed(live, k))
  {
    var r := Removed(live, k);
    RemovedKeepsOthers(live, k);
    forall i, j | 0 <= i < j < |r|
      ensures End(r[i]) <= r[j].start
    {
      var i' := if i < k then i else i + 1;
      var j' := if j < k then j else j + 1;
      assert r[i] == live[i'] && r[j] == live[j'];
    }
  }

  /** A region placed at or after the end of the last live one keeps the order. */
  lemma AppendedOrdered(live: seq<Region>, r: Region)
    requires Ordered(live)
    requires |live| > 0 ==> End(live[|live| - 1]) <= r.start
    ensures Ordered(live + [r])
  {
    var l := live + [r];
    forall i, j | 0 <= i < j < |l|
      ensures End(l[i]) <= l[j].start
    {
      if j == |live| && i < |live| - 1 {
        assert End(live[i]) <= live[|live| - 1].start;
      }
    }
  }

  /** Every address of a live region, its end included, is legitimate. */
  lemma LiveRegionLegitimate(base: nat, live: seq<Region>, k: nat, a: nat)
    requires k < |live| && live[k].start <= a <= End(live[k])
    ensures Legitimate(base, live, a)
  {
  }

  /**
   * Releasing one region leaves every address of the other regions legitimate, and in
   * an ordered table an address strictly inside the released region is no longer
   * legitimate unless it is the base address.
   */
  lemma {:induction false} ReleaseKeepsOtherRegions(base: nat, live: seq<Region>, k: nat, a: nat)
    requires k < |live| && Ordered(live)
    ensures (exists j :: 0 <= j < |live| && j != k && live[j].start <= a <= End(live[j]))
      ==> Legitimate(base, Removed(live, k), a)
    ensures live[k].start < a < End(live[k]) && a != base ==> !Legitimate(base, Removed(live, k), a)
  {
    RemovedKeepsOthers(live, k);
    var r := Removed(live, k);
    if j :| 0 <= j < |live| && j != k && live[j].start <= a <= End(live[j]) {
      var j' := if j < k then j else j - 1;
      assert r[j'] == live[j];
    }
    if live[k].start < a < End(live[k]) && a != base {
      forall i | 0 <= i < |r|
        ensures !(r[i].start <= a <= End(r[i]))
      {
        var i' := if i < k then i else i + 1;
        assert r[i] == live[i'];
        if i' < k {
          assert End(live[i']) <= live[k].start;
        } else {
          assert End(live[k]) <= live[i'].start;
        }
      }
    }
  }

  /**
   * The page addresses release passes to free_page: n of them from s upwards, a page
   * apart, in 32-bit arithmetic.
   */
  function Pages(s: bv32, n: nat): (p: seq<bv32>)
    ensures |p| == n
    decreases n
  {
    if n == 0 then [] else [s] + Pages(s + PAGE_BYTES, n - 1)
  }

  /** The pages of a region, as release passes them to free_page. */
  function RegionPages(r: Region): (p: seq<bv32>)
    requires r.start < ADDRESS_LIMIT
    ensures |p| == r.size / PAGE_SIZE
  {
    Pages(r.start as bv32, r.size / PAGE_SIZE)
  }

  // ---------------------------------------------------------------------------
  // Table entries reached through the self-map
  // ---------------------------------------------------------------------------

  /** The tables behind present directory entries, keyed by directory index. */
  type Tables = map<nat, seq<bv32>>

  /** Table entries that free_page can reach: the directory entry is present. */
  ghost predicate Reachable(tables: Tables, a: bv32)
  {
    DirIndex(a) in tables
      && |tables[DirIndex(a)]| == ENTRIES_PER_TABLE
  }

  /** free_page's store: the table entry of page a becomes supervisor, read/write, not present. */
  function ClearPage(tables: Tables, a: bv32): (r: Tables)
    requires Reachable(tables, a)
    ensures r.Keys == tables.Keys
    ensures forall d :: d in r ==> |r[d]| == |tables[d]|
  {
    var d := DirIndex(a);
    tables[d := tables[d][TableIndex(a) := ABSENT_RW]]
  }

  /** Every page's table entry is reachable. */
  ghost predicate AllReachable(tables: Tables, pages: seq<bv32>)
  {
    forall i :: 0 <= i < |pages| ==> Reachable(tables, pages[i])
  }

  /** free_page applied to each page in turn. */
  function ClearPages(tables: Tables, pages: seq<bv32>): (r: Tables)
    requires AllReachable(tables, pages)
    ensures r.Keys == tables.Keys
    ensures forall d :: d in r ==> |r[d]| == |tables[d]|
    ensures AllReachable(r, pages)
  {
    if pages == [] then tables
    else
      var init := pages[..|pages| - 1];
      assert AllReachable(tables, init) by {
        assert forall i :: 0 <= i < |init| ==> init[i] == pages[i];
      }
      var before := ClearPages(tables, init);
      ClearPage(before, pages[|pages| - 1])
  }

  /** After the pages are freed, the table entry of each of them is not present. */
  lemma {:induction false} ClearPagesClears(tables: Tables, pages: seq<bv32>, i: nat)
    requires AllReachable(tables, pages) && i < |pages|
    ensures Reachable(tables, pages[i])
    ensures ClearPages(tables, pages)[DirIndex(pages[i])][TableIndex(pages[i])] == ABSENT_RW
  {
    var init := pages[..|pages| - 1];
    assert forall j :: 0 <= j < |init| ==> init[j] == pages[j];
    if i < |pages| - 1 {
      ClearPagesClears(tables, init, i);
    }
  }

  /** A table entry that none of the pages maps keeps its value. */
  lemma {:induction false} ClearPagesKeeps(tables: Tables, pages: seq<bv32>, d: nat, t: nat)
    requires AllReachable(tables, pages) && d in tables && t < |tables[d]|
    requires forall i :: 0 <= i < |pages| ==> DirIndex(pages[i]) != d || TableIndex(pages[i]) != t
    ensures ClearPages(tables, pages)[d][t] == tables[d][t]
  {
    if pages != [] {
      var init := pages[..|pages| - 1];
      assert forall j :: 0 <= j < |init| ==> init[j] == pages[j];
      ClearPagesKeeps(tables, init, d, t);
    }
  }

  /** The frame free_page hands to release_frames for page a: its entry's frame, if the entry is present. */
  function EntryFrames(tables: Tables, a: bv32): (f: seq<nat>)
    requires Reachable(tables, a)
    ensures |f| <= 1
  {
    var pte := tables[DirIndex(a)][TableIndex(a)];
    if Present(pte) then [FrameOf(pte)] else []
  }

  /**
   * The frames free_page hands to release_frames when the pages are freed in turn: for
   * each page, the frame of its entry if that entry is still present when its turn
   * comes.
   */
  function ReleasedFrames(tables: Tables, pages: seq<bv32>): seq<nat>
    requires AllReachable(tables, pages)
  {
    if pages == [] then []
    else
      var init := pages[..|pages| - 1];
      assert AllReachable(tables, init) by {
        assert forall i :: 0 <= i < |init| ==> init[i] == pages[i];
      }
      ReleasedFrames(tables, init) + EntryFrames(ClearPages(tables, init), pages[|pages| - 1])
  }

  /** The frames of the pages' present entries, read from the tables before any is freed. */
  function PresentFrames(tables: Tables, pages: seq<bv32>): seq<nat>
    requires AllReachable(tables, pages)
  {
    if pages == [] then []
    else
      var init := pages[..|pages| - 1];
      assert AllReachable(tables, init) by {
        assert forall i :: 0 <= i < |init| ==> init[i] == pages[i];
      }
      PresentFrames(tables, init) + EntryFrames(tables, pages[|pages| - 1])
  }

  /**
   * When no two pages share a table entry, freeing them in turn hands release_frames
   * exactly the frames their entries held before, in page order.
   */
  lemma {:induction false} DistinctPagesReleaseTheirFrames(tables: Tables, pages: seq<bv32>)
    requires AllReachable(tables, pages)
    requires forall i, j :: 0 <= i < j < |pages| ==>
      DirIndex(pages[i]) != DirIndex(pages[j]) || TableIndex(pages[i]) != TableIndex(pages[j])
    ensures ReleasedFrames(tables, pages) == PresentFrames(tables, pages)
  {
    if pages != [] {
      var init := pages[..|pages| - 1];
      var last := pages[|pages| - 1];
      assert forall i :: 0 <= i < |init| ==> init[i] == pages[i];
      DistinctPagesReleaseTheirFrames(tables, init);
      ClearPagesKeeps(tables, init, DirIndex(last), TableIndex(last));
    }
  }

  /**
   * A directory of 1024 entries whose last one maps the directory itself, and the tables
   * behind exactly its present entries below that slot, 1024 entries each.
   */
  ghost predicate WellMapped(directory: seq<bv32>, tables: Tables, self: nat)
  {
    && |directory| == ENTRIES_PER_TABLE
    && directory[SELF_MAP_SLOT] == FrameEntry(self)
    && (forall d :: d in tables ==> d < SELF_MAP_SLOT && |tables[d]| == ENTRIES_PER_TABLE)
    && (forall d :: 0 <= d < SELF_MAP_SLOT ==> (d in tables <==> Present(directory[d])))
  }

  /** A present entry for a new table at an absent slot keeps the directory mapped. */
  lemma NewTableMapped(directory: seq<bv32>, tables: Tables, self: nat, d: nat, e: bv32, table: seq<bv32>)
    requires WellMapped(directory, tables, self) && d < SELF_MAP_SLOT && Present(e)
    requires |table| == ENTRIES_PER_TABLE
    ensures WellMapped(directory[d := e], tables[d := table], self)
  {
  }

  /** Changing one entry of a table keeps the directory mapped. */
  lemma EntryMapped(directory: seq<bv32>, tables: Tables, self: nat, d: nat, t: nat, e: bv32)
    requires WellMapped(directory, tables, self) && d in tables && t < ENTRIES_PER_TABLE
    ensures WellMapped(directory, tables[d := tables[d][t := e]], self)
  {
  }

  /** The registered frame pools and their bitmaps: what releasing frames may change. */
  ghost function AllPools(registry: FramePoolList): set<object>
    reads registry
  {
    PoolObjects(registry.pools)
  }

  ghost function PoolObjects(pools: seq<ContFramePool>): set<object>
  {
    if pools == [] then {}
    else PoolObjects(pools[..|pools| - 1]) + {pools[|pools| - 1], pools[|pools| - 1].bitmap}
  }

  lemma {:induction false} PoolObjectsHold(pools: seq<ContFramePool>, k: nat)
    requires k < |pools|
    ensures pools[k] in PoolObjects(pools) && pools[k].bitmap in PoolObjects(pools)
  {
    if k < |pools| - 1 {
      PoolObjectsHold(pools[..|pools| - 1], k);
    }
  }

  /**
   * A virtual-memory pool is none of them, and neither is its region array, whose
   * length differs from a bitmap's.
   */
  lemma {:induction false} PoolObjectsApart(pools: seq<ContFramePool>, pool: VMPool)
    requires forall i :: 0 <= i < |pools| ==> pools[i].Valid()
    requires pool.regions.Length != FRAME_SIZE
    ensures pool !in PoolObjects(pools) && pool.regions !in PoolObjects(pools)
  {
    if pools != [] {
      PoolObjectsApart(pools[..|pools| - 1], pool);
      assert pools[|pools| - 1].bitmap.Length == FRAME_SIZE;
    }
  }


  datatype FaultOutcome = ProtectionFault | NoLegitimatePool | Resolved

  /** The state a page fault acts on: directory, tables, and the process pool's frames, counter and remaining bitmap. */
  datatype FaultView = FaultView(directory: seq<bv32>, tables: Tables, frames: seq<FrameState>, free: nat, beyond: seq<FrameState>)

  // ---------------------------------------------------------------------------
  // The registered pools
  // ---------------------------------------------------------------------------

  /**
   * The static vm[] array and pool_number, shared by every page table: 512 slots for
   * registered virtual-memory pools, unused ones null. Static storage starts zeroed.
   */
  class VmTable {
    var vm: seq<VMPool?>
    var poolNumber: nat

    constructor ()
      ensures Valid() && vm == seq(MAX_POOLS, _ => null) && poolNumber == 0
    {
      vm := seq(MAX_POOLS, _ => null);
      poolNumber := 0;
    }

    ghost predicate Valid()
      reads this
    {
      |vm| == MAX_POOLS && poolNumber <= MAX_POOLS && forall i :: poolNumber <= i < MAX_POOLS ==> vm[i] == null
    }

    ghost function Pools(): set<object>
      reads this
    {
      (set i | 0 <= i < |vm| && vm[i] != null :: vm[i] as object)
        + (set i | 0 <= i < |vm| && vm[i] != null :: vm[i].regions as object)
    }

    /** Every registered pool keeps its own invariant. */
    ghost predicate PoolsValid()
      reads this, Pools()
    {
      forall i :: 0 <= i < |vm| && vm[i] != null ==> vm[i].Valid()
    }

    /** The registered pools themselves. */
    ghost function Registered(): set<object>
      reads this
    {
      set i | 0 <= i < |vm| && vm[i] != null :: vm[i] as object
    }

    /**
     * handle_fault's pool check passes: no pool is registered, or some registered pool
     * accepts the address.
     */
    ghost predicate Admits(a: nat)
      reads this, Registered()
    {
      || (forall i :: 0 <= i < |vm| ==> vm[i] == null)
      || (exists i :: 0 <= i < |vm| && vm[i] != null && vm[i].Accepts(a))
    }

    /** handle_fault's scan of the registered pools. */
    method CheckPools(a: nat) returns (admitted: bool)
      requires Valid() && PoolsValid()
      ensures admitted == Admits(a) && Admits(a) == old(Admits(a))
    {
      var valid := false;
      var checked := 0;
      var i := 0;
      while i < MAX_POOLS
        invariant i <= MAX_POOLS
        invariant (checked == 0) == (forall j :: 0 <= j < i ==> vm[j] == null)
        invariant forall j :: 0 <= j < i && vm[j] != null ==> !vm[j].Accepts(a)
      {
        if vm[i] != null {
          var ok := vm[i].IsLegitimate(a);
          if ok {
            valid := true;
            break;
          }
          checked := checked + 1;
        }
        i := i + 1;
      }
      admitted := valid || checked == 0;
    }
  }

  // ---------------------------------------------------------------------------
  // The page table
  // ---------------------------------------------------------------------------

  class PageTable {
    const directoryFrame: nat
    /** The shared table of registered pools. */
    const vmTable: VmTable
    /** The page directory's 1024 entries. */
    var directory: seq<bv32>
    /** The contents of the table behind each present directory entry below the self-map slot. */
    var tables: Tables
    /** The addresses passed to free_page, in order. */
    ghost var freed: seq<bv32>
    /** The frames free_page handed to release_frames, in order. */
    ghost var releasedFrames: seq<nat>

    ghost predicate Valid()
      reads this
    {
      WellMapped(directory, tables, directoryFrame)
    }

    /**
     * Two get_frames(1) calls on the kernel pool, one for the directory and one for the
     * first table. The table identity-maps the first 4 MiB; directory entry 0 points at
     * it, entry 1023 at the directory itself, and the others are supervisor,
     * read/write, not present. The shared pool table is left as it is.
     */
    constructor (kernelPool: ContFramePool, table: VmTable)
      requires Allocator(kernelPool) && kernelPool.nFreeFrames >= 1 + Taken(kernelPool.Frames())
      modifies kernelPool, kernelPool.bitmap
      ensures Valid() && Allocator(kernelPool) && vmTable == table
      ensures var s, base := old(kernelPool.Frames()), kernelPool.baseFrameNo;
        && directoryFrame == FirstFrame(s, base)
        && directory[0] == FrameEntry(FirstFrame(TakeFirst(s), base))
        && kernelPool.Frames() == TakeFirst(TakeFirst(s))
        && kernelPool.nFreeFrames == old(kernelPool.nFreeFrames) - Taken(s) - Taken(TakeFirst(s))
        && kernelPool.Beyond() == old(kernelPool.Beyond())
      ensures directory[SELF_MAP_SLOT] == FrameEntry(directoryFrame)
      ensures forall d :: 1 <= d < SELF_MAP_SLOT ==> directory[d] == ABSENT_RW
      ensures tables == map[0 := IdentityTable()]
      ensures freed == [] && releasedFrames == []
    {
      var dirFrame := GetFrame(kernelPool);
      var tableFrame := GetFrame(kernelPool);
      var identity := IdentityMapped();
      var dir := RecursiveDirectory(FrameEntry(tableFrame), FrameEntry(dirFrame));
      ghost var first := map[0 := identity[..]];
      assert forall d :: 0 <= d < SELF_MAP_SLOT ==> (d in first <==> Present(dir[d]));
      directory := dir[..];
      directoryFrame := dirFrame;
      vmTable := table;
      tables := map[0 := identity[..]];
      freed := [];
      releasedFrames := [];
    }

    /** register_pool: the pool takes the next slot of the shared table; all slots taken is fatal. */
    method RegisterPool(pool: VMPool)
      requires vmTable.Valid() && vmTable.poolNumber < MAX_POOLS
      modifies vmTable
      ensures vmTable.Valid()
      ensures vmTable.vm == old(vmTable.vm)[old(vmTable.poolNumber) := pool]
      ensures vmTable.poolNumber == old(vmTable.poolNumber) + 1
    {
      vmTable.vm := vmTable.vm[vmTable.poolNumber := pool];
      vmTable.poolNumber := vmTable.poolNumber + 1;
    }

    /**
     * handle_fault for address a with error code err. A protection fault changes
     * nothing; so does an address that no registered pool accepts while some pool is
     * registered (fatal in the kernel). Otherwise the fault is resolved from the
     * process pool; `stale` is what the frame taken for a new table happens to hold.
     */
    method HandleFault(a: bv32, err: bv32, processPool: ContFramePool, stale: seq<bv32>)
        returns (outcome: FaultOutcome, ghost page: nat)
      requires Valid() && vmTable.Valid() && vmTable.PoolsValid() && Allocator(processPool)
      requires DirIndex(a) < SELF_MAP_SLOT && |stale| == ENTRIES_PER_TABLE
      requires err & 1 == 0 && vmTable.Admits(a as int) ==>
        processPool.nFreeFrames >= if Present(directory[DirIndex(a)]) then 1 else 1 + Taken(processPool.Frames())
      modifies this, processPool, processPool.bitmap
      ensures Valid() && Allocator(processPool)
      ensures outcome == if err & 1 == 1 then ProtectionFault
        else if !old(vmTable.Admits(a as int)) then NoLegitimatePool else Resolved
      ensures outcome != Resolved ==>
        && directory == old(directory) && tables == old(tables)
        && unchanged(processPool, processPool.bitmap)
      ensures outcome == Resolved ==> FaultResolved(a, old(Snapshot(processPool)), processPool, stale, page)
      ensures freed == old(freed) && releasedFrames == old(releasedFrames)
    {
      page := 0;
      if err & 1 == 1 {
        outcome := ProtectionFault;
      } else {
        var admitted := vmTable.CheckPools(a as int);
        if !admitted {
          outcome := NoLegitimatePool;
        } else {
          page := Resolve(a, processPool, stale);
          outcome := Resolved;
        }
      }
    }

    /** What a page fault reads and changes: the directory, the tables and the process pool. */
    ghost function Snapshot(processPool: ContFramePool): (v: FaultView)
      reads this, processPool, processPool.bitmap
      requires processPool.Valid()
    {
      FaultView(directory, tables, processPool.Frames(), processPool.nFreeFrames, processPool.Beyond())
    }

    /**
     * The outcome of a resolved fault at a, from the state `before`: a's table entry
     * receives what get_frames(1) returns on the process pool, `page`. If a's directory
     * entry was absent, a first get_frames(1) gives the frame for the table, a's entry
     * then gets what the second one returns, and the new table otherwise holds whatever
     * `stale` says. The pool changes as those calls change it, and a counter that
     * agreed with the bitmap still does.
     */
    ghost predicate FaultResolved(a: bv32, before: FaultView, processPool: ContFramePool, stale: seq<bv32>, page: nat)
      reads this, processPool, processPool.bitmap
      requires processPool.Valid()
    {
      var d, t := DirIndex(a), TableIndex(a);
      var base := processPool.baseFrameNo;
      && |before.directory| == ENTRIES_PER_TABLE
      && processPool.Beyond() == before.beyond
      && (before.free == CountFree(before.frames) ==> processPool.Counted())
      && if Present(before.directory[d]) then
           && page == FirstFrame(before.frames, base)
           && d in before.tables && t < |before.tables[d]|
           && directory == before.directory
           && tables == before.tables[d := before.tables[d][t := FrameEntry(page)]]
           && processPool.Frames() == TakeFirst(before.frames)
           && processPool.nFreeFrames == before.free - Taken(before.frames)
         else
           var mid := TakeFirst(before.frames);
           && page == FirstFrame(mid, base) && t < |stale|
           && directory == before.directory[d := FrameEntry(FirstFrame(before.frames, base))]
           && tables == before.tables[d := stale[t := FrameEntry(page)]]
           && processPool.Frames() == TakeFirst(mid)
           && processPool.nFreeFrames == before.free - Taken(before.frames) - Taken(mid)
    }

    /** handle_fault once the address is admitted. */
    method Resolve(a: bv32, processPool: ContFramePool, stale: seq<bv32>) returns (ghost page: nat)
      requires Valid() && Allocator(processPool)
      requires DirIndex(a) < SELF_MAP_SLOT && |stale| == ENTRIES_PER_TABLE
      requires processPool.nFreeFrames >=
        if Present(directory[DirIndex(a)]) then 1 else 1 + Taken(processPool.Frames())
      modifies this, processPool, processPool.bitmap
      ensures Valid() && Allocator(processPool)
      ensures FaultResolved(a, old(Snapshot(processPool)), processPool, stale, page)
      ensures freed == old(freed) && releasedFrames == old(releasedFrames)
    {
      var d, t := DirIndex(a), TableIndex(a);
      if Present(directory[d]) {
        var frame := GetFrame(processPool);
        EntryMapped(directory, tables, directoryFrame, d, t, FrameEntry(frame));
        tables := tables[d := tables[d][t := FrameEntry(frame)]];
        page := frame;
      } else {
        page := NewTableAndPage(d, t, processPool, stale);
      }
    }

    /** The absent-entry branch: one process frame for the table, one for the page. */
    method NewTableAndPage(d: nat, t: nat, processPool: ContFramePool, stale: seq<bv32>)
        returns (page: nat)
      requires Valid() && Allocator(processPool)
      requires processPool.nFreeFrames >= 1 + Taken(processPool.Frames())
      requires d < SELF_MAP_SLOT && t < ENTRIES_PER_TABLE && !Present(directory[d])
      requires |stale| == ENTRIES_PER_TABLE
      modifies this, processPool, processPool.bitmap
      ensures Valid() && Allocator(processPool)
      ensures var s, base := old(processPool.Frames()), processPool.baseFrameNo;
        && page == FirstFrame(TakeFirst(s), base)
        && directory == old(directory)[d := FrameEntry(FirstFrame(s, base))]
        && tables == old(tables)[d := stale[t := FrameEntry(page)]]
        && processPool.Frames() == TakeFirst(TakeFirst(s))
        && processPool.nFreeFrames == old(processPool.nFreeFrames) - Taken(s) - Taken(TakeFirst(s))
        && processPool.Beyond() == old(processPool.Beyond())
      ensures old(processPool.Counted()) ==> processPool.Counted()
      ensures freed == old(freed) && releasedFrames == old(releasedFrames)
    {
      var table;
      table, page := GetTwoFrames(processPool);
      NewTableMapped(directory, tables, directoryFrame, d, FrameEntry(table), stale[t := FrameEntry(page)]);
      directory := directory[d := FrameEntry(table)];
      tables := tables[d := stale[t := FrameEntry(page)]];
    }

    /**
     * free_page(a): a present table entry has its frame released through the pool
     * registry; the entry then becomes supervisor, read/write, not present. `released`
     * is the outcome of the release, None when the entry was not present.
     */
    method FreePage(a: bv32, registry: FramePoolList) returns (released: Option<ReleaseOutcome>)
      requires Valid() && registry.Valid() && Reachable(tables, a)
      modifies this, FreeFootprint(a, registry)
      ensures Valid() && registry.Valid() && registry.pools == old(registry.pools)
      ensures tables == ClearPage(old(tables), a) && directory == old(directory)
      ensures freed == old(freed) + [a]
      ensures releasedFrames == old(releasedFrames) + EntryFrames(old(tables), a)
      ensures var pte := old(tables[DirIndex(a)][TableIndex(a)]);
        && (!Present(pte) ==> released == None)
        && (Present(pte) ==> released.Some? && registry.ReleasedAt(FrameOf(pte), released.value))
    {
      var pte := tables[DirIndex(a)][TableIndex(a)];
      released := None;
      if Present(pte) {
        Unowned(registry, FrameOf(pte), this);
        var outcome := registry.ReleaseFrames(FrameOf(pte));
        released := Some(outcome);
      }
      ClearEntry(a);
    }

    /** The end of free_page(a): a's entry becomes not present, and the logs record the page and its frame. */
    method ClearEntry(a: bv32)
      requires Valid() && Reachable(tables, a)
      modifies this
      ensures Valid() && tables == ClearPage(old(tables), a) && directory == old(directory)
      ensures freed == old(freed) + [a]
      ensures releasedFrames == old(releasedFrames) + EntryFrames(old(tables), a)
    {
      EntryMapped(directory, tables, directoryFrame, DirIndex(a), TableIndex(a), ABSENT_RW);
      releasedFrames := releasedFrames + EntryFrames(tables, a);
      tables := ClearPage(tables, a);
      freed := freed + [a];
    }

    /**
     * What free_page(a) may change besides the table: the pool that owns the frame of a
     * present entry, nothing when the entry is not present.
     */
    ghost function FreeFootprint(a: bv32, registry: FramePoolList): set<object>
      reads this, registry
      requires Reachable(tables, a)
    {
      var pte := tables[DirIndex(a)][TableIndex(a)];
      if Present(pte) then registry.Owned(FrameOf(pte)) else {}
    }
  }

  /**
   * The two get_frames(1) calls of a fault on an absent directory entry: the first
   * returns the frame for the table, the second the frame for the page, and the pool
   * changes as the two calls change it. While the counter agrees with the bitmap the
   * two frames are distinct Free frames of the pool.
   */
  method GetTwoFrames(p: ContFramePool) returns (table: nat, page: nat)
    requires Allocator(p) && p.nFreeFrames >= 1 + Taken(p.Frames())
    modifies p, p.bitmap
    ensures Allocator(p)
    ensures var s, base := old(p.Frames()), p.baseFrameNo;
      && table == FirstFrame(s, base) && page == FirstFrame(TakeFirst(s), base)
      && p.Frames() == TakeFirst(TakeFirst(s))
      && p.nFreeFrames == old(p.nFreeFrames) - Taken(s) - Taken(TakeFirst(s))
      && p.Beyond() == old(p.Beyond())
    ensures old(p.Counted()) ==> p.Counted() && table != page
  {
    ghost var s := p.Frames();
    table := GetFrame(p);
    page := GetFrame(p);
    if old(p.Counted()) {
      SomeFreeFrame(s);
      TwoFramesDistinct(s, p.baseFrameNo);
    }
  }

  /** release_frames(g) changes neither the pool list nor the page table. */
  lemma Unowned(registry: FramePoolList, g: nat, t: PageTable)
    ensures registry !in registry.Owned(g) && t !in registry.Owned(g)
  {
  }

  /** The pool that release_frames(g) changes is one of the registered pools. */
  lemma OwnedRegistered(registry: FramePoolList, g: nat)
    ensures registry.Owned(g) <= AllPools(registry)
  {
    match OwnerIndex(registry.pools, g) {
      case None =>
      case Some(k) => PoolObjectsHold(registry.pools, k);
    }
  }

  /** The constructor's loop over the directory: `first` at 0, `self` at 1023, the rest absent. */
  method RecursiveDirectory(first: bv32, self: bv32) returns (dir: array<bv32>)
    ensures fresh(dir) && dir.Length == ENTRIES_PER_TABLE
    ensures dir[0] == first && dir[SELF_MAP_SLOT] == self
    ensures forall d :: 1 <= d < SELF_MAP_SLOT ==> dir[d] == ABSENT_RW
  {
    dir := new bv32[ENTRIES_PER_TABLE];
    dir[0] := first;
    for i := 1 to ENTRIES_PER_TABLE
      invariant dir[0] == first
      invariant forall k :: 1 <= k < i ==> dir[k] == if k == SELF_MAP_SLOT then self else ABSENT_RW
    {
      if i == SELF_MAP_SLOT {
        dir[i] := self;
      } else {
        dir[i] := ABSENT_RW;
      }
    }
  }

  // ---------------------------------------------------------------------------
  // The virtual-memory pool
  // ---------------------------------------------------------------------------

  /**
   * The region array of a pool with `count` live entries: 512 entries, the unused ones
   * cleared, the live ones page multiples in address order below 4 GiB.
   */
  ghost predicate Arranged(rs: seq<Region>, count: nat)
  {
    && |rs| == MAX_REGIONS && count <= MAX_REGIONS
    && (forall i :: count <= i < MAX_REGIONS ==> rs[i] == NO_REGION)
    && Ordered(rs[..count])
    && (forall i :: 0 <= i < count ==> rs[i].size % PAGE_SIZE == 0 && End(rs[i]) < ADDRESS_LIMIT)
  }

  /** release's rearrangement of the array: entry k goes, the later ones move down one. */
  function Shifted(rs: seq<Region>, count: nat, k: nat): (r: seq<Region>)
    requires k < count <= |rs|
  {
    Removed(rs[..count], k) + [NO_REGION] + rs[count..]
  }

  /** The rearranged array is arranged for one fewer entry and holds the others. */
  lemma ShiftedArranged(rs: seq<Region>, count: nat, k: nat)
    requires Arranged(rs, count) && k < count
    ensures Arranged(Shifted(rs, count, k), count - 1)
    ensures Shifted(rs, count, k)[..count - 1] == Removed(rs[..count], k)
  {
    var r := Shifted(rs, count, k);
    RemovedKeepsOthers(rs[..count], k);
    RemovedOrdered(rs[..count], k);
    assert r[..count - 1] == Removed(rs[..count], k);
    forall i | 0 <= i < count - 1
      ensures r[i].size % PAGE_SIZE == 0 && End(r[i]) < ADDRESS_LIMIT
    {
      var i' := if i < k then i else i + 1;
      assert r[i] == rs[i'];
    }
  }

  class VMPool {
    const baseAddress: nat
    const size: nat
    const pageTable: PageTable
    /** The region array kept at the pool's base address: 512 entries. */
    const regions: array<Region>
    var count: nat
    /** The allocated regions: the first `count` entries of the array. */
    ghost var live: seq<Region>

    ghost predicate Valid()
      reads this, regions
    {
      regions.Length == MAX_REGIONS && Arranged(regions[..], count) && live == regions[..count]
    }

    /** is_legitimate's answer, on the live regions. */
    ghost predicate Accepts(a: nat)
      reads this
    {
      Legitimate(baseAddress, live, a)
    }

    /**
     * The pool registers with the page table; region 0 is the first page at the base
     * address (where the region array lives) and the other 511 entries are unused.
     */
    constructor (base: nat, sz: nat, pt: PageTable)
      requires pt.vmTable.Valid() && pt.vmTable.poolNumber < MAX_POOLS && base + PAGE_SIZE < ADDRESS_LIMIT
      modifies pt.vmTable
      ensures Valid() && fresh(regions)
      ensures baseAddress == base && size == sz && pageTable == pt
      ensures live == [Region(base, PAGE_SIZE)]
      ensures pt.vmTable.Valid() && pt.vmTable.vm == old(pt.vmTable.vm)[old(pt.vmTable.poolNumber) := this]
      ensures pt.vmTable.poolNumber == old(pt.vmTable.poolNumber) + 1
    {
      baseAddress := base;
      size := sz;
      pageTable := pt;
      var r := FirstRegions(base);
      regions := r;
      count := 1;
      live := [Region(base, PAGE_SIZE)];
      new;
      pt.RegisterPool(this);
    }

    /**
     * allocate(sz): the new region starts where the last one ends and covers sz rounded
     * up to whole pages; its start is returned.
     */
    method Allocate(sz: nat) returns (start: nat)
      requires Valid() && 1 <= count < MAX_REGIONS
      requires End(regions[count - 1]) + RoundUpToPage(sz) < ADDRESS_LIMIT
      modifies this, regions
      ensures Valid()
      ensures start == End(old(regions[count - 1]))
      ensures live == old(live) + [Region(start, RoundUpToPage(sz))]
    {
      var newStart := regions[count - 1].start + regions[count - 1].size;
      AppendedOrdered(live, Region(newStart, RoundUpToPage(sz)));
      regions[count] := Region(newStart, RoundUpToPage(sz));
      count := count + 1;
      live := live + [Region(newStart, RoundUpToPage(sz))];
      assert regions[..count] == live;
      start := newStart;
    }

    /** is_legitimate: the base address, or an address within a live region, end included. */
    method IsLegitimate(a: nat) returns (ok: bool)
      requires Valid()
      ensures ok == Accepts(a)
    {
      if a == baseAddress {
        return true;
      }
      for i := 0 to count
        invariant forall j :: 0 <= j < i ==> !(regions[j].start <= a <= End(regions[j]))
      {
        if a >= regions[i].start && a <= regions[i].start + regions[i].size {
          assert live[i] == regions[i];
          return true;
        }
      }
      return false;
    }

    /** The page table entries of the first region that starts at s can be reached. */
    ghost predicate PagesReachable(s: nat)
      reads this, regions, pageTable
      requires Valid()
    {
      match FindStart(live, s)
      case None => true
      case Some(k) => AllReachable(pageTable.tables, RegionPages(live[k]))
    }

    /**
     * release(s): the live region starting at s is removed, the later ones move down one
     * entry, and each of its pages is passed to free_page in ascending order. Without
     * such a region (fatal in the kernel) nothing changes.
     */
    method Release(s: nat, registry: FramePoolList) returns (found: bool)
      requires Valid() && pageTable.Valid() && registry.Valid() && PagesReachable(s)
      modifies this, regions, pageTable, AllPools(registry)
      ensures Valid() && pageTable.Valid() && registry.Valid() && registry.pools == old(registry.pools)
      ensures match old(FindStart(live, s))
        case None =>
          && !found && live == old(live) && unchanged(pageTable)
          && (forall i :: 0 <= i < |registry.pools| ==> unchanged(registry.pools[i], registry.pools[i].bitmap))
        case Some(k) =>
          && found && live == Removed(old(live), k) && pageTable.directory == old(pageTable.directory)
          && FreedInOrder(pageTable, old(pageTable.tables), old(pageTable.freed), old(pageTable.releasedFrames),
               RegionPages(old(live)[k]))
    {
      var index := FindRegion(s);
      if index.None? {
        return false;
      }
      ReleaseEntry(index.value, registry);
      found := true;
    }

    /** release once the region is found at entry k. */
    method ReleaseEntry(k: nat, registry: FramePoolList)
      requires Valid() && pageTable.Valid() && registry.Valid() && k < count
      requires AllReachable(pageTable.tables, RegionPages(live[k]))
      modifies this, regions, pageTable, AllPools(registry)
      ensures Valid() && pageTable.Valid() && registry.Valid() && registry.pools == old(registry.pools)
      ensures live == Removed(old(live), k) && pageTable.directory == old(pageTable.directory)
      ensures FreedInOrder(pageTable, old(pageTable.tables), old(pageTable.freed), old(pageTable.releasedFrames),
        RegionPages(old(live)[k]))
    {
      var r := regions[k];
      assert live[k] == r;
      PoolObjectsApart(registry.pools, this);
      RemoveEntry(k);
      FreeRegion(pageTable, r, registry);
    }

    /** release's search for the region, over the live entries. */
    method FindRegion(s: nat) returns (index: Option<nat>)
      requires Valid()
      ensures index == FindStart(live, s)
    {
      for i := 0 to count
        invariant forall j :: 0 <= j < i ==> regions[j].start != s
      {
        if regions[i].start == s {
          assert forall j :: 0 <= j < i ==> live[j].start != s;
          FindStartFirst(live, s, i);
          return Some(i);
        }
      }
      assert forall j :: 0 <= j < count ==> live[j].start != s;
      FindStartNone(live, s);
      return None;
    }

    /** release's shift of the later entries and the clearing of the freed last slot. */
    method RemoveEntry(k: nat)
      requires Valid() && k < count
      modifies this, regions
      ensures Valid() && live == Removed(old(live), k)
    {
      ghost var before := regions[..];
      ShiftedArranged(before, count, k);
      ShiftDown(regions, k, count);
      regions[count - 1] := NO_REGION;
      ShiftThenClear(before, count, k);
      count := count - 1;
      live := Removed(live, k);
    }

  }

  /** release's page loop for region r: its address and page count, then free_page on each page. */
  method FreeRegion(pageTable: PageTable, r: Region, registry: FramePoolList)
    requires pageTable.Valid() && registry.Valid() && r.start < ADDRESS_LIMIT
    requires AllReachable(pageTable.tables, RegionPages(r))
    modifies pageTable, AllPools(registry)
    ensures registry.Valid() && registry.pools == old(registry.pools)
    ensures pageTable.directory == old(pageTable.directory)
    ensures FreedInOrder(pageTable, old(pageTable.tables), old(pageTable.freed), old(pageTable.releasedFrames),
      RegionPages(r))
  {
    FreePages(pageTable, r.start as bv32, r.size / PAGE_SIZE, registry);
  }

  /**
   * One turn of release's page loop: free_page on one page, seen from the loop, which
   * keeps the table, the logs and the directory but not what the frame pool did.
   */
  method FreeOnePage(pt: PageTable, page: bv32, registry: FramePoolList)
    requires pt.Valid() && registry.Valid() && Reachable(pt.tables, page)
    modifies pt, AllPools(registry)
    ensures pt.Valid() && registry.Valid() && registry.pools == old(registry.pools)
    ensures pt.tables == ClearPage(old(pt.tables), page) && pt.directory == old(pt.directory)
    ensures pt.freed == old(pt.freed) + [page]
    ensures pt.releasedFrames == old(pt.releasedFrames) + EntryFrames(old(pt.tables), page)
  {
    if Present(pt.tables[DirIndex(page)][TableIndex(page)]) {
      OwnedRegistered(registry, FrameOf(pt.tables[DirIndex(page)][TableIndex(page)]));
    }
    var _ := pt.FreePage(page, registry);
  }

  /**
   * release's last loop: free_page on each of n pages from address `start` upwards.
   * The frames of the entries still present are handed to release_frames in that order.
   */
  method FreePages(pageTable: PageTable, start: bv32, n: nat, registry: FramePoolList)
    requires pageTable.Valid() && registry.Valid()
    requires AllReachable(pageTable.tables, Pages(start, n))
    modifies pageTable, AllPools(registry)
    ensures registry.Valid() && registry.pools == old(registry.pools)
    ensures pageTable.directory == old(pageTable.directory)
    ensures FreedInOrder(pageTable, old(pageTable.tables), old(pageTable.freed), old(pageTable.releasedFrames), Pages(start, n))
  {
    ghost var sweep := Sweep(Pages(start, n), pageTable.tables, pageTable.freed, pageTable.releasedFrames,
      pageTable.directory, registry.pools);
    ghost var done: seq<bv32> := [];
    SweepStarts(sweep, pageTable, registry, start, n);
    var page := start;
    var remaining := n;
    while remaining > 0
      invariant Sweeping(sweep, pageTable, registry, done, page, remaining)
      modifies pageTable, AllPools(registry)
    {
      done, page, remaining := FreeNext(sweep, pageTable, registry, done, page, remaining);
    }
    SweepEnds(sweep, pageTable, registry, done, page);
  }

  /** What release's page loop starts from: the pages to free and the state before the first. */
  datatype Sweep = Sweep(all: seq<bv32>, before: Tables, log: seq<bv32>, frames: seq<nat>,
    directory: seq<bv32>, pools: seq<ContFramePool>)

  /**
   * The pages `done` have been passed to free_page in order, starting from the tables
   * `before`, the address log `log` and the frame log `frames`: the table is still
   * mapped, each page's entry is cleared, the address log gains the pages and the
   * frame log gains the frames handed to release_frames.
   */
  ghost predicate FreedInOrder(pt: PageTable, before: Tables, log: seq<bv32>, frames: seq<nat>, done: seq<bv32>)
    reads pt
  {
    && pt.Valid() && AllReachable(before, done)
    && pt.freed == log + done
    && pt.tables == ClearPages(before, done)
    && pt.releasedFrames == frames + ReleasedFrames(before, done)
  }

  /**
   * The loop's invariant: the pages `done` are freed, the next `remaining` ones start at
   * `page`, and neither the directory nor the pool list has changed.
   */
  ghost predicate Sweeping(sweep: Sweep, pt: PageTable, registry: FramePoolList, done: seq<bv32>, page: bv32, remaining: nat)
    reads pt, registry
  {
    && done + Pages(page, remaining) == sweep.all && AllReachable(sweep.before, sweep.all)
    && registry.Valid() && registry.pools == sweep.pools
    && FreedInOrder(pt, sweep.before, sweep.log, sweep.frames, done) && pt.directory == sweep.directory
  }

  /** Before release's page loop starts, no page is freed. */
  lemma SweepStarts(sweep: Sweep, pt: PageTable, registry: FramePoolList, start: bv32, n: nat)
    requires pt.Valid() && registry.Valid() && AllReachable(pt.tables, Pages(start, n))
    requires sweep == Sweep(Pages(start, n), pt.tables, pt.freed, pt.releasedFrames, pt.directory, registry.pools)
    ensures Sweeping(sweep, pt, registry, [], start, n)
  {
    assert [] + Pages(start, n) == Pages(start, n);
    assert pt.freed + [] == pt.freed && pt.releasedFrames + [] == pt.releasedFrames;
  }

  /** When release's page loop stops, every page of the sweep is freed. */
  lemma SweepEnds(sweep: Sweep, pt: PageTable, registry: FramePoolList, done: seq<bv32>, page: bv32)
    requires Sweeping(sweep, pt, registry, done, page, 0)
    ensures registry.Valid() && registry.pools == sweep.pools && pt.directory == sweep.directory
    ensures FreedInOrder(pt, sweep.before, sweep.log, sweep.frames, sweep.all)
  {
    assert done + [] == done;
  }

  /** One turn of release's page loop: free_page on the current page, then the step to the next page. */
  method FreeNext(ghost sweep: Sweep, pt: PageTable, registry: FramePoolList, ghost done: seq<bv32>, page: bv32, remaining: nat)
    returns (ghost doneNext: seq<bv32>, next: bv32, left: nat)
    requires remaining > 0 && Sweeping(sweep, pt, registry, done, page, remaining)
    modifies pt, AllPools(registry)
    ensures doneNext == done + [page] && next == page + PAGE_BYTES && left == remaining - 1
    ensures Sweeping(sweep, pt, registry, doneNext, next, left)
  {
    doneNext, next, left := done + [page], page + PAGE_BYTES, remaining - 1;
    NextPage(sweep.before, done, page, remaining, sweep.all);
    FreeOnePage(pt, page, registry);
    AppendAssoc(sweep.log, done, [page]);
    AppendAssoc(sweep.frames, ReleasedFrames(sweep.before, done), EntryFrames(ClearPages(sweep.before, done), page));
  }

  lemma AppendAssoc<T>(a: seq<T>, b: seq<T>, c: seq<T>)
    ensures (a + b) + c == a + (b + c)
  {
  }

  /** The shift followed by clearing entry count-1 is the rearrangement Shifted. */
  lemma ShiftThenClear(rs: seq<Region>, count: nat, k: nat)
    requires k < count <= |rs|
    ensures (rs[..k] + rs[k + 1..count] + rs[count - 1..])[count - 1 := NO_REGION] == Shifted(rs, count, k)
  {
    var moved := rs[..k] + rs[k + 1..count] + rs[count - 1..];
    assert moved[..count - 1] == Removed(rs[..count], k);
    assert moved[count..] == rs[count..];
  }

  /** release's shift: entries k+1 .. count-1 move down one place; the rest stay. */
  method ShiftDown(rs: array<Region>, k: nat, count: nat)
    requires k < count <= rs.Length
    modifies rs
    ensures rs[..] == old(rs[..k]) + old(rs[k + 1..count]) + old(rs[count - 1..])
  {
    for i := k to count - 1
      invariant forall j :: 0 <= j < k ==> rs[j] == old(rs[j])
      invariant forall j :: k <= j < i ==> rs[j] == old(rs[j + 1])
      invariant forall j :: i <= j < rs.Length ==> rs[j] == old(rs[j])
    {
      rs[i] := rs[i + 1];
    }
  }

  /** One step of release's page loop: the next page is reachable and joins the freed ones. */
  lemma NextPage(before: Tables, done: seq<bv32>, page: bv32, remaining: nat, all: seq<bv32>)
    requires remaining > 0 && done + Pages(page, remaining) == all
    requires AllReachable(before, all) && AllReachable(before, done)
    ensures (done + [page]) + Pages(page + PAGE_BYTES, remaining - 1) == all
    ensures Reachable(ClearPages(before, done), page)
    ensures AllReachable(before, done + [page])
    ensures ClearPages(before, done + [page]) == ClearPage(ClearPages(before, done), page)
    ensures ReleasedFrames(before, done + [page])
      == ReleasedFrames(before, done) + EntryFrames(ClearPages(before, done), page)
  {
    assert Pages(page, remaining) == [page] + Pages(page + PAGE_BYTES, remaining - 1);
    assert all[|done|] == page;
    assert (done + [page])[..|done|] == done;
  }

  lemma FindStartFirst(live: seq<Region>, s: nat, i: nat)
    requires i < |live| && live[i].start == s
    requires forall j :: 0 <= j < i ==> live[j].start != s
    ensures FindStart(live, s) == Some(i)
  {
  }

  lemma FindStartNone(live: seq<Region>, s: nat)
    requires forall j :: 0 <= j < |live| ==> live[j].start != s
    ensures FindStart(live, s) == None
  {
  }

  /** The constructor's loop: region 0 is one page at the base, the rest unused. */
  method FirstRegions(base: nat) returns (r: array<Region>)
    ensures fresh(r) && r.Length == MAX_REGIONS
    ensures r[0] == Region(base, PAGE_SIZE)
    ensures forall i :: 1 <= i < MAX_REGIONS ==> r[i] == NO_REGION
  {
    r := new Region[MAX_REGIONS];
    r[0] := Region(base, PAGE_SIZE);
    for i := 1 to MAX_REGIONS
      invariant r[0] == Region(base, PAGE_SIZE)
      invariant forall k :: 1 <= k < i ==> r[k] == NO_REGION
    {
      r[i] := NO_REGION;
    }
  }
}
