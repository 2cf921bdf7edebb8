/**
 * The first page-table design of the kernel: the page directory and every page table
 * are reached through their physical addresses, and a page fault walks them
 * explicitly. The first 4 MiB are identity-mapped by the table behind directory
 * entry 0; every other region is mapped on demand, one page per fault.
 */
module ExplicitPaging {
  import opened FramePool
  import opened Paging

  /** A fresh page table: all 1024 entries user, read-only, not present. */
  function BlankTable(): (t: seq<bv32>)
    ensures |t| == ENTRIES_PER_TABLE
    ensures forall i :: 0 <= i < |t| ==> !Present(t[i])
  {
    seq(ENTRIES_PER_TABLE, _ => ABSENT_USER)
  }

  /** Two distinct pools, each with a counter that bounds its Free frames. */
  ghost predicate Pools(kernelPool: ContFramePool, processPool: ContFramePool)
    reads kernelPool, kernelPool.bitmap, processPool, processPool.bitmap
  {
    && kernelPool != processPool && kernelPool.bitmap != processPool.bitmap
    && Allocator(kernelPool) && Allocator(processPool)
  }

  class PageTable {
    /** The frame holding the directory. */
    const directoryFrame: nat
    /** The frame of the identity-mapping table (a local of the constructor). */
    ghost const identityFrame: nat
    const directory: array<bv32>
    /**
     * The contents of the page table that each present directory entry points at,
     * keyed by directory index.
     */
    var tables: map<nat, seq<bv32>>

    ghost predicate Valid()
      reads this, directory
    {
      && directory.Length == ENTRIES_PER_TABLE
      && (forall d :: d in tables ==> d < ENTRIES_PER_TABLE && |tables[d]| == ENTRIES_PER_TABLE)
      && (forall d :: 0 <= d < ENTRIES_PER_TABLE ==> (d in tables <==> Present(directory[d])))
    }

    /**
     * Two get_frames(1) calls on the kernel pool, one for the directory and one for the
     * first table. The table identity-maps the first 4 MiB; directory entry 0 points at
     * it and the other 1023 entries are supervisor, read/write, not present. While the
     * pool's counter agrees with its bitmap the two frames differ.
     */
    constructor (kernelPool: ContFramePool)
      requires Allocator(kernelPool) && kernelPool.nFreeFrames >= 1 + Taken(kernelPool.Frames())
      modifies kernelPool, kernelPool.bitmap
      ensures Valid() && fresh(directory) && Allocator(kernelPool)
      ensures var s, base := old(kernelPool.Frames()), kernelPool.baseFrameNo;
        && directoryFrame == FirstFrame(s, base)
        && identityFrame == FirstFrame(TakeFirst(s), base)
        && kernelPool.Frames() == TakeFirst(TakeFirst(s))
        && kernelPool.nFreeFrames == old(kernelPool.nFreeFrames) - Taken(s) - Taken(TakeFirst(s))
        && kernelPool.Beyond() == old(kernelPool.Beyond())
      ensures old(kernelPool.Counted()) && old(kernelPool.nFreeFrames) >= 2 ==>
        kernelPool.Counted() && directoryFrame != identityFrame
      ensures directory[0] == FrameEntry(identityFrame)
      ensures forall d :: 1 <= d < ENTRIES_PER_TABLE ==> directory[d] == ABSENT_RW
      ensures tables == map[0 := IdentityTable()]
    {
      ghost var s := kernelPool.Frames();
      var dirFrame := GetFrame(kernelPool);
      var tableFrame := GetFrame(kernelPool);
      if old(kernelPool.Counted()) && old(kernelPool.nFreeFrames) >= 2 {
        TwoFramesDistinct(s, kernelPool.baseFrameNo);
      }
      var table := IdentityMapped();
      var dir := FirstDirectory(FrameEntry(tableFrame));
      directory := dir;
      directoryFrame := dirFrame;
      identityFrame := tableFrame;
      tables := map[0 := table[..]];
    }

    /**
     * handle_fault for address a with error code err. A protection fault (bit 0 set)
     * changes nothing. Otherwise a missing table is first taken from the kernel pool
     * and filled with not-present entries, then the faulting entry of the table
     * receives a fresh process frame, present and writable.
     */
    method HandleFault(a: bv32, err: bv32, kernelPool: ContFramePool, processPool: ContFramePool)
      requires Valid() && Pools(kernelPool, processPool)
      requires err & 1 == 0 ==> processPool.nFreeFrames >= 1
      requires err & 1 == 0 && !Present(directory[DirIndex(a)]) ==> kernelPool.nFreeFrames >= 1
      modifies this, directory, kernelPool, kernelPool.bitmap, processPool, processPool.bitmap
      ensures Valid() && Pools(kernelPool, processPool)
      ensures err & 1 == 1 ==>
        && directory[..] == old(directory[..]) && tables == old(tables)
        && unchanged(kernelPool, kernelPool.bitmap, processPool, processPool.bitmap)
      ensures err & 1 == 0 ==> FaultResolved(a, kernelPool, processPool)
    {
      if err & 1 == 0 {
        Resolve(a, kernelPool, processPool);
      }
    }

    /** handle_fault past the protection check. */
    method Resolve(a: bv32, kernelPool: ContFramePool, processPool: ContFramePool)
      requires Valid() && Pools(kernelPool, processPool)
      requires processPool.nFreeFrames >= 1
      requires !Present(directory[DirIndex(a)]) ==> kernelPool.nFreeFrames >= 1
      modifies this, directory, kernelPool, kernelPool.bitmap, processPool, processPool.bitmap
      ensures Valid() && Pools(kernelPool, processPool)
      ensures FaultResolved(a, kernelPool, processPool)
    {
      var pageIndex := TableIndex(a);
      var dirIndex := DirIndex(a);
      if !Present(directory[dirIndex]) {
        NewTableAndPage(dirIndex, pageIndex, kernelPool, processPool);
      } else {
        MapPage(dirIndex, pageIndex, processPool);
      }
    }

    /** handle_fault when directory entry d is absent: a new table, then the page. */
    method NewTableAndPage(d: nat, t: nat, kernelPool: ContFramePool, processPool: ContFramePool)
      requires Valid() && Pools(kernelPool, processPool)
      requires d < ENTRIES_PER_TABLE && t < ENTRIES_PER_TABLE && !Present(directory[d])
      requires processPool.nFreeFrames >= 1 && kernelPool.nFreeFrames >= 1
      modifies this, directory, kernelPool, kernelPool.bitmap, processPool, processPool.bitmap
      ensures Valid() && Pools(kernelPool, processPool)
      ensures directory[..] == old(directory[..])[d := FrameEntry(old(NextFrame(kernelPool)))]
      ensures tables == old(tables)[d := BlankTable()[t := FrameEntry(old(NextFrame(processPool)))]]
      ensures TookFirstFrame(kernelPool) && TookFirstFrame(processPool)
    {
      ghost var entry := FrameEntry(NextFrame(processPool));
      ghost var before: map<nat, seq<bv32>> := tables;
      NewTable(d, kernelPool);
      assert Allocator(processPool) && entry == FrameEntry(NextFrame(processPool));
      ghost var blank: map<nat, seq<bv32>> := tables;
      MapPage(d, t, processPool);
      assert blank[d] == BlankTable();
      assert tables == blank[d := BlankTable()[t := entry]];
      OverwriteKey(before, d, BlankTable(), BlankTable()[t := entry]);
    }

    /** The last step of handle_fault: entry t of table d receives a fresh process frame. */
    method MapPage(d: nat, t: nat, processPool: ContFramePool)
      requires Valid() && d in tables && t < ENTRIES_PER_TABLE
      requires Allocator(processPool) && processPool.nFreeFrames >= 1
      modifies this, processPool, processPool.bitmap
      ensures Valid() && Allocator(processPool)
      ensures tables == old(tables)[d := old(tables)[d][t := FrameEntry(old(NextFrame(processPool)))]]
      ensures TookFirstFrame(processPool)
    {
      var page := GetFrame(processPool);
      tables := tables[d := tables[d][t := FrameEntry(page)]];
    }

    /**
     * The absent-entry half of handle_fault: directory entry d receives a fresh kernel
     * frame, present and writable, and the table there is filled with not-present
     * entries.
     */
    method NewTable(d: nat, kernelPool: ContFramePool)
      requires Valid() && d < ENTRIES_PER_TABLE && !Present(directory[d])
      requires Allocator(kernelPool) && kernelPool.nFreeFrames >= 1
      modifies this, directory, kernelPool, kernelPool.bitmap
      ensures Valid() && Allocator(kernelPool)
      ensures directory[..] == old(directory[..])[d := FrameEntry(old(NextFrame(kernelPool)))]
      ensures tables == old(tables)[d := BlankTable()]
      ensures TookFirstFrame(kernelPool)
    {
      var frame := GetFrame(kernelPool);
      directory[d] := FrameEntry(frame);
      var table := Blank();
      tables := tables[d := table[..]];
    }

    /**
     * The outcome of a page fault at a that is not a protection fault: the table of a's
     * directory entry (a blank one taken from the kernel pool if the entry was absent)
     * gets what get_frames(1) returns on the process pool in a's entry. Each pool that
     * is asked changes as get_frames(1) changes it; nothing else changes.
     */
    twostate predicate FaultResolved(a: bv32, kernelPool: ContFramePool, processPool: ContFramePool)
      reads this, directory, kernelPool, kernelPool.bitmap, processPool, processPool.bitmap
      requires old(Valid() && kernelPool.Valid() && processPool.Valid())
      requires kernelPool.Valid() && processPool.Valid()
    {
      var d, t := DirIndex(a), TableIndex(a);
      var entry := FrameEntry(old(NextFrame(processPool)));
      && TookFirstFrame(processPool)
      && (if old(Present(directory[d])) then
            && directory[..] == old(directory[..])
            && tables == old(tables)[d := old(tables)[d][t := entry]]
            && unchanged(kernelPool, kernelPool.bitmap)
          else
            && directory[..] == old(directory[..])[d := FrameEntry(old(NextFrame(kernelPool)))]
            && tables == old(tables)[d := BlankTable()[t := entry]]
            && TookFirstFrame(kernelPool))
    }
  }

  lemma OverwriteKey<K, V>(m: map<K, V>, k: K, v: V, w: V)
    ensures m[k := v][k := w] == m[k := w]
  {
  }

  /** handle_fault's loop over a new table: every entry user, read-only, not present. */
  method Blank() returns (table: array<bv32>)
    ensures fresh(table) && table[..] == BlankTable()
  {
    table := new bv32[ENTRIES_PER_TABLE];
    for i := 0 to ENTRIES_PER_TABLE
      invariant forall k :: 0 <= k < i ==> table[k] == ABSENT_USER
    {
      table[i] := ABSENT_USER;
    }
    assert table[..] == BlankTable();
  }

  /** The constructor's second loop: entry 0 is `first`, entries 1 .. 1023 not present. */
  method FirstDirectory(first: bv32) returns (dir: array<bv32>)
    ensures fresh(dir) && dir.Length == ENTRIES_PER_TABLE
    ensures dir[0] == first && forall d :: 1 <= d < ENTRIES_PER_TABLE ==> dir[d] == ABSENT_RW
  {
    dir := new bv32[ENTRIES_PER_TABLE];
    dir[0] := first;
    for i := 1 to ENTRIES_PER_TABLE
      invariant dir[0] == first
      invariant forall k :: 1 <= k < i ==> dir[k] == ABSENT_RW
    {
      dir[i] := ABSENT_RW;
    }
  }
}
