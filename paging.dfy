/**
 * The 32-bit x86 two-level paging format shared by both page-table designs of the
 * kernel: directory and table entries, the split of a virtual address into directory
 * index, table index and offset, and the "recursive" addresses under which a directory
 * that maps itself in its last slot (1023) exposes its own entries and those of its
 * tables (section 4.3 of the Intel 64 and IA-32 Architectures Software Developer's
 * Manual, Volume 3A).
 */
module Paging {
  import opened Wrappers
  import opened FramePool

  const PAGE_SIZE: nat := 4096
  const ENTRIES_PER_TABLE: nat := 1024
  /** The directory slot that the recursive design points back at the directory. */
  const SELF_MAP_SLOT: nat := 1023

  /** Entry flags: bit 0 present, bit 1 read/write, bit 2 user. */
  const PRESENT_RW: bv32 := 3
  /** Supervisor, read/write, not present. */
  const ABSENT_RW: bv32 := 2
  /** User, read-only, not present: what a fresh explicit page table is filled with. */
  const ABSENT_USER: bv32 := 4

  predicate Present(e: bv32)
  {
    e & 1 == 1
  }

  /**
   * The frame number that an `unsigned long` holding frame * PAGE_SIZE keeps: the
   * product is truncated to 32 bits, so only the low 20 bits of the frame survive.
   */
  function FrameBits(frame: nat): (b: bv32)
    ensures b < 0x10_0000
  {
    (frame % 0x10_0000) as bv32
  }

  /** `frame * PAGE_SIZE | flags`, for a 20-bit frame number and flags below bit 12. */
  function Entry(frame: bv32, flags: bv32): (e: bv32)
    requires frame < 0x10_0000 && flags < 0x1000
    ensures e >> 12 == frame && e & 0xFFF == flags
  {
    (frame << 12) | flags
  }

  /** The entry for frame `frame` of a pool, present and writable. */
  function FrameEntry(frame: nat): (e: bv32)
    ensures Present(e) && e >> 12 == FrameBits(frame)
  {
    Entry(FrameBits(frame), PRESENT_RW)
  }

  /** Directory index: bits 31..22 of the address. */
  function DirIndex(a: bv32): (i: nat)
    ensures i < ENTRIES_PER_TABLE
  {
    ((a & 0xFFC0_0000) >> 22) as int
  }

  /** Table index: bits 21..12 of the address. */
  function TableIndex(a: bv32): (i: nat)
    ensures i < ENTRIES_PER_TABLE
  {
    ((a & 0x003F_F000) >> 12) as int
  }

  /** The table address the explicit design takes from a directory entry: its flag bits masked off. */
  function TableBase(e: bv32): (b: bv32)
    ensures b == (e >> 12) << 12
  {
    e & (0x003F_F000 + 0xFFC0_0000)
  }

  /** The table address is page-aligned and names the entry's frame. */
  lemma TableBaseAligned(e: bv32)
    ensures TableBase(e) & 0xFFF == 0 && TableBase(e) >> 12 == e >> 12
  {
  }

  /** The table behind the entry for a frame starts at that frame (its low 20 bits). */
  lemma TableBaseOfEntry(frame: nat)
    ensures TableBase(FrameEntry(frame)) == FrameBits(frame) << 12
  {
  }

  // ---------------------------------------------------------------------------
  // The recursive (self-mapped) design
  // ---------------------------------------------------------------------------

  /**
   * PDE_address: the virtual address of the directory entry for `a` when slot 1023
   * maps the directory, i.e. 0xFFFFF000 + 4 * (a >> 22).
   */
  function PDEAddress(a: bv32): (r: bv32)
    ensures r >> 22 == 1023 && (r >> 12) & 0x3FF == 1023 && r & 0xFFF == (a >> 22) << 2
  {
    ((a >> 20) | 0xFFFF_F000) & 0xFFFF_FFFC
  }

  /** PDE_address(a) is the word-aligned address 0xFFFFF000 + 4 * (a >> 22). */
  lemma PDEAddressValue(a: bv32)
    ensures PDEAddress(a) == 0xFFFF_F000 + ((a >> 22) << 2)
    ensures PDEAddress(a) & 3 == 0
  {
  }

  /**
   * PTE_address: the virtual address of the table entry for `a`,
   * i.e. 0xFFC00000 + 4 * (a >> 12).
   */
  function PTEAddress(a: bv32): (r: bv32)
    ensures r >> 22 == 1023 && (r >> 12) & 0x3FF == a >> 22
    ensures r & 0xFFF == ((a >> 12) & 0x3FF) << 2
  {
    ((a >> 10) | 0xFFC0_0000) & 0xFFFF_FFFC
  }

  /** PTE_address(a) is the word-aligned address 0xFFC00000 + 4 * (a >> 12). */
  lemma PTEAddressValue(a: bv32)
    ensures PTEAddress(a) == 0xFFC0_0000 + ((a >> 12) << 2)
    ensures PTEAddress(a) & 3 == 0
  {
  }

  /** The directory entry's address depends only on the directory index. */
  lemma PDEAddressPerDirectorySlot(a: bv32, b: bv32)
    requires a >> 22 == b >> 22
    ensures PDEAddress(a) == PDEAddress(b)
  {
  }

  /** Addresses in the same page share their table entry's address. */
  lemma PTEAddressPerPage(a: bv32, b: bv32)
    requires a >> 12 == b >> 12
    ensures PTEAddress(a) == PTEAddress(b)
  {
  }

  /** The recursive addresses lie in the last 4 MiB, the window of slot 1023. */
  lemma RecursiveAddressesInSelfMapWindow(a: bv32)
    ensures DirIndex(PDEAddress(a)) == SELF_MAP_SLOT && TableIndex(PDEAddress(a)) == SELF_MAP_SLOT
    ensures DirIndex(PTEAddress(a)) == SELF_MAP_SLOT && TableIndex(PTEAddress(a)) == DirIndex(a)
  {
  }

  /** The frame number held in an entry (its bits 31..12). */
  function FrameOf(e: bv32): nat
  {
    (e >> 12) as int
  }

  /**
   * Physical memory as the MMU reads it: the 32-bit word at word index i (0..1023) of
   * frame f.
   */
  type PhysicalMemory = (nat, nat) -> bv32

  datatype Translation = PageFault | Mapped(frame: nat, offset: bv32)

  /**
   * The MMU's two-level walk of virtual address va from the directory in frame
   * `directory`: the directory entry picks the table, the table entry picks the page.
   */
  function Translate(mem: PhysicalMemory, directory: nat, va: bv32): (t: Translation)
    ensures t.Mapped? ==> t.offset == va & 0xFFF
    ensures t.Mapped? ==> Present(mem(directory, DirIndex(va)))
  {
    TableStep(mem, mem(directory, DirIndex(va)), va)
  }

  /** The second level of the walk, from directory entry pde. */
  function TableStep(mem: PhysicalMemory, pde: bv32, va: bv32): (t: Translation)
    ensures t.Mapped? ==> Present(pde) && t.offset == va & 0xFFF
  {
    if !Present(pde) then PageFault else PageStep(mem(FrameOf(pde), TableIndex(va)), va)
  }

  /** The last step of the walk, from table entry pte. */
  function PageStep(pte: bv32, va: bv32): (t: Translation)
    ensures t.Mapped? <==> Present(pte)
  {
    if !Present(pte) then PageFault else Mapped(FrameOf(pte), va & 0xFFF)
  }

  /** Slot 1023 of the directory in frame `directory` maps that same frame. */
  predicate SelfMapped(mem: PhysicalMemory, directory: nat)
  {
    Present(mem(directory, SELF_MAP_SLOT)) && FrameOf(mem(directory, SELF_MAP_SLOT)) == directory
  }

  /**
   * With the directory self-mapped, PDE_address(a) reaches the directory's own frame,
   * at the byte offset of entry a >> 22.
   */
  lemma SelfMapReachesDirectoryEntry(mem: PhysicalMemory, directory: nat, a: bv32)
    requires SelfMapped(mem, directory)
    ensures Translate(mem, directory, PDEAddress(a)) == Mapped(directory, (a >> 22) << 2)
  {
    RecursiveAddressesInSelfMapWindow(a);
    var r := PDEAddress(a);
    var e := mem(directory, SELF_MAP_SLOT);
    assert TableStep(mem, e, r) == PageStep(e, r);
  }

  /**
   * With the directory self-mapped, PTE_address(a) reaches, when a's directory entry is
   * present, the frame of a's page table at the byte offset of entry (a >> 12) & 0x3FF;
   * otherwise the walk faults.
   */
  lemma SelfMapReachesTableEntry(mem: PhysicalMemory, directory: nat, a: bv32)
    requires SelfMapped(mem, directory)
    ensures var pde := mem(directory, DirIndex(a));
      Translate(mem, directory, PTEAddress(a))
        == if Present(pde) then Mapped(FrameOf(pde), ((a >> 12) & 0x3FF) << 2) else PageFault
  {
    RecursiveAddressesInSelfMapWindow(a);
    var r := PTEAddress(a);
    assert TableStep(mem, mem(directory, SELF_MAP_SLOT), r) == PageStep(mem(directory, DirIndex(a)), r);
  }

  /** Entry i of the identity-mapping table: page i maps frame i. */
  function IdentityEntry(i: nat): (e: bv32)
    requires i < ENTRIES_PER_TABLE
    ensures Present(e) && e >> 12 == i as bv32
  {
    Entry(i as bv32, PRESENT_RW)
  }

  /** The identity-mapping table: page i maps frame i, present and writable. */
  function IdentityTable(): (t: seq<bv32>)
    ensures |t| == ENTRIES_PER_TABLE
    ensures forall i :: 0 <= i < |t| ==> Present(t[i]) && t[i] >> 12 == i as bv32
  {
    seq(ENTRIES_PER_TABLE, i requires 0 <= i < ENTRIES_PER_TABLE => IdentityEntry(i))
  }

  /** The constructors' first loop: a table whose entry i maps frame i. */
  method IdentityMapped() returns (table: array<bv32>)
    ensures fresh(table) && table[..] == IdentityTable()
  {
    table := new bv32[ENTRIES_PER_TABLE];
    for i := 0 to ENTRIES_PER_TABLE
      invariant forall k :: 0 <= k < i ==> table[k] == IdentityEntry(k)
    {
      table[i] := IdentityEntry(i);
    }
    assert table[..] == IdentityTable();
  }

  // ---------------------------------------------------------------------------
  // Single frames for tables and pages
  // ---------------------------------------------------------------------------

  /**
   * What get_frames(1) returns for a pool based at `base` whose frames are in states s:
   * its first Free frame, or 0 when none is Free.
   */
  function FirstFrame(s: seq<FrameState>, base: nat): (frame: nat)
    ensures FirstFit(s, 1, 0).Some? ==>
      base <= frame < base + |s| && s[frame - base] == Free
      && forall g :: 0 <= g < frame - base ==> s[g] != Free
    ensures FirstFit(s, 1, 0).None? ==> frame == 0 && forall g :: 0 <= g < |s| ==> s[g] != Free
  {
    OneFrameRuns(s);
    match FirstFit(s, 1, 0)
    case Some(f) => base + f
    case None => 0
  }

  /** A run of one frame is a Free frame. */
  lemma OneFrameRuns(s: seq<FrameState>)
    ensures forall g :: 0 <= g < |s| ==> (FreeRun(s, g, 1) <==> s[g] == Free)
  {
    forall g | 0 <= g < |s|
      ensures FreeRun(s, g, 1) <==> s[g] == Free
    {
      if s[g] == Free {
        assert forall i :: g <= i < g + 1 ==> s[i] == s[g];
      }
    }
  }

  /** The states after get_frames(1): the first Free frame becomes HoS; with none, nothing changes. */
  function TakeFirst(s: seq<FrameState>): (r: seq<FrameState>)
    ensures |r| == |s|
  {
    match FirstFit(s, 1, 0)
    case Some(f) => s[f := HoS]
    case None => s
  }

  /** How much get_frames(1) lowers the counter: 1 when it finds a frame, 0 otherwise. */
  function Taken(s: seq<FrameState>): nat
  {
    if FirstFit(s, 1, 0).Some? then 1 else 0
  }

  /**
   * get_frames(1) turns exactly the frame it returns from Free into HoS and keeps every
   * other frame; the number of Free frames drops by what it takes from the counter.
   */
  lemma TakeFirstEffect(s: seq<FrameState>, base: nat)
    ensures var r, f := TakeFirst(s), FirstFrame(s, base);
      && (Taken(s) == 1 ==> r[f - base] == HoS && s[f - base] == Free)
      && (forall i :: 0 <= i < |s| && (Taken(s) == 0 || i != f - base) ==> r[i] == s[i])
      && CountFree(r) + Taken(s) == CountFree(s)
  {
    if FirstFit(s, 1, 0).Some? {
      CountFreeUpdate(s, FirstFit(s, 1, 0).value, HoS);
    }
  }

  /**
   * While the counter agrees with the bitmap, two get_frames(1) calls on a pool with two
   * Free frames hand out two different frames of the pool, both Free before and HoS
   * after.
   */
  lemma TwoFramesDistinct(s: seq<FrameState>, base: nat)
    requires CountFree(s) >= 2
    ensures var mid := TakeFirst(s);
      var first, second := FirstFrame(s, base), FirstFrame(mid, base);
      && Taken(s) == 1 && Taken(mid) == 1 && first != second
      && base <= first < base + |s| && base <= second < base + |s|
      && s[first - base] == Free && s[second - base] == Free
      && TakeFirst(mid)[first - base] == HoS && TakeFirst(mid)[second - base] == HoS
  {
    var mid := TakeFirst(s);
    SomeFreeFrame(s);
    TakeFirstEffect(s, base);
    SomeFreeFrame(mid);
    TakeFirstEffect(mid, base);
  }

  /**
   * A pool whose every frame was fenced by mark_inaccessible has no Free frame although
   * its counter still says n: get_frames(1) passes its check, returns 0 and changes
   * nothing.
   */
  lemma FencedPoolGivesFrameZero(n: nat, base: nat)
    requires n >= 1
    ensures var s := Fill(InitialFrames(n, false), 0, n, Inaccessible);
      && CountFree(InitialFrames(n, false)) == n && CountFree(s) == 0
      && FirstFrame(s, base) == 0 && Taken(s) == 0 && TakeFirst(s) == s
  {
    var s := Fill(InitialFrames(n, false), 0, n, Inaccessible);
    InitialFramesCounted(n, false);
    CountFreeUniform(s);
  }

  /** What get_frames(1) returns on pool p. */
  ghost function NextFrame(p: ContFramePool): nat
    reads p, p.bitmap
    requires p.Valid()
  {
    FirstFrame(p.Frames(), p.baseFrameNo)
  }

  /**
   * A pool whose counter bounds its Free frames: what every pool keeps from its
   * construction on, also after mark_inaccessible.
   */
  ghost predicate Allocator(p: ContFramePool)
    reads p, p.bitmap
  {
    p.Valid() && p.CounterBounds()
  }

  /**
   * The effect of one get_frames(1) on pool p: its frames are those of TakeFirst, the
   * counter drops by what was taken, and the rest of the management frame is kept.
   */
  twostate predicate TookFirstFrame(p: ContFramePool)
    reads p, p.bitmap
    requires p.Valid()
  {
    && p.Frames() == TakeFirst(old(p.Frames()))
    && p.nFreeFrames == old(p.nFreeFrames) - Taken(old(p.Frames()))
    && p.Beyond() == old(p.Beyond())
  }

  /**
   * get_frames(1) on a pool whose counter lets it pass its check: the pool's first Free
   * frame, if any, becomes a one-frame run (HoS) and is returned; with no Free frame 0
   * is returned and nothing changes. A counter that agrees with the bitmap guarantees
   * a frame.
   */
  method GetFrame(p: ContFramePool) returns (frame: nat)
    requires Allocator(p) && p.nFreeFrames >= 1
    modifies p, p.bitmap
    ensures Allocator(p)
    ensures frame == FirstFrame(old(p.Frames()), p.baseFrameNo) && TookFirstFrame(p)
    ensures old(p.Counted()) ==> p.Counted() && Taken(old(p.Frames())) == 1
  {
    ghost var s := p.Frames();
    frame := p.GetFrames(1);
    if FirstFit(s, 1, 0).Some? {
      ghost var f := FirstFit(s, 1, 0).value;
      assert Allocated(s, f, 1) == s[f := HoS];
    }
    if old(p.Counted()) {
      SomeFreeFrame(s);
    }
  }
}
