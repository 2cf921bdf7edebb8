/**
 * VMPool::release and VMPool::allocate as the kernel writes them, on the whole
 * 512-entry region array, next to the corrected operations of VirtualMemory.VMPool.
 *
 * As written, release searches all 512 entries (not only the live ones), shifts the
 * later live entries down, then clears entry `count` (not `count - 1`) before
 * decrementing the count; allocate refuses only when more than 512 regions are live.
 */
module VmPoolAsWritten {
  import opened Wrappers
  import opened Paging
  import opened VirtualMemory

  /** What release(s) does to the region array: not found (fatal), or the new array and count and the region whose pages are freed. */
  datatype Release = NotFound | Released(regions: seq<Region>, count: nat, freed: Region)

  /**
   * release(s) as written, for an array with `count` live entries: the first of all 512
   * entries that starts at s is taken, the entries after it up to the last live one
   * move down one, entry `count` is cleared and the count drops by one.
   */
  function ReleaseAsWritten(m: seq<Region>, count: nat, s: nat): (r: Release)
    requires |m| == MAX_REGIONS && 1 <= count < MAX_REGIONS
    ensures r.NotFound? <==> forall i :: 0 <= i < MAX_REGIONS ==> m[i].start != s
    ensures r.Released? ==> |r.regions| == MAX_REGIONS && r.count == count - 1 && r.freed.start == s
  {
    match FindStart(m, s)
    case None => NotFound
    case Some(k) =>
      var shifted := if k < count - 1 then m[..k] + m[k + 1..count] + m[count - 1..] else m;
      Released(shifted[count := NO_REGION], count - 1, m[k])
  }

  /** The entry allocate writes as written: entry `count`, refused (fatal) only above 512. */
  function AllocateTargetAsWritten(count: nat): (r: Option<nat>)
    ensures r.Some? <==> count <= MAX_REGIONS
    ensures r.Some? ==> r.value == count
  {
    if count > MAX_REGIONS then None else Some(count)
  }

  const POOL_BASE: nat := 0x4000_0000

  /** Three live regions: the array's own page at the base and two one-page regions after it. */
  function ThreeRegions(): (m: seq<Region>)
    ensures |m| == MAX_REGIONS
  {
    [Region(POOL_BASE, PAGE_SIZE), Region(POOL_BASE + PAGE_SIZE, PAGE_SIZE), Region(POOL_BASE + 2 * PAGE_SIZE, PAGE_SIZE)]
      + seq(MAX_REGIONS - 3, _ => NO_REGION)
  }

  /**
   * Releasing the last region leaves its copy in entry 2, beyond the live ones; a second
   * release of the same start finds that copy, hands its page to free_page again and
   * drops the live region in entry 1. The corrected release finds nothing the second time.
   */
  lemma ReleaseTwiceAccepted()
    ensures var m := ThreeRegions();
      var last := Region(POOL_BASE + 2 * PAGE_SIZE, PAGE_SIZE);
      var first := ReleaseAsWritten(m, 3, last.start);
      && first.Released? && first.freed == last && first.count == 2
      && first.regions[2] == last
      && var second := ReleaseAsWritten(first.regions, first.count, last.start);
      && second == Released(m[2 := NO_REGION], 1, last)
      && second.regions[..second.count] == [m[0]]
      && FindStart(Removed(m[..3], 2), last.start) == None
  {
    var m := ThreeRegions();
    var last := Region(POOL_BASE + 2 * PAGE_SIZE, PAGE_SIZE);
    FindStartFirst(m, last.start, 2);
    var first := ReleaseAsWritten(m, 3, last.start);
    assert first.regions == m;
    assert m[2 := NO_REGION][..1] == [m[0]];
    assert Removed(m[..3], 2) == [m[0], m[1]];
  }

  /**
   * Releasing start address 0, which no live region has, matches the first unused entry
   * {0, 0}: nothing is freed but the count drops, so the last live region is lost. The
   * corrected release finds nothing (fatal in the kernel) and changes nothing.
   */
  lemma ReleaseOfUnusedEntry()
    ensures var m := ThreeRegions()[2 := NO_REGION];
      && ReleaseAsWritten(m, 2, 0) == Released(m, 1, NO_REGION)
      && FindStart(m[..2], 0) == None
  {
    var m := ThreeRegions()[2 := NO_REGION];
    FindStartFirst(m, 0, 2);
  }

  /** 512 live one-page regions laid end to end from the pool's base: every entry in use. */
  function FullRegions(): (m: seq<Region>)
    ensures |m| == MAX_REGIONS
  {
    seq(MAX_REGIONS, (i: nat) => Region(POOL_BASE + i * PAGE_SIZE, PAGE_SIZE))
  }

  /**
   * A well-formed pool with all 512 entries live: allocate as written does not refuse
   * and writes the entry whose index is the array's length, one past its end.
   */
  lemma AllocatePastTheArray()
    ensures Arranged(FullRegions(), MAX_REGIONS)
    ensures AllocateTargetAsWritten(MAX_REGIONS) == Some(|FullRegions()|)
  {
    var m := FullRegions();
    forall i, j | 0 <= i < j < |m|
      ensures End(m[i]) <= m[j].start
    {
      assert End(m[i]) == POOL_BASE + (i + 1) * PAGE_SIZE;
    }
  }
}
