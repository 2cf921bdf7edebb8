/**
 * The contiguous frame allocator of the kernel (class ContFramePool).
 *
 * A pool owns the physical frames [baseFrameNo, baseFrameNo + nFrames). The state of
 * each frame is kept in two bits of a bitmap that fills one management frame: frame f
 * lives in byte f / 4, at bits 2 * (f % 4) (the low bit) and 2 * (f % 4) + 1 (the high
 * bit). Every constructed pool appends itself to a process-wide list, which
 * release_frames scans to find the pool that owns a frame.
 */
module FramePool {
  import opened Wrappers

  /** Bytes per frame. */
  const FRAME_SIZE: nat := 4096
  /** Frames whose state fits in one management frame: four per byte ("16 K"). */
  const FRAMES_PER_INFO_FRAME: nat := 16 * 1024

  datatype FrameState = Free | Used | HoS | Inaccessible

  /** The mask 0x1 << (slot * 2): the low bit of slot `slot` (0 .. 3) of a bitmap byte. */
  function LowMask(slot: nat): bv8
    requires slot < 4
  {
    if slot == 0 then 0x01 else if slot == 1 then 0x04 else if slot == 2 then 0x10 else 0x40
  }

  /** The low mask shifted left by one: the high bit of the slot. */
  function HighMask(slot: nat): bv8
    requires slot < 4
  {
    if slot == 0 then 0x02 else if slot == 1 then 0x08 else if slot == 2 then 0x20 else 0x80
  }

  /** The decoding of get_state: high/low bits 11 Free, 10 Used, 01 HoS, 00 Inaccessible. */
  function Decode(low: bool, high: bool): FrameState
  {
    if !low then (if !high then Inaccessible else Used) else (if !high then HoS else Free)
  }

  /** get_state on one bitmap byte. */
  function StateOf(b: bv8, slot: nat): FrameState
    requires slot < 4
  {
    Decode(b & LowMask(slot) != 0, b & HighMask(slot) != 0)
  }

  /**
   * set_state on one bitmap byte: Free ORs both bits in, Inaccessible clears both,
   * Used flips the low bit and HoS flips the high bit.
   */
  function SetBits(b: bv8, slot: nat, s: FrameState): bv8
    requires slot < 4
  {
    var lo, hi := LowMask(slot), HighMask(slot);
    match s
    case Free => b | (lo | hi)
    case Used => b ^ lo
    case HoS => b ^ hi
    case Inaccessible => b & !(lo | hi)
  }

  /**
   * What set_state achieves: Free and Inaccessible are written whatever the slot held;
   * Used and HoS, written by flipping one bit, give the intended state exactly when the
   * slot was Free. The other three slots of the byte never change.
   */
  lemma SetBitsSpec(b: bv8, slot: nat, s: FrameState)
    requires slot < 4
    ensures var r := SetBits(b, slot, s);
      && (s == Free || s == Inaccessible ==> StateOf(r, slot) == s)
      && (s == Used ==> (StateOf(r, slot) == Used <==> StateOf(b, slot) == Free))
      && (s == HoS ==> (StateOf(r, slot) == HoS <==> StateOf(b, slot) == Free))
      && (forall j :: 0 <= j < 4 && j != slot ==> StateOf(r, j) == StateOf(b, j))
  {
    match s
    case Free => SetFree(b, slot);
    case Used => SetUsed(b, slot);
    case HoS => SetHoS(b, slot);
    case Inaccessible => SetInaccessible(b, slot);
  }

  lemma SetFree(b: bv8, slot: nat)
    requires slot < 4
    ensures var r := b | (LowMask(slot) | HighMask(slot));
      StateOf(r, slot) == Free && forall j :: 0 <= j < 4 && j != slot ==> StateOf(r, j) == StateOf(b, j)
  {
    FreeBits(b, slot);
    OthersKept(b, b | (LowMask(slot) | HighMask(slot)), slot);
  }

  lemma SetUsed(b: bv8, slot: nat)
    requires slot < 4
    ensures var r := b ^ LowMask(slot);
      (StateOf(r, slot) == Used <==> StateOf(b, slot) == Free)
      && forall j :: 0 <= j < 4 && j != slot ==> StateOf(r, j) == StateOf(b, j)
  {
    UsedBits(b, slot);
    OthersKept(b, b ^ LowMask(slot), slot);
  }

  lemma SetHoS(b: bv8, slot: nat)
    requires slot < 4
    ensures var r := b ^ HighMask(slot);
      (StateOf(r, slot) == HoS <==> StateOf(b, slot) == Free)
      && forall j :: 0 <= j < 4 && j != slot ==> StateOf(r, j) == StateOf(b, j)
  {
    HoSBits(b, slot);
    OthersKept(b, b ^ HighMask(slot), slot);
  }

  lemma SetInaccessible(b: bv8, slot: nat)
    requires slot < 4
    ensures var r := b & !(LowMask(slot) | HighMask(slot));
      StateOf(r, slot) == Inaccessible && forall j :: 0 <= j < 4 && j != slot ==> StateOf(r, j) == StateOf(b, j)
  {
    InaccessibleBits(b, slot);
    OthersKept(b, b & !(LowMask(slot) | HighMask(slot)), slot);
  }

  /** A byte that differs from b only inside the bits of `slot` decodes like b elsewhere. */
  lemma OthersKept(b: bv8, r: bv8, slot: nat)
    requires slot < 4
    requires (b ^ r) & !(LowMask(slot) | HighMask(slot)) == 0
    ensures forall j :: 0 <= j < 4 && j != slot ==> StateOf(r, j) == StateOf(b, j)
  {
    forall j | 0 <= j < 4 && j != slot
      ensures StateOf(r, j) == StateOf(b, j)
    {
      OtherBitsKept(b, r, slot, j);
    }
  }

  // The bit-level facts behind each write, kept apart from the decoding.

  lemma FreeBits(b: bv8, slot: nat)
    requires slot < 4
    ensures var lo, hi := LowMask(slot), HighMask(slot); var r := b | (lo | hi);
      r & lo != 0 && r & hi != 0 && (b ^ r) & !(lo | hi) == 0
  {
    MaskPair(slot);
  }

  lemma UsedBits(b: bv8, slot: nat)
    requires slot < 4
    ensures var lo, hi := LowMask(slot), HighMask(slot); var r := b ^ lo;
      (r & lo != 0) == (b & lo == 0) && (r & hi != 0) == (b & hi != 0) && (b ^ r) & !(lo | hi) == 0
  {
    MaskPair(slot);
  }

  lemma HoSBits(b: bv8, slot: nat)
    requires slot < 4
    ensures var lo, hi := LowMask(slot), HighMask(slot); var r := b ^ hi;
      (r & lo != 0) == (b & lo != 0) && (r & hi != 0) == (b & hi == 0) && (b ^ r) & !(lo | hi) == 0
  {
    MaskPair(slot);
  }

  lemma InaccessibleBits(b: bv8, slot: nat)
    requires slot < 4
    ensures var lo, hi := LowMask(slot), HighMask(slot); var r := b & !(lo | hi);
      r & lo == 0 && r & hi == 0 && (b ^ r) & !(lo | hi) == 0
  {
    MaskPair(slot);
  }

  lemma MaskPair(slot: nat)
    requires slot < 4
    ensures var lo, hi := LowMask(slot), HighMask(slot);
      (lo == 1 && hi == 2) || (lo == 4 && hi == 8) || (lo == 16 && hi == 32) || (lo == 64 && hi == 128)
  {
  }

  lemma OtherBitsKept(b: bv8, r: bv8, slot: nat, j: nat)
    requires slot < 4 && j < 4 && j != slot
    requires (b ^ r) & !(LowMask(slot) | HighMask(slot)) == 0
    ensures r & LowMask(j) == b & LowMask(j) && r & HighMask(j) == b & HighMask(j)
  {
    DisjointMasks(slot, j);
    SlotKept(b, r, LowMask(slot) | HighMask(slot), LowMask(j), HighMask(j));
  }

  lemma DisjointMasks(slot: nat, j: nat)
    requires slot < 4 && j < 4 && slot != j
    ensures LowMask(j) & (LowMask(slot) | HighMask(slot)) == 0
    ensures HighMask(j) & (LowMask(slot) | HighMask(slot)) == 0
  {
  }

  lemma SlotKept(b: bv8, r: bv8, touched: bv8, lo: bv8, hi: bv8)
    requires (b ^ r) & !touched == 0
    requires lo & touched == 0 && hi & touched == 0
    ensures r & lo == b & lo && r & hi == b & hi
  {
  }

  /** The state of frame (slot) f of a bitmap: byte f / 4, slot f % 4. */
  function StateAt(bits: seq<bv8>, f: nat): FrameState
    requires f < 4 * |bits|
  {
    StateOf(bits[f / 4], f % 4)
  }

  /** The decoded states of slots lo .. hi - 1 of a bitmap. */
  function View(bits: seq<bv8>, lo: nat, hi: nat): (v: seq<FrameState>)
    requires lo <= hi <= 4 * |bits|
    ensures |v| == hi - lo
  {
    seq(hi - lo, i requires 0 <= i < hi - lo => StateAt(bits, lo + i))
  }

  /** Writing one slot with set_state changes the decoded view at that slot only. */
  lemma ViewAfterSet(bits: seq<bv8>, f: nat, s: FrameState, lo: nat, hi: nat)
    requires f < 4 * |bits| && lo <= hi <= 4 * |bits|
    requires s == Used || s == HoS ==> StateAt(bits, f) == Free
    ensures View(bits[f / 4 := SetBits(bits[f / 4], f % 4, s)], lo, hi)
         == if lo <= f < hi then View(bits, lo, hi)[f - lo := s] else View(bits, lo, hi)
  {
    var bits' := bits[f / 4 := SetBits(bits[f / 4], f % 4, s)];
    forall i | lo <= i < hi
      ensures StateAt(bits', i) == if i == f then s else StateAt(bits, i)
    {
      SetBitsSpec(bits[f / 4], f % 4, s);
      if i / 4 == f / 4 && i != f {
        assert i % 4 != f % 4;
      }
    }
  }

  // ---------------------------------------------------------------------------
  // Specification of the allocator over the sequence of frame states
  // ---------------------------------------------------------------------------

  /** Number of Free frames; the pool's nFreeFrames is meant to track it. */
  function CountFree(s: seq<FrameState>): (c: nat)
    ensures c <= |s|
  {
    if s == [] then 0 else (if s[0] == Free then 1 else 0) + CountFree(s[1..])
  }

  /** Frames f .. f + n - 1 exist and are all Free; a run has at least one frame. */
  predicate FreeRun(s: seq<FrameState>, f: nat, n: nat)
  {
    1 <= n && f + n <= |s| && forall i :: f <= i < f + n ==> s[i] == Free
  }

  /** First fit: the lowest start at or after `from` of a run of n Free frames. */
  function FirstFit(s: seq<FrameState>, n: nat, from: nat): (r: Option<nat>)
    requires from <= |s|
    ensures r.Some? ==> from <= r.value && FreeRun(s, r.value, n)
    ensures r.Some? ==> forall g :: from <= g < r.value ==> !FreeRun(s, g, n)
    ensures r.None? ==> forall g :: from <= g ==> !FreeRun(s, g, n)
    decreases |s| - from
  {
    if from == |s| then None
    else if FreeRun(s, from, n) then Some(from)
    else FirstFit(s, n, from + 1)
  }

  /** A run with no run before it is the one first fit finds. */
  lemma FirstFitIsLeast(s: seq<FrameState>, n: nat, f: nat)
    requires FreeRun(s, f, n) && forall g: nat :: g < f ==> !FreeRun(s, g, n)
    ensures FirstFit(s, n, 0) == Some(f)
  {
    var r := FirstFit(s, n, 0);
    if r.Some? {
      assert !(r.value < f) && !(f < r.value);
    }
  }

  /** Frames lo .. hi - 1 overwritten with v, every other frame kept. */
  function Fill(s: seq<FrameState>, lo: nat, hi: nat, v: FrameState): (r: seq<FrameState>)
    ensures |r| == |s|
  {
    seq(|s|, i requires 0 <= i < |s| => if lo <= i < hi then v else s[i])
  }

  /** Slot x counted from slot k on: its index past k, or 0 when x falls at or before k. */
  function Past(x: nat, k: nat): (r: nat)
    ensures x <= k ==> r == 0
    ensures k <= x ==> r + k == x
  {
    if x <= k then 0 else x - k
  }

  /** A run of n frames taken at f: f becomes HoS, f + 1 .. f + n - 1 become Used. */
  function Allocated(s: seq<FrameState>, f: nat, n: nat): (r: seq<FrameState>)
    ensures |r| == |s|
    ensures FreeRun(s, f, n) ==> forall i :: 0 <= i < |s| && s[i] != Free ==> r[i] == s[i]
  {
    seq(|s|, i requires 0 <= i < |s| => if i == f then HoS else if f < i < f + n then Used else s[i])
  }

  /** End of the run that release_frames frees: the first frame at or after j that is not Used. */
  function RunEnd(s: seq<FrameState>, j: nat): (e: nat)
    requires j <= |s|
    ensures j <= e <= |s|
    ensures forall i :: j <= i < e ==> s[i] == Used
    ensures e < |s| ==> s[e] != Used
    decreases |s| - j
  {
    if j == |s| || s[j] != Used then j else RunEnd(s, j + 1)
  }

  /** The frames after release_frames of the run whose head is h. */
  function Released(s: seq<FrameState>, h: nat): (r: seq<FrameState>)
    requires h < |s|
    ensures |r| == |s| && r[h] == Free
    ensures forall i :: 0 <= i < |s| && i != h && s[i] != Used ==> r[i] == s[i]
  {
    Fill(s, h, RunEnd(s, h + 1), Free)
  }

  /** Every Used frame continues a run: the frame before it is HoS or Used. */
  ghost predicate WellFormed(s: seq<FrameState>)
  {
    forall i :: 0 <= i < |s| && s[i] == Used ==> 0 < i && (s[i - 1] == HoS || s[i - 1] == Used)
  }

  lemma {:induction false} CountFreeUniform(t: seq<FrameState>)
    ensures (forall i :: 0 <= i < |t| ==> t[i] == Free) ==> CountFree(t) == |t|
    ensures (forall i :: 0 <= i < |t| ==> t[i] != Free) ==> CountFree(t) == 0
  {
    if t != [] {
      CountFreeUniform(t[1..]);
    }
  }

  /** Rewriting one frame moves the Free count by what that frame was and becomes. */
  lemma {:induction false} CountFreeUpdate(s: seq<FrameState>, i: nat, v: FrameState)
    requires i < |s|
    ensures CountFree(s[i := v]) == CountFree(s) - (if s[i] == Free then 1 else 0) + (if v == Free then 1 else 0)
  {
    if i == 0 {
      assert s[i := v][1..] == s[1..];
    } else {
      assert s[i := v][1..] == s[1..][i - 1 := v];
      CountFreeUpdate(s[1..], i - 1, v);
    }
  }

  /** Taking a free run of n frames lowers the number of Free frames by exactly n. */
  lemma CountAllocated(s: seq<FrameState>, f: nat, n: nat)
    requires FreeRun(s, f, n)
    ensures CountFree(Allocated(s, f, n)) + n == CountFree(s)
  {
    CountAllocatedPrefix(s, f, n, n);
  }

  lemma {:induction false} CountAllocatedPrefix(s: seq<FrameState>, f: nat, n: nat, k: nat)
    requires FreeRun(s, f, n) && 1 <= k <= n
    ensures CountFree(Allocated(s, f, k)) + k == CountFree(s)
    decreases k
  {
    if k == 1 {
      assert Allocated(s, f, 1) == s[f := HoS];
      CountFreeUpdate(s, f, HoS);
    } else {
      CountAllocatedPrefix(s, f, n, k - 1);
      var before := Allocated(s, f, k - 1);
      assert Allocated(s, f, k) == before[f + k - 1 := Used];
      CountFreeUpdate(before, f + k - 1, Used);
    }
  }

  /** Releasing the run headed by h raises the number of Free frames by the run's length. */
  lemma CountReleased(s: seq<FrameState>, h: nat)
    requires h < |s| && s[h] == HoS
    ensures CountFree(Released(s, h)) == CountFree(s) + (RunEnd(s, h + 1) - h)
  {
    CountFilledRun(s, h, RunEnd(s, h + 1));
  }

  lemma {:induction false} CountFilledRun(s: seq<FrameState>, h: nat, j: nat)
    requires h < |s| && s[h] == HoS && h < j <= RunEnd(s, h + 1)
    ensures CountFree(Fill(s, h, j, Free)) == CountFree(s) + (j - h)
    decreases j
  {
    if j == h + 1 {
      assert Fill(s, h, j, Free) == s[h := Free];
      CountFreeUpdate(s, h, Free);
    } else {
      CountFilledRun(s, h, j - 1);
      var before := Fill(s, h, j - 1, Free);
      assert Fill(s, h, j, Free) == before[j - 1 := Free];
      CountFreeUpdate(before, j - 1, Free);
    }
  }

  /** The run end seen from j does not depend on frames before j. */
  lemma {:induction false} RunEndAfter(s: seq<FrameState>, h: nat, v: FrameState, j: nat)
    requires h < j <= |s|
    ensures RunEnd(s[h := v], j) == RunEnd(s, j)
    decreases |s| - j
  {
    if j < |s| && s[j] == Used {
      RunEndAfter(s, h, v, j + 1);
    }
  }

  /** Allocation keeps every Used frame attached to a run. */
  lemma AllocatedWellFormed(s: seq<FrameState>, f: nat, n: nat)
    requires WellFormed(s) && FreeRun(s, f, n)
    ensures WellFormed(Allocated(s, f, n))
  {
    var a := Allocated(s, f, n);
    forall i | 0 <= i < |a| && a[i] == Used
      ensures 0 < i && (a[i - 1] == HoS || a[i - 1] == Used)
    {
    }
  }

  /** Release keeps every Used frame attached to a run: the frame after the run is not Used. */
  lemma ReleasedWellFormed(s: seq<FrameState>, h: nat)
    requires WellFormed(s) && h < |s| && s[h] == HoS
    ensures WellFormed(Released(s, h))
  {
  }

  /**
   * The allocate/release round trip: releasing the run that get_frames just took restores
   * the frames exactly, provided no Used frame stood detached from a run beforehand.
   */
  lemma ReleaseUndoesAllocate(s: seq<FrameState>, f: nat, n: nat)
    requires WellFormed(s) && FreeRun(s, f, n)
    ensures Released(Allocated(s, f, n), f) == s
  {
    var a := Allocated(s, f, n);
    assert f + n < |s| ==> s[f + n - 1] == Free;
    RunEndOfAllocated(s, f, n, f + 1);
  }

  lemma {:induction false} RunEndOfAllocated(s: seq<FrameState>, f: nat, n: nat, j: nat)
    requires FreeRun(s, f, n) && f < j <= f + n
    requires f + n < |s| ==> s[f + n] != Used
    ensures RunEnd(Allocated(s, f, n), j) == f + n
    decreases f + n - j
  {
    if j < f + n {
      RunEndOfAllocated(s, f, n, j + 1);
    }
  }

  /** A pool whose Free count is positive has a run of one Free frame. */
  lemma {:induction false} SomeFreeFrame(s: seq<FrameState>)
    requires CountFree(s) >= 1
    ensures FirstFit(s, 1, 0).Some?
  {
    if s[0] != Free {
      SomeFreeFrame(s[1..]);
      var g := FirstFit(s[1..], 1, 0).value;
      assert FreeRun(s, g + 1, 1);
    } else {
      assert FreeRun(s, 0, 1);
    }
  }

  /**
   * Fencing frames never raises the number of Free frames, and lowers it when a Free
   * frame is fenced: mark_inaccessible, which leaves the counter as it is, then leaves
   * the counter above the bitmap's count.
   */
  lemma FencingLowersFreeCount(s: seq<FrameState>, lo: nat, hi: nat)
    ensures CountFree(Fill(s, lo, hi, Inaccessible)) <= CountFree(s)
    ensures (exists i :: lo <= i < hi && i < |s| && s[i] == Free) ==>
      CountFree(Fill(s, lo, hi, Inaccessible)) < CountFree(s)
  {
    CountFenced(s, lo, hi);
    if i :| lo <= i < hi && i < |s| && s[i] == Free {
      var u := s[i := Inaccessible];
      CountFreeUpdate(s, i, Inaccessible);
      CountFenced(u, lo, hi);
      assert Fill(u, lo, hi, Inaccessible) == Fill(s, lo, hi, Inaccessible);
    }
  }

  lemma {:induction false} CountFenced(s: seq<FrameState>, lo: nat, hi: nat)
    ensures CountFree(Fill(s, lo, hi, Inaccessible)) <= CountFree(s)
    decreases hi
  {
    var t := Fill(s, lo, hi, Inaccessible);
    if hi <= lo || lo >= |s| {
      assert t == s;
    } else if hi > |s| {
      assert t == Fill(s, lo, |s|, Inaccessible);
      CountFenced(s, lo, |s|);
    } else {
      var u := Fill(s, lo, hi - 1, Inaccessible);
      assert t == u[hi - 1 := Inaccessible];
      CountFenced(s, lo, hi - 1);
      CountFreeUpdate(u, hi - 1, Inaccessible);
    }
  }

  /** Fenced (Inaccessible) frames are never part of the run that first fit chooses. */
  lemma FencedFramesNeverChosen(s: seq<FrameState>, lo: nat, hi: nat, n: nat)
    requires lo < hi
    ensures var t := Fill(s, lo, hi, Inaccessible);
      FirstFit(t, n, 0).Some? ==> FirstFit(t, n, 0).value + n <= lo || hi <= FirstFit(t, n, 0).value
  {
    var t := Fill(s, lo, hi, Inaccessible);
    if FirstFit(t, n, 0).Some? {
      var f := FirstFit(t, n, 0).value;
      var i := if f < lo then lo else f;
      assert lo <= i < hi && i < |s| ==> t[i] == Inaccessible;
    }
  }

  /** Release never turns a fenced frame back into a Free one. */
  lemma FencedFramesNeverReleased(s: seq<FrameState>, lo: nat, hi: nat, h: nat)
    requires h < |s|
    ensures var t := Fill(s, lo, hi, Inaccessible);
      t[h] == HoS ==> forall i :: lo <= i < hi && i < |s| ==> Released(t, h)[i] == Inaccessible
  {
  }

  /**
   * The frames of a new pool: all Free, except frame 0 when it holds the pool's own
   * bitmap, which is marked HoS.
   */
  function InitialFrames(n: nat, infoInPool: bool): (s: seq<FrameState>)
    ensures |s| == n
  {
    seq(n, i requires 0 <= i < n => if i == 0 && infoInPool then HoS else Free)
  }

  lemma InitialFramesCounted(n: nat, infoInPool: bool)
    requires infoInPool ==> n >= 1
    ensures CountFree(InitialFrames(n, infoInPool)) == if infoInPool then n - 1 else n
    ensures WellFormed(InitialFrames(n, infoInPool))
  {
    var s := InitialFrames(n, infoInPool);
    if infoInPool {
      assert s == [HoS] + s[1..];
      CountFreeUniform(s[1..]);
    } else {
      CountFreeUniform(s);
    }
  }

  /** needed_info_frames: the management frames needed for n frames, ceil(n / 16 K). */
  function NeededInfoFrames(n: nat): (r: nat)
    ensures r * FRAMES_PER_INFO_FRAME >= n
    ensures r > 0 ==> (r - 1) * FRAMES_PER_INFO_FRAME < n
  {
    n / FRAMES_PER_INFO_FRAME + (if n % FRAMES_PER_INFO_FRAME > 0 then 1 else 0)
  }

  lemma NeededInfoFramesMonotone(a: nat, b: nat)
    requires a <= b
    ensures NeededInfoFrames(a) <= NeededInfoFrames(b)
  {
  }

  lemma NeededInfoFramesSmall(n: nat)
    ensures n == 0 ==> NeededInfoFrames(n) == 0
    ensures 1 <= n <= FRAMES_PER_INFO_FRAME ==> NeededInfoFrames(n) == 1
  {
  }

  // ---------------------------------------------------------------------------
  // The pool
  // ---------------------------------------------------------------------------

  datatype ReleaseOutcome = FramesReleased | NotHeadOfSequence | NoOwningPool

  class ContFramePool {
    const baseFrameNo: nat
    const nFrames: nat
    const infoFrameNo: nat
    /** The management frame holding the bitmap (4096 bytes, 16 K slots). */
    const bitmap: array<bv8>
    var nFreeFrames: nat

    ghost predicate Valid()
    {
      bitmap.Length == FRAME_SIZE && nFrames * 2 <= FRAME_SIZE * 8
    }

    /** States of the pool's own frames. */
    ghost function Frames(): seq<FrameState>
      reads bitmap
      requires Valid()
    {
      View(bitmap[..], 0, nFrames)
    }

    /** The remaining slots of the management frame, which no frame of the pool uses. */
    ghost function Beyond(): seq<FrameState>
      reads bitmap
      requires Valid()
    {
      View(bitmap[..], nFrames, 4 * bitmap.Length)
    }

    /** The counter agrees with the bitmap. */
    ghost predicate Counted()
      reads this, bitmap
      requires Valid()
    {
      nFreeFrames == CountFree(Frames())
    }

    /**
     * The counter is at least the number of Free frames. The constructor makes the two
     * equal; mark_inaccessible fences Free frames without lowering the counter, so after
     * it only this bound is left, and allocation and release keep it.
     */
    ghost predicate CounterBounds()
      reads this, bitmap
      requires Valid()
    {
      CountFree(Frames()) <= nFreeFrames
    }

    constructor (base: nat, n: nat, info: nat, raw: seq<bv8>, registry: FramePoolList)
      requires n * 2 <= FRAME_SIZE * 8
      requires info == 0 ==> n >= 1
      requires |raw| == FRAME_SIZE
      modifies registry
      ensures Valid() && fresh(bitmap)
      ensures baseFrameNo == base && nFrames == n && infoFrameNo == info
      ensures Frames() == InitialFrames(n, info == 0)
      ensures Beyond() == View(raw, n, 4 * FRAME_SIZE)
      ensures nFreeFrames == if info == 0 then n - 1 else n
      ensures Counted() && WellFormed(Frames())
      ensures registry.pools == old(registry.pools) + [this]
      ensures old(registry.Valid()) ==> registry.Valid()
    {
      baseFrameNo := base;
      nFrames := n;
      nFreeFrames := n;
      infoFrameNo := info;
      bitmap := new bv8[FRAME_SIZE](i requires 0 <= i < FRAME_SIZE => raw[i]);
      new;
      assert bitmap[..] == raw;
      MarkAllFree();
      if infoFrameNo == 0 {
        SetState(0, HoS);
        nFreeFrames := nFreeFrames - 1;
      }
      assert Frames() == InitialFrames(n, info == 0);
      InitialFramesCounted(n, info == 0);
      registry.pools := registry.pools + [this];
    }

    /** The constructor's first loop: every frame of the pool becomes Free. */
    method MarkAllFree()
      requires Valid()
      modifies bitmap
      ensures Frames() == Fill(old(Frames()), 0, nFrames, Free)
      ensures Beyond() == old(Beyond())
    {
      var frame := 0;
      while frame < nFrames
        invariant frame <= nFrames
        invariant Frames() == Fill(old(Frames()), 0, frame, Free)
        invariant Beyond() == old(Beyond())
      {
        SetState(frame, Free);
        frame := frame + 1;
      }
    }

    /** get_state, for a frame of the pool. */
    function GetState(f: nat): (st: FrameState)
      reads bitmap
      requires Valid() && f < nFrames
      ensures st == Frames()[f]
    {
      StateOf(bitmap[f / 4], f % 4)
    }

    /**
     * set_state: rewrites the two bits of slot f and nothing else. The slot is one of the
     * pool's frames, or (set_state does not check) one of the slots past them.
     */
    method SetState(f: nat, s: FrameState)
      requires Valid() && f < 4 * bitmap.Length
      requires s == Used || s == HoS ==> f < nFrames && Frames()[f] == Free
      modifies bitmap
      ensures f < nFrames ==> Frames() == old(Frames())[f := s] && Beyond() == old(Beyond())
      ensures nFrames <= f ==> Frames() == old(Frames()) && Beyond() == old(Beyond())[f - nFrames := s]
    {
      ghost var bits := bitmap[..];
      bitmap[f / 4] := SetBits(bitmap[f / 4], f % 4, s);
      assert bitmap[..] == bits[f / 4 := SetBits(bits[f / 4], f % 4, s)];
      ViewAfterSet(bits, f, s, 0, nFrames);
      ViewAfterSet(bits, f, s, nFrames, 4 * bitmap.Length);
    }

    /**
     * The search of get_frames: for each Free frame, count the Free frames that follow it
     * (stopping at n or at the first non-Free frame); the first frame whose count reaches
     * n starts the run. Nothing is changed.
     */
    method FindRun(n: nat) returns (run: Option<nat>)
      requires Valid()
      ensures run == FirstFit(Frames(), n, 0)
    {
      ghost var s := Frames();
      var frameNo := 0;
      while frameNo < nFrames
        invariant frameNo <= nFrames
        invariant forall g: nat :: g < frameNo ==> !FreeRun(s, g, n)
      {
        if GetState(frameNo) == Free {
          var right := frameNo + 1;
          var count := 1;
          while right < nFrames && count < n
            invariant frameNo < right <= nFrames && count == right - frameNo
            invariant count <= n || n == 0
            invariant forall i :: frameNo <= i < right ==> s[i] == Free
          {
            if GetState(right) == Free {
              count := count + 1;
              right := right + 1;
            } else {
              assert !FreeRun(s, frameNo, n);
              break;
            }
          }
          if count == n {
            assert FreeRun(s, frameNo, n);
            FirstFitIsLeast(s, n, frameNo);
            return Some(frameNo);
          }
          assert !FreeRun(s, frameNo, n);
        }
        frameNo := frameNo + 1;
      }
      return None;
    }

    /**
     * get_frames: first fit for n consecutive Free frames. On success the run's first
     * frame becomes HoS, the rest Used, and the absolute number of the first frame is
     * returned; otherwise 0 is returned and nothing changes.
     */
    method GetFrames(n: nat) returns (r: nat)
      requires Valid() && n <= nFreeFrames
      modifies this, bitmap
      ensures Beyond() == old(Beyond())
      ensures match FirstFit(old(Frames()), n, 0)
        case Some(f) =>
          r == baseFrameNo + f && Frames() == Allocated(old(Frames()), f, n)
          && nFreeFrames == old(nFreeFrames) - n
        case None =>
          r == 0 && Frames() == old(Frames()) && nFreeFrames == old(nFreeFrames)
      ensures old(Counted()) ==> Counted()
      ensures old(CounterBounds()) ==> CounterBounds()
      ensures old(WellFormed(Frames())) ==> WellFormed(Frames())
    {
      var run := FindRun(n);
      if run.Some? {
        TakeRun(run.value, n);
        r := run.value + baseFrameNo;
      } else {
        r := 0;
      }
    }

    /**
     * The allocation half of get_frames: the Free run at `first` becomes one HoS frame
     * followed by n - 1 Used frames, and nFreeFrames drops by n.
     */
    method TakeRun(first: nat, n: nat)
      requires Valid() && FreeRun(Frames(), first, n) && n <= nFreeFrames
      modifies this, bitmap
      ensures Beyond() == old(Beyond())
      ensures Frames() == Allocated(old(Frames()), first, n)
      ensures nFreeFrames == old(nFreeFrames) - n
      ensures old(Counted()) ==> Counted()
      ensures old(CounterBounds()) ==> CounterBounds()
      ensures old(WellFormed(Frames())) ==> WellFormed(Frames())
    {
      ghost var s := Frames();
      SetState(first, HoS);
      nFreeFrames := nFreeFrames - 1;
      var toAllocate: nat := n - 1;
      var frame := first + 1;
      while toAllocate > 0
        invariant frame + toAllocate == first + n
        invariant Frames() == Allocated(s, first, frame - first)
        invariant Beyond() == old(Beyond())
        invariant nFreeFrames == old(nFreeFrames) - (frame - first)
      {
        SetState(frame, Used);
        frame := frame + 1;
        toAllocate := toAllocate - 1;
        nFreeFrames := nFreeFrames - 1;
      }
      CountAllocated(s, first, n);
      if WellFormed(s) {
        AllocatedWellFormed(s, first, n);
      }
    }

    /**
     * mark_inaccessible: fences slots b .. b + n - 1 (absolute frame numbers) whatever
     * their state was. Nothing checks that the range lies inside the pool: slots past
     * its last frame, in the rest of the management frame, are fenced too. The counter
     * nFreeFrames is left as it was, so it no longer agrees with the bitmap once a Free
     * frame is fenced (FencingLowersFreeCount); it still bounds the number of Free frames.
     */
    method MarkInaccessible(b: nat, n: nat)
      requires Valid() && baseFrameNo <= b && b + n <= baseFrameNo + 4 * FRAME_SIZE
      modifies bitmap
      ensures Frames() == Fill(old(Frames()), b - baseFrameNo, b - baseFrameNo + n, Inaccessible)
      ensures Beyond() == Fill(old(Beyond()), Past(b - baseFrameNo, nFrames), Past(b - baseFrameNo + n, nFrames), Inaccessible)
      ensures nFreeFrames == old(nFreeFrames)
      ensures old(CounterBounds()) ==> CounterBounds()
    {
      ghost var s := Frames();
      ghost var t := Beyond();
      var frameNo := b;
      while frameNo < b + n
        invariant b <= frameNo <= b + n
        invariant Frames() == Fill(s, b - baseFrameNo, frameNo - baseFrameNo, Inaccessible)
        invariant Beyond() == Fill(t, Past(b - baseFrameNo, nFrames), Past(frameNo - baseFrameNo, nFrames), Inaccessible)
        invariant CountFree(Frames()) <= CountFree(s)
      {
        FenceSlot(s, t, b - baseFrameNo, frameNo - baseFrameNo);
        frameNo := frameNo + 1;
      }
    }

    /** One turn of mark_inaccessible's loop: slot f, the next after lo .. f - 1, is fenced. */
    method FenceSlot(ghost s: seq<FrameState>, ghost t: seq<FrameState>, lo: nat, f: nat)
      requires Valid() && lo <= f < 4 * bitmap.Length && |s| == nFrames
      requires Frames() == Fill(s, lo, f, Inaccessible)
      requires Beyond() == Fill(t, Past(lo, nFrames), Past(f, nFrames), Inaccessible)
      requires CountFree(Frames()) <= CountFree(s)
      modifies bitmap
      ensures Frames() == Fill(s, lo, f + 1, Inaccessible)
      ensures Beyond() == Fill(t, Past(lo, nFrames), Past(f + 1, nFrames), Inaccessible)
      ensures CountFree(Frames()) <= CountFree(s)
    {
      if f < nFrames {
        CountFreeUpdate(Frames(), f, Inaccessible);
      }
      SetState(f, Inaccessible);
    }

    /**
     * The walk of release_frames: from frame `from` on, every Used frame becomes Free,
     * until the first frame that is not Used or the end of the pool.
     */
    method FreeFollowers(from: nat)
      requires Valid() && from <= nFrames
      modifies this, bitmap
      ensures Frames() == Fill(old(Frames()), from, RunEnd(old(Frames()), from), Free)
      ensures nFreeFrames == old(nFreeFrames) + (RunEnd(old(Frames()), from) - from)
      ensures Beyond() == old(Beyond())
    {
      ghost var s := Frames();
      var frameNo := from;
      while frameNo < nFrames && GetState(frameNo) == Used
        invariant from <= frameNo <= nFrames
        invariant RunEnd(s, from) == RunEnd(s, frameNo)
        invariant Frames() == Fill(s, from, frameNo, Free)
        invariant Beyond() == old(Beyond())
        invariant nFreeFrames == old(nFreeFrames) + (frameNo - from)
      {
        SetState(frameNo, Free);
        frameNo := frameNo + 1;
        nFreeFrames := nFreeFrames + 1;
      }
    }

    /**
     * The effect of releasing at frame h: the run is freed exactly when h was HoS; the
     * Free count grows by the run's length; otherwise nothing changes.
     */
    twostate predicate RunReleased(h: nat, freed: bool)
      reads this, bitmap
      requires Valid() && h < nFrames
    {
      && freed == (old(Frames())[h] == HoS)
      && Beyond() == old(Beyond())
      && (freed ==>
            Frames() == Released(old(Frames()), h)
            && nFreeFrames == old(nFreeFrames) + (RunEnd(old(Frames()), h + 1) - h))
      && (!freed ==> Frames() == old(Frames()) && nFreeFrames == old(nFreeFrames))
    }

    /**
     * The part of release_frames that runs once the owning pool is known: frame h must be
     * HoS; it and the Used frames that follow it become Free. The walk stops at the
     * pool's last frame.
     */
    method ReleaseRun(h: nat) returns (freed: bool)
      requires Valid() && h < nFrames
      modifies this, bitmap
      ensures RunReleased(h, freed)
      ensures old(Counted()) ==> Counted()
      ensures old(CounterBounds()) ==> CounterBounds()
      ensures old(WellFormed(Frames())) ==> WellFormed(Frames())
    {
      if GetState(h) != HoS {
        return false;
      }
      ghost var s := Frames();
      SetState(h, Free);
      nFreeFrames := nFreeFrames + 1;
      RunEndAfter(s, h, Free, h + 1);
      FreeFollowers(h + 1);
      assert Frames() == Released(s, h);
      freed := true;
      CountReleased(s, h);
      if WellFormed(s) {
        ReleasedWellFormed(s, h);
      }
    }
  }

  /** Frame g belongs to pool p. */
  predicate Contains(p: ContFramePool, g: nat)
  {
    p.baseFrameNo <= g < p.baseFrameNo + p.nFrames
  }

  /** The first registered pool whose range holds frame g. */
  function OwnerIndex(pools: seq<ContFramePool>, g: nat): (r: Option<nat>)
    ensures r.Some? ==> r.value < |pools| && Contains(pools[r.value], g)
    ensures r.Some? ==> forall j :: 0 <= j < r.value ==> !Contains(pools[j], g)
    ensures r.None? ==> forall j :: 0 <= j < |pools| ==> !Contains(pools[j], g)
  {
    if pools == [] then None
    else if Contains(pools[0], g) then Some(0)
    else match OwnerIndex(pools[1..], g)
      case None => None
      case Some(k) => Some(k + 1)
  }

  /**
   * The process-wide list of pools (the static start/end_of_frame_pool_list pointers and
   * the pools' next links), with the static release_frames.
   */
  class FramePoolList {
    var pools: seq<ContFramePool>

    constructor ()
      ensures pools == [] && Valid()
    {
      pools := [];
    }

    ghost predicate Valid()
      reads this
    {
      forall i :: 0 <= i < |pools| ==> pools[i].Valid()
    }

    /** The objects that release_frames(g) may change: the owning pool and its bitmap. */
    ghost function Owned(g: nat): set<object>
      reads this
    {
      match OwnerIndex(pools, g)
      case None => {}
      case Some(k) => {pools[k], pools[k].bitmap}
    }

    /**
     * The effect of release_frames(g) with the given outcome: with no owning pool,
     * nothing; otherwise the owning pool frees the run headed by g exactly when g was
     * a head, a counter that agreed with the bitmap still does, and one that bounded
     * the Free frames still does.
     */
    twostate predicate ReleasedAt(g: nat, outcome: ReleaseOutcome)
      reads this, Owned(g)
      requires old(Valid()) && Valid() && pools == old(pools)
    {
      match OwnerIndex(pools, g)
      case None => outcome == NoOwningPool
      case Some(k) =>
        var p := pools[k];
        && outcome != NoOwningPool
        && p.RunReleased(g - p.baseFrameNo, outcome == FramesReleased)
        && (old(p.Counted()) ==> p.Counted())
        && (old(p.CounterBounds()) ==> p.CounterBounds())
    }

    /** The scan of the list for the pool that houses frame g. */
    method FindOwner(g: nat) returns (r: Option<nat>)
      ensures r == OwnerIndex(pools, g)
    {
      var i := 0;
      while i < |pools|
        invariant i <= |pools|
        invariant forall j :: 0 <= j < i ==> !Contains(pools[j], g)
      {
        if pools[i].baseFrameNo <= g && g < pools[i].baseFrameNo + pools[i].nFrames {
          return Some(i);
        }
        i := i + 1;
      }
      return None;
    }

    /**
     * release_frames(g): finds the owning pool; if g is the head of a run there, frees
     * the run. A frame owned by no pool, or one that is not a head, changes nothing.
     */
    method ReleaseFrames(g: nat) returns (outcome: ReleaseOutcome)
      requires Valid()
      modifies Owned(g)
      ensures Valid()
      ensures ReleasedAt(g, outcome)
    {
      var owner := FindOwner(g);
      if owner.None? {
        return NoOwningPool;
      }
      outcome := ReleaseInOwner(g, owner.value);
    }

    /** release_frames(g) once the owning pool is known to be entry k. */
    method ReleaseInOwner(g: nat, k: nat) returns (outcome: ReleaseOutcome)
      requires Valid() && OwnerIndex(pools, g) == Some(k)
      modifies Owned(g)
      ensures Valid()
      ensures ReleasedAt(g, outcome)
    {
      var p := pools[k];
      var freed := p.ReleaseRun(g - p.baseFrameNo);
      outcome := if freed then FramesReleased else NotHeadOfSequence;
    }
  }

  // ---------------------------------------------------------------------------
  // The walk of release_frames as the source writes it
  // ---------------------------------------------------------------------------

  /**
   * The end of release_frames' walk as written: it keeps freeing while the next slot
   * reads Used, with no stop at the pool's last frame. Here the walk is followed up to
   * the end of the management frame.
   */
  function AsWrittenRunEnd(bits: seq<bv8>, j: nat): (e: nat)
    requires j <= 4 * |bits|
    ensures j <= e <= 4 * |bits|
    decreases 4 * |bits| - j
  {
    if j == 4 * |bits| || StateAt(bits, j) != Used then j else AsWrittenRunEnd(bits, j + 1)
  }

  /**
   * A two-frame pool whose bitmap frame held 0xE0 in byte 0 (stale bits: slot 2 reads
   * Used, slot 3 Free). After construction (info frame elsewhere) the byte is 0xEF, and
   * after get_frames(2) it is 0xE9, and the counter, which agrees with the Free frames,
   * has gone from 2 to 0. Releasing frame 0 as written frees slots 0, 1 and 2, adding
   * one to the counter for each: three frames for a two-frame pool, so the counter ends
   * at 3. The bounded walk stops at frame 2.
   */
  lemma AsWrittenReleaseOverruns()
    ensures var bits := seq(FRAME_SIZE, i requires 0 <= i < FRAME_SIZE => if i == 0 then 0xE0 as bv8 else 0);
      var built := bits[0 := SetBits(SetBits(bits[0], 0, Free), 1, Free)];
      var taken := built[0 := SetBits(SetBits(built[0], 0, HoS), 1, Used)];
      && built[0] == 0xEF && taken[0] == 0xE9
      && View(taken, 0, 4) == [HoS, Used, Used, Free]
      && CountFree(View(built, 0, 2)) == 2 && CountFree(View(taken, 0, 2)) == 0
      && AsWrittenRunEnd(taken, 1) == 3
      && RunEnd(View(taken, 0, 2), 1) == 2
  {
    var bits := seq(FRAME_SIZE, i requires 0 <= i < FRAME_SIZE => if i == 0 then 0xE0 as bv8 else 0);
    var built := bits[0 := SetBits(SetBits(bits[0], 0, Free), 1, Free)];
    var taken := built[0 := SetBits(SetBits(built[0], 0, HoS), 1, Used)];
    assert built[0] == 0xEF;
    assert taken[0] == 0xE9;
    assert StateAt(taken, 0) == HoS && StateAt(taken, 1) == Used;
    assert StateAt(taken, 2) == Used && StateAt(taken, 3) == Free;
    assert View(taken, 0, 4) == [HoS, Used, Used, Free];
    assert AsWrittenRunEnd(taken, 3) == 3;
    assert AsWrittenRunEnd(taken, 2) == 3;
    var v := View(taken, 0, 2);
    assert v == [HoS, Used];
    assert RunEnd(v, 2) == 2;
    assert StateAt(built, 0) == Free && StateAt(built, 1) == Free;
    assert View(built, 0, 2) == [Free, Free];
  }
}
