/**
 * The toy file system of mp7 (class FileSystem).
 *
 * Block 0 of the disk holds the inode table and block 1 the free-block map, one byte
 * per block (1 = in use). A file is one inode {id, block, size} that owns one data
 * block; an inode with id -1 is free. Every operation reads the two blocks, changes
 * them and writes them back; the model keeps block 0 as a typed array of inodes and
 * block 1 as a byte array, changed in place.
 *
 * Volume, FindId, LastId, FirstZero, Create and Delete describe the operations on the
 * two blocks as values; the methods of FileSystem are the kernel's loops, proved against
 * them. CreateAsWritten and DeleteAsWritten keep the out-of-bounds writes of the source
 * for the findings; Create and Delete are the corrected operations the methods follow.
 */
module FileSystems {
  import opened Wrappers

  /** Bytes per disk block. */
  const BLOCK_SIZE: nat := 512
  /** Inodes in the inode table, and blocks tracked by the free map. */
  const MAX_INODES: nat := 32
  /** The id of a free inode, and the block of an inode without one. */
  const NO_ID: int := -1

  datatype Inode = Inode(id: int, block: int, size: int)

  /** A free inode as format and delete leave it. */
  const FREE_INODE := Inode(NO_ID, NO_ID, 0)

  /** The two management blocks: the inode table and the free map. */
  datatype Volume = Volume(inodes: seq<Inode>, free: seq<bv8>)

  /** The result of create and delete: the success flag and the new management blocks. */
  datatype Outcome = Outcome(ok: bool, v: Volume)

  /** The management blocks have their sizes. */
  predicate Shaped(v: Volume)
  {
    |v.inodes| == MAX_INODES && |v.free| == BLOCK_SIZE
  }

  /** The inode names a file. */
  predicate Used(i: Inode)
  {
    i.id != NO_ID
  }

  /** The first of the first n inodes with this id. */
  function FindId(inodes: seq<Inode>, id: int, n: nat): (r: Option<nat>)
    requires n <= |inodes|
    ensures r.Some? ==> r.value < n && inodes[r.value].id == id
    ensures r.Some? ==> forall j :: 0 <= j < r.value ==> inodes[j].id != id
    ensures r.None? ==> forall j :: 0 <= j < n ==> inodes[j].id != id
  {
    if n == 0 then None
    else match FindId(inodes, id, n - 1)
      case Some(i) => Some(i)
      case None => if inodes[n - 1].id == id then Some(n - 1) else None
  }

  /** The last of the first n inodes with this id. */
  function LastId(inodes: seq<Inode>, id: int, n: nat): (r: Option<nat>)
    requires n <= |inodes|
    ensures r.Some? ==> r.value < n && inodes[r.value].id == id
    ensures r.Some? ==> forall j :: r.value < j < n ==> inodes[j].id != id
    ensures r.None? ==> forall j :: 0 <= j < n ==> inodes[j].id != id
  {
    if n == 0 then None
    else if inodes[n - 1].id == id then Some(n - 1)
    else LastId(inodes, id, n - 1)
  }

  /** The lowest of the first n free-map entries that is 0. */
  function FirstZero(free: seq<bv8>, n: nat): (r: Option<nat>)
    requires n <= |free|
    ensures r.Some? ==> r.value < n && free[r.value] == 0
    ensures r.Some? ==> forall j :: 0 <= j < r.value ==> free[j] != 0
    ensures r.None? ==> forall j :: 0 <= j < n ==> free[j] != 0
  {
    if n == 0 then None
    else match FirstZero(free, n - 1)
      case Some(i) => Some(i)
      case None => if free[n - 1] == 0 then Some(n - 1) else None
  }

  /** GetFreeBlock's answer: the lowest unused block of the first MAX_INODES, or -1. */
  function FreeBlock(free: seq<bv8>): int
    requires |free| >= MAX_INODES
  {
    match FirstZero(free, MAX_INODES)
    case None => NO_ID
    case Some(b) => b
  }

  /** The free map after GetFreeBlock: the block it answers is marked used. */
  function Claimed(free: seq<bv8>): seq<bv8>
    requires |free| >= MAX_INODES
  {
    match FirstZero(free, MAX_INODES)
    case None => free
    case Some(b) => free[b := 1]
  }

  /** The management blocks that format writes. */
  function Formatted(): (v: Volume)
    ensures Shaped(v)
  {
    Volume(seq(MAX_INODES, _ => FREE_INODE), seq(BLOCK_SIZE, i => if i < 2 then 1 else 0))
  }

  /**
   * The management blocks of a volume changed only by format, create and delete: blocks
   * 0 and 1 stay marked used; every file has its own id and its own data block, between
   * 2 and MAX_INODES - 1, marked used.
   */
  ghost predicate Consistent(v: Volume)
  {
    && Shaped(v)
    && v.free[0] == 1 && v.free[1] == 1
    && (forall i :: 0 <= i < MAX_INODES && Used(v.inodes[i]) ==>
          2 <= v.inodes[i].block < MAX_INODES && v.free[v.inodes[i].block] == 1)
    && (forall i, j :: 0 <= i < j < MAX_INODES && Used(v.inodes[i]) && Used(v.inodes[j]) ==>
          v.inodes[i].id != v.inodes[j].id && v.inodes[i].block != v.inodes[j].block)
  }

  /**
   * CreateFile, corrected: no change when an inode already has the id, when no inode is
   * free or when no block is free; otherwise the last free inode gets the id, the first
   * free block and the size of one block, and that block is marked used.
   */
  function Create(v: Volume, id: int): (r: Outcome)
    requires Shaped(v)
    ensures Shaped(r.v)
    ensures r.ok <==>
      FindId(v.inodes, id, MAX_INODES).None? && LastId(v.inodes, NO_ID, MAX_INODES).Some? && FreeBlock(v.free) != NO_ID
    ensures !r.ok ==> r.v == v
  {
    if FindId(v.inodes, id, MAX_INODES).Some? then Outcome(false, v)
    else match LastId(v.inodes, NO_ID, MAX_INODES)
      case None => Outcome(false, v)
      case Some(k) =>
        if FreeBlock(v.free) == NO_ID then Outcome(false, v)
        else Outcome(true, Volume(v.inodes[k := Inode(id, FreeBlock(v.free), BLOCK_SIZE)], Claimed(v.free)))
  }

  /**
   * DeleteFile, corrected: no change for the free-inode id -1 or an id no inode has;
   * otherwise the last inode with the id is freed and its block marked unused.
   */
  function Delete(v: Volume, id: int): (r: Outcome)
    requires Consistent(v)
    ensures Shaped(r.v)
    ensures r.ok <==> id != NO_ID && FindId(v.inodes, id, MAX_INODES).Some?
    ensures !r.ok ==> r.v == v
  {
    if id == NO_ID then Outcome(false, v)
    else match LastId(v.inodes, id, MAX_INODES)
      case None =>
        assert FindId(v.inodes, id, MAX_INODES).None?;
        Outcome(false, v)
      case Some(k) =>
        Outcome(true, Volume(v.inodes[k := FREE_INODE], v.free[v.inodes[k].block := 0]))
  }

  // ---------------------------------------------------------------------------
  // Properties of the operations
  // ---------------------------------------------------------------------------

  /** A formatted volume is consistent and holds no file. */
  lemma FormattedEmpty(id: int)
    ensures Consistent(Formatted())
    ensures id != NO_ID ==> FindId(Formatted().inodes, id, MAX_INODES).None?
  {
  }

  /** Create keeps the volume consistent. */
  lemma CreateConsistent(v: Volume, id: int)
    requires Consistent(v)
    ensures Consistent(Create(v, id).v)
  {
    var r := Create(v, id);
    if r.ok {
      var k := LastId(v.inodes, NO_ID, MAX_INODES).value;
      var b := FreeBlock(v.free);
      var w := r.v;
      assert w.inodes == v.inodes[k := Inode(id, b, BLOCK_SIZE)] && w.free == v.free[b := 1];
      forall i | 0 <= i < MAX_INODES && Used(w.inodes[i]) && i != k
        ensures w.inodes[i].block != b
      {
        assert v.free[w.inodes[i].block] == 1;
      }
      forall i, j | 0 <= i < j < MAX_INODES && Used(w.inodes[i]) && Used(w.inodes[j])
        ensures w.inodes[i].id != w.inodes[j].id
      {
        if i == k {
          assert w.inodes[j] == v.inodes[j];
        } else if j == k {
          assert w.inodes[i] == v.inodes[i];
        }
      }
    }
  }

  /** Delete keeps the volume consistent. */
  lemma DeleteConsistent(v: Volume, id: int)
    requires Consistent(v)
    ensures Consistent(Delete(v, id).v)
  {
    var r := Delete(v, id);
    if r.ok {
      var k := LastId(v.inodes, id, MAX_INODES).value;
      var w := r.v;
      forall i | 0 <= i < MAX_INODES && Used(w.inodes[i])
        ensures w.free[w.inodes[i].block] == 1
      {
        assert i != k && w.inodes[i] == v.inodes[i];
        if i < k {
          assert v.inodes[i].block != v.inodes[k].block;
        } else {
          assert v.inodes[k].block != v.inodes[i].block;
        }
      }
    }
  }

  /** After a successful create, lookup finds the new file at the inode create filled. */
  lemma CreateThenLookup(v: Volume, id: int)
    requires Consistent(v) && Create(v, id).ok
    ensures var w := Create(v, id).v;
      && FindId(w.inodes, id, MAX_INODES) == LastId(v.inodes, NO_ID, MAX_INODES)
      && w.inodes[FindId(w.inodes, id, MAX_INODES).value] == Inode(id, FreeBlock(v.free), BLOCK_SIZE)
  {
    var w := Create(v, id).v;
    var k := LastId(v.inodes, NO_ID, MAX_INODES).value;
    assert w.inodes[k].id == id;
  }

  /** After a successful delete, lookup no longer finds the id: ids are unique. */
  lemma DeleteThenLookup(v: Volume, id: int)
    requires Consistent(v) && Delete(v, id).ok
    ensures FindId(Delete(v, id).v.inodes, id, MAX_INODES).None?
  {
    var w := Delete(v, id).v;
    var k := LastId(v.inodes, id, MAX_INODES).value;
  }

  /** Create and delete leave the other files' inodes as they were. */
  lemma OthersKept(v: Volume, id: int, other: int)
    requires Consistent(v) && other != id && other != NO_ID
    ensures FindId(Create(v, id).v.inodes, other, MAX_INODES) == FindId(v.inodes, other, MAX_INODES)
    ensures FindId(Delete(v, id).v.inodes, other, MAX_INODES) == FindId(v.inodes, other, MAX_INODES)
  {
    var c := Create(v, id).v;
    var d := Delete(v, id).v;
    if Create(v, id).ok {
      var k := LastId(v.inodes, NO_ID, MAX_INODES).value;
      forall j | 0 <= j < MAX_INODES
        ensures (c.inodes[j].id == other) == (v.inodes[j].id == other)
      {
      }
      FindIdSame(v.inodes, c.inodes, other, MAX_INODES);
    }
    if Delete(v, id).ok {
      forall j | 0 <= j < MAX_INODES
        ensures (d.inodes[j].id == other) == (v.inodes[j].id == other)
      {
      }
      FindIdSame(v.inodes, d.inodes, other, MAX_INODES);
    }
  }

  /** FindId depends only on which inodes have the id. */
  lemma {:induction false} FindIdSame(a: seq<Inode>, b: seq<Inode>, id: int, n: nat)
    requires n <= |a| && n <= |b|
    requires forall j :: 0 <= j < n ==> (a[j].id == id) == (b[j].id == id)
    ensures FindId(a, id, n) == FindId(b, id, n)
  {
    if n > 0 {
      FindIdSame(a, b, id, n - 1);
    }
  }

  // ---------------------------------------------------------------------------
  // The operations as the source writes them
  // ---------------------------------------------------------------------------

  /** What an operation as written does: its result, or a write outside a block buffer. */
  datatype Effect = Done(ok: bool, v: Volume) | InodeOutOfBounds(index: int) | FreeMapOutOfBounds(index: int)

  /**
   * CreateFile as written: false on an existing id; otherwise inode free_inode (the last
   * free one, -1 when none) is filled with whatever GetFreeBlock answers, -1 included.
   */
  function CreateAsWritten(v: Volume, id: int): (r: Effect)
    requires Shaped(v)
    ensures LastId(v.inodes, NO_ID, MAX_INODES).None? && FindId(v.inodes, id, MAX_INODES).None?
      ==> r == InodeOutOfBounds(NO_ID)
  {
    if FindId(v.inodes, id, MAX_INODES).Some? then Done(false, v)
    else match LastId(v.inodes, NO_ID, MAX_INODES)
      case None => InodeOutOfBounds(NO_ID)
      case Some(k) => Done(true, Volume(v.inodes[k := Inode(id, FreeBlock(v.free), BLOCK_SIZE)], Claimed(v.free)))
  }

  /**
   * DeleteFile as written: false when no inode has the id; otherwise the last such inode
   * is freed and the free-map entry its block names is cleared, whatever that block is.
   */
  function DeleteAsWritten(v: Volume, id: int): (r: Effect)
    requires Shaped(v)
    ensures r.Done? && r.ok ==> LastId(v.inodes, id, MAX_INODES).Some?
  {
    match LastId(v.inodes, id, MAX_INODES)
    case None => Done(false, v)
    case Some(k) =>
      var b := v.inodes[k].block;
      if 0 <= b < BLOCK_SIZE then Done(true, Volume(v.inodes[k := FREE_INODE], v.free[b := 0]))
      else FreeMapOutOfBounds(b)
  }

  /** Where a free inode and a free block exist, create as written is the corrected one. */
  lemma CreateAgrees(v: Volume, id: int)
    requires Shaped(v) && LastId(v.inodes, NO_ID, MAX_INODES).Some? && FreeBlock(v.free) != NO_ID
    ensures CreateAsWritten(v, id) == Done(Create(v, id).ok, Create(v, id).v)
  {
  }

  /** On a consistent volume and a real id, delete as written is the corrected one. */
  lemma DeleteAgrees(v: Volume, id: int)
    requires Consistent(v) && id != NO_ID
    ensures DeleteAsWritten(v, id) == Done(Delete(v, id).ok, Delete(v, id).v)
  {
    if LastId(v.inodes, id, MAX_INODES).None? {
      assert FindId(v.inodes, id, MAX_INODES).None?;
    }
  }

  /** The inode table with every inode naming a file, ids 0 .. MAX_INODES - 1. */
  function FullTable(): (t: seq<Inode>)
    ensures |t| == MAX_INODES
  {
    seq(MAX_INODES, i => Inode(i, 2, BLOCK_SIZE))
  }

  /** With every inode in use, create of a new id writes inode -1, outside the table. */
  lemma CreateWithoutFreeInode()
    ensures CreateAsWritten(Volume(FullTable(), Formatted().free), 100) == InodeOutOfBounds(NO_ID)
    ensures !Create(Volume(FullTable(), Formatted().free), 100).ok
  {
  }

  /**
   * With every block in use, create still succeeds and gives the file block -1; deleting
   * that file then clears free-map entry -1, outside the block buffer.
   */
  lemma CreateWithoutFreeBlock()
    ensures var v := Volume(Formatted().inodes, seq(BLOCK_SIZE, _ => 1));
      && CreateAsWritten(v, 5).Done?
      && CreateAsWritten(v, 5).ok
      && DeleteAsWritten(CreateAsWritten(v, 5).v, 5) == FreeMapOutOfBounds(NO_ID)
      && !Create(v, 5).ok
  {
    var v := Volume(Formatted().inodes, seq(BLOCK_SIZE, _ => 1));
    assert LastId(v.inodes, NO_ID, MAX_INODES) == Some(MAX_INODES - 1);
    var w := CreateAsWritten(v, 5).v;
    assert w.inodes[MAX_INODES - 1] == Inode(5, NO_ID, BLOCK_SIZE);
    assert LastId(w.inodes, 5, MAX_INODES) == Some(MAX_INODES - 1);
  }

  /** Delete of the free-inode id -1 picks a free inode and clears free-map entry -1. */
  lemma DeleteOfFreeMarker()
    ensures DeleteAsWritten(Formatted(), NO_ID) == FreeMapOutOfBounds(NO_ID)
    ensures !Delete(Formatted(), NO_ID).ok
  {
    FormattedEmpty(NO_ID);
    assert LastId(Formatted().inodes, NO_ID, MAX_INODES) == Some(MAX_INODES - 1);
  }

  // ---------------------------------------------------------------------------
  // The disk and the file system
  // ---------------------------------------------------------------------------

  /** The disk: block 0 as a typed inode table, block 1 as bytes, and the data blocks. */
  class SimpleDisk {
    /** Block 0. */
    const inodes: array<Inode>
    /** Block 1. */
    const freeMap: array<bv8>
    /** The data blocks as last written. */
    var blocks: map<nat, seq<bv8>>

    ghost predicate Valid()
      reads this
    {
      inodes.Length == MAX_INODES && freeMap.Length == BLOCK_SIZE
    }

    /** A disk with unknown contents in its two management blocks and no data written. */
    constructor ()
      ensures Valid() && fresh(inodes) && fresh(freeMap) && blocks == map[]
    {
      inodes := new Inode[MAX_INODES];
      freeMap := new bv8[BLOCK_SIZE];
      blocks := map[];
    }

    /** The two management blocks as values. */
    ghost function Vol(): Volume
      reads this, inodes, freeMap
    {
      Volume(inodes[..], freeMap[..])
    }
  }

  /** A zero-filled block. */
  const ZERO_BLOCK: seq<bv8> := seq(BLOCK_SIZE, _ => 0)

  /**
   * Format (static): zero blocks 3 .. size / BLOCK_SIZE - 1, write a table of free
   * inodes to block 0 and a free map with only blocks 0 and 1 in use to block 1.
   */
  method Format(disk: SimpleDisk, size: nat) returns (ok: bool)
    requires disk.Valid()
    modifies disk, disk.inodes, disk.freeMap
    ensures disk.Valid() && ok && disk.Vol() == Formatted()
    ensures forall i :: 3 <= i < size / BLOCK_SIZE ==> i in disk.blocks && disk.blocks[i] == ZERO_BLOCK
    ensures forall i :: i in old(disk.blocks) && !(3 <= i < size / BLOCK_SIZE) ==>
      i in disk.blocks && disk.blocks[i] == old(disk.blocks)[i]
    ensures forall i :: i in disk.blocks ==> i in old(disk.blocks) || 3 <= i < size / BLOCK_SIZE
  {
    var numBlocks := size / BLOCK_SIZE;
    var i := 3;
    while i < numBlocks
      invariant 3 <= i && (i <= numBlocks || i == 3)
      invariant forall j :: 3 <= j < i ==> j in disk.blocks && disk.blocks[j] == ZERO_BLOCK
      invariant forall j :: j in old(disk.blocks) && !(3 <= j < i) ==>
        j in disk.blocks && disk.blocks[j] == old(disk.blocks)[j]
      invariant forall j :: j in disk.blocks ==> j in old(disk.blocks) || 3 <= j < i
    {
      disk.blocks := disk.blocks[i := ZERO_BLOCK];
      i := i + 1;
    }
    FreeInodes(disk.inodes);
    FreshFreeMap(disk.freeMap);
    ok := true;
  }

  /** format's inode loop: every inode becomes free. */
  method FreeInodes(inodes: array<Inode>)
    modifies inodes
    ensures inodes[..] == seq(inodes.Length, _ => FREE_INODE)
  {
    for i := 0 to inodes.Length
      invariant forall j :: 0 <= j < i ==> inodes[j] == FREE_INODE
    {
      inodes[i] := FREE_INODE;
    }
  }

  /** format's free map: all zero, then blocks 0 and 1 marked used. */
  method FreshFreeMap(free: array<bv8>)
    requires free.Length == BLOCK_SIZE
    modifies free
    ensures free[..] == Formatted().free
  {
    for i := 0 to free.Length
      invariant forall j :: 0 <= j < i ==> free[j] == 0
    {
      free[i] := 0;
    }
    free[0] := 1;
    free[1] := 1;
  }

  class FileSystem {
    /** The disk mount recorded. */
    const disk: SimpleDisk

    /** Mount: the file system works on this disk from now on. */
    constructor (d: SimpleDisk)
      ensures disk == d
    {
      disk := d;
    }

    /** LookupFile: the first inode with the id, or none. */
    method LookupFile(id: int) returns (r: Option<nat>)
      requires disk.Valid()
      ensures r == FindId(disk.inodes[..], id, MAX_INODES)
    {
      for i := 0 to MAX_INODES
        invariant FindId(disk.inodes[..], id, i).None?
      {
        if disk.inodes[i].id == id {
          assert FindId(disk.inodes[..], id, i + 1) == Some(i);
          FindIdFrom(disk.inodes[..], id, i + 1, MAX_INODES);
          return Some(i);
        }
      }
      return None;
    }

    /** GetFreeBlock: the lowest unused of the first MAX_INODES blocks is marked used and returned; -1 without one. */
    method GetFreeBlock() returns (b: int)
      requires disk.Valid()
      modifies disk.freeMap
      ensures b == FreeBlock(old(disk.freeMap[..])) && disk.freeMap[..] == Claimed(old(disk.freeMap[..]))
    {
      for i := 0 to MAX_INODES
        invariant FirstZero(disk.freeMap[..], i).None?
      {
        if disk.freeMap[i] == 0 {
          assert FirstZero(disk.freeMap[..], i + 1) == Some(i);
          FirstZeroFrom(disk.freeMap[..], i + 1, MAX_INODES);
          disk.freeMap[i] := 1;
          return i;
        }
      }
      return NO_ID;
    }

    /**
     * CreateFile: false when an inode has the id already; otherwise the last free inode
     * takes the id, a free block and the size of one block. The model refuses, changing
     * nothing, when no inode or no block is free (see Create).
     */
    method CreateFile(id: int) returns (ok: bool)
      requires disk.Valid()
      modifies disk.inodes, disk.freeMap
      ensures Outcome(ok, disk.Vol()) == Create(old(disk.Vol()), id)
      ensures old(Consistent(disk.Vol())) ==> Consistent(disk.Vol())
    {
      ghost var before := disk.Vol();
      var freeInode := NO_ID;
      for i := 0 to MAX_INODES
        invariant FindId(disk.inodes[..], id, i).None?
        invariant freeInode == match LastId(disk.inodes[..], NO_ID, i) case None => NO_ID case Some(k) => k
      {
        if disk.inodes[i].id == NO_ID {
          freeInode := i;
        }
        if disk.inodes[i].id == id {
          assert FindId(disk.inodes[..], id, i + 1) == Some(i);
          FindIdFrom(disk.inodes[..], id, i + 1, MAX_INODES);
          return false;
        }
      }
      if freeInode == NO_ID {
        return false;
      }
      var block := GetFreeBlock();
      if block == NO_ID {
        return false;
      }
      disk.inodes[freeInode] := Inode(id, block, BLOCK_SIZE);
      ok := true;
      if Consistent(before) {
        CreateConsistent(before, id);
      }
    }

    /**
     * DeleteFile: false when no inode has the id; otherwise the last inode with it is
     * freed and its block marked unused. The model answers false for the free-inode id
     * -1 (see Delete).
     */
    method DeleteFile(id: int) returns (ok: bool)
      requires disk.Valid() && Consistent(disk.Vol())
      modifies disk.inodes, disk.freeMap
      ensures Outcome(ok, disk.Vol()) == Delete(old(disk.Vol()), id)
      ensures Consistent(disk.Vol())
    {
      DeleteConsistent(disk.Vol(), id);
      if id == NO_ID {
        return false;
      }
      var inodeNum := NO_ID;
      for i := 0 to MAX_INODES
        invariant inodeNum == match LastId(disk.inodes[..], id, i) case None => NO_ID case Some(k) => k
      {
        if disk.inodes[i].id == id {
          inodeNum := i;
        }
      }
      if inodeNum == NO_ID {
        return false;
      }
      var block := disk.inodes[inodeNum].block;
      disk.inodes[inodeNum] := FREE_INODE;
      disk.freeMap[block] := 0;
      ok := true;
    }
  }

  /** A first match among the first n inodes is the first match among more. */
  lemma {:induction false} FindIdFrom(inodes: seq<Inode>, id: int, n: nat, m: nat)
    requires n <= m <= |inodes| && FindId(inodes, id, n).Some?
    ensures FindId(inodes, id, m) == FindId(inodes, id, n)
    decreases m
  {
    if m > n {
      FindIdFrom(inodes, id, n, m - 1);
    }
  }

  /** A first zero among the first n entries is the first zero among more. */
  lemma {:induction false} FirstZeroFrom(free: seq<bv8>, n: nat, m: nat)
    requires n <= m <= |free| && FirstZero(free, n).Some?
    ensures FirstZero(free, m) == FirstZero(free, n)
    decreases m
  {
    if m > n {
      FirstZeroFrom(free, n, m - 1);
    }
  }
}
