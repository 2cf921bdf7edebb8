/**
 * An open file of the mp7 file system (class File): a one-block cache of the file's
 * data block and a cursor into it. Read and Write copy bytes between the cache and a
 * caller's buffer from the cursor on, stopping at end of file, which is the cursor at
 * BLOCK_SIZE - 1: the last byte of the block is never read or written.
 */
module Files {
  import opened FileSystems

  /** The bytes a read or write can move from cursor p when n are asked for. */
  function Span(n: nat, p: nat): (k: nat)
    requires p <= BLOCK_SIZE - 1
    ensures k <= n && p + k <= BLOCK_SIZE - 1
    ensures k == n || p + k == BLOCK_SIZE - 1
  {
    if n <= BLOCK_SIZE - 1 - p then n else BLOCK_SIZE - 1 - p
  }

  /** The block with data laid over it from position p; the other bytes kept. */
  function Overlay(block: seq<bv8>, p: nat, data: seq<bv8>): (r: seq<bv8>)
    requires p + |data| <= |block|
    ensures |r| == |block|
    ensures forall i :: 0 <= i < |r| ==> r[i] == if p <= i < p + |data| then data[i - p] else block[i]
  {
    block[..p] + data + block[p + |data|..]
  }

  /** Reading back the span just overlaid gives the data written. */
  lemma OverlayThenRead(block: seq<bv8>, p: nat, data: seq<bv8>)
    requires p + |data| <= |block|
    ensures Overlay(block, p, data)[p..p + |data|] == data
  {
    var r := Overlay(block, p, data);
    forall i | 0 <= i < |data|
      ensures r[p..p + |data|][i] == data[i]
    {
      assert r[p + i] == data[i];
    }
  }

  class File {
    const fileId: int
    /** block_cache: the file's data block. */
    const cache: array<bv8>
    var position: nat

    ghost predicate Valid()
      reads this
    {
      cache.Length == BLOCK_SIZE && position <= BLOCK_SIZE - 1
    }

    /** Opening a file: the cache holds its block (read from the disk) and the cursor is 0. */
    constructor (id: int, block: seq<bv8>)
      requires |block| == BLOCK_SIZE
      ensures Valid() && fileId == id && position == 0 && cache[..] == block && fresh(cache)
    {
      fileId := id;
      cache := new bv8[BLOCK_SIZE](i requires 0 <= i < BLOCK_SIZE => block[i]);
      position := 0;
    }

    /** EoF: the cursor is on the last byte of the block. */
    method EoF() returns (e: bool)
      requires Valid()
      ensures e <==> position == BLOCK_SIZE - 1
    {
      e := position == BLOCK_SIZE - 1;
    }

    /** Reset: the cursor returns to the start; the cache is untouched. */
    method Reset()
      modifies this
      ensures position == 0
      ensures cache[..] == old(cache[..])
    {
      position := 0;
    }

    /**
     * Read(n, buf): up to n bytes from the cursor on are copied to buf, stopping at end
     * of file; the cursor moves past them and their number is returned.
     */
    method Read(n: nat, buf: array<bv8>) returns (k: nat)
      requires Valid() && buf != cache && Span(n, position) <= buf.Length
      modifies this, buf
      ensures Valid() && k == Span(n, old(position)) && position == old(position) + k
      ensures buf[..k] == cache[old(position)..position]
      ensures buf[k..] == old(buf[k..]) && cache[..] == old(cache[..])
    {
      var i := 0;
      while i < n
        invariant i <= n && Valid()
        invariant position == old(position) + i && i <= buf.Length
        invariant Span(n, old(position)) == i || (i < Span(n, old(position)) && position < BLOCK_SIZE - 1)
        invariant forall j :: 0 <= j < i ==> buf[j] == cache[old(position) + j]
        invariant forall j :: i <= j < buf.Length ==> buf[j] == old(buf[j])
      {
        var atEnd := EoF();
        if atEnd {
          break;
        }
        buf[i] := cache[position];
        position := position + 1;
        i := i + 1;
      }
      k := i;
      assert k == Span(n, old(position));
      assert buf[..k] == cache[old(position)..position] by {
        forall j | 0 <= j < k
          ensures buf[..k][j] == cache[old(position)..position][j]
        {
          assert buf[j] == cache[old(position) + j];
        }
      }
      assert buf[k..] == old(buf[k..]) by {
        forall j | 0 <= j < buf.Length - k
          ensures buf[k..][j] == old(buf[k..])[j]
        {
          assert buf[k + j] == old(buf[k + j]);
        }
      }
    }

    /**
     * Write(n, buf): up to n bytes of buf are copied into the cache from the cursor on,
     * stopping at end of file; the cursor moves past them and their number is returned.
     */
    method Write(n: nat, buf: array<bv8>) returns (k: nat)
      requires Valid() && buf != cache && Span(n, position) <= buf.Length
      modifies this, cache
      ensures Valid() && k == Span(n, old(position)) && position == old(position) + k
      ensures cache[..] == Overlay(old(cache[..]), old(position), buf[..k])
    {
      var i := 0;
      while i < n
        invariant i <= n && Valid()
        invariant position == old(position) + i && i <= buf.Length
        invariant Span(n, old(position)) == i || (i < Span(n, old(position)) && position < BLOCK_SIZE - 1)
        invariant cache[..] == Overlay(old(cache[..]), old(position), buf[..i])
      {
        var atEnd := EoF();
        if atEnd {
          break;
        }
        cache[position] := buf[i];
        position := position + 1;
        i := i + 1;
      }
      k := i;
    }
  }

  /**
   * Reset, Write(n, data), Reset, Read(n, out): the bytes read back are the bytes
   * written, all n of them when n < BLOCK_SIZE.
   */
  method WriteThenReadBack(f: File, n: nat, data: array<bv8>, out: array<bv8>) returns (k: nat)
    requires f.Valid() && data != f.cache && out != f.cache && out != data
    requires Span(n, 0) <= data.Length && Span(n, 0) <= out.Length
    modifies f, f.cache, out
    ensures k == Span(n, 0) && out[..k] == data[..k]
  {
    f.Reset();
    var written := f.Write(n, data);
    f.Reset();
    k := f.Read(n, out);
    OverlayThenRead(old(f.cache[..]), 0, data[..written]);
  }
}
