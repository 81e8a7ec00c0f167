/**
 The data of a file: inode_read_at and inode_write_at over the sectors of a block device.
 A file is one run of consecutive sectors; the bytes behind its length in the last sector
 are padding.
 */
module Inode {
  type Byte = b: int | 0 <= b < 256
  type Sector = s: seq<Byte> | |s| == 512 witness seq(512, i => 0)

  class Device {
    var sectors: seq<Sector>

    constructor (n: nat)
      ensures |sectors| == n
    {
      sectors := seq(n, i => seq(512, j => 0));
    }

    method Read(k: nat) returns (s: Sector)
      requires k < |sectors|
      ensures s == sectors[k]
    {
      s := sectors[k];
    }

    method Write(k: nat, s: Sector)
      requires k < |sectors|
      modifies this
      ensures sectors == old(sectors)[k := s]
    {
      sectors := sectors[k := s];
    }
  }

  /** Where the data of an inode is, and how long it is. */
  datatype Extent = Extent(start: nat, length: nat) {
    /** bytes_to_sectors of the length. */
    function Sectors(): nat { (length + 511) / 512 }

    predicate Fits(d: seq<Sector>) { start + Sectors() <= |d| }

    // The position in the file of byte i of sector k.
    function Position(k: nat, i: nat): int { (k - start) * 512 + i }
  }

  /** Byte pos of the file. */
  function ByteAt(d: seq<Sector>, e: Extent, pos: nat): Byte
    requires e.Fits(d) && pos < 512 * e.Sectors()
  {
    d[e.start + pos / 512][pos % 512]
  }

  /** The file as one sequence of bytes. */
  function Flat(d: seq<Sector>, e: Extent): (s: seq<Byte>)
    requires e.Fits(d)
    ensures |s| == e.length
  {
    seq(e.length, pos requires 0 <= pos < e.length => ByteAt(d, e, pos))
  }

  /** The number of bytes between offset and the end of the file, at most size. */
  function Clipped(e: Extent, size: int, offset: nat): (n: nat)
    ensures n > 0 ==> offset + n <= e.length && n <= size
  {
    var left := e.length - offset;
    var n := if size < left then size else left;
    if n < 0 then 0 else n
  }

  /**
   The number of bytes inode_read_at and inode_write_at move. Without memory for the
   bounce buffer they move whole sectors only, and none when they start inside a sector.
   */
  function Moved(e: Extent, size: int, offset: nat, canAlloc: bool): (n: nat)
    ensures n <= Clipped(e, size, offset)
  {
    var n := Clipped(e, size, offset);
    if canAlloc then n else if offset % 512 != 0 then 0 else n / 512 * 512
  }

  // The next chunk: as far as the request, the file and the sector go.
  function Chunk(e: Extent, size: int, offset: nat): int {
    var inodeLeft := e.length - offset;
    var sectorLeft := 512 - offset % 512;
    var minLeft := if inodeLeft < sectorLeft then inodeLeft else sectorLeft;
    if size < minLeft then size else minLeft
  }

  // Moving one chunk and then the rest is moving all.
  lemma ChunkThenRest(e: Extent, size: int, offset: nat, canAlloc: bool)
    requires size > 0
    ensures var c := Chunk(e, size, offset);
      && (c <= 0 ==> Moved(e, size, offset, canAlloc) == 0)
      && (c > 0 && !canAlloc && !(offset % 512 == 0 && c == 512) ==> Moved(e, size, offset, canAlloc) == 0)
      && (c > 0 && (canAlloc || (offset % 512 == 0 && c == 512)) ==>
            Moved(e, size, offset, canAlloc) == c + Moved(e, size - c, offset + c, canAlloc))
  {
  }

  /** The n bytes of the file from offset on; none when that is not inside the file. */
  function Slice(d: seq<Sector>, e: Extent, offset: nat, n: nat): seq<Byte>
    requires e.Fits(d)
  {
    if offset + n <= e.length then Flat(d, e)[offset..offset + n] else []
  }

  /** n bytes are moved: all of size bytes inside the file, up to its end, and none behind it; whole sectors only without memory. */
  ghost predicate Count(e: Extent, size: int, offset: nat, canAlloc: bool, n: nat) {
    && (size <= 0 || offset >= e.length ==> n == 0)
    && (canAlloc && size >= 0 && offset + size <= e.length ==> n == size)
    && (canAlloc && offset <= e.length < offset + size ==> n == e.length - offset)
    && (!canAlloc && offset % 512 != 0 ==> n == 0)
    && (!canAlloc && offset % 512 == 0 && size >= 0 && offset + size <= e.length ==> n % 512 == 0 && n <= size < n + 512)
    && (!canAlloc && offset % 512 == 0 && offset <= e.length < offset + size ==> n % 512 == 0 && offset + n <= e.length < offset + n + 512)
  }

  lemma MovedIs(e: Extent, size: int, offset: nat, canAlloc: bool)
    ensures Count(e, size, offset, canAlloc, Moved(e, size, offset, canAlloc))
  {
  }

  /** The first n bytes of the buffer are those at offset on the sectors of the file, the others are as before. */
  ghost predicate Fetched(d: seq<Sector>, e: Extent, offset: nat, n: nat, before: seq<Byte>, after: seq<Byte>)
    requires e.Fits(d) && (n > 0 ==> offset + n <= e.length)
  {
    && n <= |before| == |after| && after[n..] == before[n..]
    && forall i | 0 <= i < n :: after[i] == d[e.start + (offset + i) / 512][(offset + i) % 512]
  }

  lemma SoFarIsFetched(d: seq<Sector>, e: Extent, offset: nat, n: nat, before: seq<Byte>)
    requires e.Fits(d) && (n > 0 ==> offset + n <= e.length) && n <= |before|
    ensures Fetched(d, e, offset, n, before, ReadSoFar(d, e, offset, n, before))
  {
    if n == 0 {
      NothingRead(d, e, offset, before);
    }
  }

  /** Byte i of sector k is the byte of the data at its place in the file, if it is there, and as before if not. */
  ghost predicate Stored(d: seq<Sector>, e: Extent, offset: nat, data: seq<Byte>, after: seq<Sector>) {
    && |after| == |d|
    && forall k, i | 0 <= k < |d| && 0 <= i < 512 ::
         after[k][i] == var p := 512 * (k - e.start) + i; if offset <= p < offset + |data| then data[p - offset] else d[k][i]
  }

  lemma WrittenIsStored(d: seq<Sector>, e: Extent, offset: nat, data: seq<Byte>)
    ensures Stored(d, e, offset, data, Written(d, e, offset, data))
  {
  }

  // A chunk lies within one sector.
  lemma ChunkInSector(d: seq<Sector>, e: Extent, size: int, offset: nat)
    requires e.Fits(d) && Chunk(e, size, offset) > 0
    ensures var c, k, o := Chunk(e, size, offset), e.start + offset / 512, offset % 512;
      k < |d| && o + c <= 512 && offset + c <= e.length && c <= size && Slice(d, e, offset, c) == d[k][o..o + c]
  {
    var c, k, o := Chunk(e, size, offset), e.start + offset / 512, offset % 512;
    var s := Flat(d, e)[offset..offset + c];
    forall i | 0 <= i < c
      ensures s[i] == d[k][o..o + c][i]
    {
      assert (offset + i) / 512 == offset / 512 && (offset + i) % 512 == o + i;
    }
  }

  lemma SliceJoin(d: seq<Sector>, e: Extent, offset: nat, n: nat, c: nat)
    requires e.Fits(d) && offset + n + c <= e.length
    ensures Slice(d, e, offset, n) + Slice(d, e, offset + n, c) == Slice(d, e, offset, n + c)
  {
  }

  lemma NothingToMove(e: Extent, size: int, offset: nat, canAlloc: bool)
    requires size <= 0
    ensures Moved(e, size, offset, canAlloc) == 0
  {
  }

  lemma ChunkAtMost(e: Extent, size: int, offset: nat)
    ensures Chunk(e, size, offset) <= size
  {
  }

  // A buffer whose first n bytes come from the file.
  function ReadSoFar(d: seq<Sector>, e: Extent, offset: nat, n: nat, before: seq<Byte>): seq<Byte>
    requires e.Fits(d) && n <= |before|
  {
    Slice(d, e, offset, n) + before[n..]
  }

  // Where the copy of a chunk goes.
  lemma Overlap(head: seq<Byte>, before: seq<Byte>, c: seq<Byte>)
    requires |head| + |c| <= |before|
    ensures Laid(head + before[|head|..], |head|, c) == (head + c) + before[|head| + |c|..]
  {
  }

  // One more chunk is read.
  lemma ReadNext(d: seq<Sector>, e: Extent, offset: nat, n: nat, before: seq<Byte>, chunk: seq<Byte>)
    requires e.Fits(d) && n + |chunk| <= |before| && offset + n + |chunk| <= e.length && chunk == Slice(d, e, offset + n, |chunk|)
    ensures |ReadSoFar(d, e, offset, n, before)| == |before|
    ensures Laid(ReadSoFar(d, e, offset, n, before), n, chunk) == ReadSoFar(d, e, offset, n + |chunk|, before)
  {
    hide Flat, ByteAt, Laid;
    SliceJoin(d, e, offset, n, |chunk|);
    assert |Slice(d, e, offset, n)| == n;
    hide Slice;
    Overlap(Slice(d, e, offset, n), before, chunk);
  }

  // Copies the next chunk of c bytes into the buffer.
  method ReadChunk(dev: Device, e: Extent, buffer: array<Byte>, size: int, c: nat, ghost offset0: nat, n: nat, offset: nat, ghost before: seq<Byte>)
    requires e.Fits(dev.sectors) && size > 0 && n + size <= |before| && buffer[..] == ReadSoFar(dev.sectors, e, offset0, n, before)
    requires offset == offset0 + n && 0 < c == Chunk(e, size, offset)
    modifies buffer
    ensures c <= size && offset + c <= e.length && buffer[..] == ReadSoFar(dev.sectors, e, offset0, n + c, before)
  {
    hide Slice, Laid, ReadSoFar, Chunk, Extent.Fits;
    var sectorIdx, sectorOfs := e.start + offset / 512, offset % 512;
    ChunkInSector(dev.sectors, e, size, offset);
    var bounce := dev.Read(sectorIdx);
    var chunk := bounce[sectorOfs..sectorOfs + c];
    ReadNext(dev.sectors, e, offset0, n, before, chunk);
    Copy(buffer, n, chunk);
  }

  /** inode_read_at: the bytes of the file from offset on, into the buffer. */
  method ReadAt(dev: Device, e: Extent, buffer: array<Byte>, size0: int, offset0: nat, canAlloc: bool) returns (bytesRead: nat)
    requires e.Fits(dev.sectors) && size0 <= buffer.Length
    modifies buffer
    ensures bytesRead == Moved(e, size0, offset0, canAlloc) && bytesRead <= buffer.Length
    ensures buffer[..] == ReadSoFar(dev.sectors, e, offset0, bytesRead, old(buffer[..]))
    ensures Count(e, size0, offset0, canAlloc, bytesRead) && (bytesRead > 0 ==> offset0 + bytesRead <= e.length)
    ensures Fetched(dev.sectors, e, offset0, bytesRead, old(buffer[..]), buffer[..])
  {
    MovedIs(e, size0, offset0, canAlloc);
    hide Count, Fetched;
    hide Slice, Chunk, Moved, Laid, ReadSoFar, Extent.Fits, Extent.Sectors, Clipped, Flat, ByteAt;
    var size, offset := size0, offset0;
    bytesRead := 0;
    ghost var before := buffer[..];
    NothingRead(dev.sectors, e, offset0, before);
    while size > 0
      invariant offset == offset0 + bytesRead && bytesRead + size == size0
      invariant 0 <= bytesRead <= buffer.Length && (bytesRead > 0 ==> offset <= e.length)
      invariant bytesRead + Moved(e, size, offset, canAlloc) == Moved(e, size0, offset0, canAlloc)
      invariant buffer[..] == ReadSoFar(dev.sectors, e, offset0, bytesRead, before)
      decreases size
    {
      var sectorOfs := offset % 512;
      var chunkSize := Chunk(e, size, offset);
      ChunkThenRest(e, size, offset, canAlloc);
      if chunkSize <= 0 {
        break;
      }
      if !(sectorOfs == 0 && chunkSize == 512) && !canAlloc {
        break;
      }
      ReadChunk(dev, e, buffer, size, chunkSize, offset0, bytesRead, offset, before);
      size := size - chunkSize;
      offset := offset + chunkSize;
      bytesRead := bytesRead + chunkSize;
    }
    assert Moved(e, size, offset, canAlloc) == 0 by {
      if size <= 0 { NothingToMove(e, size, offset, canAlloc); } else { ChunkThenRest(e, size, offset, canAlloc); }
    }
    SoFarIsFetched(dev.sectors, e, offset0, bytesRead, before);
  }

  lemma NothingRead(d: seq<Sector>, e: Extent, offset: nat, before: seq<Byte>)
    requires e.Fits(d)
    ensures ReadSoFar(d, e, offset, 0, before) == before
  {
  }

  // A buffer with s laid over it.
  function Laid(b: seq<Byte>, at: nat, s: seq<Byte>): seq<Byte>
    requires at + |s| <= |b|
  {
    b[..at] + s + b[at + |s|..]
  }

  // memcpy into the buffer.
  method Copy(buffer: array<Byte>, at: nat, s: seq<Byte>)
    requires at + |s| <= buffer.Length
    modifies buffer
    ensures buffer[..] == Laid(old(buffer[..]), at, s)
  {
    for i := 0 to |s|
      invariant forall j | 0 <= j < buffer.Length :: buffer[j] == if at <= j < at + i then s[j - at] else old(buffer[j])
    {
      buffer[at + i] := s[i];
    }
  }

  /** The device after `data` went into the file at offset: nothing else on it differs. */
  function Written(d: seq<Sector>, e: Extent, offset: nat, data: seq<Byte>): (r: seq<Sector>)
    ensures |r| == |d|
  {
    seq(|d|, k requires 0 <= k < |d| => WrittenSector(d[k], e, k, offset, data))
  }

  function WrittenSector(s: Sector, e: Extent, k: nat, offset: nat, data: seq<Byte>): Sector {
    seq(512, i requires 0 <= i < 512 =>
      var p := e.Position(k, i);
      if offset <= p < offset + |data| then data[p - offset] else s[i])
  }

  // The sector with a chunk laid over it.
  function Patched(s: Sector, o: nat, c: seq<Byte>): Sector
    requires o + |c| <= 512
  {
    s[..o] + c + s[o + |c|..]
  }

  // One more chunk is written.
  lemma WrittenNext(d: seq<Sector>, e: Extent, offset: nat, data: seq<Byte>, n: nat, size: int)
    requires e.Fits(d) && Chunk(e, size, offset + n) > 0 && n + Chunk(e, size, offset + n) <= |data|
    ensures var c, k, o := Chunk(e, size, offset + n), e.start + (offset + n) / 512, (offset + n) % 512;
      && k < |d| && o + c <= 512
      && var w := Written(d, e, offset, data[..n]);
         w[k := Patched(w[k], o, data[n..n + c])] == Written(d, e, offset, data[..n + c])
  {
    var c, k, o := Chunk(e, size, offset + n), e.start + (offset + n) / 512, (offset + n) % 512;
    var w := Written(d, e, offset, data[..n]);
    var r := w[k := Patched(w[k], o, data[n..n + c])];
    forall j | 0 <= j < |d|
      ensures r[j] == WrittenSector(d[j], e, j, offset, data[..n + c])
    {
      forall i | 0 <= i < 512
        ensures r[j][i] == WrittenSector(d[j], e, j, offset, data[..n + c])[i]
      {
        SectorOf(e, j, i, offset + n, c);
      }
    }
  }

  // Which bytes of which sector a chunk covers.
  lemma SectorOf(e: Extent, j: nat, i: nat, at: nat, c: nat)
    requires i < 512 && at % 512 + c <= 512
    ensures at <= e.Position(j, i) < at + c <==> j == e.start + at / 512 && at % 512 <= i < at % 512 + c
  {
  }

  lemma NothingWritten(d: seq<Sector>, e: Extent, offset: nat)
    ensures Written(d, e, offset, []) == d
  {
    forall k | 0 <= k < |d|
      ensures WrittenSector(d[k], e, k, offset, []) == d[k]
    {
    }
  }

  /** inode_write_at: nothing is written while writes are denied. */
  method WriteAt(dev: Device, e: Extent, denyWriteCnt: nat, buffer: seq<Byte>, size0: int, offset0: nat, canAlloc: bool) returns (bytesWritten: nat)
    requires e.Fits(dev.sectors) && size0 <= |buffer|
    modifies dev
    ensures bytesWritten == (if denyWriteCnt > 0 then 0 else Moved(e, size0, offset0, canAlloc)) && bytesWritten <= |buffer|
    ensures dev.sectors == Written(old(dev.sectors), e, offset0, buffer[..bytesWritten])
    ensures if denyWriteCnt > 0 then bytesWritten == 0 else Count(e, size0, offset0, canAlloc, bytesWritten)
    ensures Stored(old(dev.sectors), e, offset0, buffer[..bytesWritten], dev.sectors)
  {
    MovedIs(e, size0, offset0, canAlloc);
    hide Count, Stored;
    hide Chunk, Moved, Written, Extent.Fits, Extent.Sectors, Clipped;
    var size, offset := size0, offset0;
    bytesWritten := 0;
    ghost var d := dev.sectors;
    NothingWritten(d, e, offset0);
    assert buffer[..0] == [];
    if denyWriteCnt > 0 {
      WrittenIsStored(d, e, offset0, []);
      return;
    }
    while size > 0
      invariant offset == offset0 + bytesWritten && bytesWritten + size == size0
      invariant 0 <= bytesWritten <= |buffer|
      invariant bytesWritten + Moved(e, size, offset, canAlloc) == Moved(e, size0, offset0, canAlloc)
      invariant dev.sectors == Written(d, e, offset0, buffer[..bytesWritten])
      decreases size
    {
      var sectorIdx := e.start + offset / 512;
      var sectorOfs := offset % 512;
      var chunkSize := Chunk(e, size, offset);
      ChunkThenRest(e, size, offset, canAlloc);
      if chunkSize <= 0 {
        break;
      }
      ChunkAtMost(e, size, offset);
      WrittenNext(d, e, offset0, buffer, bytesWritten, size);
      var chunk := buffer[bytesWritten..bytesWritten + chunkSize];
      if sectorOfs == 0 && chunkSize == 512 {
        assert Patched(dev.sectors[sectorIdx], sectorOfs, chunk) == chunk;
        dev.Write(sectorIdx, chunk);
      } else {
        if !canAlloc {
          break;
        }
        // The sector has other data than the chunk, so it is read first.
        assert sectorOfs > 0 || chunkSize < 512 - sectorOfs;
        var bounce := dev.Read(sectorIdx);
        bounce := Patched(bounce, sectorOfs, chunk);
        dev.Write(sectorIdx, bounce);
      }
      size := size - chunkSize;
      offset := offset + chunkSize;
      bytesWritten := bytesWritten + chunkSize;
    }
    assert Moved(e, size, offset, canAlloc) == 0 by {
      if size <= 0 { NothingToMove(e, size, offset, canAlloc); } else { ChunkThenRest(e, size, offset, canAlloc); }
    }
    WrittenIsStored(d, e, offset0, buffer[..bytesWritten]);
  }

  /* ----- what a write means for files ----- */

  /** The file itself changes like one sequence of bytes, and only where it was written. */
  lemma WriteIsUpdate(d: seq<Sector>, e: Extent, offset: nat, data: seq<Byte>)
    requires e.Fits(d) && (data == [] || offset + |data| <= e.length)
    ensures e.Fits(Written(d, e, offset, data))
    ensures Flat(Written(d, e, offset, data), e) ==
      if data == [] then Flat(d, e) else Flat(d, e)[..offset] + data + Flat(d, e)[offset + |data|..]
  {
    var r := Written(d, e, offset, data);
    forall pos | 0 <= pos < e.length
      ensures ByteAt(r, e, pos) == if offset <= pos < offset + |data| then data[pos - offset] else ByteAt(d, e, pos)
    {
      assert e.Position(e.start + pos / 512, pos % 512) == pos;
    }
  }

  /** The padding behind the end of the file is not touched. */
  lemma PaddingKept(d: seq<Sector>, e: Extent, offset: nat, data: seq<Byte>, pos: nat)
    requires e.Fits(d) && (data == [] || offset + |data| <= e.length) && e.length <= pos < 512 * e.Sectors()
    ensures ByteAt(Written(d, e, offset, data), e, pos) == ByteAt(d, e, pos)
  {
    assert e.Position(e.start + pos / 512, pos % 512) == pos;
  }

  predicate Disjoint(e: Extent, f: Extent) {
    e.start + e.Sectors() <= f.start || f.start + f.Sectors() <= e.start
  }

  /** No other file and no other sector changes. */
  lemma OthersKept(d: seq<Sector>, e: Extent, offset: nat, data: seq<Byte>)
    requires e.Fits(d) && (data == [] || offset + |data| <= e.length)
    ensures forall k | 0 <= k < |d| && !(e.start <= k < e.start + e.Sectors()) :: Written(d, e, offset, data)[k] == d[k]
    ensures forall f: Extent | f.Fits(d) && Disjoint(e, f) :: Flat(Written(d, e, offset, data), f) == Flat(d, f)
  {
    var r := Written(d, e, offset, data);
    forall k | 0 <= k < |d| && !(e.start <= k < e.start + e.Sectors())
      ensures r[k] == d[k]
    {
      forall i | 0 <= i < 512
        ensures WrittenSector(d[k], e, k, offset, data)[i] == d[k][i]
      {
      }
    }
    forall f: Extent | f.Fits(d) && Disjoint(e, f)
      ensures Flat(r, f) == Flat(d, f)
    {
      forall pos | 0 <= pos < f.length
        ensures ByteAt(r, f, pos) == ByteAt(d, f, pos)
      {
      }
    }
  }

  /** Writing inside a file and then reading the same range gives exactly the data. */
  method WriteThenRead(dev: Device, e: Extent, data: seq<Byte>, offset: nat, buffer: array<Byte>) returns (written: nat, got: nat)
    requires e.Fits(dev.sectors) && offset + |data| <= e.length && buffer.Length == |data|
    modifies dev, buffer
    ensures written == got == |data| && buffer[..] == data
  {
    hide ReadSoFar, Moved, Written;
    ghost var d := dev.sectors;
    written := WriteAt(dev, e, 0, data, |data|, offset, true);
    assert data[..written] == data;
    got := ReadAt(dev, e, buffer, |data|, offset, true);
    forall i | 0 <= i < |data|
      ensures buffer[i] == data[i]
    {
      SamePlace(e, offset + i);
      assert buffer[..][i] == dev.sectors[e.start + (offset + i) / 512][(offset + i) % 512];
    }
  }

  lemma SamePlace(e: Extent, p: nat)
    ensures 512 * (e.start + p / 512 - e.start) + p % 512 == p
  {
  }

  /** What was written is what a read returns. */
  lemma ReadBack(d: seq<Sector>, e: Extent, offset: nat, data: seq<Byte>)
    requires e.Fits(d) && data != [] && offset + |data| <= e.length
    ensures Slice(Written(d, e, offset, data), e, offset, |data|) == data
  {
    WriteIsUpdate(d, e, offset, data);
  }
}
