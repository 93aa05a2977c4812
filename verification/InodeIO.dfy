/** filesys/inode.c: byte-granular reads and writes of a file, done in whole
    sectors of a block device. */
module InodeIO {
  type Byte = x: nat | x < 256

  function Splice(s: seq<Byte>, p: nat, d: seq<Byte>): (r: seq<Byte>)
    requires p + |d| <= |s|
    ensures |r| == |s|
    ensures forall k :: 0 <= k < |s| ==> r[k] == if p <= k < p + |d| then d[k - p] else s[k]
  {
    s[..p] + d + s[p + |d|..]
  }

  // Two adjacent writes are one.
  lemma SpliceJoin(s: seq<Byte>, p: nat, d: seq<Byte>, e: seq<Byte>)
    requires p + |d| + |e| <= |s|
    ensures Splice(Splice(s, p, d), p + |d|, e) == Splice(s, p, d + e)
  {}

  // Writing a patched copy of a stretch patches the whole.
  lemma SpliceInner(s: seq<Byte>, p: nat, n: nat, o: nat, d: seq<Byte>)
    requires p + n <= |s| && o + |d| <= n
    ensures Splice(s, p, Splice(s[p..p + n], o, d)) == Splice(s, p + o, d)
  {}

  // What a read or write of size bytes at offset covers: nothing past the end.
  function Count(size: int, offset: nat, length: nat): nat {
    var left := if length < offset then 0 else length - offset;
    if size <= 0 then 0 else if size < left then size else left
  }

  /** A transfer never goes past the end of the file or beyond what was asked
      for, and it is short only at the end. */
  lemma CountFits(size: int, offset: nat, length: nat)
    ensures var n := Count(size, offset, length);
            && (n > 0 ==> offset + n <= length && n <= size)
            && (size > 0 ==> n == size || offset + n >= length)
  {}

  // Without a bounce buffer only whole sectors at the front are transferred.
  function Transfer(size: int, offset: nat, length: nat, bounceOk: bool): nat {
    var n := Count(size, offset, length);
    if bounceOk then n else if offset % 512 == 0 then n - n % 512 else 0
  }

  /** Without a bounce buffer, whole sectors from a sector's start on, as many as
      are asked for and there. */
  lemma TransferFits(size: int, offset: nat, length: nat, bounceOk: bool)
    ensures var n := Transfer(size, offset, length, bounceOk);
            && (n > 0 ==> offset + n <= length && n <= size)
            && (bounceOk && size > 0 ==> n == size || offset + n >= length)
            && (!bounceOk && n > 0 ==> offset % 512 == 0 && n % 512 == 0)
            && (!bounceOk && offset % 512 == 0 && size > 0 ==> n + 512 > size || offset + n + 512 > length)
  {}

  // n bytes have been transferred so far.
  predicate Progress(n: nat, size: int, offset: nat, length: nat, bounceOk: bool) {
    && n <= Count(size, offset, length)
    && (n > 0 ==> offset + n <= length)
    && (!bounceOk && n > 0 ==> offset % 512 == 0 && n % 512 == 0)
  }

  function Chunk(size: int, inodeLeft: int, sectorLeft: int): int {
    var minLeft := if inodeLeft < sectorLeft then inodeLeft else sectorLeft;
    if size < minLeft then size else minLeft
  }

  // One more chunk: either all of it lies in one sector of the file, or the
  // transfer is over.
  lemma NextChunk(n: nat, size: int, offset: nat, length: nat, bounceOk: bool)
    requires Progress(n, size, offset, length, bounceOk) && size - n > 0
    ensures var ofs := (offset + n) % 512; var chunk := Chunk(size - n, length - (offset + n), 512 - ofs);
            if chunk <= 0 || !(bounceOk || (ofs == 0 && chunk == 512))
            then n == Transfer(size, offset, length, bounceOk)
            else ofs + chunk <= 512 && Progress(n + chunk, size, offset, length, bounceOk)
  {}

  // The sector of a byte before the end is one of the file's.
  lemma SectorIn(at: nat, length: nat)
    requires at < length
    ensures at / 512 < (length + 511) / 512
  {}

  lemma AtEnd(n: nat, size: int, offset: nat, length: nat, bounceOk: bool)
    requires Progress(n, size, offset, length, bounceOk) && size - n <= 0
    ensures n == Transfer(size, offset, length, bounceOk)
  {}

  // t is s with the first n bytes of the buffer written at p.
  ghost predicate Wrote(s: seq<Byte>, t: seq<Byte>, p: nat, buffer: seq<Byte>, n: nat) {
    && |t| == |s| && n <= |buffer|
    && (n == 0 ==> t == s)
    && (n > 0 ==> p + n <= |s| && t == Splice(s, p, buffer[..n]))
  }

  // The bytes at p are d, if there are any.
  predicate SliceAt(s: seq<Byte>, p: nat, d: seq<Byte>) {
    |d| > 0 ==> p + |d| <= |s| && d == s[p..p + |d|]
  }

  lemma SliceJoin(s: seq<Byte>, p: nat, d: seq<Byte>, e: seq<Byte>)
    requires SliceAt(s, p, d) && SliceAt(s, p + |d|, e) && |e| > 0
    ensures SliceAt(s, p, d + e)
  {}

  class Device {
    var bytes: seq<Byte>

    constructor (sectors: nat)
      ensures |bytes| == 512 * sectors && forall i :: 0 <= i < |bytes| ==> bytes[i] == 0
    {
      bytes := seq(512 * sectors, _ => 0);
    }

    method BlockRead(sector: nat) returns (data: seq<Byte>)
      requires 512 * sector + 512 <= |bytes|
      ensures data == bytes[512 * sector..512 * sector + 512]
    {
      data := bytes[512 * sector..512 * sector + 512];
    }

    method BlockWrite(sector: nat, data: seq<Byte>)
      requires 512 * sector + 512 <= |bytes| && |data| == 512
      modifies this
      ensures bytes == Splice(old(bytes), 512 * sector, data)
    {
      bytes := Splice(bytes, 512 * sector, data);
    }

    /** inode_read_at(): the bytes read are the file's, seen as one flat array;
        the loop stops early only at the end of the file, or where it needs a
        bounce buffer and there is no memory for one. */
    method ReadAt(start: nat, length: nat, size: int, offset: nat, bounceOk: bool) returns (data: seq<Byte>)
      requires 512 * (start + (length + 511) / 512) <= |bytes|
      ensures |data| == Transfer(size, offset, length, bounceOk)
      ensures |data| > 0 ==> |data| <= size && offset + |data| <= length && 512 * start + offset + |data| <= |bytes|
      ensures bounceOk && size > 0 ==> |data| == size || offset + |data| >= length
      ensures !bounceOk && |data| > 0 ==> offset % 512 == 0 && |data| % 512 == 0
      ensures !bounceOk && offset % 512 == 0 && size > 0 ==> |data| + 512 > size || offset + |data| + 512 > length
      ensures SliceAt(bytes, 512 * start + offset, data)
      ensures forall k :: 0 <= k < |data| ==> data[k] == bytes[512 * start + offset + k]
    {
      TransferFits(size, offset, length, bounceOk);
      data := [];
      var left, at := size, offset;
      while left > 0
        invariant Progress(|data|, size, offset, length, bounceOk)
        invariant left == size - |data| && at == offset + |data|
        invariant SliceAt(bytes, 512 * start + offset, data)
      {
        NextChunk(|data|, size, offset, length, bounceOk);
        var sectorIdx, sectorOfs := start + at / 512, at % 512;
        var chunk := Chunk(left, length - at, 512 - sectorOfs);
        if chunk <= 0 {
          break;
        }
        if !bounceOk && !(sectorOfs == 0 && chunk == 512) {
          break;
        }
        SectorIn(at, length);
        data := ReadChunk(sectorIdx, sectorOfs, data, chunk, 512 * start + offset);
        left := left - chunk;
        at := at + chunk;
      }
      if left <= 0 { AtEnd(|data|, size, offset, length, bounceOk); }
    }

    // The next chunk of a read at device offset p: straight into the caller's
    // buffer, or by way of a bounce buffer.
    method ReadChunk(sectorIdx: nat, sectorOfs: nat, data: seq<Byte>, chunk: nat, ghost p: nat)
        returns (more: seq<Byte>)
      requires SliceAt(bytes, p, data) && chunk > 0
      requires 512 * sectorIdx + 512 <= |bytes| && sectorOfs + chunk <= 512 && p + |data| == 512 * sectorIdx + sectorOfs
      ensures |more| == |data| + chunk && SliceAt(bytes, p, more)
    {
      var sector := BlockRead(sectorIdx);
      var piece := if sectorOfs == 0 && chunk == 512 then sector else sector[sectorOfs..sectorOfs + chunk];
      assert SliceAt(bytes, p + |data|, piece);
      SliceJoin(bytes, p, data, piece);
      more := data + piece;
    }

    /** inode_write_at(): the file's bytes from offset on become those of the
        buffer, and no other byte of the device changes. */
    method WriteAt(start: nat, length: nat, denyWriteCnt: nat, buffer: seq<Byte>, offset: nat, bounceOk: bool)
        returns (written: nat)
      requires 512 * (start + (length + 511) / 512) <= |bytes|
      modifies this
      ensures written == if denyWriteCnt > 0 then 0 else Transfer(|buffer|, offset, length, bounceOk)
      ensures denyWriteCnt > 0 ==> written == 0
      ensures written <= |buffer| && |bytes| == |old(bytes)| && (written > 0 ==> offset + written <= length)
      ensures denyWriteCnt == 0 && bounceOk && buffer != [] ==> written == |buffer| || offset + written >= length
      ensures !bounceOk && written > 0 ==> offset % 512 == 0 && written % 512 == 0
      ensures denyWriteCnt == 0 && !bounceOk && offset % 512 == 0 && buffer != [] ==>
                written + 512 > |buffer| || offset + written + 512 > length
      ensures Wrote(old(bytes), bytes, 512 * start + offset, buffer, written)
      ensures forall i :: 0 <= i < |bytes| ==>
                bytes[i] == if 0 <= i - 512 * start - offset < written then buffer[i - 512 * start - offset]
                            else old(bytes)[i]
    {
      TransferFits(|buffer|, offset, length, bounceOk);
      if denyWriteCnt > 0 {
        return 0;
      }
      written := WriteLoop(start, length, buffer, offset, bounceOk);
    }

    method WriteLoop(start: nat, length: nat, buffer: seq<Byte>, offset: nat, bounceOk: bool) returns (written: nat)
      requires 512 * (start + (length + 511) / 512) <= |bytes|
      modifies this
      ensures written == Transfer(|buffer|, offset, length, bounceOk)
      ensures Wrote(old(bytes), bytes, 512 * start + offset, buffer, written)
    {
      written := 0;
      var left, at := |buffer|, offset;
      while left > 0
        invariant Progress(written, |buffer|, offset, length, bounceOk)
        invariant left == |buffer| - written && at == offset + written
        invariant Wrote(old(bytes), bytes, 512 * start + offset, buffer, written)
      {
        NextChunk(written, |buffer|, offset, length, bounceOk);
        var sectorIdx, sectorOfs := start + at / 512, at % 512;
        var chunk := Chunk(left, length - at, 512 - sectorOfs);
        if chunk <= 0 {
          break;
        }
        if !bounceOk && !(sectorOfs == 0 && chunk == 512) {
          break;
        }
        SectorIn(at, length);
        WriteChunk(sectorIdx, sectorOfs, buffer, written, chunk, 512 * start + offset, old(bytes));
        left := left - chunk;
        at := at + chunk;
        written := written + chunk;
      }
      if left <= 0 { AtEnd(written, |buffer|, offset, length, bounceOk); }
    }

    // The next chunk of a write at device offset p that began with the bytes s.
    method WriteChunk(sectorIdx: nat, sectorOfs: nat, buffer: seq<Byte>, written: nat, chunk: nat, ghost p: nat,
                      ghost s: seq<Byte>)
      requires Wrote(s, bytes, p, buffer, written) && written + chunk <= |buffer| && chunk > 0
      requires 512 * sectorIdx + 512 <= |bytes| && sectorOfs + chunk <= 512
      requires p + written == 512 * sectorIdx + sectorOfs
      modifies this
      ensures Wrote(s, bytes, p, buffer, written + chunk)
    {
      ghost var before := bytes;
      WritePiece(sectorIdx, sectorOfs, buffer[written..written + chunk]);
      SpliceNext(s, before, p, buffer, written, chunk);
    }

    // Straight from the caller's buffer, or by way of a bounce buffer, into
    // which what lies around the piece is read first.
    method WritePiece(sectorIdx: nat, sectorOfs: nat, piece: seq<Byte>)
      requires 512 * sectorIdx + 512 <= |bytes| && sectorOfs + |piece| <= 512
      modifies this
      ensures bytes == Splice(old(bytes), 512 * sectorIdx + sectorOfs, piece)
    {
      if sectorOfs == 0 && |piece| == 512 {
        BlockWrite(sectorIdx, piece);
      } else {
        var bounce: seq<Byte> := seq(512, _ => 0);
        if sectorOfs > 0 || |piece| < 512 - sectorOfs {
          bounce := BlockRead(sectorIdx);
        }
        SpliceInner(bytes, 512 * sectorIdx, 512, sectorOfs, piece);
        bounce := Splice(bounce, sectorOfs, piece);
        BlockWrite(sectorIdx, bounce);
      }
    }
  }

  /** What was written is what a read of the same place gives. */
  lemma WriteThenRead(s: seq<Byte>, t: seq<Byte>, p: nat, buffer: seq<Byte>, n: nat, d: seq<Byte>)
    requires Wrote(s, t, p, buffer, n) && SliceAt(t, p, d) && |d| == n
    ensures d == buffer[..n]
  {}

  lemma SpliceNext(s: seq<Byte>, t: seq<Byte>, p: nat, buffer: seq<Byte>, n: nat, chunk: nat)
    requires n + chunk <= |buffer| && p + n + chunk <= |s|
    requires t == if n == 0 then s else Splice(s, p, buffer[..n])
    ensures Splice(t, p + n, buffer[n..n + chunk]) == Splice(s, p, buffer[..n + chunk])
  {
    if n > 0 {
      SpliceJoin(s, p, buffer[..n], buffer[n..n + chunk]);
      assert buffer[..n] + buffer[n..n + chunk] == buffer[..n + chunk];
    }
  }
}
