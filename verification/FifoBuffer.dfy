// src/FIFOBuffer.cpp: a byte queue in a buffer that grows by whole blocks and is
// compacted lazily.
module FifoBuffer {

  import opened Basics

  const BLOCKSIZE: nat := 4096
  const CR: byte := 13
  const LF: byte := 10

  // The bytes allocated for size bytes of data: always at least one more.
  function Capacity(size: nat): nat {
    (size / BLOCKSIZE + 1) * BLOCKSIZE
  }

  // What ResizeBuffer rounds a size up to.
  function Ceil(size: nat): nat {
    size + (BLOCKSIZE - size % BLOCKSIZE)
  }

  lemma CeilIsCapacity(size: nat)
    ensures Ceil(size) == Capacity(size) == (size / 4096 + 1) * 4096 > size
    ensures Ceil(size) / BLOCKSIZE == size / BLOCKSIZE + 1
  {
    assert size == size / BLOCKSIZE * BLOCKSIZE + size % BLOCKSIZE;
  }

  // memcpy
  method Copy(dst: array<byte>, at: nat, src: seq<byte>)
    requires at + |src| <= dst.Length
    modifies dst
    ensures dst[at..at + |src|] == src
    ensures dst[..at] == old(dst[..at])
  {
    for i := 0 to |src|
      invariant dst[at..at + i] == src[..i]
      invariant dst[..at] == old(dst[..at])
    {
      dst[at + i] := src[i];
      assert dst[at..at + i + 1] == dst[at..at + i] + [src[i]];
    }
  }

  lemma Slices(a: array<byte>, from: nat, to: nat, n: nat)
    requires from + n <= to <= a.Length
    ensures a[from..to][..n] == a[from..from + n] && a[from..to][n..] == a[from + n..to]
  {
  }

  lemma Joined(a: array<byte>, from: nat, mid: nat, to: nat)
    requires from <= mid <= to <= a.Length
    ensures a[from..to] == a[from..mid] + a[mid..to]
  {
  }

  // The two memcpy calls of WriteUnformattedLine.
  method CopyLine(dst: array<byte>, at: nat, line: seq<byte>)
    requires at + |line| + 2 <= dst.Length
    modifies dst
    ensures dst[at..at + |line| + 2] == line + [CR, LF]
    ensures dst[..at] == old(dst[..at])
  {
    Copy(dst, at, line);
    ghost var whole := dst[..at + |line|];
    Joined(dst, 0, at, at + |line|);
    Copy(dst, at + |line|, [CR, LF]);
    assert dst[..at] == whole[..at];
    assert dst[at..at + |line|] == whole[at..];
    Joined(dst, at, at + |line|, at + |line| + 2);
  }

  class Buffer {
    var buffer: array?<byte>
    var size: nat
    var offset: nat
    ghost var read: nat          // bytes taken out so far
    ghost var copied: nat        // bytes moved by Optimize so far

    ghost predicate Valid()
      reads this, buffer
    {
      && offset <= size
      && (if buffer == null then size == 0 else size > 0 && buffer.Length == Capacity(size) > size)
      && copied + 8 * offset <= 8 * read
    }

    ghost function Contents(): seq<byte>
      requires Valid()
      reads this, buffer
    {
      if buffer == null then [] else buffer[offset..size]
    }

    constructor ()
      ensures Valid() && Contents() == [] && read == 0 && copied == 0 && buffer == null
    {
      buffer, size, offset, read, copied := null, 0, 0, 0, 0;
    }

    // Null when the new size is 0, as malloc failure would be; the caller cannot tell.
    static method ResizeBuffer(buffer: array?<byte>, oldSize: nat, newSize: nat) returns (r: array?<byte>)
      requires if buffer == null then oldSize == 0 else oldSize > 0 && buffer.Length == Capacity(oldSize)
      requires oldSize <= newSize
      ensures r == null <==> newSize == 0
      ensures r != null ==> (fresh(r) || r == buffer) && r.Length == Capacity(newSize) > newSize
      ensures buffer != null && oldSize / 4096 == newSize / 4096 ==> r == buffer
      ensures r != null && buffer != null ==> r[..oldSize] == old(buffer[..oldSize])
    {
      CeilIsCapacity(oldSize);
      CeilIsCapacity(newSize);
      var oldCeil := if oldSize != 0 then Ceil(oldSize) else 0;
      var oldBlocks, newBlocks := oldCeil / BLOCKSIZE, Ceil(newSize) / BLOCKSIZE;
      if newBlocks == oldBlocks {
        return buffer;
      }
      if newSize == 0 {
        return null;
      }
      r := new byte[newBlocks * BLOCKSIZE];
      if buffer != null {
        Copy(r, 0, buffer[..oldSize]);
      }
    }

    // What was read is kept only while it is less than a fifth; an empty buffer is freed.
    twostate predicate Compacted()
      reads this
    {
      && (offset == 0 || (offset == old(offset) && 5 * offset + 5 <= size))
      && (old(offset) > 0 && old(offset) == old(size) ==> buffer == null)
    }

    method Optimize()
      requires Valid()
      modifies this
      ensures Valid() && Contents() == old(Contents()) && read == old(read)
      ensures buffer == old(buffer) || buffer == null || fresh(buffer)
      ensures Compacted()
    {
      if offset == 0 || offset < size / 5 {
        return;
      }
      if size - offset == 0 {
        buffer, size, offset := null, 0, 0;
        return;
      }
      var newBuffer := ResizeBuffer(null, 0, size - offset);
      Copy(newBuffer, 0, buffer[offset..size]);
      copied := copied + (size - offset);
      buffer, size, offset := newBuffer, size - offset, 0;
    }

    method GetSize() returns (n: nat)
      requires Valid()
      ensures n == |Contents()|
    {
      n := size - offset;
    }

    // The data that Peek points at.
    method Peek() returns (data: seq<byte>)
      requires Valid()
      ensures data == Contents()
    {
      data := if size - offset == 0 then [] else buffer[offset..size];
    }

    method Read(bytes: nat) returns (data: seq<byte>)
      requires Valid()
      modifies this
      ensures Valid()
      ensures var n := if bytes > |old(Contents())| then |old(Contents())| else bytes;
        && data == old(Contents())[..n] && Contents() == old(Contents())[n..]
        && read == old(read) + n
      // compaction never costs more than 8 moved bytes for each byte read
      ensures copied <= 8 * read
      ensures buffer == old(buffer) || buffer == null || fresh(buffer)
    {
      hide Capacity, Ceil, Compacted, Valid, Contents;
      Optimize();
      var size := GetSize();
      data := Advance(if bytes > size then size else bytes);
    }

    // The offset moves past the bytes returned.
    method Advance(n: nat) returns (data: seq<byte>)
      requires Valid() && n <= |Contents()|
      modifies this`offset, this`read
      ensures Valid() && data == old(Contents())[..n] && Contents() == old(Contents())[n..] && read == old(read) + n
      ensures copied <= 8 * read && buffer == old(buffer)
    {
      hide Capacity, Ceil;
      var start := offset;
      if buffer != null {
        Slices(buffer, start, size, n);
      }
      offset := offset + n;
      read := read + n;
      data := if buffer == null then [] else buffer[start..start + n];
    }

    // The filled buffer takes the place of the old one, n bytes longer.
    method Install(temp: array<byte>, n: nat, ghost data: seq<byte>)
      requires Valid() && n == |data| && size + n > 0
      requires temp.Length == Capacity(size + n) > size + n
      requires temp[size..size + n] == data
      requires buffer != null ==> temp[..size] == buffer[..size]
      modifies this
      ensures Valid() && Contents() == old(Contents()) + data && buffer == temp
      ensures read == old(read) && copied == old(copied)
    {
      hide Capacity;
      if buffer != null {
        assert temp[offset..size] == temp[..size][offset..] == buffer[offset..size];
      }
      Joined(temp, offset, size, size + n);
      buffer := temp;
      size := size + n;
    }

    // Fails only for no bytes into a buffer that was never allocated or was freed.
    method Write(data: seq<byte>) returns (ok: bool)
      requires Valid()
      modifies this, buffer
      ensures Valid() && Contents() == old(Contents()) + data
      ensures ok <==> old(buffer) != null || data != []
      ensures read == old(read) && copied == old(copied)
      ensures buffer == old(buffer) || buffer == null || fresh(buffer)
    {
      hide Capacity;
      var temp := ResizeBuffer(buffer, size, size + |data|);
      if temp == null {
        return false;
      }
      Copy(temp, size, data);
      Install(temp, |data|, data);
      ok := true;
    }

    method WriteUnformattedLine(line: seq<byte>) returns (ok: bool)
      requires Valid()
      modifies this, buffer
      ensures Valid() && ok && Contents() == old(Contents()) + (line + [CR, LF])
      ensures read == old(read) && copied == old(copied)
      ensures buffer == old(buffer) || buffer == null || fresh(buffer)
    {
      hide Capacity;
      var temp := ResizeBuffer(buffer, size, size + |line| + 2);
      CopyLine(temp, size, line);
      Install(temp, |line| + 2, line + [CR, LF]);
      ok := true;
    }

    method Flush()
      requires Valid()
      modifies this
      ensures Valid() && Contents() == []
      ensures buffer == old(buffer) || buffer == null || fresh(buffer)
    {
      var n := GetSize();
      var data := Read(n);
    }
  }
}
