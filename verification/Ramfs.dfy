/**
 Reading and writing a ramfs file (kernel/src/fs/ramfs/ramfs.c), page by page.
 */
module Ramfs {
  import opened Base
  import opened Feeding
  import opened SparseFile

  /** As many pages as there are in 64 bits of bytes. */
  const MAX_PAGES: nat := 0x10_0000_0000_0000

  function Times2(a: nat): (r: nat)
    requires a * 2 * 8 < TWO_64
    ensures r == a * 2
  {
    a * 2
  }

  /** A page number fits in 52 bits, and doubling past it leaves a byte count that still fits in 64. */
  lemma PageNumber(offset: nat)
    requires offset < TWO_64
    ensures offset / PAGE_SIZE < MAX_PAGES
  {
  }

  /** The bytes of one chunk, read through the page array. */
  function ChunkBytes(pages: seq<Option<FilePage>>, offset: nat, n: nat): (r: seq<Byte>)
    requires offset % PAGE_SIZE + n <= PAGE_SIZE
    ensures |r| == n
    ensures forall k: nat :: k < n ==> r[k] == ByteAt(pages, offset + k)
  {
    var i, o := offset / PAGE_SIZE, offset % PAGE_SIZE;
    if i < |pages| && pages[i].Some? then pages[i].value[o..o + n] else Zeros(n)
  }

  /** The size once `actual` bytes up to `offset` are in. */
  function Grows(size: nat, actual: nat, offset: nat): nat { if actual > 0 then Max(size, offset) else size }

  class FileNode {
    const isFile: bool
    var pages: seq<Option<FilePage>>
    var size: nat

    ghost function AsFile(): File
      reads this
    {
      File(pages, size)
    }

    /** The flat contents. */
    ghost function Bytes(): seq<Byte>
      reads this
    {
      Content(File(pages, size))
    }

    ghost predicate Valid()
      reads this
    {
      Clean(File(pages, size)) && size < TWO_64 && |pages| <= 2 * MAX_PAGES
    }

    constructor (isFile: bool)
      ensures Valid() && this.isFile == isFile && Bytes() == []
    {
      this.isFile, pages, size := isFile, [], 0;
    }

    /** The doubling loop of ramfs_walk_page. */
    static method NextCount(count: nat, index: nat) returns (newCount: nat)
      requires count <= index < MAX_PAGES
      ensures newCount == NewCount(count, index) && newCount * 8 < TWO_64
    {
      newCount := if count != 0 then Times2(count) else 4;
      while newCount <= index
        invariant 0 < newCount <= 2 * MAX_PAGES && Doubled(newCount, index) == NewCount(count, index)
        decreases index + 1 - newCount
      {
        newCount := Times2(newCount);
      }
    }

    /** Finds page `index`, or makes it when `alloc` is set and memory allows. */
    method WalkPage(index: nat, alloc: bool, grants: nat) returns (found: bool, left: nat)
      requires index < MAX_PAGES && |pages| <= 2 * MAX_PAGES
      modifies this`pages
      ensures |pages| <= 2 * MAX_PAGES
      ensures alloc ==> Room(pages, left, found) == Walk(old(pages), index, grants)
      ensures !alloc ==> pages == old(pages) && left == grants && found == (index < |pages| && pages[index].Some?)
      ensures found ==> index < |pages| && pages[index].Some?
    {
      left := grants;
      if index >= |pages| {
        if !alloc { return false, left; }
        var newCount := NextCount(|pages|, index);
        if left == 0 { return false, 0; }
        left := left - 1;
        pages := pages + Holes(newCount - |pages|);
      }
      if pages[index].None? {
        if !alloc || left == 0 { return false, left; }
        left := left - 1;
        pages := pages[index := Some(Zeros(PAGE_SIZE))];
      }
      found := true;
    }

    lemma WantedChunk(offset0: nat, at: nat, n: nat, want: seq<Byte>, bytes: seq<Byte>)
      requires offset0 + at + n <= size && at + n <= |want| && offset0 + |want| <= size
      requires want == Bytes()[offset0..offset0 + |want|]
      requires (offset0 + at) % PAGE_SIZE + n <= PAGE_SIZE && bytes == ChunkBytes(pages, offset0 + at, n)
      ensures want[..at] + bytes == want[..at + n]
    {
      forall k | 0 <= k < n ensures bytes[k] == want[at + k] {
        assert bytes[k] == ByteAt(pages, offset0 + at + k);
      }
    }

    /** memcpy. */
    static method CopyIn(buffer: array<Byte>, at: nat, bytes: seq<Byte>)
      requires at + |bytes| <= buffer.Length
      modifies buffer
      ensures buffer[..] == old(buffer[..at]) + bytes + old(buffer[at + |bytes|..])
    {
      forall k | 0 <= k < |bytes| { buffer[at + k] := bytes[k]; }
      assert forall k :: at <= k < at + |bytes| ==> buffer[k] == bytes[k - at];
    }

    /** One chunk of a read: the page's bytes, or zeros where there is no page. */
    method ReadChunk(offset: nat, n: nat) returns (bytes: seq<Byte>)
      requires |pages| <= 2 * MAX_PAGES && offset / PAGE_SIZE < MAX_PAGES && offset % PAGE_SIZE + n <= PAGE_SIZE
      modifies this`pages
      ensures pages == old(pages) && bytes == ChunkBytes(pages, offset, n)
    {
      var index := offset / PAGE_SIZE;
      var found, _ := WalkPage(index, false, 0);
      if found { return pages[index].value[offset % PAGE_SIZE..offset % PAGE_SIZE + n]; }
      return Zeros(n);
    }

    /** The loop of ramfs_ops_read. */
    method ReadLoop(offset0: nat, n: nat, buffer: array<Byte>, ghost want: seq<Byte>)
      requires Valid() && offset0 + n <= size && n <= buffer.Length && want == Bytes()[offset0..offset0 + n]
      modifies buffer, this`pages
      ensures pages == old(pages) && buffer[..n] == want && buffer[n..] == old(buffer[n..])
    {
      var offset, remaining, at := offset0, n, 0;
      while remaining > 0
        invariant 0 <= remaining && at + remaining == n && offset == offset0 + at
        invariant pages == old(pages) && buffer[..at] == want[..at]
        invariant buffer[n..] == old(buffer[n..])
      {
        PageNumber(offset);
        var chunk := ChunkSize(offset, remaining);
        var bytes := ReadChunk(offset, chunk);
        WantedChunk(offset0, at, chunk, want, bytes);
        ghost var was := buffer[..];
        CopyIn(buffer, at, bytes);
        assert buffer[..at + chunk] == want[..at] + bytes;
        assert buffer[n..] == was[n..];
        offset, at, remaining := offset + chunk, at + chunk, remaining - chunk;
      }
    }

    /** Reads up to `count` bytes at `offset0`; nothing but the buffer changes, and no page is made. */
    method Read(offset0: nat, count: nat, buffer: array?<Byte>) returns (r: int)
      requires Valid() && offset0 < TWO_64 && count < TWO_64 && (buffer != null ==> count <= buffer.Length)
      modifies buffer, this`pages
      ensures Valid() && pages == old(pages)
      ensures !isFile || buffer == null ==> r == -EINVAL
      ensures !isFile && buffer != null ==> buffer[..] == old(buffer[..])
      ensures isFile && buffer != null ==>
                r == |FlatRead(Bytes(), offset0, count)| && buffer[..r] == FlatRead(Bytes(), offset0, count) &&
                buffer[r..] == old(buffer[r..])
    {
      if !isFile || buffer == null { return -EINVAL; }
      if offset0 >= size { return 0; }
      var maxSize := size - offset0;
      var n := if count > maxSize then maxSize else count;
      ReadLoop(offset0, n, buffer, FlatRead(Bytes(), offset0, count));
      return n;
    }

    /** One chunk of a write. */
    method WriteChunk(offset: nat, bytes: seq<Byte>, grants: nat, ghost d: Disk) returns (found: bool, left: nat)
      requires |pages| <= 2 * MAX_PAGES && offset / PAGE_SIZE < MAX_PAGES
      requires bytes != [] && offset % PAGE_SIZE + |bytes| <= PAGE_SIZE
      requires d.file.pages == pages && d.grants == grants
      modifies this`pages
      ensures |pages| <= 2 * MAX_PAGES
      ensures PutChunk(d, offset, bytes) ==
              if found then Fed(Disk(File(pages, Max(d.file.size, offset + |bytes|)), left), |bytes|)
              else Fed(Disk(File(pages, d.file.size), left), 0)
    {
      var index := offset / PAGE_SIZE;
      found, left := WalkPage(index, true, grants);
      if found { pages := pages[index := Some(Spliced(pages[index].value, offset % PAGE_SIZE, bytes))]; }
    }

    /** The body of that loop. */
    method NextChunk(data: seq<Byte>, actual: nat, offset: nat, chunk: nat, grants: nat, ghost disk: Disk,
                     ghost offset0: nat)
      returns (found: bool, left: nat)
      requires 0 < chunk && actual + chunk <= |data| && offset == offset0 + actual
      requires offset % PAGE_SIZE + chunk <= PAGE_SIZE
      requires |pages| <= 2 * MAX_PAGES && offset / PAGE_SIZE < MAX_PAGES
      requires PutAll(disk, offset0, data[..actual]) == Fed(Disk(File(pages, Grows(size, actual, offset)), grants),
                                                            actual)
      modifies this`pages
      ensures |pages| <= 2 * MAX_PAGES
      ensures found ==>
                PutAll(disk, offset0, data[..actual + chunk]) ==
                Fed(Disk(File(pages, Grows(size, actual + chunk, offset + chunk)), left), actual + chunk)
      ensures !found ==>
                PutAll(disk, offset0, data) == Fed(Disk(File(pages, Grows(size, actual, offset)), left), actual)
    {
      ghost var d := Disk(File(pages, Grows(size, actual, offset)), grants);
      var bytes := data[actual..actual + chunk];
      ghost var r := PutChunk(d, offset, bytes);
      ChunkIsPutAll(d, offset, bytes);
      FeedMore(PutByte, disk, offset0, data, actual, d, offset, chunk, r);
      found, left := WriteChunk(offset, bytes, grants, d);
    }

    /** The loop of ramfs_ops_write. */
    method WriteLoop(offset0: nat, data: seq<Byte>, grants: nat) returns (actual: nat, offset: nat, left: nat)
      requires Valid() && offset0 + |data| < TWO_64
      modifies this`pages
      ensures actual <= |data| && offset == offset0 + actual && |pages| <= 2 * MAX_PAGES
      ensures PutAll(Disk(File(old(pages), size), grants), offset0, data) ==
              Fed(Disk(File(pages, Grows(size, actual, offset)), left), actual)
    {
      ghost var disk := Disk(File(pages, size), grants);
      var remaining: nat := |data|;
      actual, offset, left := 0, offset0, grants;
      while remaining > 0
        invariant actual + remaining == |data| && offset == offset0 + actual && |pages| <= 2 * MAX_PAGES
        invariant PutAll(disk, offset0, data[..actual]) == Fed(Disk(File(pages, Grows(size, actual, offset)), left),
                                                               actual)
        decreases remaining
      {
        PageNumber(offset);
        var chunk := ChunkSize(offset, remaining);
        var found;
        found, left := NextChunk(data, actual, offset, chunk, left, disk, offset0);
        if !found { return; }
        actual, offset, remaining := actual + chunk, offset + chunk, remaining - chunk;
      }
      assert data[..actual] == data;
    }

    /**
     Writes at `offset0` as much of the buffer as memory allows, with `grants` allocations to spend;
     no buffer stands for NULL.
     */
    method Write(offset0: nat, buffer: Option<seq<Byte>>, grants: nat) returns (r: int, left: nat)
      requires Valid() && offset0 < TWO_64 && (buffer.Some? ==> offset0 + |buffer.value| < TWO_64)
      modifies this`pages, this`size
      ensures Valid()
      ensures !isFile || buffer.None? ==> r == -EINVAL && left == grants && AsFile() == old(AsFile())
      ensures isFile && buffer.Some? ==>
                && 0 <= r <= |buffer.value|
                && Fed(Disk(AsFile(), left), r) == PutAll(Disk(old(AsFile()), grants), offset0, buffer.value)
      ensures isFile && buffer.Some? ==> Bytes() == FlatWrite(old(Bytes()), offset0, buffer.value[..r])
    {
      if !isFile || buffer.None? { return -EINVAL, grants; }
      ghost var disk := Disk(AsFile(), grants);
      var actual, offset;
      actual, offset, left := WriteLoop(offset0, buffer.value, grants);
      if actual > 0 && offset > size { size := offset; }
      PutAllRefines(disk, offset0, buffer.value);
      r := actual;
    }
  }
}
