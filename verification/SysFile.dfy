/**
 The read and write system calls (kernel/src/fs/vfs/file.c): loops that move 512 bytes at a time through
 a kernel buffer, against one operation on the whole range.
 */
module SysFile {
  import opened Base
  import opened Feeding
  import opened Ramfs
  import opened SparseFile
  import opened UserMemory

  const COPY_BUFFER_SIZE: nat := 512
  const EACCES: int := 13
  const ENOSYS: int := 38

  /** A node: a ramfs file or directory, or a character device whose driver decides what happens. */
  class Node {
    const isChar: bool
    const file: FileNode
    const canRead: bool
    const canWrite: bool

    constructor (isChar: bool, file: FileNode, canRead: bool, canWrite: bool)
      ensures this.isChar == isChar && this.file == file && this.canRead == canRead && this.canWrite == canWrite
    {
      this.isChar, this.file, this.canRead, this.canWrite := isChar, file, canRead, canWrite;
    }

    /** ops->read; nothing is known of a driver but that it gives no more than was asked for. */
    method OpsRead(offset: nat, n: nat, chunk: array<Byte>) returns (r: int)
      requires file.Valid() && offset < TWO_64 && n <= chunk.Length && n < TWO_64
      modifies chunk, file`pages
      ensures file.Valid() && file.pages == old(file.pages) && r <= n
      ensures !isChar && !file.isFile ==> r == -EINVAL
      ensures !isChar && file.isFile ==>
                r == |FlatRead(file.Bytes(), offset, n)| && chunk[..r] == FlatRead(file.Bytes(), offset, n)
    {
      if !isChar {
        r := file.Read(offset, n, chunk);
        return;
      }
      var line: seq<Byte> := *;
      r := *;
      if r > |line| { r := |line|; }
      if r > n { r := n; }
      if r > 0 { FileNode.CopyIn(chunk, 0, line[..r]); }
    }

    /** ops->write. */
    method OpsWrite(offset: nat, data: seq<Byte>, grants: nat) returns (r: int, left: nat)
      requires file.Valid() && offset + |data| < TWO_64
      modifies file`pages, file`size
      ensures file.Valid() && r <= |data|
      ensures isChar ==> file.AsFile() == old(file.AsFile())
      ensures !isChar && !file.isFile ==> r == -EINVAL && left == grants && file.AsFile() == old(file.AsFile())
      ensures !isChar && file.isFile ==>
                0 <= r && Fed(Disk(file.AsFile(), left), r) == PutAll(Disk(old(file.AsFile()), grants), offset, data)
    {
      if !isChar {
        r, left := file.Write(offset, Some(data), grants);
        return;
      }
      r, left := *, grants;
      if r > |data| { r := |data|; }
    }
  }

  class OpenFile {
    const node: Node
    const writable: bool
    var offset: nat

    constructor (node: Node, writable: bool)
      ensures this.node == node && this.writable == writable && offset == 0
    {
      this.node, this.writable, offset := node, writable, 0;
    }
  }

  /** How many bytes from `buf` on can be copied in chunks before one crosses into the upper half. */
  function Reach(buf: nat, n: nat): nat {
    if buf + n <= ADDR_SPLIT then n
    else if buf > ADDR_SPLIT then 0
    else (ADDR_SPLIT - buf) / COPY_BUFFER_SIZE * COPY_BUFFER_SIZE
  }

  /** After `total` bytes in whole chunks, the next chunk is within reach exactly when it fits. */
  lemma ReachNext(buf: nat, n: nat, total: nat)
    requires total < n && total % COPY_BUFFER_SIZE == 0 && (total > 0 ==> buf + total <= ADDR_SPLIT)
    ensures var c := Min(n - total, COPY_BUFFER_SIZE);
            && (buf + total + c <= ADDR_SPLIT ==> total + c <= Reach(buf, n))
            && (buf + total + c > ADDR_SPLIT ==> total == Reach(buf, n))
  {
  }

  /** A chunk of a read is that part of the whole read. */
  lemma FlatReadPart(s: seq<Byte>, off: nat, n: nat, t: nat, c: nat)
    requires t + c <= n && t <= |FlatRead(s, off, n)|
    ensures var w := FlatRead(s, off, n); FlatRead(s, off + t, c) == w[t..Min(t + c, |w|)]
  {
    var w := FlatRead(s, off, n);
    var end := Min(t + c, |w|);
    if off < |s| {
      assert w == s[off..off + |w|];
      assert FlatRead(s, off + t, c) == s[off + t..off + end];
      SliceOfSlice(s, off, off + |w|, t, end);
    }
  }

  /** What a read returns when there are `n` bytes to give: as much as reaches the caller, or the fault. */
  function Reported(buf: nat, n: nat): int {
    if n > 0 && Reach(buf, n) == 0 then -EFAULT else Reach(buf, n)
  }

  /** `total` bytes of a read of `want` are with the caller. */
  ghost predicate Delivered(m0: map<nat, Byte>, buf: nat, want: seq<Byte>, total: nat, m: map<nat, Byte>) {
    && total <= |want| && total <= Reach(buf, |want|) && (total % COPY_BUFFER_SIZE == 0 || total == |want|)
    && (total > 0 ==> buf + total <= ADDR_SPLIT)
    && m == Store(m0, buf, want[..total])
  }

  /** One more chunk delivered. */
  lemma DeliverMore(m0: map<nat, Byte>, buf: nat, want: seq<Byte>, total: nat, m: map<nat, Byte>, c: nat)
    requires Delivered(m0, buf, want, total, m) && total < |want| && c == Min(|want| - total, COPY_BUFFER_SIZE)
    ensures buf + total + c <= ADDR_SPLIT ==>
              Delivered(m0, buf, want, total + c, Store(m, buf + total, want[total..total + c]))
    ensures buf + total + c > ADDR_SPLIT ==> total == Reach(buf, |want|)
  {
    ReachNext(buf, |want|, total);
    StoreConcat(m0, buf, want[..total], buf + total, want[total..total + c]);
    PrefixThenSlice(want, total, total + c);
  }

  /** The body of the loop of sys_read: one chunk from the node to the caller. */
  method ReadOnce(f: OpenFile, user: Memory, to: nat, len: nat, chunk: array<Byte>) returns (n: int, fault: bool)
    requires f.node.file.Valid() && f.offset < TWO_64 && to < TWO_64 && len <= chunk.Length < TWO_64
    modifies f`offset, user, f.node.file`pages, chunk
    ensures f.node.file.Valid() && f.node.file.pages == old(f.node.file.pages) && n <= len
    ensures fault <==> n > 0 && to + n > ADDR_SPLIT
    ensures fault || n <= 0 || f.node.isChar ==> f.offset == old(f.offset)
    ensures fault || n <= 0 ==> user.bytes == old(user.bytes)
    ensures !f.node.isChar && !f.node.file.isFile ==> n == -EINVAL
    ensures !f.node.isChar && f.node.file.isFile ==>
              var part := FlatRead(f.node.file.Bytes(), old(f.offset), len);
              && n == |part|
              && (n > 0 && !fault ==>
                    f.offset == old(f.offset) + n && user.bytes == Store(old(user.bytes), to, part))
  {
    fault := false;
    n := f.node.OpsRead(f.offset, len, chunk);
    if n > 0 {
      var c := user.CopyToUser(to, chunk[..n]);
      if c != 0 { return n, true; }
      if !f.node.isChar { f.offset := f.offset + n; }
    }
  }

  /** The next chunk is the next part of the large read, and full unless the read ends in it. */
  lemma NextPart(s: seq<Byte>, off: nat, count: nat, total: nat, want: seq<Byte>, len: nat)
    requires want == FlatRead(s, off, count) && total <= |want| && total < count
    requires len == Min(count - total, COPY_BUFFER_SIZE)
    ensures var part := FlatRead(s, off + total, len);
            && |part| == Min(|want| - total, COPY_BUFFER_SIZE) && part == want[total..total + |part|]
            && (part == [] <==> total == |want|)
  {
    FlatReadPart(s, off, count, total, len);
  }

  /** One round of that loop on a regular file, as seen from the whole read. */
  method ReadRound(f: OpenFile, user: Memory, buf: nat, count: nat, total: nat, chunk: array<Byte>,
                   ghost off0: nat, ghost m0: map<nat, Byte>, ghost want: seq<Byte>)
    returns (n: int, fault: bool)
    requires !f.node.isChar && f.node.file.isFile && f.node.file.Valid() && chunk.Length == COPY_BUFFER_SIZE
    requires buf < TWO_64 && total < count && f.offset == off0 + total < TWO_64
    requires want == FlatRead(f.node.file.Bytes(), off0, count) && Delivered(m0, buf, want, total, user.bytes)
    modifies f`offset, user, f.node.file`pages, chunk
    ensures f.node.file.Valid() && f.node.file.pages == old(f.node.file.pages) && 0 <= n <= count - total
    ensures n == 0 <==> total == |want|
    ensures n == 0 || fault ==> f.offset == old(f.offset) && user.bytes == old(user.bytes)
    ensures fault ==> n > 0 && total == Reach(buf, |want|)
    ensures !fault ==> f.offset == off0 + total + n && Delivered(m0, buf, want, total + n, user.bytes)
  {
    var len := Min(count - total, COPY_BUFFER_SIZE);
    NextPart(f.node.file.Bytes(), off0, count, total, want, len);
    ghost var m := user.bytes;
    n, fault := ReadOnce(f, user, buf + total, len, chunk);
    if n > 0 { DeliverMore(m0, buf, want, total, m, n); }
  }

  /**
   sys_read on an open file, after the descriptor is resolved. On a regular file it is one read at the
   offset, as far as the caller's buffer can be reached.
   */
  method ReadFile(f: OpenFile, user: Memory, buf: nat, count: nat) returns (r: int)
    requires f.node.file.Valid() && f.offset < TWO_64 && buf < TWO_64 && count < TWO_64
    modifies f`offset, user, f.node.file`pages
    ensures f.node.file.Valid() && f.node.file.pages == old(f.node.file.pages)
    ensures buf == 0 ==> r == -EFAULT
    ensures buf != 0 && !f.node.canRead ==> r == -ENOSYS
    ensures buf == 0 || !f.node.canRead ==> user.bytes == old(user.bytes)
    ensures f.offset == old(f.offset) + if r > 0 && !f.node.isChar then r else 0
    ensures buf != 0 && f.node.canRead && !f.node.isChar && !f.node.file.isFile ==>
              r == (if count == 0 then 0 else -EINVAL) && user.bytes == old(user.bytes)
    ensures buf != 0 && f.node.canRead && !f.node.isChar && f.node.file.isFile ==>
              var want := FlatRead(f.node.file.Bytes(), old(f.offset), count);
              r == Reported(buf, |want|) && user.bytes == Store(old(user.bytes), buf, want[..Reach(buf, |want|)])
  {
    if buf == 0 { return -EFAULT; }
    if !f.node.canRead { return -ENOSYS; }
    var chunk := new Byte[COPY_BUFFER_SIZE];
    var total: nat := 0;
    ghost var off0, m0 := f.offset, user.bytes;
    ghost var want := FlatRead(f.node.file.Bytes(), off0, count);
    var regular := !f.node.isChar && f.node.file.isFile;
    StoreNothing(user.bytes, buf);
    while total < count
      invariant f.node.file.Valid() && f.node.file.pages == old(f.node.file.pages) && f.offset < TWO_64
      invariant !regular ==> total == 0 && f.offset == off0 && user.bytes == m0
      invariant regular ==> f.offset == off0 + total && Delivered(m0, buf, want, total, user.bytes)
      decreases count - total
    {
      var n, fault;
      if regular {
        n, fault := ReadRound(f, user, buf, count, total, chunk, off0, m0, want);
      } else {
        n, fault := ReadOnce(f, user, buf + total, Min(count - total, COPY_BUFFER_SIZE), chunk);
      }
      if fault { return if total > 0 then total else -EFAULT; }
      if n > 0 {
        total := total + n;
        if f.node.isChar { break; }
      } else if n < 0 && total == 0 {
        return n;
      } else {
        break;
      }
    }
    return total;
  }

  // ---------------------------------------------------------------------------------------------
  // Writing

  /** `total` of the `n` bytes that can be fetched are done, in whole chunks. */
  ghost predicate InStep(buf: nat, count: nat, n: nat, total: nat) {
    && n == Reach(buf, count) && total <= n
    && (total % COPY_BUFFER_SIZE == 0 || total == count) && (total > 0 ==> buf + total <= ADDR_SPLIT)
  }

  lemma InStepNext(buf: nat, count: nat, n: nat, total: nat, c: nat)
    requires InStep(buf, count, n, total) && total < count && c == Min(count - total, COPY_BUFFER_SIZE)
    ensures buf + total + c <= ADDR_SPLIT ==> InStep(buf, count, n, total + c)
    ensures buf + total + c > ADDR_SPLIT ==> total == n
  {
    ReachNext(buf, count, total);
  }

  /** The first `total` bytes of the caller's data are in the file. */
  ghost predicate OnTrack(d0: Disk, off: nat, data: seq<Byte>, buf: nat, count: nat, total: nat, d: Disk) {
    InStep(buf, count, |data|, total) && PutAll(d0, off, data[..total]) == Fed(d, total)
  }

  /** Memory ran out after `total` bytes: no more can be written. */
  ghost predicate RanOut(d0: Disk, off: nat, data: seq<Byte>, total: nat, d: Disk) {
    0 < total < |data| && PutAll(d0, off, data) == Fed(d, total)
  }

  /** The caller's bytes for one chunk are that part of all of them. */
  lemma LoadPart(m: map<nat, Byte>, buf: nat, n: nat, t: nat, c: nat)
    requires t + c <= n
    ensures Load(m, buf + t, c) == Load(m, buf, n)[t..t + c]
  {
  }

  /** A write on track whose next chunk cannot be fetched has written all that can be fetched. */
  lemma WriteReached(d0: Disk, off: nat, data: seq<Byte>, buf: nat, count: nat, total: nat, d: Disk, c: nat)
    requires OnTrack(d0, off, data, buf, count, total, d)
    requires total < count && c == Min(count - total, COPY_BUFFER_SIZE) && buf + total + c > ADDR_SPLIT
    ensures total == |data| && PutAll(d0, off, data) == Fed(d, total)
  {
    InStepNext(buf, count, |data|, total, c);
    assert data[..total] == data;
  }

  lemma PutMore(d0: Disk, off: nat, data: seq<Byte>, total: nat, d: Disk, c: nat)
    requires total + c <= |data| && PutAll(d0, off, data[..total]) == Fed(d, total)
    ensures var r := PutAll(d, off + total, data[total..total + c]);
            && (r.n == c ==> PutAll(d0, off, data[..total + c]) == Fed(r.state, total + c))
            && (r.n < c ==> PutAll(d0, off, data) == Fed(r.state, total + r.n))
  {
    FeedMore(PutByte, d0, off, data, total, d, off + total, c, PutAll(d, off + total, data[total..total + c]));
  }

  /** What one more chunk does to a write on track. */
  lemma WriteMore(d0: Disk, off: nat, data: seq<Byte>, buf: nat, count: nat, total: nat, d: Disk, c: nat)
    requires OnTrack(d0, off, data, buf, count, total, d)
    requires total < count && c == Min(count - total, COPY_BUFFER_SIZE) && buf + total + c <= ADDR_SPLIT
    ensures total + c <= |data|
    ensures var r := PutAll(d, off + total, data[total..total + c]);
            && (r.n == c ==> OnTrack(d0, off, data, buf, count, total + c, r.state))
            && (r.n < c ==> total + r.n < |data| && PutAll(d0, off, data) == Fed(r.state, total + r.n))
  {
    InStepNext(buf, count, |data|, total, c);
    PutMore(d0, off, data, total, d, c);
  }

  /** After memory ran out, one more chunk does nothing. */
  lemma WriteNoMore(d0: Disk, off: nat, data: seq<Byte>, total: nat, d: Disk, chunk: seq<Byte>)
    requires RanOut(d0, off, data, total, d) && chunk != []
    ensures PutAll(d, off + total, chunk) == Fed(d, 0)
  {
    PutByteIsStubborn();
    FeedAgain(PutByte, d0, off, data, chunk);
  }

  /** A write is on track or out of memory. */
  ghost predicate Underway(d0: Disk, off: nat, data: seq<Byte>, buf: nat, count: nat, total: nat, d: Disk) {
    OnTrack(d0, off, data, buf, count, total, d) || RanOut(d0, off, data, total, d)
  }

  /** What one more chunk does to a write. */
  lemma WriteStep(m: map<nat, Byte>, d0: Disk, off: nat, data: seq<Byte>, buf: nat, count: nat, total: nat, d: Disk,
                  c: nat, r: Fed<Disk>)
    requires Underway(d0, off, data, buf, count, total, d) && data == Load(m, buf, |data|)
    requires total < count && c == Min(count - total, COPY_BUFFER_SIZE)
    requires r == PutAll(d, off + total, Load(m, buf + total, c))
    ensures buf + total + c > ADDR_SPLIT ==> PutAll(d0, off, data) == Fed(d, total) && (total == 0 ==> data == [])
    ensures buf + total + c <= ADDR_SPLIT && r.n == 0 ==> PutAll(d0, off, data) == Fed(r.state, total) && data != []
    ensures buf + total + c <= ADDR_SPLIT && r.n > 0 ==> Underway(d0, off, data, buf, count, total + r.n, r.state)
  {
    if OnTrack(d0, off, data, buf, count, total, d) {
      if buf + total + c > ADDR_SPLIT {
        WriteReached(d0, off, data, buf, count, total, d, c);
      } else {
        WriteMore(d0, off, data, buf, count, total, d, c);
        LoadPart(m, buf, |data|, total, c);
      }
    } else {
      WriteNoMore(d0, off, data, total, d, Load(m, buf + total, c));
    }
  }

  /** The body of the loop of sys_write: one chunk from the caller to the node. */
  method WriteOnce(f: OpenFile, user: Memory, from: nat, len: nat, grants: nat) returns (n: int, fault: bool, left: nat)
    requires f.node.file.Valid() && f.offset + len < TWO_64 && from < TWO_64
    modifies f`offset, f.node.file`pages, f.node.file`size
    ensures f.node.file.Valid() && n <= len
    ensures fault <==> from + len > ADDR_SPLIT
    ensures fault || f.node.isChar || !f.node.file.isFile ==> f.node.file.AsFile() == old(f.node.file.AsFile())
    ensures fault ==> n == 0 && left == grants
    ensures fault || n <= 0 || f.node.isChar ==> f.offset == old(f.offset)
    ensures !fault && !f.node.isChar && !f.node.file.isFile ==> n == -EINVAL
    ensures !fault && !f.node.isChar && f.node.file.isFile ==>
              && n >= 0 && f.offset == old(f.offset) + n
              && Fed(Disk(f.node.file.AsFile(), left), n) ==
                 PutAll(Disk(old(f.node.file.AsFile()), grants), old(f.offset), Load(user.bytes, from, len))
  {
    var c, chunk := user.CopyFromUser(from, len);
    if c != 0 { return 0, true, grants; }
    fault := false;
    n, left := f.node.OpsWrite(f.offset, chunk, grants);
    if n > 0 && !f.node.isChar { f.offset := f.offset + n; }
  }

  /** One round of that loop on a regular file, as seen from the whole write. */
  method WriteRound(f: OpenFile, user: Memory, buf: nat, count: nat, total: nat, grants: nat,
                    ghost off0: nat, ghost d0: Disk, ghost data: seq<Byte>)
    returns (n: int, fault: bool, left: nat)
    requires !f.node.isChar && f.node.file.isFile && f.node.file.Valid()
    requires buf < TWO_64 && total < count && f.offset == off0 + total && off0 + count < TWO_64
    requires data == Load(user.bytes, buf, Reach(buf, count))
    requires Underway(d0, off0, data, buf, count, total, Disk(f.node.file.AsFile(), grants))
    modifies f`offset, f.node.file`pages, f.node.file`size
    ensures f.node.file.Valid() && 0 <= n <= count - total && f.offset == off0 + total + n
    ensures fault || n == 0 ==> n == 0 && PutAll(d0, off0, data) == Fed(Disk(f.node.file.AsFile(), left), total)
    ensures fault && total == 0 ==> data == []
    ensures !fault && total == 0 && n == 0 ==> data != []
    ensures n > 0 ==> Underway(d0, off0, data, buf, count, total + n, Disk(f.node.file.AsFile(), left))
  {
    var len := Min(count - total, COPY_BUFFER_SIZE);
    ghost var d := Disk(f.node.file.AsFile(), grants);
    ghost var r := PutAll(d, off0 + total, Load(user.bytes, buf + total, len));
    WriteStep(user.bytes, d0, off0, data, buf, count, total, d, len, r);
    n, fault, left := WriteOnce(f, user, buf + total, len, grants);
    assert !fault ==> r == Fed(Disk(f.node.file.AsFile(), left), n);
  }

  /**
   sys_write on an open file, after the descriptor is resolved. On a regular file it is one write, at the
   offset, of the bytes that can be fetched from the caller.
   */
  method WriteFile(f: OpenFile, user: Memory, buf: nat, count: nat, grants: nat) returns (r: int, left: nat)
    requires f.node.file.Valid() && f.offset + count < TWO_64 && buf < TWO_64
    modifies f`offset, f.node.file`pages, f.node.file`size
    ensures f.node.file.Valid()
    ensures buf == 0 ==> r == -EFAULT
    ensures buf != 0 && !f.writable ==> r == -EACCES
    ensures buf != 0 && f.writable && !f.node.canWrite ==> r == -ENOSYS
    ensures buf == 0 || !f.writable || !f.node.canWrite || f.node.isChar || !f.node.file.isFile ==>
              f.node.file.AsFile() == old(f.node.file.AsFile())
    ensures f.offset == old(f.offset) + if r > 0 && !f.node.isChar then r else 0
    ensures buf != 0 && f.writable && f.node.canWrite && !f.node.isChar && !f.node.file.isFile ==>
              r == if count == 0 then 0
                   else if buf + Min(count, COPY_BUFFER_SIZE) > ADDR_SPLIT then -EFAULT
                   else -EINVAL
    ensures buf != 0 && f.writable && f.node.canWrite && !f.node.isChar && f.node.file.isFile ==>
              var data := Load(user.bytes, buf, Reach(buf, count));
              var p := PutAll(Disk(old(f.node.file.AsFile()), grants), old(f.offset), data);
              && p.state == Disk(f.node.file.AsFile(), left)
              && r == if count > 0 && data == [] then -EFAULT else p.n
  {
    left := grants;
    if buf == 0 { return -EFAULT, left; }
    if !f.writable { return -EACCES, left; }
    if !f.node.canWrite { return -ENOSYS, left; }
    var total: nat := 0;
    ghost var off0, d0 := f.offset, Disk(f.node.file.AsFile(), grants);
    ghost var data := Load(user.bytes, buf, Reach(buf, count));
    var regular := !f.node.isChar && f.node.file.isFile;
    while total < count
      invariant f.node.file.Valid()
      invariant !regular ==> total == 0 && f.offset == off0 && f.node.file.AsFile() == d0.file
      invariant regular ==> f.offset == off0 + total && total <= count
      invariant regular ==> Underway(d0, off0, data, buf, count, total, Disk(f.node.file.AsFile(), left))
      decreases count - total
    {
      var n, fault;
      if regular {
        n, fault, left := WriteRound(f, user, buf, count, total, left, off0, d0, data);
      } else {
        n, fault, left := WriteOnce(f, user, buf + total, Min(count - total, COPY_BUFFER_SIZE), left);
      }
      if fault { return if total > 0 then total else -EFAULT, left; }
      if n > 0 {
        total := total + n;
        if f.node.isChar { break; }
      } else if n < 0 && total == 0 {
        return n, left;
      } else {
        return total, left;
      }
    }
    assert data[..|data|] == data;
    return total, left;
  }
}
