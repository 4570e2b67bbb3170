/**
 The contents of a ramfs file as values (kernel/src/fs/ramfs/ramfs.c): a list of pages with holes, what
 it means as a flat run of bytes, and a reference writer that stores one byte at a time.

 Memory is a number of grants: how many allocation requests succeed before one fails. A writer stops at
 the first failure, so every pattern of failures is some number of grants.
 */
module SparseFile {
  import opened Base
  import opened Feeding

  type FilePage = p: seq<Byte> | |p| == PAGE_SIZE witness Zeros(PAGE_SIZE)

  datatype File = File(pages: seq<Option<FilePage>>, size: nat)

  /** The byte at position `k`; holes read as zero. */
  function ByteAt(pages: seq<Option<FilePage>>, k: nat): Byte {
    if k / PAGE_SIZE < |pages| && pages[k / PAGE_SIZE].Some? then pages[k / PAGE_SIZE].value[k % PAGE_SIZE] else 0
  }

  /** Every byte at or past the size is zero. */
  ghost predicate Clean(f: File) {
    forall k: nat :: k >= f.size ==> ByteAt(f.pages, k) == 0
  }

  /** The file as a flat run of bytes. */
  function Content(f: File): (r: seq<Byte>)
    ensures |r| == f.size && forall k :: 0 <= k < f.size ==> r[k] == ByteAt(f.pages, k)
  {
    seq(f.size, k requires 0 <= k => ByteAt(f.pages, k))
  }

  function Max(a: nat, b: nat): nat { if a < b then b else a }

  /** Overwriting a flat file, with zeros in the gap when the write starts past the end. */
  function FlatWrite(s: seq<Byte>, off: nat, data: seq<Byte>): (r: seq<Byte>)
    ensures |r| == if data == [] then |s| else Max(|s|, off + |data|)
  {
    seq(if data == [] then |s| else Max(|s|, off + |data|), k requires 0 <= k =>
      if off <= k < off + |data| then data[k - off] else if k < |s| then s[k] else 0)
  }

  /** What a reader gets: as much of the `n` bytes at `off` as there is. */
  function FlatRead(s: seq<Byte>, off: nat, n: nat): (r: seq<Byte>)
    ensures |r| <= n
  {
    if off >= |s| then [] else if n > |s| - off then s[off..] else s[off..off + n]
  }

  /** What was written is what is read there. */
  lemma WriteThenRead(s: seq<Byte>, off: nat, data: seq<Byte>)
    ensures FlatRead(FlatWrite(s, off, data), off, |data|) == data
  {
    var w := FlatWrite(s, off, data);
    if data != [] {
      assert FlatRead(w, off, |data|) == w[off..off + |data|];
      forall k | 0 <= k < |data| ensures w[off..off + |data|][k] == data[k] { }
    }
  }

  // ---------------------------------------------------------------------------------------------
  // Finding or making a page

  /** Doubling until `index` fits. */
  function Doubled(count: nat, index: nat): (r: nat)
    requires count > 0
    ensures r > index && r >= count && (r == count || r <= 2 * index)
    decreases index + 1 - count
  {
    if count > index then count else Doubled(count * 2, index)
  }

  function NewCount(count: nat, index: nat): (r: nat)
    requires count <= index
    ensures r > index && r <= Max(4, 2 * index)
  {
    Doubled(if count == 0 then 4 else count * 2, index)
  }

  function Holes(n: nat): (r: seq<Option<FilePage>>)
    ensures |r| == n && forall i :: 0 <= i < n ==> r[i] == None
  {
    seq(n, _ => None)
  }

  datatype Room = Room(pages: seq<Option<FilePage>>, grants: nat, ok: bool)

  /** The page array with room for `index`. */
  function GrowArray(pages: seq<Option<FilePage>>, index: nat, grants: nat): Room {
    if index < |pages| then Room(pages, grants, true)
    else if grants == 0 then Room(pages, 0, false)
    else Room(pages + Holes(NewCount(|pages|, index) - |pages|), grants - 1, true)
  }

  /** Page `index` made present, or what was done before memory ran out. */
  function Walk(pages: seq<Option<FilePage>>, index: nat, grants: nat): (r: Room)
    ensures r.ok ==> index < |r.pages| && r.pages[index].Some?
    ensures !r.ok ==> r.grants == 0
  {
    var a := GrowArray(pages, index, grants);
    if !a.ok || a.pages[index].Some? then a
    else if a.grants == 0 then Room(a.pages, 0, false)
    else Room(a.pages[index := Some(Zeros(PAGE_SIZE))], a.grants - 1, true)
  }

  /** Making a page changes no byte. */
  lemma WalkKeepsBytes(pages: seq<Option<FilePage>>, index: nat, grants: nat, k: nat)
    ensures ByteAt(Walk(pages, index, grants).pages, k) == ByteAt(pages, k)
  {
  }

  /** Asking again gives the same answer, for a page that is there and for one that could not be made. */
  lemma WalkAgain(pages: seq<Option<FilePage>>, index: nat, grants: nat)
    ensures var w := Walk(pages, index, grants); Walk(w.pages, index, w.grants) == w
  {
  }

  // ---------------------------------------------------------------------------------------------
  // Writing one byte at a time

  /** A file and the memory left for it. */
  datatype Disk = Disk(file: File, grants: nat)

  function Poke(pages: seq<Option<FilePage>>, k: nat, b: Byte): seq<Option<FilePage>>
    requires k / PAGE_SIZE < |pages| && pages[k / PAGE_SIZE].Some?
  {
    pages[k / PAGE_SIZE := Some(pages[k / PAGE_SIZE].value[k % PAGE_SIZE := b])]
  }

  /** One byte stored, or the page it needs could not be made. */
  function PutByte(d: Disk, off: nat, b: Byte): Took<Disk> {
    var w := Walk(d.file.pages, off / PAGE_SIZE, d.grants);
    if !w.ok then Took(Disk(File(w.pages, d.file.size), w.grants), false)
    else Took(Disk(File(Poke(w.pages, off, b), Max(d.file.size, off + 1)), w.grants), true)
  }

  /** The reference writer: byte after byte, until a page cannot be made. */
  function PutAll(d: Disk, off: nat, data: seq<Byte>): Fed<Disk> { Feed(PutByte, d, off, data) }

  lemma PokeByte(pages: seq<Option<FilePage>>, off: nat, b: Byte, k: nat)
    requires off / PAGE_SIZE < |pages| && pages[off / PAGE_SIZE].Some?
    ensures ByteAt(Poke(pages, off, b), k) == if k == off then b else ByteAt(pages, k)
  {
    if k / PAGE_SIZE == off / PAGE_SIZE && k != off { assert k % PAGE_SIZE != off % PAGE_SIZE; }
  }

  lemma PutByteAt(d: Disk, off: nat, b: Byte, k: nat)
    ensures var t := PutByte(d, off, b);
            ByteAt(t.state.file.pages, k) == if t.ok && k == off then b else ByteAt(d.file.pages, k)
  {
    WalkKeepsBytes(d.file.pages, off / PAGE_SIZE, d.grants, k);
    var w := Walk(d.file.pages, off / PAGE_SIZE, d.grants);
    if w.ok { PokeByte(w.pages, off, b, k); }
  }

  /** Once a page cannot be made it stays so. */
  lemma PutByteIsStubborn()
    ensures Stubborn(PutByte)
  {
    forall d: Disk, off: nat, b: Byte, c: Byte ensures RefusesAgain(PutByte, d, off, b, c) {
      WalkAgain(d.file.pages, off / PAGE_SIZE, d.grants);
    }
  }

  /** What is stored, and where. */
  lemma {:induction false} PutAllBytes(d: Disk, off: nat, data: seq<Byte>, k: nat)
    ensures var r := PutAll(d, off, data);
            && r.state.file.size == (if r.n == 0 then d.file.size else Max(d.file.size, off + r.n))
            && ByteAt(r.state.file.pages, k) == if off <= k < off + r.n then data[k - off] else ByteAt(d.file.pages, k)
    decreases |data|
  {
    if data != [] {
      PutByteAt(d, off, data[0], k);
      PutAllBytes(PutByte(d, off, data[0]).state, off + 1, data[1..], k);
    }
  }

  /** A sparse file behaves as a flat one: the bytes accepted overwrite the contents, and nothing else happens. */
  lemma PutAllRefines(d: Disk, off: nat, data: seq<Byte>)
    requires Clean(d.file)
    ensures var r := PutAll(d, off, data);
            Clean(r.state.file) && Content(r.state.file) == FlatWrite(Content(d.file), off, data[..r.n])
  {
    var r := PutAll(d, off, data);
    PutAllBytes(d, off, data, 0);
    var s := FlatWrite(Content(d.file), off, data[..r.n]);
    assert r.n > 0 <==> data[..r.n] != [];
    assert |s| == r.state.file.size;
    forall k | 0 <= k < r.state.file.size ensures Content(r.state.file)[k] == s[k] { PutAllBytes(d, off, data, k); }
    forall k: nat | k >= r.state.file.size ensures ByteAt(r.state.file.pages, k) == 0 { PutAllBytes(d, off, data, k); }
  }

  /** The part of a page from `o` on replaced by `data`. */
  function Spliced(page: FilePage, o: nat, data: seq<Byte>): (r: FilePage)
    requires o + |data| <= PAGE_SIZE
  {
    page[..o] + data + page[o + |data|..]
  }

  /** memcpy into one page, and the size that goes with it. */
  function FillPage(f: File, off: nat, data: seq<Byte>): File
    requires off / PAGE_SIZE < |f.pages| && f.pages[off / PAGE_SIZE].Some? && off % PAGE_SIZE + |data| <= PAGE_SIZE
  {
    var i := off / PAGE_SIZE;
    File(f.pages[i := Some(Spliced(f.pages[i].value, off % PAGE_SIZE, data))], Max(f.size, off + |data|))
  }

  /** A chunk that stays in one page needs that page only. */
  lemma {:induction false} PutInPage(d: Disk, off: nat, data: seq<Byte>)
    requires off / PAGE_SIZE < |d.file.pages| && d.file.pages[off / PAGE_SIZE].Some?
    requires data != [] && off % PAGE_SIZE + |data| <= PAGE_SIZE
    ensures PutAll(d, off, data) == Fed(Disk(FillPage(d.file, off, data), d.grants), |data|)
    decreases |data|
  {
    var i, o, p := off / PAGE_SIZE, off % PAGE_SIZE, d.file.pages[off / PAGE_SIZE].value;
    var e := PutByte(d, off, data[0]).state;
    if |data| == 1 {
      assert data[1..] == [];
      assert p[o := data[0]] == Spliced(p, o, data);
      assert e.file == FillPage(d.file, off, data);
      assert Feed(PutByte, e, off + 1, data[1..]) == Fed(e, 0);
    } else {
      assert (off + 1) / PAGE_SIZE == i && (off + 1) % PAGE_SIZE == o + 1;
      PutInPage(e, off + 1, data[1..]);
      assert Spliced(p[o := data[0]], o + 1, data[1..]) == Spliced(p, o, data);
      assert FillPage(e.file, off + 1, data[1..]) == FillPage(d.file, off, data);
    }
  }

  /** One chunk of a write as the kernel does it: one page found or made, one memcpy. */
  function PutChunk(d: Disk, off: nat, data: seq<Byte>): (r: Fed<Disk>)
    requires data != [] && off % PAGE_SIZE + |data| <= PAGE_SIZE
    ensures r.n == 0 || r.n == |data|
  {
    var w := Walk(d.file.pages, off / PAGE_SIZE, d.grants);
    if w.ok then Fed(Disk(FillPage(File(w.pages, d.file.size), off, data), w.grants), |data|)
    else Fed(Disk(File(w.pages, d.file.size), w.grants), 0)
  }

  lemma ChunkIsPutAll(d: Disk, off: nat, data: seq<Byte>)
    requires data != [] && off % PAGE_SIZE + |data| <= PAGE_SIZE
    ensures PutAll(d, off, data) == PutChunk(d, off, data)
  {
    var w := Walk(d.file.pages, off / PAGE_SIZE, d.grants);
    WalkAgain(d.file.pages, off / PAGE_SIZE, d.grants);
    if w.ok {
      var e := Disk(File(w.pages, d.file.size), w.grants);
      assert PutByte(d, off, data[0]) == PutByte(e, off, data[0]);
      PutInPage(e, off, data);
    }
  }

  /** How much of `remaining` bytes at `off` lies in one page. */
  function ChunkSize(off: nat, remaining: nat): (r: nat)
    ensures r <= remaining && off % PAGE_SIZE + r <= PAGE_SIZE && (remaining > 0 ==> r > 0)
  {
    if PAGE_SIZE - off % PAGE_SIZE > remaining then remaining else PAGE_SIZE - off % PAGE_SIZE
  }

  /** With two allocations to spend on every byte, a write takes them all. */
  lemma {:induction false} PutAllEnough(d: Disk, off: nat, data: seq<Byte>)
    requires d.grants >= 2 * |data|
    ensures PutAll(d, off, data).n == |data| && PutAll(d, off, data).state.grants >= d.grants - 2 * |data|
    decreases |data|
  {
    if data != [] {
      var t := PutByte(d, off, data[0]);
      assert t.ok && t.state.grants >= d.grants - 2;
      PutAllEnough(t.state, off + 1, data[1..]);
    }
  }

  // ---------------------------------------------------------------------------------------------
  // Histories

  /** A request to a file: bytes to write with some memory to do it, or a stretch to read. */
  datatype Request = Put(off: nat, data: seq<Byte>, grants: nat) | Get(off: nat, n: nat)
  datatype Answer = Accepted(n: nat) | Got(data: seq<Byte>)

  /** What a read copies out, byte by byte. */
  function ReadBack(f: File, off: nat, n: nat): (r: seq<Byte>)
    ensures |r| == if off >= f.size then 0 else if n > f.size - off then f.size - off else n
    ensures forall k :: 0 <= k < |r| ==> r[k] == ByteAt(f.pages, off + k)
  {
    seq<Byte>(if off >= f.size then 0 else if n > f.size - off then f.size - off else n,
              k requires 0 <= k => ByteAt(f.pages, off + k))
  }

  /** The file and the answers after a list of requests. */
  function Serve(f: File, rs: seq<Request>): (r: (File, seq<Answer>))
    ensures |r.1| == |rs|
    decreases |rs|
  {
    if rs == [] then (f, [])
    else
      match rs[0]
      case Put(off, data, grants) =>
        var p := PutAll(Disk(f, grants), off, data);
        var rest := Serve(p.state.file, rs[1..]);
        (rest.0, [Accepted(p.n)] + rest.1)
      case Get(off, n) =>
        var rest := Serve(f, rs[1..]);
        (rest.0, [Got(ReadBack(f, off, n))] + rest.1)
  }

  /** The answers are those of a flat file that starts as `s` and ends as `end`. */
  ghost predicate FlatHistory(s: seq<Byte>, rs: seq<Request>, answers: seq<Answer>, end: seq<Byte>)
    requires |answers| == |rs|
    decreases |rs|
  {
    if rs == [] then end == s
    else
      match rs[0]
      case Put(off, data, _) =>
        && answers[0].Accepted? && answers[0].n <= |data|
        && FlatHistory(FlatWrite(s, off, data[..answers[0].n]), rs[1..], answers[1..], end)
      case Get(off, n) =>
        && answers[0] == Got(FlatRead(s, off, n))
        && FlatHistory(s, rs[1..], answers[1..], end)
  }

  /** Every history of reads and writes, short writes included, is one of a flat file. */
  lemma {:induction false} HistoryIsFlat(f: File, rs: seq<Request>)
    requires Clean(f)
    ensures var r := Serve(f, rs);
            Clean(r.0) && FlatHistory(Content(f), rs, r.1, Content(r.0))
    decreases |rs|
  {
    if rs == [] { return; }
    var r := Serve(f, rs);
    match rs[0]
    case Put(off, data, grants) =>
      var p := PutAll(Disk(f, grants), off, data);
      PutAllRefines(Disk(f, grants), off, data);
      HistoryIsFlat(p.state.file, rs[1..]);
      assert r.1[1..] == Serve(p.state.file, rs[1..]).1;
    case Get(off, n) =>
      assert ReadBack(f, off, n) == FlatRead(Content(f), off, n);
      HistoryIsFlat(f, rs[1..]);
      assert r.1[1..] == Serve(f, rs[1..]).1;
  }
}
