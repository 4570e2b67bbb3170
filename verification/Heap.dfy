/**
 The kernel heap (kernel/src/mm/heap.c): first fit over a singly linked list of blocks whose headers
 lie in the memory they describe, with splitting and forward coalescing.
 */
module Heap {
  import opened Base
  import opened Pmm
  import opened HeapLayout

  /** A 64-bit sum that must not wrap. */
  function Add64(a: nat, b: nat): (r: nat)
    requires a + b < TWO_64
    ensures r == a + b
  {
    a + b
  }

  /** HEAP_ALIGN_UP. */
  function AlignUp(size: nat): (r: nat)
    requires size + 15 < TWO_64
    ensures r % 16 == 0 && size <= r < size + 16 && r < TWO_64
  {
    Add64(size, 15) / 16 * 16
  }

  const SIZE_MAX: nat := TWO_64 - 1
  const LARGEST: nat := SIZE_MAX - HEADER - PAGE_SIZE - ALIGNMENT

  /** The payload size kmalloc looks for. */
  function Rounded(size: nat): (r: nat)
    requires size <= LARGEST
    ensures r % 16 == 0 && 16 <= r && size <= r && r + HEADER + PAGE_SIZE <= SIZE_MAX
  {
    if size == 0 then 16 else AlignUp(size)
  }

  function PagesFor(size: nat): (n: nat)
    requires size + HEADER + PAGE_SIZE <= SIZE_MAX
    ensures n > 0 && size + HEADER <= n * PAGE_SIZE && n < TWO_64
  {
    (Add64(Add64(HEADER, size), PAGE_SIZE) - 1) / PAGE_SIZE
  }

  /** Whole pages make an aligned block. */
  lemma AlignedRun(base: nat, pages: nat)
    requires base % PAGE_SIZE == 0
    ensures base % ALIGNMENT == 0 && (pages * PAGE_SIZE - HEADER) % ALIGNMENT == 0
  {
    assert base == ALIGNMENT * (base / PAGE_SIZE * 256);
    assert pages * PAGE_SIZE - HEADER == ALIGNMENT * (pages * 256 - 2);
  }

  /** There is a free block or a run of free pages for a request of `size` bytes. */
  ghost predicate Satisfiable(bs: seq<Block>, free: seq<nat>, size: nat)
    requires size <= LARGEST
  {
    || (exists j :: 0 <= j < |bs| && bs[j].free && bs[j].size >= Rounded(size))
    || (exists i :: RunAt(free, i, PagesFor(Rounded(size))))
  }

  /** Block `i` cannot hold `size` bytes, not even with what it can absorb, and nothing else can. */
  ghost predicate CannotHold(bs: seq<Block>, free: seq<nat>, i: nat, size: nat)
    requires i < |bs|
  {
    && Coalesced(bs, i)[i].size < size
    && (size > LARGEST || !Satisfiable(Coalesced(bs, i), free, size))
  }

  /** Block `i` marked as in use. */
  ghost function Used(bs: seq<Block>, i: nat): seq<Block>
    requires i < |bs|
  {
    bs[i := bs[i].(free := false)]
  }

  ghost predicate InPayload(a: nat, b: Block) { b.Payload() <= a < b.End() }

  /** The payload of block `b` reads the same in both memories. */
  ghost predicate SamePayload(mem: map<nat, Cell>, mem': map<nat, Cell>, b: Block) {
    forall a :: a in mem && InPayload(a, b) ==> a in mem' && mem'[a] == mem[a]
  }

  /** Every block in use, but the one at `apart`, stays in use with the same payload. */
  ghost predicate KeepsUsed(mem: map<nat, Cell>, bs: seq<Block>, mem': map<nat, Cell>, bs': seq<Block>, apart: nat) {
    forall b :: b in bs && !b.free && b.addr != apart ==> b in bs' && SamePayload(mem, mem', b)
  }

  /** Writing inside one block leaves the payloads of the others alone. */
  lemma OthersSame(mem: map<nat, Cell>, list: nat, bs: seq<Block>, i: nat, mem': map<nat, Cell>, k: nat)
    requires HeapOk(mem, list, bs) && i < |bs| && k < |bs| && k != i
    requires mem'.Keys == mem.Keys && forall a :: a in mem && !In(a, bs[i]) ==> mem'[a] == mem[a]
    ensures SamePayload(mem, mem', bs[k])
  {
    forall a | a in mem && InPayload(a, bs[k]) ensures mem'[a] == mem[a] {
      OneOwner(bs, mem.Keys, i, k, a);
    }
  }

  /** Splitting a free block and putting it in use disturbs no block in use. */
  lemma TakeFacts(mem: map<nat, Cell>, list: nat, bs: seq<Block>, i: nat, size: nat, mem': map<nat, Cell>)
    requires HeapOk(mem, list, bs) && i < |bs| && bs[i].free && size <= bs[i].size
    requires mem'.Keys == mem.Keys && forall a :: a in mem && !In(a, bs[i]) ==> mem'[a] == mem[a]
    ensures i < |SplitBlocks(bs, i, size)|
    ensures KeepsUsed(mem, bs, mem', Used(SplitBlocks(bs, i, size), i), 0)
    ensures forall b :: b in bs && !b.free ==> b.addr != bs[i].addr
  {
    SplitFacts(bs, i, size);
    var s := SplitBlocks(bs, i, size);
    forall b | b in bs && !b.free ensures b in Used(s, i) && SamePayload(mem, mem', b) && b.addr != bs[i].addr {
      var k :| 0 <= k < |bs| && bs[k] == b;
      HeadersApart(bs, mem.Keys, i, k);
      assert WellFormed(bs[k]) && WellFormed(bs[i]);
      OthersSame(mem, list, bs, i, mem', k);
      var k' :| 0 <= k' < |s| && s[k'] == b;
      assert Used(s, i)[k'] == b;
    }
  }

  /** The two headers a split writes are inside the old block, and not in what stays of its payload. */
  lemma SplitFrame(m0: map<nat, Cell>, m1: map<nat, Cell>, m2: map<nat, Cell>, b: Block, size: nat)
    requires size + HEADER + ALIGNMENT <= b.size && m1.Keys == m0.Keys && m2.Keys == m0.Keys
    requires forall a :: a in m0 && a != b.addr && !(Rest(b, size).addr <= a < Rest(b, size).addr + HEADER) ==>
             m1[a] == m0[a]
    requires forall a :: a in m1 && a != Rest(b, size).addr ==> m2[a] == m1[a]
    ensures forall a :: a in m2 && !In(a, b) ==> m2[a] == m0[a]
    ensures forall a :: a in m2 && a != b.addr && a < b.Payload() + size ==> m2[a] == m0[a]
  {
    forall a | a in m2 && a != b.addr && !(Rest(b, size).addr <= a < Rest(b, size).addr + HEADER)
      ensures m2[a] == m0[a]
    {
      assert a in m0 && a in m1;
    }
  }

  /** Freeing block `i` and coalescing it disturbs no other block in use. */
  lemma FreeFacts(mem: map<nat, Cell>, list: nat, bs: seq<Block>, i: nat, bs1: seq<Block>, mem': map<nat, Cell>)
    requires HeapOk(mem, list, bs) && i < |bs| && |bs1| == |bs|
    requires forall k :: 0 <= k < |bs| && k != i ==> bs1[k] == bs[k]
    requires mem'.Keys == mem.Keys && forall a :: a in mem && a != bs[i].addr ==> mem'[a] == mem[a]
    ensures KeepsUsed(mem, bs, mem', Coalesced(bs1, i), bs[i].addr)
  {
    forall b | b in bs && !b.free && b.addr != bs[i].addr ensures b in Coalesced(bs1, i) && SamePayload(mem, mem', b) {
      var k :| 0 <= k < |bs| && bs[k] == b;
      CoalescedKeepsUsed(bs1, i, k);
      forall a | a in mem && InPayload(a, b) ensures mem'[a] == mem[a] { PayloadIsNoHeader(bs, mem.Keys, k, a, i); }
    }
  }

  lemma KeepsUsedTwice(m0: map<nat, Cell>, b0: seq<Block>, m1: map<nat, Cell>, b1: seq<Block>,
                       m2: map<nat, Cell>, b2: seq<Block>, apart: nat)
    requires KeepsUsed(m0, b0, m1, b1, apart) && KeepsUsed(m1, b1, m2, b2, apart)
    ensures KeepsUsed(m0, b0, m2, b2, apart)
  {
    forall b | b in b0 && !b.free && b.addr != apart ensures b in b2 && SamePayload(m0, m2, b) {
      assert b in b1 && SamePayload(m0, m1, b) && SamePayload(m1, m2, b);
    }
  }

  /** Splitting a block in use disturbs no other block in use. */
  lemma TrimFacts(mem: map<nat, Cell>, list: nat, bs: seq<Block>, i: nat, size: nat, mem': map<nat, Cell>)
    requires HeapOk(mem, list, bs) && i < |bs| && size <= bs[i].size
    requires mem'.Keys == mem.Keys && forall a :: a in mem && !In(a, bs[i]) ==> mem'[a] == mem[a]
    ensures KeepsUsed(mem, bs, mem', SplitBlocks(bs, i, size), bs[i].addr)
  {
    SplitFacts(bs, i, size);
    forall b | b in bs && !b.free && b.addr != bs[i].addr
      ensures b in SplitBlocks(bs, i, size) && SamePayload(mem, mem', b)
    {
      var k :| 0 <= k < |bs| && bs[k] == b;
      OthersSame(mem, list, bs, i, mem', k);
    }
  }

  /** Overwriting the payload of block `j` disturbs no other block. */
  lemma FillFacts(mem: map<nat, Cell>, list: nat, bs: seq<Block>, j: nat, mem': map<nat, Cell>)
    requires HeapOk(mem, list, bs) && j < |bs| && mem'.Keys == mem.Keys
    requires forall a :: a in mem && !InPayload(a, bs[j]) ==> mem'[a] == mem[a]
    ensures KeepsUsed(mem, bs, mem', bs, bs[j].addr)
  {
    forall b | b in bs && !b.free && b.addr != bs[j].addr ensures SamePayload(mem, mem', b) {
      var k :| 0 <= k < |bs| && bs[k] == b;
      OthersSame(mem, list, bs, j, mem', k);
    }
  }

  /** What a block in use holds is still there while its payload is. */
  lemma PayloadBytes(mem: map<nat, Cell>, list: nat, bs: seq<Block>, i: nat, mem': map<nat, Cell>, n: nat)
    requires HeapOk(mem, list, bs) && i < |bs| && n <= bs[i].size
    requires forall a :: a in mem && bs[i].Payload() <= a < bs[i].Payload() + n ==> a in mem' && mem'[a] == mem[a]
    ensures SameBytes(mem, bs[i].Payload(), mem', bs[i].Payload(), n)
  {
    PayloadCells(bs, mem.Keys, i, n);
    var p := bs[i].Payload();
    forall off | off in Offsets(n) ensures p + off in mem && p + off in mem' && mem'[p + off] == mem[p + off] {
      assert p + off in mem.Keys;
    }
  }

  lemma SameBytesTwice(m0: map<nat, Cell>, p: nat, m1: map<nat, Cell>, q: nat, m2: map<nat, Cell>, r: nat,
                       n: nat, room: nat, size: nat)
    requires SameBytes(m0, p, m1, q, n) && SameBytes(m1, q, m2, r, Min(size, room)) && n <= size && n <= room
    ensures SameBytes(m0, p, m2, r, n)
  {
    forall off | off in Offsets(n) ensures off in Offsets(Min(size, room)) { }
  }

  /** Allocating block `j`, filling it and freeing block `i` disturbs no third block in use. */
  lemma MoveFacts(m0: map<nat, Cell>, list0: nat, b0: seq<Block>, i: nat, m1: map<nat, Cell>, list1: nat,
                  b1: seq<Block>, j: nat, m2: map<nat, Cell>, m3: map<nat, Cell>, b3: seq<Block>)
    returns (j': nat)
    requires HeapOk(m0, list0, b0) && i < |b0| && !b0[i].free && j < |b1| && !b1[j].free
    requires forall b :: b in b0 && !b.free ==> b.addr != b1[j].addr
    requires KeepsUsed(m0, b0, m1, b1, 0) && KeepsUsed(m1, b1, m2, b1, b1[j].addr)
    requires KeepsUsed(m2, b1, m3, b3, b0[i].addr)
    ensures j' < |b3| && b3[j'] == b1[j] && SamePayload(m2, m3, b1[j])
    ensures KeepsUsed(m0, b0, m3, b3, b0[i].addr)
  {
    assert b1[j] in b1 && b1[j].addr != b0[i].addr;
    j' :| 0 <= j' < |b3| && b3[j'] == b1[j];
    forall b | b in b0 && !b.free && b.addr != b0[i].addr ensures b in b3 && SamePayload(m0, m3, b) {
      var k :| 0 <= k < |b0| && b0[k] == b;
      assert WellFormed(b0[k]);
      assert b in b1 && SamePayload(m0, m1, b) && SamePayload(m1, m2, b) && SamePayload(m2, m3, b);
    }
  }

  lemma Shorter(mem: map<nat, Cell>, p: nat, mem': map<nat, Cell>, q: nat, n: nat, k: nat)
    requires SameBytes(mem, p, mem', q, n) && k <= n
    ensures SameBytes(mem, p, mem', q, k)
  {
    forall off | off in Offsets(k) ensures off in Offsets(n) { }
  }

  /** The frame a kernel address lies in. */
  ghost function FrameAt(hhdm: nat, a: nat): nat
    requires a >= hhdm
  {
    (a - hhdm) / PAGE_SIZE * PAGE_SIZE
  }

  /** New cells lie on frames that were free; no other page of memory was written, and none became free. */
  ghost predicate Grew(hhdm: nat, cells: set<nat>, free: seq<nat>, ram: map<nat, Page>,
                       cells': set<nat>, free': seq<nat>, ram': map<nat, Page>) {
    && cells <= cells' && ram'.Keys == ram.Keys
    && (forall a :: a in cells' && a !in cells ==> a >= hhdm && FrameAt(hhdm, a) in free)
    && (forall f :: f in free' ==> f in free)
    && (forall f :: f in ram && f !in free ==> ram'[f] == ram[f])
  }

  class KernelHeap {
    const pmm: Memory
    var mem: map<nat, Cell>
    var list: nat
    /** The blocks in list order. */
    ghost var blocks: seq<Block>

    ghost function FrameOf(a: nat): nat
      requires a >= pmm.hhdm
    {
      FrameAt(pmm.hhdm, a)
    }

    /** The heap's pages are not free pages, and no page is at the very top of the address space. */
    ghost predicate PagesApart(cells: set<nat>)
      reads pmm
    {
      && pmm.Valid() && pmm.hhdm % PAGE_SIZE == 0
      && (forall a :: a in cells ==> a >= pmm.hhdm && FrameOf(a) !in pmm.free)
      && (forall f :: f in pmm.free ==> f + pmm.hhdm + 2 * PAGE_SIZE <= TWO_64)
    }

    ghost predicate Valid()
      reads this, pmm
    {
      HeapOk(mem, list, blocks) && PagesApart(mem.Keys)
    }

    constructor (pmm: Memory)
      requires pmm.Valid() && pmm.hhdm % PAGE_SIZE == 0
      requires forall f :: f in pmm.free ==> f + pmm.hhdm + 2 * PAGE_SIZE <= TWO_64
      ensures Valid() && this.pmm == pmm && blocks == []
    {
      this.pmm, mem, list, blocks := pmm, map[], 0, [];
    }

    /** Reads the header of block `i`. */
    method ReadBlock(block: nat, ghost i: nat) returns (h: Cell)
      requires HeapOk(mem, list, blocks) && i < |blocks| && blocks[i].addr == block
      ensures block in mem && h == mem[block] == Head(blocks[i].size, blocks[i].free, NextOf(blocks, i + 1))
      ensures WellFormed(blocks[i]) && (h.next == 0 <==> i + 1 == |blocks|)
    {
      ReadHeader(mem, list, blocks, i);
      h := mem[block];
    }

    /** The loop guard of heap_block_coalesce. */
    method Absorbs(block: nat, ghost i: nat) returns (yes: bool)
      requires HeapOk(mem, list, blocks) && i < |blocks| && blocks[i].addr == block
      ensures yes == CanAbsorb(blocks, i)
    {
      var h := ReadBlock(block, i);
      if h.next == 0 { return false; }
      var n := ReadBlock(h.next, i + 1);
      return n.free && Add64(Add64(block, HEADER), h.size) == h.next;
    }

    /** The header of the block joined with its successor. */
    method JoinedHead(block: nat, ghost i: nat) returns (joined: Cell)
      requires HeapOk(mem, list, blocks) && i < |blocks| && blocks[i].addr == block && CanAbsorb(blocks, i)
      ensures joined == Head(Joined(blocks, i).size, blocks[i].free, NextOf(blocks, i + 2))
    {
      var h := ReadBlock(block, i);
      var n := ReadBlock(h.next, i + 1);
      joined := Head(Add64(h.size, Add64(HEADER, n.size)), h.free, n.next);
    }

    /** The loop body of heap_block_coalesce. */
    method AbsorbNext(block: nat, ghost i: nat)
      requires Valid() && i < |blocks| && blocks[i].addr == block && CanAbsorb(blocks, i)
      modifies this`mem, this`blocks
      ensures Valid() && blocks == Merge(old(blocks), i)
      ensures mem.Keys == old(mem.Keys) && forall a :: a in mem && a != block ==> mem[a] == old(mem[a])
    {
      var joined := JoinedHead(block, i);
      var mem' := mem[block := joined];
      MergeStep(mem, list, blocks, i, mem');
      mem := mem';
      blocks := Merge(blocks, i);
    }

    /** Absorbs the blocks that follow, while they are free and contiguous. */
    method Coalesce(block: nat, ghost i: nat)
      requires Valid() && i < |blocks| && blocks[i].addr == block
      modifies this`mem, this`blocks
      ensures Valid() && blocks == Coalesced(old(blocks), i)
      ensures mem.Keys == old(mem.Keys) && forall a :: a in mem && a != block ==> mem[a] == old(mem[a])
    {
      var more := Absorbs(block, i);
      while more
        invariant Valid() && i < |blocks| && blocks[i].addr == block
        invariant Coalesced(blocks, i) == Coalesced(old(blocks), i)
        invariant more == CanAbsorb(blocks, i)
        invariant mem.Keys == old(mem.Keys) && forall a :: a in mem && a != block ==> mem[a] == old(mem[a])
        decreases |blocks|
      {
        MergeAt(blocks, i, i);
        AbsorbNext(block, i);
        more := Absorbs(block, i);
      }
    }

    /** Writes the two headers of a split. */
    method CutOff(block: nat, size: nat, ghost i: nat) returns (rest: nat)
      requires Valid() && i < |blocks| && blocks[i].addr == block
      requires 16 <= size && size + HEADER + ALIGNMENT <= blocks[i].size && size % 16 == 0
      modifies this`mem, this`blocks
      ensures Valid() && blocks == Cut(old(blocks), i, size)
      ensures rest == block + HEADER + size && blocks[i + 1].addr == rest
      ensures mem.Keys == old(mem.Keys)
      ensures forall a :: a in mem && a != block && !(rest <= a < rest + HEADER) ==> mem[a] == old(mem[a])
    {
      var h := ReadBlock(block, i);
      rest := Add64(Add64(block, HEADER), size);
      var mem' := CutMem(mem, Block(block, h.size, h.free), h.next, size);
      CutStep(mem, list, blocks, i, size, mem');
      mem := mem';
      blocks := Cut(blocks, i, size);
    }

    /** Cuts the block down to `size` when a useful remainder is left, which coalesces with what follows it. */
    method Split(block: nat, size: nat, ghost i: nat)
      requires Valid() && i < |blocks| && blocks[i].addr == block
      requires 16 <= size <= blocks[i].size && size % 16 == 0
      modifies this`mem, this`blocks
      ensures Valid() && blocks == SplitBlocks(old(blocks), i, size)
      ensures mem.Keys == old(mem.Keys)
      // nothing but the two headers is written, both inside the old block
      ensures forall a :: a in mem && !In(a, old(blocks)[i]) ==> mem[a] == old(mem[a])
      ensures forall a :: a in mem && a != block && a < block + HEADER + size ==> mem[a] == old(mem[a])
    {
      var h := ReadBlock(block, i);
      if h.size < Add64(size, Add64(HEADER, ALIGNMENT)) { return; }
      ghost var mem0 := mem;
      var rest := CutOff(block, size, i);
      ghost var mem1 := mem;
      Coalesce(rest, i + 1);
      SplitFrame(mem0, mem1, mem, old(blocks)[i], size);
    }

    /** First fit: the first free block with room for `size` bytes, or 0. */
    method FindFit(size: nat) returns (block: nat, ghost k: nat)
      requires HeapOk(mem, list, blocks)
      ensures block == 0 ==> forall j :: 0 <= j < |blocks| ==> !(blocks[j].free && blocks[j].size >= size)
      ensures block != 0 ==> k < |blocks| && blocks[k].addr == block && blocks[k].free && blocks[k].size >= size
      ensures block != 0 ==> forall j :: 0 <= j < k ==> !(blocks[j].free && blocks[j].size >= size)
    {
      k := 0;
      block := list;
      assert blocks != [] ==> WellFormed(blocks[0]);
      while block != 0
        invariant 0 <= k <= |blocks| && block == NextOf(blocks, k)
        invariant block == 0 ==> k == |blocks|
        invariant forall j :: 0 <= j < k ==> !(blocks[j].free && blocks[j].size >= size)
        decreases |blocks| - k
      {
        var h := ReadBlock(block, k);
        if h.free && h.size >= size { return; }
        block := h.next;
        k := k + 1;
      }
    }

    /** Stores the is_free field of block `i`. */
    method SetFree(block: nat, free: bool, ghost i: nat)
      requires Valid() && i < |blocks| && blocks[i].addr == block
      modifies this`mem, this`blocks
      ensures Valid() && blocks == old(blocks)[i := old(blocks)[i].(free := free)]
      ensures mem.Keys == old(mem.Keys) && forall a :: a in mem && a != block ==> mem[a] == old(mem[a])
    {
      var h := ReadBlock(block, i);
      var mem' := mem[block := Head(h.size, free, h.next)];
      FlagStep(mem, list, blocks, i, free, mem');
      mem := mem';
      blocks := blocks[i := blocks[i].(free := free)];
    }

    /** Splits free block `i` and puts it in use. */
    method Take(block: nat, size: nat, ghost i: nat)
      requires Valid() && i < |blocks| && blocks[i].addr == block
      requires 16 <= size <= blocks[i].size && size % 16 == 0
      modifies this`mem, this`blocks
      ensures Valid() && i < |blocks|
      ensures blocks == Used(SplitBlocks(old(blocks), i, size), i)
      ensures blocks[i].addr == block && size <= blocks[i].size
      ensures mem.Keys == old(mem.Keys)
      ensures forall a :: a in mem && !In(a, old(blocks)[i]) ==> mem[a] == old(mem[a])
    {
      SplitFacts(blocks, i, size);
      ghost var b := blocks[i];
      Split(block, size, i);
      SetFree(block, false, i);
      assert In(block, b);
    }

    /** The frames of new cells are the frames just taken from the page allocator. */
    lemma NewCellFrame(phys: nat, n: nat, a: nat)
      requires pmm.hhdm % PAGE_SIZE == 0 && phys % PAGE_SIZE == 0
      requires phys + pmm.hhdm <= a < phys + pmm.hhdm + n * PAGE_SIZE
      ensures FrameOf(a) in FreedRun(phys, n)
    {
      var k := (a - pmm.hhdm - phys) / PAGE_SIZE;
      assert FrameOf(a) == phys + k * PAGE_SIZE;
      assert FreedRun(phys, n)[n - 1 - k] == FrameOf(a);
    }

    lemma NewBlock(b: Block, phys: nat, pages: nat, free0: seq<nat>, at: nat)
      requires pmm.hhdm % PAGE_SIZE == 0 && phys % PAGE_SIZE == 0 && 0 < pages && at + pages <= |free0|
      requires (phys + pmm.hhdm) % PAGE_SIZE == 0 && b == Block(phys + pmm.hhdm, pages * PAGE_SIZE - HEADER, true)
      requires FreedRun(phys, pages) == free0[at..at + pages]
      requires forall f :: f in free0 ==> 0 < f + pmm.hhdm && f + pmm.hhdm + 2 * PAGE_SIZE <= TWO_64
      ensures WellFormed(b)
    {
      AlignedRun(phys + pmm.hhdm, pages);
      var first, last := FreedRun(phys, pages)[pages - 1], FreedRun(phys, pages)[0];
      assert first == phys && last == phys + (pages - 1) * PAGE_SIZE;
      assert first in free0 && last in free0;
    }

    /** Pages taken from the free list are new to the heap, and free no more. */
    lemma NewCellsApart(phys: nat, pages: nat, at: nat, free0: seq<nat>, cells: set<nat>, extra: set<nat>)
      requires pmm.Valid() && pmm.hhdm % PAGE_SIZE == 0 && Distinct(free0) && at + pages <= |free0|
      requires pmm.free == free0[..at] + free0[at + pages..] && FreedRun(phys, pages) == free0[at..at + pages]
      requires phys % PAGE_SIZE == 0 && extra == CellsOf(phys + pmm.hhdm, pages * PAGE_SIZE)
      requires forall a :: a in cells ==> a >= pmm.hhdm && FrameOf(a) !in free0
      requires forall f :: f in free0 ==> f + pmm.hhdm + 2 * PAGE_SIZE <= TWO_64
      ensures cells !! extra && PagesApart(cells + extra)
      ensures forall a :: a in extra ==> a >= pmm.hhdm && FrameOf(a) in free0
      ensures forall f :: f in pmm.free ==> f in free0
    {
      forall a | a in extra ensures a >= pmm.hhdm && FrameOf(a) in free0 && FrameOf(a) !in pmm.free {
        NewCellFrame(phys, pages, a);
        RunLeaves(free0, at, pages, FrameOf(a));
      }
      forall f | f in pmm.free ensures f in free0 { RunLeaves(free0, at, pages, f); }
    }

    method AddPages(phys: nat, pages: nat, ghost at: nat, ghost free0: seq<nat>)
      requires HeapOk(mem, list, blocks) && pmm.Valid() && pmm.hhdm % PAGE_SIZE == 0
      requires Distinct(free0) && 0 < pages && RunAt(free0, at, pages) && pmm.free == free0[..at] + free0[at + pages..]
      requires FreedRun(phys, pages) == free0[at..at + pages] && phys % PAGE_SIZE == 0
      requires forall a :: a in mem ==> a >= pmm.hhdm && FrameOf(a) !in free0
      requires forall f :: f in free0 ==> f + pmm.hhdm + 2 * PAGE_SIZE <= TWO_64
      modifies this`mem, this`list, this`blocks
      ensures Valid() && old(mem).Keys <= mem.Keys
      ensures forall a :: a in mem && a !in old(mem) ==> a >= pmm.hhdm && FrameOf(a) in free0
      ensures forall f :: f in pmm.free ==> f in free0
      ensures blocks == [Block(phys + pmm.hhdm, pages * PAGE_SIZE - HEADER, true)] + old(blocks)
      ensures forall a :: a in old(mem) ==> a in mem && mem[a] == old(mem[a])
    {
      var b := Block(phys + pmm.hhdm, pages * PAGE_SIZE - HEADER, true);
      NewBlock(b, phys, pages, free0, at);
      NewCellsApart(phys, pages, at, free0, mem.Keys, CellsOf(b.addr, HEADER + b.size));
      var junk: nat := *;
      var mem' := GrowMem(mem, list, b, junk);
      GrowStep(mem, list, blocks, b, junk, mem');
      mem, list := mem', b.addr;
      blocks := [b] + blocks;
    }

    /** Takes pages for one more block of at least `size` bytes; 0, changing nothing, when there are none. */
    method Grow(size: nat) returns (block: nat)
      requires Valid() && size % 16 == 0 && 16 <= size && size + HEADER + PAGE_SIZE <= SIZE_MAX
      modifies this`mem, this`list, this`blocks, pmm`mem, pmm`head, pmm`free
      ensures Valid()
      ensures block == 0 <==> !exists i :: RunAt(old(pmm.free), i, PagesFor(size))
      ensures block == 0 ==> mem == old(mem) && blocks == old(blocks) && list == old(list) && pmm.free == old(pmm.free)
      ensures block != 0 ==> blocks == [Block(block, PagesFor(size) * PAGE_SIZE - HEADER, true)] + old(blocks)
      ensures forall a :: a in old(mem) ==> a in mem && mem[a] == old(mem[a])
      ensures Grew(pmm.hhdm, old(mem).Keys, old(pmm.free), old(pmm.mem), mem.Keys, pmm.free, pmm.mem)
    {
      var pages := PagesFor(size);
      ghost var free0 := pmm.free;
      ghost var at;
      var phys;
      assert Wanted(pages) == pages;
      phys, at := pmm.Alloc(pages);
      if phys == 0 { return 0; }
      block := phys + pmm.hhdm;
      AddPages(phys, pages, at, free0);
    }

    // -------------------------------------------------------------------------------------------
    // The interface

    /** The first page; without one the kernel stops. */
    method Init() returns (ok: bool)
      requires Valid() && list == 0 && blocks == []
      modifies this`mem, this`list, this`blocks, pmm`mem, pmm`head, pmm`free
      ensures Valid() && (ok <==> exists i :: RunAt(old(pmm.free), i, 1))
      ensures ok ==> |blocks| == 1 && blocks[0].free && blocks[0].size == PAGE_SIZE - HEADER
      ensures Grew(pmm.hhdm, old(mem).Keys, old(pmm.free), old(pmm.mem), mem.Keys, pmm.free, pmm.mem)
    {
      ghost var free0, at := pmm.free, 0;
      var phys;
      assert Wanted(1) == 1;
      phys, at := pmm.Alloc(1);
      if phys == 0 { return false; }
      AddPages(phys, 1, at, free0);
      ok := true;
    }

    /**
     A block of at least `size` bytes that was not in use, or 0 when the request overflows or cannot
     be met; every block in use keeps its place and its payload.
     */
    method Kmalloc(size: nat) returns (p: nat, ghost j: nat)
      requires Valid() && size < TWO_64
      modifies this`mem, this`list, this`blocks, pmm`mem, pmm`head, pmm`free
      ensures Valid()
      ensures p == 0 <==> size > LARGEST || !Satisfiable(old(blocks), old(pmm.free), size)
      ensures p == 0 ==> mem == old(mem) && blocks == old(blocks) && pmm.free == old(pmm.free)
      ensures p != 0 ==> j < |blocks| && blocks[j].Payload() == p && !blocks[j].free && size <= blocks[j].size
      ensures p != 0 ==> forall b :: b in old(blocks) && !b.free ==> b.addr != blocks[j].addr
      ensures KeepsUsed(old(mem), old(blocks), mem, blocks, 0)
      ensures Grew(pmm.hhdm, old(mem).Keys, old(pmm.free), old(pmm.mem), mem.Keys, pmm.free, pmm.mem)
    {
      j := 0;
      if size > LARGEST { return 0, 0; }
      var need := Rounded(size);
      var block;
      block, j := FindFit(need);
      if block == 0 {
        block := Grow(need);
        j := 0;
        if block == 0 { return 0, 0; }
      }
      ghost var mem1, blocks1 := mem, blocks;
      Take(block, need, j);
      TakeFacts(mem1, list, blocks1, j, need, mem);
      p := Add64(block, HEADER);
    }

    /** Frees the block whose payload is at `p`; freeing 0 does nothing. */
    method Kfree(p: nat, ghost i: nat)
      requires Valid() && (p != 0 ==> i < |blocks| && blocks[i].Payload() == p && !blocks[i].free)
      modifies this`mem, this`blocks
      ensures Valid()
      ensures p == 0 ==> mem == old(mem) && blocks == old(blocks)
      ensures p != 0 ==> blocks == Coalesced(old(blocks)[i := old(blocks)[i].(free := true)], i)
      ensures p != 0 ==> KeepsUsed(old(mem), old(blocks), mem, blocks, old(blocks)[i].addr)
      ensures mem.Keys == old(mem.Keys)
    {
      if p == 0 { return; }
      var block := p - HEADER;
      ghost var mem0, blocks0 := mem, blocks;
      SetFree(block, true, i);
      ghost var blocks1 := blocks;
      Coalesce(block, i);
      FreeFacts(mem0, list, blocks0, i, blocks1, mem);
    }

    /** memcpy between the payloads of two blocks. */
    method CopyPayload(q: nat, p: nat, n: nat, ghost j: nat, ghost i: nat)
      requires Valid() && i < |blocks| && j < |blocks|
      requires blocks[i].Payload() == p && blocks[j].Payload() == q && n <= blocks[i].size && n <= blocks[j].size
      modifies this`mem
      ensures Valid() && mem.Keys == old(mem.Keys)
      ensures SameBytes(old(mem), p, mem, q, n)
      ensures forall a :: a in mem && !(q <= a < q + n) ==> mem[a] == old(mem[a])
    {
      PayloadCells(blocks, mem.Keys, i, n);
      PayloadCells(blocks, mem.Keys, j, n);
      var mem' := CopyMem(mem, q, p, n);
      CopyFacts(mem, q, p, n);
      PayloadStep(mem, list, blocks, j, mem');
      mem := mem';
    }

    /** Cases 3 and 4 of krealloc, once the block is large enough. */
    method Trim(p: nat, size: nat, ghost i: nat)
      requires Valid() && i < |blocks| && blocks[i].Payload() == p && !blocks[i].free
      requires 16 <= size <= blocks[i].size && size % 16 == 0
      modifies this`mem, this`blocks
      ensures Valid() && i < |blocks| && blocks[i].Payload() == p && !blocks[i].free
      ensures size <= blocks[i].size <= old(blocks[i].size)
      ensures SameBytes(old(mem), p, mem, p, size)
      ensures KeepsUsed(old(mem), old(blocks), mem, blocks, p - HEADER)
      ensures mem.Keys == old(mem.Keys)
    {
      ghost var mem0, blocks0 := mem, blocks;
      Split(p - HEADER, size, i);
      SplitFacts(blocks0, i, size);
      TrimFacts(mem0, list, blocks0, i, size, mem);
      PayloadBytes(mem0, list, blocks0, i, mem, size);
    }

    /** block->size, read back after kmalloc. */
    method OldSize(p: nat, ghost k: nat) returns (n: nat)
      requires HeapOk(mem, list, blocks) && k < |blocks| && blocks[k].Payload() == p
      ensures n == blocks[k].size
    {
      var h := ReadBlock(p - HEADER, k);
      n := h.size;
    }

    method CopyAndFree(p: nat, q: nat, size: nat, ghost i: nat, ghost j: nat,
                       ghost mem0: map<nat, Cell>, ghost list0: nat, ghost blocks0: seq<Block>)
      returns (ghost j': nat)
      requires HeapOk(mem0, list0, blocks0) && i < |blocks0| && blocks0[i].Payload() == p && !blocks0[i].free
      requires blocks0[i].size < size
      requires Valid() && j < |blocks| && blocks[j].Payload() == q && !blocks[j].free && size <= blocks[j].size
      requires KeepsUsed(mem0, blocks0, mem, blocks, 0)
      requires forall b :: b in blocks0 && !b.free ==> b.addr != blocks[j].addr
      modifies this`mem, this`blocks
      ensures Valid() && j' < |blocks| && blocks[j'].Payload() == q && !blocks[j'].free && size <= blocks[j'].size
      ensures SameBytes(mem0, p, mem, q, blocks0[i].size)
      ensures KeepsUsed(mem0, blocks0, mem, blocks, p - HEADER)
      ensures mem.Keys == old(mem.Keys)
    {
      ghost var mem1, blocks1, b := mem, blocks, blocks0[i];
      assert WellFormed(blocks0[i]);
      assert b in blocks1 && SamePayload(mem0, mem1, b);
      ghost var k :| 0 <= k < |blocks1| && blocks1[k] == b;
      var n := OldSize(p, k);
      PayloadBytes(mem0, list0, blocks0, i, mem1, n);
      CopyPayload(q, p, n, j, k);
      ghost var mem2 := mem;
      SameBytesTwice(mem0, p, mem1, p, mem2, q, n, n, n);
      FillFacts(mem1, list, blocks1, j, mem2);
      Kfree(p, k);
      j' := MoveFacts(mem0, list0, blocks0, i, mem1, list, blocks1, j, mem2, mem, blocks);
      PayloadBytes(mem2, list, blocks1, j, mem, n);
      SameBytesTwice(mem0, p, mem2, q, mem, q, n, n, n);
    }

    /** Case 5 of krealloc: allocate, copy, free. */
    method Move(p: nat, size: nat, ghost i: nat) returns (q: nat, ghost j: nat)
      requires Valid() && i < |blocks| && blocks[i].Payload() == p && !blocks[i].free
      requires blocks[i].size < size < TWO_64
      modifies this`mem, this`list, this`blocks, pmm`mem, pmm`head, pmm`free
      ensures Valid() && j < |blocks|
      ensures q == 0 <==> size > LARGEST || !Satisfiable(old(blocks), old(pmm.free), size)
      ensures q == 0 ==> mem == old(mem) && blocks == old(blocks) && pmm.free == old(pmm.free) && j == i
      ensures q != 0 ==> blocks[j].Payload() == q && !blocks[j].free && size <= blocks[j].size
      ensures q != 0 ==> SameBytes(old(mem), p, mem, q, old(blocks[i].size))
      ensures KeepsUsed(old(mem), old(blocks), mem, blocks, p - HEADER)
      ensures Grew(pmm.hhdm, old(mem).Keys, old(pmm.free), old(pmm.mem), mem.Keys, pmm.free, pmm.mem)
    {
      ghost var mem0, blocks0, list0 := mem, blocks, list;
      q, j := Kmalloc(size);
      if q == 0 { return q, i; }
      j := CopyAndFree(p, q, size, i, j, mem0, list0, blocks0);
    }

    /** Cases 4 and 5 of krealloc, once the block has absorbed what it can: trimmed in place, or moved. */
    method TrimOrMove(p: nat, size: nat, ghost i: nat) returns (q: nat, ghost j: nat)
      requires Valid() && i < |blocks| && blocks[i].Payload() == p && !blocks[i].free
      requires 16 <= size < TWO_64 && size % 16 == 0
      modifies this`mem, this`list, this`blocks, pmm`mem, pmm`head, pmm`free
      ensures Valid() && j < |blocks|
      ensures q == 0 <==> old(blocks)[i].size < size &&
                          (size > LARGEST || !Satisfiable(old(blocks), old(pmm.free), size))
      ensures q != 0 ==> blocks[j].Payload() == q && !blocks[j].free && size <= blocks[j].size
      ensures q != 0 ==> SameBytes(old(mem), p, mem, q, Min(size, old(blocks)[i].size))
      ensures q == 0 ==> mem == old(mem) && blocks == old(blocks) && j == i
      ensures KeepsUsed(old(mem), old(blocks), mem, blocks, p - HEADER)
      ensures Grew(pmm.hhdm, old(mem).Keys, old(pmm.free), old(pmm.mem), mem.Keys, pmm.free, pmm.mem)
    {
      var h := ReadBlock(p - HEADER, i);
      if size <= h.size {
        Trim(p, size, i);
        return p, i;
      }
      q, j := Move(p, size, i);
    }

    /** The part of krealloc for a block that is too small: it absorbs what follows, then it is trimmed or moved. */
    method Enlarge(p: nat, size: nat, ghost i: nat) returns (q: nat, ghost j: nat)
      requires Valid() && i < |blocks| && blocks[i].Payload() == p && !blocks[i].free
      requires 16 <= size < TWO_64 && size % 16 == 0 && blocks[i].size < size
      modifies this`mem, this`list, this`blocks, pmm`mem, pmm`head, pmm`free
      ensures Valid() && j < |blocks|
      ensures q == 0 <==> CannotHold(old(blocks), old(pmm.free), i, size)
      ensures q != 0 ==> blocks[j].Payload() == q && !blocks[j].free && size <= blocks[j].size
      ensures q == 0 ==> blocks[j].Payload() == p && !blocks[j].free && blocks[j].size >= old(blocks)[i].size
      ensures SameBytes(old(mem), p, mem, if q == 0 then p else q, old(blocks)[i].size)
      ensures KeepsUsed(old(mem), old(blocks), mem, blocks, p - HEADER)
      ensures Grew(pmm.hhdm, old(mem).Keys, old(pmm.free), old(pmm.mem), mem.Keys, pmm.free, pmm.mem)
    {
      ghost var mem0, list0, blocks0, n := mem, list, blocks, blocks[i].size;
      Coalesce(p - HEADER, i);
      ghost var mem1, blocks1 := mem, blocks;
      FreeFacts(mem0, list0, blocks0, i, blocks0, mem);
      PayloadBytes(mem0, list0, blocks0, i, mem1, n);
      q, j := TrimOrMove(p, size, i);
      if q != 0 { SameBytesTwice(mem0, p, mem1, p, mem, q, n, blocks1[i].size, size); }
      KeepsUsedTwice(mem0, blocks0, mem1, blocks1, mem, blocks, p - HEADER);
    }

    /** The part of krealloc for a pointer and a rounded size other than 0. */
    method Resize(p: nat, size: nat, ghost i: nat) returns (q: nat, ghost j: nat)
      requires Valid() && i < |blocks| && blocks[i].Payload() == p && !blocks[i].free
      requires 16 <= size < TWO_64 && size % 16 == 0
      modifies this`mem, this`list, this`blocks, pmm`mem, pmm`head, pmm`free
      ensures Valid() && j < |blocks|
      ensures q == 0 <==> CannotHold(old(blocks), old(pmm.free), i, size)
      ensures q != 0 ==> blocks[j].Payload() == q && !blocks[j].free && size <= blocks[j].size
      ensures q != 0 ==> SameBytes(old(mem), p, mem, q, Min(size, old(blocks)[i].size))
      ensures q == 0 ==> blocks[j].Payload() == p && !blocks[j].free && blocks[j].size >= old(blocks)[i].size
      ensures q == 0 ==> SameBytes(old(mem), p, mem, p, old(blocks)[i].size)
      ensures KeepsUsed(old(mem), old(blocks), mem, blocks, p - HEADER)
      ensures Grew(pmm.hhdm, old(mem).Keys, old(pmm.free), old(pmm.mem), mem.Keys, pmm.free, pmm.mem)
    {
      var h := ReadBlock(p - HEADER, i);
      if size <= h.size {
        Trim(p, size, i);
        return p, i;
      }
      q, j := Enlarge(p, size, i);
    }

    /**
     krealloc in all its cases. A result other than 0 is a block in use with room for `size` bytes
     that holds the old bytes as far as they fit; 0 for a size other than 0 leaves the old block in
     use, no smaller, with its bytes; every other block in use keeps its place and its payload.
     */
    method Krealloc(p: nat, size: nat, ghost i: nat) returns (q: nat, ghost j: nat)
      requires Valid() && size < TWO_64 && (p != 0 ==> i < |blocks| && blocks[i].Payload() == p && !blocks[i].free)
      modifies this`mem, this`list, this`blocks, pmm`mem, pmm`head, pmm`free
      ensures Valid()
      ensures p != 0 && size == 0 ==> q == 0 && blocks == Coalesced(old(blocks)[i := old(blocks)[i].(free := true)], i)
      ensures p != 0 && size != 0 ==>
                (q == 0 <==> size > SIZE_MAX - 15 || CannotHold(old(blocks), old(pmm.free), i, AlignUp(size)))
      ensures p == 0 ==> (q == 0 <==> size > LARGEST || !Satisfiable(old(blocks), old(pmm.free), size))
      ensures q != 0 ==> j < |blocks| && blocks[j].Payload() == q && !blocks[j].free && size <= blocks[j].size
      ensures p != 0 && q != 0 ==> SameBytes(old(mem), p, mem, q, Min(size, old(blocks)[i].size))
      ensures p != 0 && q == 0 && size != 0 ==>
                && j < |blocks| && blocks[j].Payload() == p && !blocks[j].free && blocks[j].size >= old(blocks)[i].size
                && SameBytes(old(mem), p, mem, p, old(blocks)[i].size)
      ensures KeepsUsed(old(mem), old(blocks), mem, blocks, if p == 0 then 0 else p - HEADER)
      ensures Grew(pmm.hhdm, old(mem).Keys, old(pmm.free), old(pmm.mem), mem.Keys, pmm.free, pmm.mem)
    {
      j := i;
      if size > SIZE_MAX - 15 {
        if p != 0 { PayloadBytes(mem, list, blocks, i, mem, blocks[i].size); }
        return 0, i;
      }
      if p == 0 {
        q, j := Kmalloc(size);
        return;
      }
      if size == 0 {
        Kfree(p, i);
        return 0, i;
      }
      q, j := Resize(p, AlignUp(size), i);
      if q != 0 {
        Shorter(old(mem), p, mem, q, Min(AlignUp(size), old(blocks)[i].size), Min(size, old(blocks)[i].size));
      }
    }

    /** What the owner of a block does with it: any change within its payload. */
    method Store(p: nat, off: nat, bytes: nat, ghost j: nat)
      requires Valid() && j < |blocks| && blocks[j].Payload() == p && off in Offsets(blocks[j].size)
      modifies this`mem
      ensures Valid() && mem == old(mem)[p + off := Data(bytes)]
    {
      PayloadCells(blocks, mem.Keys, j, blocks[j].size);
      var mem' := mem[p + off := Data(bytes)];
      assert mem'.Keys == mem.Keys;
      PayloadStep(mem, list, blocks, j, mem');
      mem := mem';
    }
  }
}
