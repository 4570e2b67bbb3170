/**
 The kernel heap as a value (kernel/src/mm/heap.c): a list of blocks, each a 32-byte header followed
 by its payload, that together tile the memory taken from the page allocator.
 */
module HeapLayout {
  import opened Base

  const HEADER: nat := 32
  const ALIGNMENT: nat := 16

  datatype Block = Block(addr: nat, size: nat, free: bool) {
    function Payload(): nat { addr + HEADER }
    function End(): nat { addr + HEADER + size }
  }

  /** Header and payload aligned, the payload not empty, the end far enough from the top of memory. */
  ghost predicate WellFormed(b: Block) {
    && 0 < b.addr && b.addr % ALIGNMENT == 0
    && ALIGNMENT <= b.size && b.size % ALIGNMENT == 0
    && b.End() + PAGE_SIZE <= TWO_64
  }

  ghost predicate Apart(b: Block, c: Block) { b.End() <= c.addr || c.End() <= b.addr }

  /** Address `a` belongs to block `b`, header included. */
  ghost predicate In(a: nat, b: Block) { b.addr <= a < b.End() }

  ghost predicate Covered(bs: seq<Block>, a: nat) { exists i :: 0 <= i < |bs| && In(a, bs[i]) }

  ghost predicate Disjoint(bs: seq<Block>) {
    forall i, j :: 0 <= i < j < |bs| ==> Apart(bs[i], bs[j])
  }

  /** The blocks are disjoint and cover exactly the given 16-byte cells. */
  ghost predicate Tiled(bs: seq<Block>, cells: set<nat>) {
    && (forall i :: 0 <= i < |bs| ==> WellFormed(bs[i]))
    && Disjoint(bs)
    && (forall a :: a in cells ==> a % ALIGNMENT == 0 && Covered(bs, a))
    && (forall a: nat :: a % ALIGNMENT == 0 && Covered(bs, a) ==> a in cells)
  }

  // ---------------------------------------------------------------------------------------------
  // Joining and cutting

  /** Block `i` with the next one absorbed. */
  function Joined(bs: seq<Block>, i: nat): Block
    requires i + 1 < |bs|
  {
    Block(bs[i].addr, bs[i].size + HEADER + bs[i + 1].size, bs[i].free)
  }

  function Merge(bs: seq<Block>, i: nat): seq<Block>
    requires i + 1 < |bs|
  {
    bs[..i] + [Joined(bs, i)] + bs[i + 2..]
  }

  /** The next block in the list is free and starts where block `i` ends. */
  predicate CanAbsorb(bs: seq<Block>, i: nat) {
    i + 1 < |bs| && bs[i + 1].free && bs[i].End() == bs[i + 1].addr
  }

  /** Block `i` after it absorbed as many of its successors as it can. */
  function Coalesced(bs: seq<Block>, i: nat): (r: seq<Block>)
    requires i < |bs|
    ensures i < |r| <= |bs| && r[..i] == bs[..i]
    ensures r[i].addr == bs[i].addr && r[i].free == bs[i].free && r[i].size >= bs[i].size
    decreases |bs|
  {
    if CanAbsorb(bs, i) then Coalesced(Merge(bs, i), i) else bs
  }

  function Rest(b: Block, size: nat): Block
    requires size + HEADER <= b.size
  {
    Block(b.addr + HEADER + size, b.size - HEADER - size, true)
  }

  /** Block `i` cut down to `size`, the rest a free block after it. */
  function Cut(bs: seq<Block>, i: nat, size: nat): seq<Block>
    requires i < |bs| && size + HEADER <= bs[i].size
  {
    bs[..i] + [Block(bs[i].addr, size, bs[i].free), Rest(bs[i], size)] + bs[i + 1..]
  }

  lemma MergeAt(bs: seq<Block>, i: nat, k: nat)
    requires i + 1 < |bs| && k < |Merge(bs, i)|
    ensures Merge(bs, i)[k] == if k < i then bs[k] else if k == i then Joined(bs, i) else bs[k + 1]
  {
  }

  lemma MergeCovers(bs: seq<Block>, i: nat, a: nat)
    requires i + 1 < |bs| && bs[i].End() == bs[i + 1].addr
    ensures Covered(bs, a) <==> Covered(Merge(bs, i), a)
  {
    var m := Merge(bs, i);
    if Covered(bs, a) {
      var k :| 0 <= k < |bs| && In(a, bs[k]);
      var k' := if k <= i then k else k - 1;
      MergeAt(bs, i, k');
      assert In(a, m[k']);
    }
    if Covered(m, a) {
      var k :| 0 <= k < |m| && In(a, m[k]);
      MergeAt(bs, i, k);
      var k' := if k < i then k else if k > i then k + 1 else if In(a, bs[i]) then i else i + 1;
      assert In(a, bs[k']);
    }
  }

  lemma MergeApart(bs: seq<Block>, i: nat, k: nat, l: nat)
    requires Disjoint(bs) && i + 1 < |bs| && bs[i].End() == bs[i + 1].addr && k < l < |bs| - 1
    ensures Apart(Merge(bs, i)[k], Merge(bs, i)[l])
  {
    MergeAt(bs, i, k);
    MergeAt(bs, i, l);
    if l == i {
      assert Apart(bs[k], bs[i]) && Apart(bs[k], bs[i + 1]);
    } else if k == i {
      assert Apart(bs[i], bs[l + 1]) && Apart(bs[i + 1], bs[l + 1]);
    }
  }

  /** Joining two neighbours keeps the tiling. */
  lemma MergeKeeps(bs: seq<Block>, i: nat, cells: set<nat>)
    requires Tiled(bs, cells) && i + 1 < |bs| && bs[i].End() == bs[i + 1].addr
    ensures Tiled(Merge(bs, i), cells)
  {
    var m := Merge(bs, i);
    forall k | 0 <= k < |m| ensures WellFormed(m[k]) {
      MergeAt(bs, i, k);
      assert WellFormed(bs[i]) && WellFormed(bs[i + 1]);
    }
    forall k, l | 0 <= k < l < |m| ensures Apart(m[k], m[l]) {
      MergeAt(bs, i, k);
      MergeAt(bs, i, l);
      MergeApart(bs, i, k, l);
    }
    forall a: nat ensures Covered(bs, a) <==> Covered(m, a) { MergeCovers(bs, i, a); }
  }

  lemma CutAt(bs: seq<Block>, i: nat, size: nat, k: nat)
    requires i < |bs| && size + HEADER <= bs[i].size && k < |Cut(bs, i, size)|
    ensures Cut(bs, i, size)[k] ==
            if k < i then bs[k]
            else if k == i then Block(bs[i].addr, size, bs[i].free)
            else if k == i + 1 then Rest(bs[i], size)
            else bs[k - 1]
  {
  }

  /** Cutting and joining again changes nothing. */
  lemma MergeUndoesCut(bs: seq<Block>, i: nat, size: nat)
    requires i < |bs| && size + HEADER <= bs[i].size
    ensures i + 1 < |Cut(bs, i, size)| && CanAbsorb(Cut(bs, i, size), i)
    ensures Merge(Cut(bs, i, size), i) == bs
  {
    var c := Cut(bs, i, size);
    CutAt(bs, i, size, i);
    CutAt(bs, i, size, i + 1);
    assert c[..i] == bs[..i] && c[i + 2..] == bs[i + 1..];
    assert Joined(c, i) == bs[i];
    assert bs == bs[..i] + [bs[i]] + bs[i + 1..];
  }

  /** Cutting a block in two keeps the tiling. */
  lemma CutKeeps(bs: seq<Block>, i: nat, size: nat, cells: set<nat>)
    requires Tiled(bs, cells) && i < |bs|
    requires ALIGNMENT <= size && size % ALIGNMENT == 0 && size + HEADER + ALIGNMENT <= bs[i].size
    ensures Tiled(Cut(bs, i, size), cells)
  {
    var c := Cut(bs, i, size);
    MergeUndoesCut(bs, i, size);
    forall k | 0 <= k < |c| ensures WellFormed(c[k]) {
      CutAt(bs, i, size, k);
      assert WellFormed(bs[i]);
    }
    forall k, l | 0 <= k < l < |c| ensures Apart(c[k], c[l]) {
      CutAt(bs, i, size, k);
      CutAt(bs, i, size, l);
      var k', l' := if k <= i then k else k - 1, if l <= i then l else l - 1;
      assert k' < l' ==> Apart(bs[k'], bs[l']);
    }
    forall a: nat ensures Covered(bs, a) <==> Covered(c, a) { MergeCovers(c, i, a); }
  }

  /** A new block on cells of its own, in front. */
  lemma PushKeeps(bs: seq<Block>, b: Block, cells: set<nat>, extra: set<nat>)
    requires Tiled(bs, cells) && WellFormed(b) && cells !! extra
    requires forall a: nat :: a in extra <==> a % ALIGNMENT == 0 && In(a, b)
    ensures Tiled([b] + bs, cells + extra)
  {
    var r := [b] + bs;
    forall k | 0 < k < |r| ensures Apart(r[0], r[k]) {
      var c := bs[k - 1];
      assert WellFormed(c);
      // the later of the two first cells would be in both blocks
      var a := if b.addr < c.addr then c.addr else b.addr;
      assert !Apart(b, c) ==> In(a, b) && In(a, bs[k - 1]);
      assert In(a, bs[k - 1]) ==> Covered(bs, a);
    }
    forall a: nat ensures Covered(r, a) <==> In(a, b) || Covered(bs, a) {
      if In(a, b) { assert In(a, r[0]); }
      if Covered(bs, a) { var k :| 0 <= k < |bs| && In(a, bs[k]); assert In(a, r[k + 1]); }
    }
  }

  lemma {:induction false} CoalescedKeeps(bs: seq<Block>, i: nat, cells: set<nat>)
    requires Tiled(bs, cells) && i < |bs|
    ensures Tiled(Coalesced(bs, i), cells)
    ensures !CanAbsorb(Coalesced(bs, i), i)
    decreases |bs|
  {
    if CanAbsorb(bs, i) {
      MergeKeeps(bs, i, cells);
      CoalescedKeeps(Merge(bs, i), i, cells);
    }
  }

  // ---------------------------------------------------------------------------------------------
  // The list as it lies in memory

  /** A 16-byte cell: the first half of a header, its second half, or sixteen bytes of data. */
  datatype Cell = Head(size: nat, free: bool, next: nat) | HeadRest | Data(bytes: nat)

  function NextOf(bs: seq<Block>, k: nat): nat { if k < |bs| then bs[k].addr else 0 }

  /** Block `i` of the list has its header in memory, linked to the next. */
  ghost predicate HeaderAt(mem: map<nat, Cell>, bs: seq<Block>, i: nat)
    requires i < |bs|
  {
    bs[i].addr in mem && mem[bs[i].addr] == Head(bs[i].size, bs[i].free, NextOf(bs, i + 1))
  }

  ghost predicate Chain(mem: map<nat, Cell>, list: nat, bs: seq<Block>) {
    list == NextOf(bs, 0) && forall i {:trigger HeaderAt(mem, bs, i)} :: 0 <= i < |bs| ==> HeaderAt(mem, bs, i)
  }

  /** No other block's header is inside a block. */
  lemma HeadersApart(bs: seq<Block>, cells: set<nat>, i: nat, k: nat)
    requires Tiled(bs, cells) && i < |bs| && k < |bs| && i != k
    ensures !In(bs[k].addr, bs[i])
  {
    assert WellFormed(bs[i]) && WellFormed(bs[k]);
    assert if i < k then Apart(bs[i], bs[k]) else Apart(bs[k], bs[i]);
  }

  /** A header that is not written stays, if its successor does. */
  lemma HeaderKept(mem: map<nat, Cell>, bs: seq<Block>, k: nat, mem': map<nat, Cell>, bs': seq<Block>, k': nat)
    requires k < |bs| && HeaderAt(mem, bs, k) && bs[k].addr in mem' && mem'[bs[k].addr] == mem[bs[k].addr]
    requires k' < |bs'| && bs'[k'] == bs[k] && NextOf(bs', k' + 1) == NextOf(bs, k + 1)
    ensures HeaderAt(mem', bs', k')
  {
  }

  lemma MergeNext(bs: seq<Block>, i: nat, k: nat)
    requires i + 1 < |bs| && k <= |Merge(bs, i)|
    ensures NextOf(Merge(bs, i), k) == NextOf(bs, if k <= i then k else k + 1)
  {
    if k < |Merge(bs, i)| { MergeAt(bs, i, k); }
  }

  lemma ChainMergeAt(mem: map<nat, Cell>, list: nat, bs: seq<Block>, i: nat, mem': map<nat, Cell>, k: nat)
    requires Chain(mem, list, bs) && Tiled(bs, mem.Keys) && i + 1 < |bs| && k < |Merge(bs, i)|
    requires mem' == mem[bs[i].addr := Head(Joined(bs, i).size, bs[i].free, NextOf(bs, i + 2))]
    ensures HeaderAt(mem', Merge(bs, i), k)
  {
    MergeAt(bs, i, k);
    MergeNext(bs, i, k + 1);
    if k != i {
      var k' := if k < i then k else k + 1;
      assert HeaderAt(mem, bs, k');
      HeadersApart(bs, mem.Keys, i, k');
      HeaderKept(mem, bs, k', mem', Merge(bs, i), k);
    }
  }

  lemma ChainMerge(mem: map<nat, Cell>, list: nat, bs: seq<Block>, i: nat)
    requires Chain(mem, list, bs) && Tiled(bs, mem.Keys) && i + 1 < |bs|
    ensures Chain(mem[bs[i].addr := Head(Joined(bs, i).size, bs[i].free, NextOf(bs, i + 2))], list, Merge(bs, i))
  {
    var mem', m := mem[bs[i].addr := Head(Joined(bs, i).size, bs[i].free, NextOf(bs, i + 2))], Merge(bs, i);
    forall k | 0 <= k < |m| ensures HeaderAt(mem', m, k) { ChainMergeAt(mem, list, bs, i, mem', k); }
    MergeNext(bs, i, 0);
  }

  /** Memory after cutting a block: the remainder's header is written inside the old payload. */
  function CutMem(mem: map<nat, Cell>, b: Block, next: nat, size: nat): map<nat, Cell>
    requires size + HEADER <= b.size
  {
    var rest := Rest(b, size);
    mem[rest.addr := Head(rest.size, true, next)][rest.addr + 16 := HeadRest][b.addr := Head(size, b.free, rest.addr)]
  }

  lemma CutNext(bs: seq<Block>, i: nat, size: nat, k: nat)
    requires i < |bs| && size + HEADER <= bs[i].size && k <= |Cut(bs, i, size)|
    ensures NextOf(Cut(bs, i, size), k) ==
            if k <= i then NextOf(bs, k) else if k == i + 1 then Rest(bs[i], size).addr else NextOf(bs, k - 1)
  {
    if k < |Cut(bs, i, size)| { CutAt(bs, i, size, k); }
  }

  /** The headers that cutting a block writes are inside that block. */
  lemma CutElsewhere(mem: map<nat, Cell>, bs: seq<Block>, i: nat, size: nat, k: nat)
    requires Tiled(bs, mem.Keys) && i < |bs| && size + HEADER + ALIGNMENT <= bs[i].size && k < |bs| && k != i
    requires bs[k].addr in mem
    ensures var mem' := CutMem(mem, bs[i], NextOf(bs, i + 1), size);
            bs[k].addr in mem' && mem'[bs[k].addr] == mem[bs[k].addr]
  {
    HeadersApart(bs, mem.Keys, i, k);
    assert In(Rest(bs[i], size).addr, bs[i]) && In(Rest(bs[i], size).addr + 16, bs[i]) && In(bs[i].addr, bs[i]);
  }

  lemma ChainCut(mem: map<nat, Cell>, list: nat, bs: seq<Block>, i: nat, size: nat)
    requires Chain(mem, list, bs) && Tiled(bs, mem.Keys) && i < |bs| && size + HEADER + ALIGNMENT <= bs[i].size
    ensures Chain(CutMem(mem, bs[i], NextOf(bs, i + 1), size), list, Cut(bs, i, size))
  {
    var mem', c := CutMem(mem, bs[i], NextOf(bs, i + 1), size), Cut(bs, i, size);
    forall k | 0 <= k < |c| ensures HeaderAt(mem', c, k) {
      CutAt(bs, i, size, k);
      CutNext(bs, i, size, k + 1);
      if k < i || k > i + 1 {
        var k' := if k < i then k else k - 1;
        assert HeaderAt(mem, bs, k');
        CutElsewhere(mem, bs, i, size, k');
        HeaderKept(mem, bs, k', mem', c, k);
      }
    }
    CutNext(bs, i, size, 0);
  }

  /** The remainder's header lies on cells the heap already has. */
  lemma RestInside(bs: seq<Block>, i: nat, size: nat, cells: set<nat>)
    requires Tiled(bs, cells) && i < |bs| && size % ALIGNMENT == 0 && size + HEADER + ALIGNMENT <= bs[i].size
    ensures Rest(bs[i], size).addr in cells && Rest(bs[i], size).addr + 16 in cells
  {
    var r := Rest(bs[i], size);
    assert WellFormed(bs[i]);
    assert In(r.addr, bs[i]) && In(r.addr + 16, bs[i]);
    assert Covered(bs, r.addr) && Covered(bs, r.addr + 16);
  }

  /** Marking a block free or in use keeps the tiling. */
  lemma FlagKeeps(bs: seq<Block>, i: nat, free: bool, cells: set<nat>)
    requires Tiled(bs, cells) && i < |bs|
    ensures Tiled(bs[i := bs[i].(free := free)], cells)
  {
    var bs' := bs[i := bs[i].(free := free)];
    forall k | 0 <= k < |bs'| ensures WellFormed(bs'[k]) { assert WellFormed(bs[k]); }
    forall k, l | 0 <= k < l < |bs'| ensures Apart(bs'[k], bs'[l]) { assert Apart(bs[k], bs[l]); }
    forall a: nat ensures Covered(bs', a) <==> Covered(bs, a) {
      if Covered(bs', a) { var k :| 0 <= k < |bs'| && In(a, bs'[k]); assert In(a, bs[k]); }
      if Covered(bs, a) { var k :| 0 <= k < |bs| && In(a, bs[k]); assert In(a, bs'[k]); }
    }
  }

  lemma ChainFlag(mem: map<nat, Cell>, list: nat, bs: seq<Block>, i: nat, free: bool)
    requires Chain(mem, list, bs) && Tiled(bs, mem.Keys) && i < |bs|
    ensures Chain(mem[bs[i].addr := Head(bs[i].size, free, NextOf(bs, i + 1))], list, bs[i := bs[i].(free := free)])
  {
    var bs' := bs[i := bs[i].(free := free)];
    var mem' := mem[bs[i].addr := Head(bs[i].size, free, NextOf(bs, i + 1))];
    forall k | 0 <= k < |bs'| ensures HeaderAt(mem', bs', k) {
      assert HeaderAt(mem, bs, k);
      if k != i { HeadersApart(bs, mem.Keys, i, k); }
    }
  }

  /** The list lies in memory and tiles it. */
  ghost predicate HeapOk(mem: map<nat, Cell>, list: nat, bs: seq<Block>) {
    Chain(mem, list, bs) && Tiled(bs, mem.Keys)
  }

  lemma MergeStep(mem: map<nat, Cell>, list: nat, bs: seq<Block>, i: nat, mem': map<nat, Cell>)
    requires HeapOk(mem, list, bs) && i + 1 < |bs| && bs[i].End() == bs[i + 1].addr
    requires mem' == mem[bs[i].addr := Head(Joined(bs, i).size, bs[i].free, NextOf(bs, i + 2))]
    ensures HeapOk(mem', list, Merge(bs, i)) && mem'.Keys == mem.Keys
    ensures forall a :: a in mem && a != bs[i].addr ==> mem'[a] == mem[a]
  {
    ChainMerge(mem, list, bs, i);
    MergeKeeps(bs, i, mem.Keys);
    assert HeaderAt(mem, bs, i);
    assert mem'.Keys == mem.Keys;
  }

  /** Cutting a block writes its header and the remainder's, on cells that are there. */
  lemma CutWrites(mem: map<nat, Cell>, bs: seq<Block>, i: nat, size: nat)
    requires Tiled(bs, mem.Keys) && i < |bs| && bs[i].addr in mem
    requires size % ALIGNMENT == 0 && size + HEADER + ALIGNMENT <= bs[i].size
    ensures CutMem(mem, bs[i], NextOf(bs, i + 1), size).Keys == mem.Keys
    ensures var mem', rest := CutMem(mem, bs[i], NextOf(bs, i + 1), size), Rest(bs[i], size).addr;
            forall a :: a in mem && a != bs[i].addr && !(rest <= a < rest + HEADER) ==> mem'[a] == mem[a]
  {
    RestInside(bs, i, size, mem.Keys);
  }

  lemma CutStep(mem: map<nat, Cell>, list: nat, bs: seq<Block>, i: nat, size: nat, mem': map<nat, Cell>)
    requires HeapOk(mem, list, bs) && i < |bs|
    requires ALIGNMENT <= size && size % ALIGNMENT == 0 && size + HEADER + ALIGNMENT <= bs[i].size
    requires mem' == CutMem(mem, bs[i], NextOf(bs, i + 1), size)
    ensures HeapOk(mem', list, Cut(bs, i, size)) && mem'.Keys == mem.Keys
    ensures Cut(bs, i, size)[i + 1] == Rest(bs[i], size)
    ensures var rest := Rest(bs[i], size).addr;
            forall a :: a in mem && a != bs[i].addr && !(rest <= a < rest + HEADER) ==> mem'[a] == mem[a]
  {
    assert HeaderAt(mem, bs, i);
    CutWrites(mem, bs, i, size);
    ChainCut(mem, list, bs, i, size);
    CutKeeps(bs, i, size, mem.Keys);
    CutAt(bs, i, size, i + 1);
  }

  lemma FlagStep(mem: map<nat, Cell>, list: nat, bs: seq<Block>, i: nat, free: bool, mem': map<nat, Cell>)
    requires HeapOk(mem, list, bs) && i < |bs|
    requires mem' == mem[bs[i].addr := Head(bs[i].size, free, NextOf(bs, i + 1))]
    ensures HeapOk(mem', list, bs[i := bs[i].(free := free)]) && mem'.Keys == mem.Keys
  {
    ChainFlag(mem, list, bs, i, free);
    FlagKeeps(bs, i, free, mem.Keys);
    assert HeaderAt(mem, bs, i);
    assert mem'.Keys == mem.Keys;
  }

  /** What the header of block `i` says. */
  lemma ReadHeader(mem: map<nat, Cell>, list: nat, bs: seq<Block>, i: nat)
    requires HeapOk(mem, list, bs) && i < |bs|
    ensures bs[i].addr in mem && mem[bs[i].addr] == Head(bs[i].size, bs[i].free, NextOf(bs, i + 1))
    ensures WellFormed(bs[i]) && (NextOf(bs, i + 1) == 0 <==> i + 1 == |bs|)
  {
    assert HeaderAt(mem, bs, i);
    assert i + 1 < |bs| ==> WellFormed(bs[i + 1]);
  }

  // ---------------------------------------------------------------------------------------------
  // Blocks in use

  /** Coalescing block `i` leaves every other block in use in the list. */
  lemma {:induction false} CoalescedKeepsUsed(bs: seq<Block>, i: nat, k: nat)
    requires i < |bs| && k < |bs| && k != i && !bs[k].free
    ensures bs[k] in Coalesced(bs, i)
    decreases |bs|
  {
    if CanAbsorb(bs, i) {
      var k' := if k < i then k else k - 1;
      MergeAt(bs, i, k');
      assert Merge(bs, i)[k'] == bs[k];
      CoalescedKeepsUsed(Merge(bs, i), i, k');
    }
  }

  /** The list after heap_block_split of block `i`. */
  function SplitBlocks(bs: seq<Block>, i: nat, size: nat): (r: seq<Block>)
    requires i < |bs| && size <= bs[i].size
  {
    if bs[i].size < size + HEADER + ALIGNMENT then bs else Coalesced(Cut(bs, i, size), i + 1)
  }

  /** Block `i` keeps its place, its address and at least `size` bytes; blocks in use stay. */
  lemma SplitFacts(bs: seq<Block>, i: nat, size: nat)
    requires i < |bs| && size <= bs[i].size
    ensures i < |SplitBlocks(bs, i, size)|
    ensures var b := SplitBlocks(bs, i, size)[i];
            b.addr == bs[i].addr && b.free == bs[i].free && size <= b.size <= bs[i].size
    ensures forall k :: 0 <= k < |bs| && k != i && !bs[k].free ==> bs[k] in SplitBlocks(bs, i, size)
  {
    if bs[i].size >= size + HEADER + ALIGNMENT {
      var c := Cut(bs, i, size);
      CutAt(bs, i, size, i);
      assert Coalesced(c, i + 1)[..i + 1][i] == c[..i + 1][i];
      forall k | 0 <= k < |bs| && k != i && !bs[k].free ensures bs[k] in SplitBlocks(bs, i, size) {
        var k' := if k < i then k else k + 1;
        CutAt(bs, i, size, k');
        CoalescedKeepsUsed(c, i + 1, k');
      }
    }
  }

  /** A cell of a payload is no header. */
  lemma PayloadIsNoHeader(bs: seq<Block>, cells: set<nat>, j: nat, a: nat, k: nat)
    requires Tiled(bs, cells) && j < |bs| && k < |bs| && bs[j].Payload() <= a < bs[j].End()
    ensures bs[k].addr != a
  {
    if k != j { HeadersApart(bs, cells, j, k); }
  }

  /** Payload cells are in memory. */
  lemma PayloadInMemory(bs: seq<Block>, cells: set<nat>, j: nat, a: nat)
    requires Tiled(bs, cells) && j < |bs| && bs[j].Payload() <= a < bs[j].End() && a % ALIGNMENT == 0
    ensures a in cells
  {
    assert In(a, bs[j]);
    assert Covered(bs, a);
  }

  /** A cell of one block is not a cell of another. */
  lemma OneOwner(bs: seq<Block>, cells: set<nat>, i: nat, k: nat, a: nat)
    requires Tiled(bs, cells) && i < |bs| && k < |bs| && i != k && In(a, bs[k])
    ensures !In(a, bs[i])
  {
    assert if i < k then Apart(bs[i], bs[k]) else Apart(bs[k], bs[i]);
  }

  /** The 16-byte cells of `n` bytes from `base` on. */
  function CellsOf(base: nat, n: nat): (r: set<nat>)
    ensures forall a: nat :: a in r <==> a % ALIGNMENT == 0 && base <= a < base + n
  {
    set a | base <= a < base + n && a % ALIGNMENT == 0
  }

  /** Memory after a new block was put in front of the list; what the new payload holds is arbitrary. */
  function GrowMem(mem: map<nat, Cell>, list: nat, b: Block, junk: nat): (r: map<nat, Cell>)
    requires b.size >= ALIGNMENT
    ensures r.Keys == mem.Keys + CellsOf(b.addr, HEADER + b.size) + {b.addr, b.addr + 16}
    ensures r[b.addr] == Head(b.size, b.free, list)
    ensures forall a :: a in mem && a !in CellsOf(b.addr, HEADER + b.size) && a != b.addr && a != b.addr + 16 ==>
            r[a] == mem[a]
  {
    var cells := CellsOf(b.addr, HEADER + b.size);
    (mem + map a | a in cells :: Data(junk))[b.addr + 16 := HeadRest][b.addr := Head(b.size, b.free, list)]
  }

  lemma GrowChain(mem: map<nat, Cell>, list: nat, bs: seq<Block>, b: Block, mem': map<nat, Cell>)
    requires Chain(mem, list, bs) && b.addr in mem' && mem'[b.addr] == Head(b.size, b.free, list)
    requires forall a :: a in mem ==> a in mem' && mem'[a] == mem[a]
    ensures Chain(mem', b.addr, [b] + bs)
  {
    var bs' := [b] + bs;
    forall k | 0 <= k < |bs'| ensures HeaderAt(mem', bs', k) {
      if k > 0 {
        assert HeaderAt(mem, bs, k - 1);
        assert NextOf(bs', k + 1) == NextOf(bs, k);
      }
    }
  }

  /** New memory becomes one free block in front of the list. */
  lemma GrowStep(mem: map<nat, Cell>, list: nat, bs: seq<Block>, b: Block, junk: nat, mem': map<nat, Cell>)
    requires HeapOk(mem, list, bs) && WellFormed(b) && mem.Keys !! CellsOf(b.addr, HEADER + b.size)
    requires mem' == GrowMem(mem, list, b, junk)
    ensures HeapOk(mem', b.addr, [b] + bs)
    ensures mem'.Keys == mem.Keys + CellsOf(b.addr, HEADER + b.size)
    ensures forall a :: a in mem ==> a in mem' && mem'[a] == mem[a]
  {
    var extra := CellsOf(b.addr, HEADER + b.size);
    assert b.addr in extra && b.addr + 16 in extra;
    assert mem'.Keys == mem.Keys + extra;
    PushKeeps(bs, b, mem.Keys, extra);
    GrowChain(mem, list, bs, b, mem');
  }

  /** The offsets of the cells of `n` bytes. */
  function Offsets(n: nat): (r: set<nat>)
    ensures forall off: nat :: off in r <==> off < n && off % ALIGNMENT == 0
  {
    set off | 0 <= off < n && off % ALIGNMENT == 0
  }

  function Get(mem: map<nat, Cell>, a: nat): Cell { if a in mem then mem[a] else HeadRest }

  /** memcpy of `n` bytes from `p` to `q`, cell by cell. */
  function CopyMem(mem: map<nat, Cell>, q: nat, p: nat, n: nat): (r: map<nat, Cell>)
    ensures r.Keys == mem.Keys
    ensures forall a :: a in mem ==> r[a] == if q <= a < q + n then Get(mem, p + (a - q)) else mem[a]
  {
    map a | a in mem :: if q <= a < q + n then Get(mem, p + (a - q)) else mem[a]
  }

  /** The cells of `n` bytes from `p` on are there. */
  ghost predicate CellsIn(cells: set<nat>, p: nat, n: nat) {
    forall off :: off in Offsets(n) ==> p + off in cells
  }

  /** The first `n` bytes at `q` in one memory are those at `p` in another. */
  ghost predicate SameBytes(mem: map<nat, Cell>, p: nat, mem': map<nat, Cell>, q: nat, n: nat) {
    forall off :: off in Offsets(n) ==> p + off in mem && q + off in mem' && mem'[q + off] == mem[p + off]
  }

  lemma CopyFacts(mem: map<nat, Cell>, q: nat, p: nat, n: nat)
    requires CellsIn(mem.Keys, p, n) && CellsIn(mem.Keys, q, n)
    ensures SameBytes(mem, p, CopyMem(mem, q, p, n), q, n)
  {
    var r := CopyMem(mem, q, p, n);
    forall off | off in Offsets(n) ensures p + off in mem && q + off in r && r[q + off] == mem[p + off] {
      var a := q + off;
      assert a in mem.Keys && p + off in mem.Keys;
      assert r[a] == Get(mem, p + (a - q));
    }
  }

  lemma PayloadCells(bs: seq<Block>, cells: set<nat>, i: nat, n: nat)
    requires Tiled(bs, cells) && i < |bs| && n <= bs[i].size
    ensures CellsIn(cells, bs[i].Payload(), n)
  {
    assert WellFormed(bs[i]);
    forall off | off in Offsets(n) ensures bs[i].Payload() + off in cells {
      PayloadInMemory(bs, cells, i, bs[i].Payload() + off);
    }
  }

  /** Changing nothing but the payload of block `j` keeps the heap. */
  lemma PayloadStep(mem: map<nat, Cell>, list: nat, bs: seq<Block>, j: nat, mem': map<nat, Cell>)
    requires HeapOk(mem, list, bs) && j < |bs| && mem'.Keys == mem.Keys
    requires forall a :: a in mem && !(bs[j].Payload() <= a < bs[j].End()) ==> mem'[a] == mem[a]
    ensures HeapOk(mem', list, bs)
  {
    forall k | 0 <= k < |bs| ensures HeaderAt(mem', bs, k) {
      assert HeaderAt(mem, bs, k);
      if k != j { HeadersApart(bs, mem.Keys, j, k); }
    }
  }
}
