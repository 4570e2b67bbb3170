/**
 All owners of physical memory together: the free list (kernel/src/mm/pmm.c), the kernel heap
 (kernel/src/mm/heap.c) and any number of address spaces (kernel/src/mm/vmm.c) over one memory.
 Every frame has at most one owner, and nobody changes what another one holds.
 */
module KernelMemory {
  import opened Base
  import opened Heap
  import opened HeapLayout
  import opened PageTables
  import opened Pmm
  import opened Pte
  import opened Teardown
  import opened Vmm

  /** The frames of an address space: its tables and the frames of its pages. */
  ghost function Held(s: OwnedSpace): set<nat>
    reads s, s.ctx
  {
    s.ctx.own.Values + s.data.Values
  }

  /** The address space is sound over the given memory and free list. */
  ghost predicate Intact(s: OwnedSpace, mem: map<nat, Page>, free: seq<nat>)
    reads s, s.ctx
  {
    && Tables(s.ctx.arch, mem, s.ctx.own, s.ctx.root) && Owns(s.ctx.arch, mem, s.ctx.own, s.data)
    && (forall f :: f in mem ==> IsFrame(f, s.ctx.ram.hhdm) && f < PhysLimit(s.ctx.arch))
    && (forall f :: f in Held(s) ==> f in mem && f !in free)
  }

  lemma ValidIsIntact(s: OwnedSpace)
    requires s.Valid()
    ensures Intact(s, s.ctx.ram.mem, s.ctx.ram.free)
  {
    s.TablesNotFree();
    s.FramesNotFree();
  }

  lemma IntactIsValid(s: OwnedSpace)
    requires s.ctx.ram.Valid() && Intact(s, s.ctx.ram.mem, s.ctx.ram.free)
    ensures s.Valid()
  {
    forall n | n in s.ctx.own ensures s.ctx.own[n] !in s.ctx.ram.free { assert s.ctx.own[n] in s.ctx.own.Values; }
    forall v | v in s.data ensures s.data[v] !in s.ctx.ram.free { assert s.data[v] in s.data.Values; }
  }

  /** Every page is mapped as it was, and holds what it held. */
  ghost predicate SpaceSame(a: Arch, root: nat, data: map<nat, nat>, mem: map<nat, Page>, mem': map<nat, Page>) {
    ViewUpdated(a, root, mem, mem', false, 0, None) && KeptIn(mem, mem', data)
  }

  /** What happens to other memory does not concern an address space. */
  lemma IntactKept(s: OwnedSpace, mem: map<nat, Page>, free: seq<nat>, mem': map<nat, Page>, free': seq<nat>)
    requires Intact(s, mem, free) && mem'.Keys == mem.Keys
    requires forall f :: f in Held(s) ==> mem'[f] == mem[f] && f !in free'
    ensures Intact(s, mem', free') && SpaceSame(s.ctx.arch, s.ctx.root, s.data, mem, mem')
  {
    KeptElsewhere(s.ctx.arch, mem, s.ctx.own, s.ctx.root, s.data, mem');
    forall v | v in s.data ensures s.data[v] in mem && mem'[s.data[v]] == mem[s.data[v]] {
      assert s.data[v] in s.data.Values;
    }
  }

  /** The frames that the cells of the heap lie in. */
  ghost function FramesUnder(hhdm: nat, cells: set<nat>): set<nat> {
    set a | a in cells && a >= hhdm :: FrameAt(hhdm, a)
  }

  /** Two address spaces that have nothing in common. */
  ghost predicate Separate(s: OwnedSpace, t: OwnedSpace)
    reads s, s.ctx, t, t.ctx
  {
    s.ctx != t.ctx && Held(s) !! Held(t)
  }

  /** An address space of this memory, away from the heap. */
  ghost predicate Lodged(s: OwnedSpace, ram: Memory, mem: map<nat, Page>, free: seq<nat>, heapFrames: set<nat>)
    reads s, s.ctx
  {
    s.ctx.ram == ram && Intact(s, mem, free) && Held(s) !! heapFrames
  }

  /** One address space has done something, and sparing the others is all it takes. */
  lemma OtherKept(t: OwnedSpace, ram: Memory, mem: map<nat, Page>, free: seq<nat>, heapFrames: set<nat>, own: Tree,
                  data: map<nat, nat>,
                  given: set<nat>, mem': map<nat, Page>, free': seq<nat>, own': Tree, data': map<nat, nat>)
    requires Lodged(t, ram, mem, free, heapFrames) && Held(t) !! own.Values + data.Values && Held(t) !! given
    requires Spares(mem, free, own, data, given, mem', free', own', data')
    ensures Lodged(t, ram, mem', free', heapFrames) && Held(t) !! own'.Values + data'.Values
    ensures SpaceSame(t.ctx.arch, t.ctx.root, t.data, mem, mem')
  {
    IntactKept(t, mem, free, mem', free');
  }

  /** The same for the heap. */
  lemma HeapKept(heapFrames: set<nat>, mem: map<nat, Page>, free: seq<nat>, own: Tree, data: map<nat, nat>,
                 given: set<nat>, mem': map<nat, Page>, free': seq<nat>, own': Tree, data': map<nat, nat>)
    requires heapFrames <= mem.Keys && (forall f :: f in heapFrames ==> f !in free)
    requires heapFrames !! own.Values + data.Values && heapFrames !! given
    requires Spares(mem, free, own, data, given, mem', free', own', data')
    ensures heapFrames <= mem'.Keys && (forall f :: f in heapFrames ==> f !in free')
    ensures heapFrames !! own'.Values + data'.Values
  {
  }

  /** The address spaces around `s`: sound, apart from each other, and clear of the frames `taken`. */
  ghost predicate Around(others: set<OwnedSpace>, s: OwnedSpace, ram: Memory, mem: map<nat, Page>, free: seq<nat>,
                         heapFrames: set<nat>, taken: set<nat>)
    reads others, set t | t in others :: t.ctx
  {
    && (forall t :: t in others ==>
          t != s && t.ctx != s.ctx && Lodged(t, ram, mem, free, heapFrames) && Held(t) !! taken)
    && (forall t, u :: t in others && u in others && t != u ==> Separate(t, u))
  }

  /** What one address space does, the others do not notice. */
  lemma AroundKept(others: set<OwnedSpace>, s: OwnedSpace, ram: Memory, heapFrames: set<nat>, mem: map<nat, Page>,
                   free: seq<nat>, own: Tree, data: map<nat, nat>, given: set<nat>,
                   mem': map<nat, Page>, free': seq<nat>, own': Tree, data': map<nat, nat>)
    requires Around(others, s, ram, mem, free, heapFrames, own.Values + data.Values + given)
    requires Spares(mem, free, own, data, given, mem', free', own', data')
    ensures Around(others, s, ram, mem', free', heapFrames, own'.Values + data'.Values)
    ensures forall t :: t in others ==> SpaceSame(t.ctx.arch, t.ctx.root, t.data, mem, mem')
  {
    forall t | t in others
      ensures Lodged(t, ram, mem', free', heapFrames) && Held(t) !! own'.Values + data'.Values
      ensures SpaceSame(t.ctx.arch, t.ctx.root, t.data, mem, mem')
    {
      assert Lodged(t, ram, mem, free, heapFrames) && Held(t) !! own.Values + data.Values + given;
      OtherKept(t, ram, mem, free, heapFrames, own, data, given, mem', free', own', data');
    }
  }

  /** Address spaces that are sound and apart from each other. */
  ghost predicate Sound(all: set<OwnedSpace>, ram: Memory, mem: map<nat, Page>, free: seq<nat>, heapFrames: set<nat>)
    reads all, set t | t in all :: t.ctx
  {
    && (forall t :: t in all ==> Lodged(t, ram, mem, free, heapFrames))
    && (forall t, u :: t in all && u in all && t != u ==> Separate(t, u))
  }

  /** What comes off the free list, or changes on it, the address spaces do not notice. */
  lemma SoundKept(all: set<OwnedSpace>, ram: Memory, mem: map<nat, Page>, free: seq<nat>, heapFrames: set<nat>,
                  mem': map<nat, Page>, free': seq<nat>, heapFrames': set<nat>)
    requires Sound(all, ram, mem, free, heapFrames) && mem'.Keys == mem.Keys
    requires forall f :: f in mem && f !in free ==> mem'[f] == mem[f]
    requires forall f :: f in free' ==> f in free
    requires forall f :: f in heapFrames' ==> f in heapFrames || f in free
    ensures Sound(all, ram, mem', free', heapFrames')
    ensures forall t :: t in all ==> SpaceSame(t.ctx.arch, t.ctx.root, t.data, mem, mem')
  {
    forall t | t in all
      ensures Lodged(t, ram, mem', free', heapFrames') && SpaceSame(t.ctx.arch, t.ctx.root, t.data, mem, mem')
    {
      assert Lodged(t, ram, mem, free, heapFrames);
      IntactKept(t, mem, free, mem', free');
    }
  }

  /** Mapping a frame spares everything else. */
  lemma MapSpares(mem: map<nat, Page>, free: seq<nat>, own: Tree, data: map<nat, nat>, mem': map<nat, Page>,
                  free': seq<nat>, own': Tree, data': map<nat, nat>, ok: bool, v: nat, f: nat)
    requires Took(own, free, own', free') && OnlyWrites(mem, mem', own', free')
    requires data' == if ok then data[v := f] else data
    ensures Spares(mem, free, own, data, {f}, mem', free', own', data')
  {
    SparedBy(mem, free, own, data, {f}, mem', free', own', data');
  }

  /** Destroying an address space spares everything else. */
  lemma DestroySpares(mem: map<nat, Page>, free: seq<nat>, own: Tree, data: map<nat, nat>, mem': map<nat, Page>,
                      free': seq<nat>)
    requires mem'.Keys == mem.Keys && (forall f :: f in free' <==> f in free || f in own.Values || f in data.Values)
    requires forall f :: f in mem' && f !in free' ==> mem'[f] == mem[f]
    ensures Spares(mem, free, own, data, {}, mem', free', map[], map[])
  {
  }

  /** vmm_map_page, and what it spares. */
  method MapIn(s: OwnedSpace, virt: nat, phys: Word, flags: Flags) returns (ok: bool)
    requires s.Valid() && virt < ADDR_SPLIT && (s.Loose(phys) || s.HasFrame(virt / 4096, phys))
    modifies s.ctx.ram`mem, s.ctx.ram`head, s.ctx.ram`free, s.ctx`own, s`data
    ensures s.data == if ok then old(s.data)[virt / 4096 := phys] else old(s.data)
    ensures !ok ==> s.ctx.ram.free == []
    ensures ViewUpdated(s.ctx.arch, s.ctx.root, old(s.ctx.ram.mem), s.ctx.ram.mem, ok, virt / 4096,
                        Some(Mapping(phys, flags.(present := true))))
    ensures KeptIn(old(s.ctx.ram.mem), s.ctx.ram.mem, old(s.data))
    ensures Spares(old(s.ctx.ram.mem), old(s.ctx.ram.free), old(s.ctx.own), old(s.data), {phys},
                   s.ctx.ram.mem, s.ctx.ram.free, s.ctx.own, s.data)
    ensures s.Valid()
  {
    ghost var mem, free, own, data := s.ctx.ram.mem, s.ctx.ram.free, s.ctx.own, s.data;
    ok := s.Map(virt, phys, flags);
    MapSpares(mem, free, own, data, s.ctx.ram.mem, s.ctx.ram.free, s.ctx.own, s.data, ok, virt / 4096, phys);
  }

  /** A context from vmm_create_context, with its book-keeping. */
  method MakeSpace(arch: Arch, ram: Memory, kernelRoot: nat, room: bool) returns (s: OwnedSpace?)
    requires ram.Valid() && kernelRoot in ram.mem && kernelRoot !in ram.free
    requires forall f :: f in ram.mem ==> IsFrame(f, ram.hhdm) && f < PhysLimit(arch)
    modifies ram`mem, ram`head, ram`free
    ensures ram.Valid() && ram.mem.Keys == old(ram.mem.Keys)
    ensures forall f :: f in ram.mem && f !in old(ram.free) ==> ram.mem[f] == old(ram.mem[f])
    ensures forall f :: f in ram.free ==> f in old(ram.free)
    ensures s == null <==> old(ram.free) == [] || !room
    ensures s != null ==> fresh(s) && fresh(s.ctx) && s.Valid() && s.ctx.ram == ram && s.data == map[]
    ensures s != null ==> s.ctx.own == map[ROOT := s.ctx.root] && s.ctx.root in old(ram.free)
  {
    ghost var free := ram.free;
    var ctx := CreateContext(arch, ram, kernelRoot, room);
    if ctx == null { return null; }
    assert free[0] == ctx.root;
    s := new OwnedSpace(ctx);
  }

  /** A block in use with room for `size` bytes at `p`. */
  predicate InUse(b: Block, p: nat, size: nat) { b.Payload() == p && !b.free && size <= b.size }

  class Machine {
    const ram: Memory
    const heap: KernelHeap
    var spaces: set<OwnedSpace>

    ghost function HeapFrames(): set<nat>
      reads heap
    {
      FramesUnder(ram.hhdm, heap.mem.Keys)
    }

    ghost predicate Valid()
      reads this, ram, heap, spaces, set s | s in spaces :: s.ctx
    {
      && heap.pmm == ram && heap.Valid()
      && (forall f :: f in ram.mem ==> f + ram.hhdm + 2 * PAGE_SIZE <= TWO_64)
      && HeapFrames() <= ram.mem.Keys
      && (forall s :: s in spaces ==> Lodged(s, ram, ram.mem, ram.free, HeapFrames()))
      && (forall s, t :: s in spaces && t in spaces && s != t ==> Separate(s, t))
    }

    /** A heap and no address spaces yet. */
    constructor (heap: KernelHeap)
      requires heap.Valid() && FramesUnder(heap.pmm.hhdm, heap.mem.Keys) <= heap.pmm.mem.Keys
      requires forall f :: f in heap.pmm.mem ==> f + heap.pmm.hhdm + 2 * PAGE_SIZE <= TWO_64
      ensures Valid() && this.heap == heap && ram == heap.pmm && spaces == {}
    {
      this.heap, ram, spaces := heap, heap.pmm, {};
    }

    /** No frame has two owners: the free list, the heap and the address spaces have nothing in common. */
    lemma OneOwner(f: nat)
      requires Valid()
      ensures f in HeapFrames() ==> f !in ram.free
      ensures forall s :: s in spaces && f in Held(s) ==> f !in ram.free && f !in HeapFrames()
      ensures forall s, t :: s in spaces && t in spaces && s != t && f in Held(s) ==> f !in Held(t)
    {
      if f in HeapFrames() {
        var a :| a in heap.mem && a >= ram.hhdm && FrameAt(ram.hhdm, a) == f;
      }
      forall s | s in spaces && f in Held(s) ensures f !in ram.free && f !in HeapFrames() {
        assert Lodged(s, ram, ram.mem, ram.free, HeapFrames());
      }
      forall s, t | s in spaces && t in spaces && s != t && f in Held(s) ensures f !in Held(t) {
        assert Separate(s, t);
      }
    }

    lemma HeapNotFree()
      requires Valid()
      ensures forall f :: f in HeapFrames() ==> f !in ram.free
    {
      forall f | f in HeapFrames() ensures f !in ram.free { OneOwner(f); }
    }

    lemma FreeInMemory()
      requires ram.Valid()
      ensures forall f :: f in ram.free ==> f in ram.mem
    {
      forall f | f in ram.free ensures f in ram.mem {
        var i :| 0 <= i < |ram.free| && ram.free[i] == f;
        assert NodeAt(ram.mem, ram.free, ram.hhdm, i);
      }
    }

    /** The heap is sound over any free list that keeps away from it. */
    lemma HeapValid()
      requires heap.pmm == ram && HeapOk(heap.mem, heap.list, heap.blocks) && ram.Valid() && ram.hhdm % PAGE_SIZE == 0
      requires forall a :: a in heap.mem ==> a >= ram.hhdm
      requires forall f :: f in ram.mem ==> f + ram.hhdm + 2 * PAGE_SIZE <= TWO_64
      requires forall f :: f in HeapFrames() ==> f !in ram.free
      ensures heap.Valid()
    {
      forall a | a in heap.mem ensures FrameAt(ram.hhdm, a) !in ram.free {
        assert FrameAt(ram.hhdm, a) in HeapFrames();
      }
      FreeInMemory();
    }

    /** The machine seen from one of its address spaces. */
    lemma SeenFrom(s: OwnedSpace)
      requires Valid() && s in spaces
      ensures Around(spaces - {s}, s, ram, ram.mem, ram.free, HeapFrames(), s.ctx.own.Values + s.data.Values)
      ensures s.Valid() && s.ctx.ram == ram && HeapFrames() !! s.ctx.own.Values + s.data.Values
      ensures forall f :: f in HeapFrames() ==> f !in ram.free
    {
      HeapNotFree();
      assert Lodged(s, ram, ram.mem, ram.free, HeapFrames());
      IntactIsValid(s);
      forall t | t in spaces - {s} ensures t.ctx != s.ctx && Held(t) !! s.ctx.own.Values + s.data.Values {
        assert Separate(s, t);
      }
    }

    /** The machine is sound when the heap is, the others are, and `s`, if it is still there, is too. */
    lemma Assembled(s: OwnedSpace, taken: set<nat>)
      requires heap.pmm == ram && HeapOk(heap.mem, heap.list, heap.blocks) && ram.Valid() && ram.hhdm % PAGE_SIZE == 0
      requires forall a :: a in heap.mem ==> a >= ram.hhdm
      requires forall f :: f in ram.mem ==> f + ram.hhdm + 2 * PAGE_SIZE <= TWO_64
      requires HeapFrames() <= ram.mem.Keys && HeapFrames() !! taken && forall f :: f in HeapFrames() ==> f !in ram.free
      requires Around(spaces - {s}, s, ram, ram.mem, ram.free, HeapFrames(), taken)
      requires s in spaces ==> s.Valid() && s.ctx.ram == ram && Held(s) == taken
      ensures Valid()
    {
      HeapValid();
      if s in spaces { ValidIsIntact(s); }
      forall t, u | t in spaces && u in spaces && t != u ensures Separate(t, u) {
        if t != s && u != s { assert t in spaces - {s} && u in spaces - {s}; }
      }
      forall t | t in spaces ensures Lodged(t, ram, ram.mem, ram.free, HeapFrames()) {
        if t != s { assert t in spaces - {s}; }
      }
    }

    /** vmm_unmap_page in one of the address spaces. */
    method Unmap(s: OwnedSpace, virt: nat) returns (ok: bool)
      requires Valid() && s in spaces && virt < ADDR_SPLIT
      modifies ram`mem, s`data
      ensures Valid() && ok == (virt / 4096 in old(s.data)) && s.data == old(s.data) - {virt / 4096}
      ensures ViewUpdated(s.ctx.arch, s.ctx.root, old(ram.mem), ram.mem, true, virt / 4096, None)
      ensures KeptIn(old(ram.mem), ram.mem, old(s.data))
      ensures forall t :: t in spaces && t != s ==> SpaceSame(t.ctx.arch, t.ctx.root, t.data, old(ram.mem), ram.mem)
    {
      ghost var mem, free, own, data, hf, others := ram.mem, ram.free, s.ctx.own, s.data, HeapFrames(), spaces - {s};
      SeenFrom(s);
      assert own.Values + data.Values + {} == own.Values + data.Values;
      ok := s.Unmap(virt);
      AroundKept(others, s, ram, hf, mem, free, own, data, {}, ram.mem, ram.free, s.ctx.own, s.data);
      HeapKept(hf, mem, free, own, data, {}, ram.mem, ram.free, s.ctx.own, s.data);
      Assembled(s, s.ctx.own.Values + s.data.Values);
    }

    /** A frame that no other address space holds, nor the heap. */
    ghost predicate Unclaimed(f: nat, s: OwnedSpace)
      reads this, ram, heap, spaces, set t | t in spaces :: t.ctx
    {
      f !in HeapFrames() && forall t :: t in spaces && t != s ==> f !in Held(t)
    }

    lemma ClearOf(s: OwnedSpace, f: nat)
      requires Valid() && s in spaces && Unclaimed(f, s)
      ensures Around(spaces - {s}, s, ram, ram.mem, ram.free, HeapFrames(), s.ctx.own.Values + s.data.Values + {f})
    {
      SeenFrom(s);
      forall t | t in spaces - {s} ensures Held(t) !! s.ctx.own.Values + s.data.Values + {f} {
        assert Held(t) !! s.ctx.own.Values + s.data.Values;
      }
    }

    /** vmm_map_page in one of the address spaces, of a frame that is nobody's or the page's own. */
    method Map(s: OwnedSpace, virt: nat, phys: Word, flags: Flags) returns (ok: bool)
      requires Valid() && s in spaces && virt < ADDR_SPLIT && Unclaimed(phys, s)
      requires s.Loose(phys) || s.HasFrame(virt / 4096, phys)
      modifies ram`mem, ram`head, ram`free, s.ctx`own, s`data
      ensures Valid() && s.data == if ok then old(s.data)[virt / 4096 := phys] else old(s.data)
      ensures !ok ==> ram.free == []
      ensures ViewUpdated(s.ctx.arch, s.ctx.root, old(ram.mem), ram.mem, ok, virt / 4096,
                          Some(Mapping(phys, flags.(present := true))))
      ensures KeptIn(old(ram.mem), ram.mem, old(s.data))
      ensures forall t :: t in spaces && t != s ==> SpaceSame(t.ctx.arch, t.ctx.root, t.data, old(ram.mem), ram.mem)
    {
      ghost var mem, free, own, data, hf, others := ram.mem, ram.free, s.ctx.own, s.data, HeapFrames(), spaces - {s};
      SeenFrom(s);
      ClearOf(s, phys);
      ok := MapIn(s, virt, phys, flags);
      AroundKept(others, s, ram, hf, mem, free, own, data, {phys}, ram.mem, ram.free, s.ctx.own, s.data);
      HeapKept(hf, mem, free, own, data, {phys}, ram.mem, ram.free, s.ctx.own, s.data);
      Assembled(s, s.ctx.own.Values + s.data.Values);
    }

    /** A page fault in one of the address spaces. */
    method Fault(s: OwnedSpace, addr: nat, faultOnPresent: bool) returns (handled: bool)
      requires Valid() && s in spaces && s.ctx.demandHi <= ADDR_SPLIT
      modifies ram`mem, ram`head, ram`free, s.ctx`own, s`data
      ensures Valid() && (!handled ==> s.data == old(s.data))
      ensures handled ==> s.ctx.demandLo <= addr < s.ctx.demandHi && old(ram.free) != []
      ensures handled ==> s.data == old(s.data)[addr / 4096 := old(ram.free)[0]]
      ensures KeptIn(old(ram.mem), ram.mem, old(s.data))
      ensures forall t :: t in spaces && t != s ==> SpaceSame(t.ctx.arch, t.ctx.root, t.data, old(ram.mem), ram.mem)
    {
      ghost var mem, free, own, data, hf, others := ram.mem, ram.free, s.ctx.own, s.data, HeapFrames(), spaces - {s};
      SeenFrom(s);
      assert own.Values + data.Values + {} == own.Values + data.Values;
      handled := s.Fault(addr, faultOnPresent);
      AroundKept(others, s, ram, hf, mem, free, own, data, {}, ram.mem, ram.free, s.ctx.own, s.data);
      HeapKept(hf, mem, free, own, data, {}, ram.mem, ram.free, s.ctx.own, s.data);
      Assembled(s, s.ctx.own.Values + s.data.Values);
    }

    /** vmm_destroy_context: everything the address space held is free, and the others are as they were. */
    method Destroy(s: OwnedSpace)
      requires Valid() && s in spaces
      modifies this`spaces, ram`mem, ram`head, ram`free
      ensures Valid() && spaces == old(spaces) - {s}
      ensures forall f :: f in ram.free <==> f in old(ram.free) || f in old(Held(s))
      ensures forall t :: t in spaces ==> SpaceSame(t.ctx.arch, t.ctx.root, t.data, old(ram.mem), ram.mem)
    {
      ghost var mem, free, own, data, hf, others := ram.mem, ram.free, s.ctx.own, s.data, HeapFrames(), spaces - {s};
      SeenFrom(s);
      assert own.Values + data.Values + {} == own.Values + data.Values;
      s.Destroy();
      DestroySpares(mem, free, own, data, ram.mem, ram.free);
      ghost var noTables: Tree, noFrames: map<nat, nat> := map[], map[];
      AroundKept(others, s, ram, hf, mem, free, own, data, {}, ram.mem, ram.free, noTables, noFrames);
      HeapKept(hf, mem, free, own, data, {}, ram.mem, ram.free, noTables, noFrames);
      spaces := spaces - {s};
      assert spaces - {s} == others;
      Assembled(s, noTables.Values + noFrames.Values);
    }

    /** A space just made has only its root, which was free. */
    lemma NewSpace(s: OwnedSpace, all: set<OwnedSpace>, mem: map<nat, Page>, free: seq<nat>)
      requires heap.pmm == ram && heap.Valid() && HeapFrames() <= ram.mem.Keys
      requires forall f :: f in ram.mem ==> f + ram.hhdm + 2 * PAGE_SIZE <= TWO_64
      requires Sound(all, ram, mem, free, HeapFrames()) && Sound(all, ram, ram.mem, ram.free, HeapFrames())
      requires s !in all && (forall t :: t in all ==> t.ctx != s.ctx) && spaces == all + {s}
      requires s.Valid() && s.ctx.ram == ram && s.data == map[] && s.ctx.own == map[ROOT := s.ctx.root]
      requires s.ctx.root in free && forall f :: f in HeapFrames() ==> f !in free
      ensures Valid()
    {
      ValidIsIntact(s);
      assert Held(s) == {s.ctx.root};
      forall t | t in all ensures Separate(s, t) && Separate(t, s) { assert Lodged(t, ram, mem, free, HeapFrames()); }
    }

    /** vmm_create_context: one more address space, with nothing mapped, or none. */
    method Create(arch: Arch, kernelRoot: nat, room: bool) returns (s: OwnedSpace?)
      requires Valid() && kernelRoot in ram.mem && kernelRoot !in ram.free
      requires forall f :: f in ram.mem ==> IsFrame(f, ram.hhdm) && f < PhysLimit(arch)
      modifies this`spaces, ram`mem, ram`head, ram`free
      ensures Valid() && (s == null <==> old(ram.free) == [] || !room) && (s == null ==> spaces == old(spaces))
      ensures s != null ==> fresh(s) && spaces == old(spaces) + {s} && s.data == map[]
      ensures forall t :: t in old(spaces) ==> SpaceSame(t.ctx.arch, t.ctx.root, t.data, old(ram.mem), ram.mem)
    {
      ghost var mem, free, hf := ram.mem, ram.free, HeapFrames();
      var all := spaces;
      HeapNotFree();
      assert Sound(all, ram, mem, free, hf);
      s := MakeSpace(arch, ram, kernelRoot, room);
      assert Sound(all, ram, mem, free, hf);
      SoundKept(all, ram, mem, free, hf, ram.mem, ram.free, hf);
      HeapValid();
      if s != null {
        var made: OwnedSpace := s;
        spaces := all + {made};
        NewSpace(made, all, mem, free);
      }
    }

    /** A heap that grew by frames that were free. */
    lemma HeapGrew(all: set<OwnedSpace>, mem: map<nat, Page>, free: seq<nat>, cells: set<nat>)
      requires heap.pmm == ram && heap.Valid() && spaces == all
      requires Sound(all, ram, mem, free, FramesUnder(ram.hhdm, cells))
      requires FramesUnder(ram.hhdm, cells) <= mem.Keys && (forall f :: f in free ==> f in mem)
      requires forall f :: f in mem ==> f + ram.hhdm + 2 * PAGE_SIZE <= TWO_64
      requires Grew(ram.hhdm, cells, free, mem, heap.mem.Keys, ram.free, ram.mem)
      ensures Valid() && forall t :: t in all ==> SpaceSame(t.ctx.arch, t.ctx.root, t.data, mem, ram.mem)
    {
      SoundKept(all, ram, mem, free, FramesUnder(ram.hhdm, cells), ram.mem, ram.free, HeapFrames());
    }

    /** kmalloc: the heap may grow, and the address spaces do not notice. */
    method Kmalloc(size: nat) returns (p: nat, ghost j: nat)
      requires Valid() && size < TWO_64
      modifies heap`mem, heap`list, heap`blocks, ram`mem, ram`head, ram`free
      ensures Valid() && KeepsUsed(old(heap.mem), old(heap.blocks), heap.mem, heap.blocks, 0)
      ensures p == 0 <==> size > LARGEST || !Satisfiable(old(heap.blocks), old(ram.free), size)
      ensures p == 0 ==> heap.mem == old(heap.mem) && heap.blocks == old(heap.blocks) && ram.free == old(ram.free)
      ensures p != 0 ==> j < |heap.blocks| && InUse(heap.blocks[j], p, size)
      ensures p != 0 ==> forall b :: b in old(heap.blocks) && !b.free ==> b.addr != heap.blocks[j].addr
      ensures forall t :: t in spaces ==> SpaceSame(t.ctx.arch, t.ctx.root, t.data, old(ram.mem), ram.mem)
    {
      ghost var mem, free, cells, all := ram.mem, ram.free, heap.mem.Keys, spaces;
      FreeInMemory();
      assert Sound(all, ram, mem, free, HeapFrames());
      p, j := heap.Kmalloc(size);
      HeapGrew(all, mem, free, cells);
    }

    /** krealloc. */
    method Krealloc(p: nat, size: nat, ghost i: nat) returns (q: nat, ghost j: nat)
      requires Valid() && size < TWO_64
      requires p != 0 ==> i < |heap.blocks| && heap.blocks[i].Payload() == p && !heap.blocks[i].free
      modifies heap`mem, heap`list, heap`blocks, ram`mem, ram`head, ram`free
      ensures Valid()
      ensures KeepsUsed(old(heap.mem), old(heap.blocks), heap.mem, heap.blocks, if p == 0 then 0 else p - HEADER)
      ensures p == 0 ==> (q == 0 <==> size > LARGEST || !Satisfiable(old(heap.blocks), old(ram.free), size))
      ensures p != 0 && size != 0 ==>
                (q == 0 <==> size > SIZE_MAX - 15 || CannotHold(old(heap.blocks), old(ram.free), i, AlignUp(size)))
      ensures p != 0 && size == 0 ==>
                q == 0 && heap.blocks == Coalesced(old(heap.blocks)[i := old(heap.blocks)[i].(free := true)], i)
      ensures q != 0 ==> j < |heap.blocks| && InUse(heap.blocks[j], q, size)
      ensures p != 0 && q == 0 && size != 0 ==>
                && j < |heap.blocks| && InUse(heap.blocks[j], p, old(heap.blocks)[i].size)
                && SameBytes(old(heap.mem), p, heap.mem, p, old(heap.blocks)[i].size)
      ensures p != 0 && q != 0 ==> SameBytes(old(heap.mem), p, heap.mem, q, Min(size, old(heap.blocks)[i].size))
      ensures forall t :: t in spaces ==> SpaceSame(t.ctx.arch, t.ctx.root, t.data, old(ram.mem), ram.mem)
    {
      ghost var mem, free, cells, all := ram.mem, ram.free, heap.mem.Keys, spaces;
      FreeInMemory();
      assert Sound(all, ram, mem, free, HeapFrames());
      q, j := heap.Krealloc(p, size, i);
      HeapGrew(all, mem, free, cells);
    }

    /** kfree. */
    method Kfree(p: nat, ghost i: nat)
      requires Valid() && (p != 0 ==> i < |heap.blocks| && heap.blocks[i].Payload() == p && !heap.blocks[i].free)
      modifies heap`mem, heap`blocks
      ensures Valid() && (p == 0 ==> heap.blocks == old(heap.blocks))
      ensures p != 0 ==>
                && heap.blocks == Coalesced(old(heap.blocks)[i := old(heap.blocks)[i].(free := true)], i)
                && KeepsUsed(old(heap.mem), old(heap.blocks), heap.mem, heap.blocks, p - HEADER)
    {
      ghost var mem, free, cells, all := ram.mem, ram.free, heap.mem.Keys, spaces;
      FreeInMemory();
      assert Sound(all, ram, mem, free, HeapFrames());
      heap.Kfree(p, i);
      HeapGrew(all, mem, free, cells);
    }
  }
}
