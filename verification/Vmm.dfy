/**
 Address spaces (kernel/src/mm/vmm.c): page tables edited in place in physical memory, with tables
 allocated on the way down.
 */
module Vmm {
  import opened Base
  import opened Pte
  import opened Pmm
  import opened PageTables

  /** The weight of the lowest address bit that indexes a table of the given level. */
  function Span(level: nat): nat
    requires level < 4
  {
    match level
    case 0 => 0x1000
    case 1 => 0x20_0000
    case 2 => 0x4000_0000
    case 3 => 0x80_0000_0000
  }

  /** VMM_INDEX. */
  function Index(virt: nat, level: nat): (i: nat)
    requires level < 4
    ensures i < 512
  {
    virt / Span(level) % 512
  }

  lemma SpanStep(virt: nat, level: nat)
    requires 0 < level < 4
    ensures virt / Span(level) == virt / Span(level - 1) / 512
  {
    match level
    case 1 => assert virt / 0x20_0000 == virt / 0x1000 / 512;
    case 2 => assert virt / 0x4000_0000 == virt / 0x20_0000 / 512;
    case 3 => assert virt / 0x80_0000_0000 == virt / 0x4000_0000 / 512;
  }

  lemma {:induction false} SpanIsUp(virt: nat, level: nat)
    requires level < 4
    ensures virt / Span(level) == Up(virt / 4096, level)
  {
    if level > 0 {
      SpanIsUp(virt, level - 1);
      SpanStep(virt, level);
      UpStep(virt / 4096, level - 1);
    }
  }

  lemma IndexIsDigit(virt: nat, level: nat)
    requires level < 4
    ensures Index(virt, level) == Up(virt / 4096, level) % 512
  {
    SpanIsUp(virt, level);
  }

  const TABLE_FLAGS := Flags(true, true, true, false, false)

  lemma MadePresent(a: Arch, phys: Word, f: Flags)
    ensures Present(Make(a, phys, f.(present := true), false))
  {
    X86Frame(phys, f.(present := true));
    ArmLeafFrame(phys, f.(present := true));
  }

  /** What a mapped page is mapped to. */
  datatype Mapping = Mapping(frame: nat, flags: Flags)

  ghost function Decoded(a: Arch, e: Option<Word>): Option<Mapping> {
    if e.None? then None else Some(Mapping(GetPhys(a, e.value), GetFlags(a, e.value)))
  }

  /** What the hardware finds for page `v` below a root. */
  ghost function ViewOf(a: Arch, mem: map<nat, Page>, root: nat, v: nat): Option<Mapping> {
    Decoded(a, Walk(a, mem, root, 4, v))
  }

  /** If `done`, the leaf entry of page `p` has become `e`; no other page of the lower half has changed. */
  ghost predicate WalkUpdated(a: Arch, root: nat, mem: map<nat, Page>, mem': map<nat, Page>,
                              done: bool, p: nat, e: Option<Word>) {
    forall v :: 0 <= v < LOWER_PAGES ==>
      Walk(a, mem', root, 4, v) == if done && v == p then e else Walk(a, mem, root, 4, v)
  }

  lemma WalkFromLeaves(a: Arch, root: nat, mem: map<nat, Page>, own: Tree, mem': map<nat, Page>, own': Tree,
                       done: bool, p: nat, e: Option<Word>)
    requires Tables(a, mem, own, root) && Tables(a, mem', own', root)
    requires forall u: nat :: Leaf(mem', own', u) == if done && u == p then e else Leaf(mem, own, u)
    ensures WalkUpdated(a, root, mem, mem', done, p, e)
  {
    forall v | 0 <= v < LOWER_PAGES
      ensures Walk(a, mem', root, 4, v) == if done && v == p then e else Walk(a, mem, root, 4, v)
    {
      RootCovers(v);
      WalkIsLeaf(a, mem, own, root, v, 4);
      WalkIsLeaf(a, mem', own', root, v, 4);
    }
  }

  /** If `done`, page `p` of the lower half has become `m`; no other page has changed. */
  ghost predicate ViewUpdated(a: Arch, root: nat, mem: map<nat, Page>, mem': map<nat, Page>,
                              done: bool, p: nat, m: Option<Mapping>) {
    forall v :: 0 <= v < LOWER_PAGES ==>
      ViewOf(a, mem', root, v) == if done && v == p then m else ViewOf(a, mem, root, v)
  }

  lemma ViewFromWalk(a: Arch, root: nat, mem: map<nat, Page>, mem': map<nat, Page>,
                     done: bool, p: nat, e: Option<Word>, m: Option<Mapping>)
    requires WalkUpdated(a, root, mem, mem', done, p, e) && (done ==> Decoded(a, e) == m)
    ensures ViewUpdated(a, root, mem, mem', done, p, m)
  {
    forall v | 0 <= v < LOWER_PAGES
      ensures ViewOf(a, mem', root, v) == if done && v == p then m else ViewOf(a, mem, root, v)
    {
      assert Walk(a, mem', root, 4, v) == if done && v == p then e else Walk(a, mem, root, 4, v);
    }
  }

  lemma ViewSame(a: Arch, root: nat, m0: map<nat, Page>, m1: map<nat, Page>, m2: map<nat, Page>,
                 done: bool, p: nat, m: Option<Mapping>)
    requires ViewUpdated(a, root, m0, m1, false, 0, None) && ViewUpdated(a, root, m1, m2, done, p, m)
    ensures ViewUpdated(a, root, m0, m2, done, p, m)
  {
    forall v | 0 <= v < LOWER_PAGES
      ensures ViewOf(a, m2, root, v) == if done && v == p then m else ViewOf(a, m0, root, v)
    {
      assert ViewOf(a, m1, root, v) == ViewOf(a, m0, root, v);
    }
  }

  /** An update that was not done is the same whatever it would have been. */
  lemma ViewNotDone(a: Arch, root: nat, m0: map<nat, Page>, m1: map<nat, Page>, p: nat, m: Option<Mapping>,
                    q: nat, n: Option<Mapping>)
    requires ViewUpdated(a, root, m0, m1, false, p, m)
    ensures ViewUpdated(a, root, m0, m1, false, q, n)
  {
    forall v | 0 <= v < LOWER_PAGES ensures ViewOf(a, m1, root, v) == ViewOf(a, m0, root, v) { }
  }

  /** An entry for a frame in range decodes to that frame and the flags asked for. */
  lemma DecodedBack(a: Arch, phys: Word, f: Flags)
    requires phys % 4096 == 0 && phys < PhysLimit(a)
    ensures Decoded(a, Some(Make(a, phys, f.(present := true), false))) == Some(Mapping(phys, f.(present := true)))
  {
    EntryBack(a, phys, f.(present := true), false);
  }

  /** Linking a table writes nothing but the two tables, and neither is free. */
  lemma LinkFrame(mem: map<nat, Page>, own: Tree, n: Node, c: Node, child: nat, free: seq<nat>,
                  mem': map<nat, Page>, own': Tree)
    requires n in own && c !in own && own' == own[c := child]
    requires child !in free && forall m :: m in own ==> own[m] !in free
    requires mem'.Keys == mem.Keys && forall f :: f in mem && f != child && f != own[n] ==> mem'[f] == mem[f]
    ensures forall m :: m in own' ==> own'[m] !in free
    ensures forall f :: f in mem' && f !in own'.Values ==> mem'[f] == mem[f]
  {
    assert own'[c] == child && own'[n] == own[n];
  }

  class AddressSpace {
    const arch: Arch
    const ram: Memory
    const root: nat
    var demandLo: nat
    var demandHi: nat
    /** Which frame holds which table of the lower half. */
    ghost var own: Tree

    /** Every frame of memory fits in an entry of this architecture. */
    ghost predicate FramesFit()
      reads this, ram
    {
      forall f :: f in ram.mem ==> IsFrame(f, ram.hhdm) && f < PhysLimit(arch)
    }

    ghost predicate Valid()
      reads this, ram
    {
      && ram.Valid()
      && Tables(arch, ram.mem, own, root)
      && (forall n :: n in own ==> own[n] !in ram.free)
      && FramesFit()
    }

    /** What the hardware finds for page `v`. */
    ghost function Translation(v: nat): Option<Word>
      reads this, ram
    {
      Walk(arch, ram.mem, root, 4, v)
    }

    lemma TranslationIsLeaf(v: nat)
      requires Valid() && v < LOWER_PAGES
      ensures Translation(v) == Leaf(ram.mem, own, v)
    {
      RootCovers(v);
      WalkIsLeaf(arch, ram.mem, own, root, v, 4);
    }

    /** A context around a root whose lower half is empty: nothing is mapped. */
    constructor (arch: Arch, ram: Memory, root: nat)
      requires ram.Valid() && root in ram.mem && root !in ram.free
      requires forall f :: f in ram.mem ==> IsFrame(f, ram.hhdm) && f < PhysLimit(arch)
      requires forall i :: 0 <= i < 256 ==> !Present(ram.mem[root][i])
      ensures Valid() && own == map[ROOT := root]
      ensures this.arch == arch && this.ram == ram && this.root == root && demandLo == demandHi == 0
      ensures forall v :: 0 <= v < LOWER_PAGES ==> Translation(v) == None
    {
      this.arch, this.ram, this.root := arch, ram, root;
      demandLo, demandHi := 0, 0;
      own := map[ROOT := root];
      new;
      assert NodeOk(arch, ram.mem, own, ROOT) by {
        assert forall i :: 0 <= i < 256 ==> EntryOk(arch, ram.mem, own, ROOT, i);
      }
      forall v: nat | v < LOWER_PAGES ensures Translation(v) == None { TranslationIsLeaf(v); }
    }

    /** The address space as a map from pages to frames and flags. */
    ghost function View(v: nat): Option<Mapping>
      reads this, ram
    {
      ViewOf(arch, ram.mem, root, v)
    }

    lemma LeafIsTranslation(v: nat)
      requires Valid()
      ensures Leaf(ram.mem, own, v) == if v < LOWER_PAGES then Translation(v) else None
    {
      if v < LOWER_PAGES { TranslationIsLeaf(v); }
      else if Leaf(ram.mem, own, v).Some? { LeafInLower(arch, ram.mem, own, root, v); }
    }

    /** Zeroes a page and writes the entry that refers to it. */
    method WriteTable(table: nat, index: nat, child: nat) returns (e: Word)
      requires ram.Valid() && FramesFit() && table in ram.mem && table !in ram.free && index < 512
      requires child in ram.mem && child !in ram.free && child != table
      modifies ram`mem
      ensures ram.Valid() && Present(e) && GetPhys(arch, e) == child
      ensures ram.mem == old(ram.mem)[child := ZERO_PAGE][table := old(ram.mem)[table][index := e]]
    {
      EntryBack(arch, child, TABLE_FLAGS, true);
      ram.ZeroPage(child);
      e := Make(arch, child, TABLE_FLAGS, true);
      ram.WriteWord(table, index, e);
    }

    /** Links a fresh page as a zeroed table. */
    method LinkTable(table: nat, index: nat, child: nat, ghost n: Node, ghost mem0: map<nat, Page>)
      requires ram.Valid() && FramesFit() && Tables(arch, mem0, own, root)
      requires forall m :: m in own ==> own[m] !in ram.free && own[m] != child
      requires forall m :: m in own ==> own[m] in mem0 && own[m] in ram.mem && ram.mem[own[m]] == mem0[own[m]]
      requires n in own && own[n] == table && n.height > 1 && index < Width(n.height)
      requires !Present(ram.mem[table][index]) && child in ram.mem && child !in ram.free
      modifies ram`mem, this`own
      ensures Valid() && own == old(own)[Child(n, index) := child]
      ensures Child(n, index) !in old(own)
      ensures forall u: nat :: Leaf(ram.mem, own, u) == Leaf(mem0, old(own), u)
      ensures ram.mem.Keys == old(ram.mem.Keys)
      ensures forall f :: f in ram.mem && f !in own.Values ==> ram.mem[f] == old(ram.mem[f])
    {
      ghost var mem1 := ram.mem;
      var e := WriteTable(table, index, child);
      LinkKeeps(arch, mem0, mem1, own, root, n, index, child, e, ram.mem);
      ghost var own' := own[Child(n, index) := child];
      LinkFrame(mem1, own, n, Child(n, index), child, ram.free, ram.mem, own');
      own := own';
    }

    /** The entry is followed, or a fresh zeroed table is linked in its place; 0 when out of memory. */
    method GetOrCreateTable(table: nat, index: nat, ghost n: Node) returns (child: nat)
      requires Valid() && n in own && own[n] == table && n.height > 1 && index < Width(n.height)
      modifies ram`mem, ram`head, ram`free, this`own
      ensures Valid()
      ensures forall u: nat :: Leaf(ram.mem, own, u) == old(Leaf(ram.mem, own, u))
      ensures child == 0 ==> ram.free == [] && Child(n, index) !in own
      ensures child != 0 ==> Child(n, index) in own && own[Child(n, index)] == child
      ensures Took(old(own), old(ram.free), own, ram.free)
      ensures ram.mem.Keys == old(ram.mem.Keys)
      ensures forall f :: f in ram.mem && f !in own.Values && f !in ram.free ==> ram.mem[f] == old(ram.mem[f])
    {
      assert NodeOk(arch, ram.mem, own, n) && EntryOk(arch, ram.mem, own, n, index);
      ghost var mem0 := ram.mem;
      TookNothing(own, ram.free);
      if Present(ram.mem[table][index]) {
        child := GetPhys(arch, ram.mem[table][index]);
        assert NodeOk(arch, ram.mem, own, Child(n, index));
        return;
      }
      AbsentEntry(arch, ram.mem, own, root, n, index);
      TablesInMemory(arch, ram.mem, own, root);
      child := ram.AllocOne();
      if child == 0 { return; }
      ghost var own0, free := own, ram.free;
      LinkTable(table, index, child, n, mem0);
      TookOne(own0, Child(n, index), child, free);
    }

    /** The table of height `h` on the way to page `v`. */
    ghost predicate TableFor(v: nat, h: nat, table: nat)
      reads this, ram
    {
      Node(h, Up(v, h)) in own && own[Node(h, Up(v, h))] == table && table in ram.mem
    }

    /** One level of the walk, from the table above; 0 when there is no memory for a table. */
    method WalkDown(virt: nat, level: nat, table: nat) returns (child: nat)
      requires Valid() && virt < ADDR_SPLIT && 0 < level <= 3 && TableFor(virt / 4096, level + 1, table)
      modifies ram`mem, ram`head, ram`free, this`own
      ensures Valid()
      ensures forall u: nat :: Leaf(ram.mem, own, u) == old(Leaf(ram.mem, own, u))
      ensures Took(old(own), old(ram.free), own, ram.free)
      ensures child == 0 ==> ram.free == [] && Node(1, virt / 4096 / 512) !in own
      ensures child != 0 ==> TableFor(virt / 4096, level, child)
      ensures ram.mem.Keys == old(ram.mem.Keys)
      ensures forall f :: f in ram.mem && f !in own.Values && f !in ram.free ==> ram.mem[f] == old(ram.mem[f])
    {
      ghost var v := virt / 4096;
      var index := Index(virt, level);
      IndexIsDigit(virt, level);
      EntryOf(arch, ram.mem, own, root, v, level + 1);
      ghost var n := Node(level + 1, Up(v, level + 1));
      assert Child(n, index) == Node(level, Up(v, level));
      child := GetOrCreateTable(table, index, n);
      if child == 0 {
        Ancestor(arch, ram.mem, own, root, v, level);
      } else {
        assert NodeOk(arch, ram.mem, own, Child(n, index));
      }
    }

    /** Walks down from the root, creating what is missing; 0 when out of memory. */
    method WalkCreating(virt: nat) returns (table: nat)
      requires Valid() && virt < ADDR_SPLIT
      modifies ram`mem, ram`head, ram`free, this`own
      ensures Valid()
      ensures forall u: nat :: Leaf(ram.mem, own, u) == old(Leaf(ram.mem, own, u))
      ensures Took(old(own), old(ram.free), own, ram.free)
      ensures table == 0 ==> ram.free == [] && Node(1, virt / 4096 / 512) !in own
      ensures table != 0 ==> Node(1, virt / 4096 / 512) in own && own[Node(1, virt / 4096 / 512)] == table
      ensures ram.mem.Keys == old(ram.mem.Keys)
      ensures forall f :: f in ram.mem && f !in own.Values && f !in ram.free ==> ram.mem[f] == old(ram.mem[f])
    {
      ghost var v := virt / 4096;
      table := root;
      var level := 3;
      RootCovers(v);
      TookNothing(own, ram.free);
      assert NodeOk(arch, ram.mem, own, ROOT);
      while level > 0
        invariant 0 <= level <= 3 && Valid() && TableFor(v, level + 1, table)
        invariant forall u: nat :: Leaf(ram.mem, own, u) == old(Leaf(ram.mem, own, u))
        invariant Took(old(own), old(ram.free), own, ram.free)
        invariant ram.mem.Keys == old(ram.mem.Keys)
        invariant forall f :: f in ram.mem && f !in own.Values && f !in ram.free ==> ram.mem[f] == old(ram.mem[f])
      {
        ghost var own1, free1 := own, ram.free;
        table := WalkDown(virt, level, table);
        TookMore(old(own), old(ram.free), own1, free1, own, ram.free);
        if table == 0 { return; }
        level := level - 1;
      }
      assert Up(v, 0) == v && Up(v, 1) == v / 512;
    }

    /** Walks down from the root through present entries only; 0 when one is missing. */
    method WalkFinding(virt: nat) returns (table: nat)
      requires Valid() && virt < ADDR_SPLIT
      ensures table == 0 <==> Node(1, virt / 4096 / 512) !in own
      ensures table != 0 ==> table == own[Node(1, virt / 4096 / 512)] && table in ram.mem
    {
      ghost var v := virt / 4096;
      table := root;
      var level := 3;
      RootCovers(v);
      assert NodeOk(arch, ram.mem, own, ROOT);
      while level > 0
        invariant 0 <= level <= 3
        invariant Node(level + 1, Up(v, level + 1)) in own && own[Node(level + 1, Up(v, level + 1))] == table
        invariant table in ram.mem
      {
        var index := Index(virt, level);
        IndexIsDigit(virt, level);
        EntryOf(arch, ram.mem, own, root, v, level + 1);
        if Present(ram.mem[table][index]) {
          table := GetPhys(arch, ram.mem[table][index]);
          assert NodeOk(arch, ram.mem, own, Node(level, Up(v, level)));
        } else {
          Ancestor(arch, ram.mem, own, root, v, level);
          return 0;
        }
        level := level - 1;
      }
      assert IsFrame(table, ram.hhdm);
    }

    /** The leaf write shared by map and unmap. */
    method WriteLeaf(table: nat, virt: nat, w: Word)
      requires Valid() && virt < ADDR_SPLIT
      requires Node(1, virt / 4096 / 512) in own && own[Node(1, virt / 4096 / 512)] == table && table in ram.mem
      modifies ram`mem
      ensures Valid()
      ensures forall u: nat :: Leaf(ram.mem, own, u) ==
                if u == virt / 4096 then (if Present(w) then Some(w) else None) else old(Leaf(ram.mem, own, u))
      ensures ram.mem.Keys == old(ram.mem.Keys)
      ensures forall f :: f in ram.mem && f != table ==> ram.mem[f] == old(ram.mem[f])
    {
      IndexIsDigit(virt, 0);
      ghost var mem0 := ram.mem;
      ghost var leaf := Node(1, virt / 4096 / 512);
      ram.WriteWord(table, Index(virt, 0), w);
      LeafWriteKeeps(arch, mem0, own, root, leaf, Index(virt, 0), w);
      LeafWrite(mem0, own, virt / 4096, w, ram.mem);
    }

    /**
     Maps one page.  On success exactly its translation changes, to `phys` and the given flags; on
     failure no translation changes.  Mapping a page again never fails.  Frames that left the free
     list are tables now.
     */
    method MapPage(virt: nat, phys: Word, flags: Flags) returns (ok: bool)
      requires Valid() && virt < ADDR_SPLIT
      modifies ram`mem, ram`head, ram`free, this`own
      ensures Valid()
      ensures WalkUpdated(arch, root, old(ram.mem), ram.mem, ok, virt / 4096,
                          Some(Make(arch, phys, flags.(present := true), false)))
      ensures forall u: nat :: Leaf(ram.mem, own, u) ==
                if ok && u == virt / 4096 then Some(Make(arch, phys, flags.(present := true), false))
                else old(Leaf(ram.mem, own, u))
      ensures phys % 4096 == 0 && phys < PhysLimit(arch) ==>
                ViewUpdated(arch, root, old(ram.mem), ram.mem, ok, virt / 4096,
                            Some(Mapping(phys, flags.(present := true))))
      ensures !ok ==> ram.free == []
      ensures old(Translation(virt / 4096)).Some? ==> ok
      ensures Took(old(own), old(ram.free), own, ram.free)
      ensures ram.mem.Keys == old(ram.mem.Keys)
      ensures forall f :: f in ram.mem && f !in own.Values && f !in ram.free ==> ram.mem[f] == old(ram.mem[f])
    {
      ghost var mem0, own0 := ram.mem, own;
      TranslationIsLeaf(virt / 4096);
      var table := WalkCreating(virt);
      ok := table != 0;
      var w := Make(arch, phys, flags.(present := true), false);
      if ok {
        MadePresent(arch, phys, flags);
        assert NodeOk(arch, ram.mem, own, Node(1, virt / 4096 / 512));
        WriteLeaf(table, virt, w);
      }
      WalkFromLeaves(arch, root, mem0, own0, ram.mem, own, ok, virt / 4096, Some(w));
      if phys % 4096 == 0 && phys < PhysLimit(arch) {
        DecodedBack(arch, phys, flags);
        ViewFromWalk(arch, root, mem0, ram.mem, ok, virt / 4096, Some(w), Some(Mapping(phys, flags.(present := true))));
      }
    }

    /** Unmaps one page: fails, changing nothing, exactly when the page is not mapped. */
    method UnmapPage(virt: nat) returns (ok: bool)
      requires Valid() && virt < ADDR_SPLIT
      modifies ram`mem
      ensures Valid()
      ensures ok == old(Translation(virt / 4096)).Some?
      ensures WalkUpdated(arch, root, old(ram.mem), ram.mem, true, virt / 4096, None)
      ensures ViewUpdated(arch, root, old(ram.mem), ram.mem, true, virt / 4096, None)
      ensures forall u: nat :: Leaf(ram.mem, own, u) == if u == virt / 4096 then None else old(Leaf(ram.mem, own, u))
      ensures !ok ==> ram.mem == old(ram.mem)
      ensures ram.mem.Keys == old(ram.mem.Keys)
      ensures forall f :: f in ram.mem && f !in own.Values ==> ram.mem[f] == old(ram.mem[f])
    {
      ghost var mem0 := ram.mem;
      TranslationIsLeaf(virt / 4096);
      var table := WalkFinding(virt);
      IndexIsDigit(virt, 0);
      ok := table != 0 && Present(ram.mem[table][Index(virt, 0)]);
      if ok {
        ZeroIsAbsent();
        WriteLeaf(table, virt, 0);
      }
      WalkFromLeaves(arch, root, mem0, own, ram.mem, own, true, virt / 4096, None);
      ViewFromWalk(arch, root, mem0, ram.mem, true, virt / 4096, None, None);
    }

    /** Reads the translation back: the frame with the offset in the page, or 0 when not mapped. */
    method VirtToPhys(virt: nat) returns (phys: nat)
      requires Valid() && virt < ADDR_SPLIT
      ensures phys == match View(virt / 4096) case None => 0 case Some(m) => m.frame + virt % 4096
    {
      TranslationIsLeaf(virt / 4096);
      var table := WalkFinding(virt);
      IndexIsDigit(virt, 0);
      if table == 0 || !Present(ram.mem[table][Index(virt, 0)]) { return 0; }
      phys := GetPhys(arch, ram.mem[table][Index(virt, 0)]) + virt % 4096;
    }

    /** A fresh zeroed page that belongs to nobody yet, or 0. */
    method TakeZeroedPage() returns (phys: Word)
      requires Valid()
      modifies ram`mem, ram`head, ram`free
      ensures Valid() && own == old(own)
      ensures forall u: nat :: Leaf(ram.mem, own, u) == old(Leaf(ram.mem, own, u))
      ensures phys == 0 <==> old(ram.free) == []
      ensures old(ram.free) == if phys == 0 then ram.free else [phys] + ram.free
      ensures phys != 0 ==> phys in ram.mem && ram.mem[phys] == ZERO_PAGE && phys !in own.Values && phys !in ram.free
      ensures ram.mem.Keys == old(ram.mem.Keys)
      ensures forall f :: f in ram.mem && f !in ram.free && f != phys ==> ram.mem[f] == old(ram.mem[f])
    {
      ghost var mem0 := ram.mem;
      TablesInMemory(arch, mem0, own, root);
      phys := ram.AllocOne();
      if phys == 0 { return; }
      ram.ZeroPage(phys);
      TablesFrame(arch, mem0, ram.mem, own, root);
    }

    /** pmm_free of a page that is no table of this context. */
    method GiveBack(phys: Word)
      requires Valid() && phys in ram.mem && phys !in own.Values && phys !in ram.free
      modifies ram`mem, ram`head, ram`free
      ensures Valid() && own == old(own) && ram.free == [phys] + old(ram.free) && ram.mem.Keys == old(ram.mem.Keys)
      ensures forall u: nat :: Leaf(ram.mem, own, u) == old(Leaf(ram.mem, own, u))
      ensures forall f :: f in ram.mem && f != phys ==> ram.mem[f] == old(ram.mem[f])
    {
      ghost var mem0 := ram.mem;
      TablesInMemory(arch, mem0, own, root);
      ram.FreeOne(phys);
      TablesFrame(arch, mem0, ram.mem, own, root);
    }

    /** Maps a zeroed page that is nobody's, writable for the user; out of memory, gives it back. */
    method MapZeroed(virt: nat, phys: Word) returns (ok: bool)
      requires Valid() && virt < ADDR_SPLIT && phys in ram.mem && phys !in own.Values && phys !in ram.free
      modifies ram`mem, ram`head, ram`free, this`own
      ensures Valid()
      ensures forall u: nat :: Leaf(ram.mem, own, u) ==
                if ok && u == virt / 4096 then Some(Make(arch, phys, TABLE_FLAGS, false))
                else old(Leaf(ram.mem, own, u))
      ensures ram.mem.Keys == old(ram.mem.Keys)
      ensures ok ==> phys !in own.Values && phys !in ram.free && Took(old(own), old(ram.free), own, ram.free)
      ensures forall f :: f in own.Values || f in ram.free ==> f in old(own.Values) || f in old(ram.free) || f == phys
      ensures forall f :: f in ram.mem && f !in own.Values && f !in ram.free ==> ram.mem[f] == old(ram.mem[f])
      ensures !ok ==> ram.free == [phys]
    {
      ghost var own0, free0 := own, ram.free;
      ok := MapPage(virt, phys, Flags(false, true, true, false, false));
      StaysFresh(own0, free0, own, ram.free, phys);
      assert forall f :: f in own.Values || f in ram.free ==> f in own0.Values || f in free0;
      if !ok { GiveBack(phys); }
    }

    /** Maps a fresh zeroed page, writable for the user; out of memory, gives back the page taken for it. */
    method MapFresh(virt: nat) returns (ok: bool, ghost frame: Word)
      requires Valid() && virt < ADDR_SPLIT
      modifies ram`mem, ram`head, ram`free, this`own
      ensures Valid()
      ensures forall u: nat :: Leaf(ram.mem, own, u) ==
                if ok && u == virt / 4096 then Some(Make(arch, frame, TABLE_FLAGS, false))
                else old(Leaf(ram.mem, own, u))
      ensures ram.mem.Keys == old(ram.mem.Keys)
      ensures ok ==> frame in ram.mem && ram.mem[frame] == ZERO_PAGE && frame !in own.Values && frame !in ram.free
      ensures ok ==> old(ram.free) != [] && frame == old(ram.free)[0]
      ensures ok ==> Took(old(own), old(ram.free)[1..], own, ram.free)
      ensures forall f :: f in own.Values || f in ram.free ==> f in old(own.Values) || f in old(ram.free)
      ensures forall f :: f in ram.mem && f !in own.Values && f !in ram.free && f !in old(ram.free) ==>
                ram.mem[f] == old(ram.mem[f])
      ensures !ok ==> ram.free == [] || (|ram.free| == 1 && old(ram.free) != [] && ram.free[0] == old(ram.free)[0])
    {
      ok, frame := false, 0;
      var phys := TakeZeroedPage();
      if phys == 0 { return; }
      frame := phys;
      ok := MapZeroed(virt, phys);
    }

    /**
     A not-present fault in the demand range maps a zeroed page and changes no other translation; any
     other fault is declined, and so is one for which there is no memory.
     */
    method DemandFault(addr: nat, faultOnPresent: bool) returns (handled: bool, ghost frame: Word)
      requires Valid() && demandHi <= ADDR_SPLIT
      modifies ram`mem, ram`head, ram`free, this`own
      ensures Valid()
      ensures handled ==> demandLo <= addr < demandHi && !faultOnPresent
      ensures WalkUpdated(arch, root, old(ram.mem), ram.mem, handled, addr / 4096,
                          Some(Make(arch, frame, TABLE_FLAGS, false)))
      ensures forall u: nat :: Leaf(ram.mem, own, u) ==
                if handled && u == addr / 4096 then Some(Make(arch, frame, TABLE_FLAGS, false))
                else old(Leaf(ram.mem, own, u))
      ensures ram.mem.Keys == old(ram.mem.Keys)
      ensures handled ==> frame in ram.mem && ram.mem[frame] == ZERO_PAGE && frame !in own.Values && frame !in ram.free
      ensures handled ==> old(ram.free) != [] && frame == old(ram.free)[0]
      ensures ViewUpdated(arch, root, old(ram.mem), ram.mem, handled, addr / 4096, Some(Mapping(frame, TABLE_FLAGS)))
      ensures handled ==> Took(old(own), old(ram.free)[1..], own, ram.free)
      ensures forall f :: f in own.Values || f in ram.free ==> f in old(own.Values) || f in old(ram.free)
      ensures forall f :: f in ram.mem && f !in own.Values && f !in ram.free && f !in old(ram.free) ==>
                ram.mem[f] == old(ram.mem[f])
      ensures !handled && demandLo <= addr < demandHi && !faultOnPresent ==> |ram.free| <= 1
    {
      handled, frame := false, 0;
      if addr < demandLo || addr >= demandHi { return; }
      if faultOnPresent { return; }
      ghost var mem0, own0 := ram.mem, own;
      handled, frame := MapFresh(addr / 4096 * 4096);
      WalkFromLeaves(arch, root, mem0, own0, ram.mem, own, handled, addr / 4096,
                     Some(Make(arch, frame, TABLE_FLAGS, false)));
      if handled { DecodedBack(arch, frame, TABLE_FLAGS); }
      ViewFromWalk(arch, root, mem0, ram.mem, handled, addr / 4096, Some(Make(arch, frame, TABLE_FLAGS, false)),
                   Some(Mapping(frame, TABLE_FLAGS)));
    }
  }

  /** arch_vmm_new_context_root: a zeroed root, with the kernel's upper half copied in on x86_64; 0 out of memory. */
  method NewContextRoot(arch: Arch, ram: Memory, kernelRoot: nat) returns (root: nat)
    requires ram.Valid() && kernelRoot in ram.mem && kernelRoot !in ram.free
    modifies ram`mem, ram`head, ram`free
    ensures ram.Valid()
    ensures root == 0 <==> old(ram.free) == []
    ensures old(ram.free) == if root == 0 then ram.free else [root] + ram.free
    ensures ram.mem.Keys == old(ram.mem.Keys)
    ensures forall f :: f in ram.mem && f != root && f !in ram.free ==> ram.mem[f] == old(ram.mem[f])
    ensures root != 0 ==> root in ram.mem && root !in ram.free
    ensures root != 0 ==> forall i :: 0 <= i < 512 ==>
              ram.mem[root][i] == if arch.X86_64? && i >= 256 then old(ram.mem[kernelRoot][i]) else 0
  {
    root := ram.AllocOne();
    if root == 0 { return; }
    ram.ZeroPage(root);
    ghost var free1 := ram.free;
    assert kernelRoot != root;
    if arch.X86_64? {
      var i := 256;
      while i < 512
        invariant 256 <= i <= 512 && ram.Valid() && ram.free == free1
        invariant ram.mem.Keys == old(ram.mem.Keys)
        invariant forall f :: f in ram.mem && f != root && f !in ram.free ==> ram.mem[f] == old(ram.mem[f])
        invariant forall j :: 0 <= j < 512 ==>
                    ram.mem[root][j] == if 256 <= j < i then old(ram.mem[kernelRoot][j]) else 0
      {
        ram.WriteWord(root, i, ram.mem[kernelRoot][i]);
        i := i + 1;
      }
    }
  }

  /** vmm_create_context; `room` says whether the context structure itself could be allocated. */
  method CreateContext(arch: Arch, ram: Memory, kernelRoot: nat, room: bool) returns (ctx: AddressSpace?)
    requires ram.Valid() && kernelRoot in ram.mem && kernelRoot !in ram.free
    requires forall f :: f in ram.mem ==> IsFrame(f, ram.hhdm) && f < PhysLimit(arch)
    modifies ram`mem, ram`head, ram`free
    ensures ram.Valid() && ram.mem.Keys == old(ram.mem.Keys)
    ensures forall f :: f in ram.mem && f !in old(ram.free) ==> ram.mem[f] == old(ram.mem[f])
    ensures ctx == null <==> old(ram.free) == [] || !room
    ensures ctx == null ==> ram.free == old(ram.free)
    ensures ctx != null ==> fresh(ctx) && ctx.Valid() && ctx.ram == ram && ctx.arch == arch
    ensures ctx != null ==> ctx.own == map[ROOT := ctx.root] && old(ram.free) == [ctx.root] + ram.free
    ensures ctx != null ==> forall v :: 0 <= v < LOWER_PAGES ==> ctx.Translation(v) == None
  {
    var root := NewContextRoot(arch, ram, kernelRoot);
    if root == 0 { return null; }
    ZeroIsAbsent();
    if !room {
      ram.FreeOne(root);
      return null;
    }
    ctx := new AddressSpace(arch, ram, root);
  }
}
