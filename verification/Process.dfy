/**
 Starting a program by hand, as the kernel does for init (kernel/src/core/main.c): a context, the program
 loaded into it, and its first stack.
 */
module Process {
  import opened Base
  import opened Elf
  import opened ElfImage
  import opened PageTables
  import opened Pmm
  import opened Pte
  import opened SparseFile
  import opened Teardown
  import opened UserStack
  import opened Vmm

  /** The frames of pages are the frames the address space has for them. */
  lemma KeptPages(a: Arch, mem: map<nat, Page>, mem': map<nat, Page>, root: nat, data: map<nat, nat>,
                  pages: map<nat, Mapping>)
    requires PagesAre(a, mem, root, data, pages) && KeptIn(mem, mem', data)
    ensures SameIn(mem, mem', pages)
  {
    forall p | p in pages ensures pages[p].frame in mem && pages[p].frame in mem' &&
                                  mem'[pages[p].frame] == mem[pages[p].frame] {
      assert PageIs(a, mem, root, data, pages, p);
    }
  }

  /** An image whose frames keep their contents stays that image. */
  lemma ImageKept(pages: map<nat, Mapping>, mem: map<nat, Page>, mem': map<nat, Page>, file: seq<Byte>,
                  segs: seq<Segment>)
    requires HoldsImage(pages, ByteMem(mem), file, segs) && SameIn(mem, mem', pages)
    ensures HoldsImage(pages, ByteMem(mem'), file, segs)
  {
    forall q: nat ensures FilledAt(pages, ByteMem(mem'), file, segs, |segs|, q) {
      assert FilledAt(pages, ByteMem(mem), file, segs, |segs|, q);
    }
  }

  /** A stack in the page at `vaddr`, which has the given frame, with its argc `c` bytes up, at `sp`. */
  ghost predicate StackIn(mem: map<nat, FilePage>, frame: nat, vaddr: nat, c: nat, sp: nat, argv: seq<seq<Byte>>,
                          envp: seq<seq<Byte>>, at: seq<nat>, bt: seq<nat>) {
    frame in mem && sp == vaddr + c && sp % 16 == 0 && Laid(mem[frame], vaddr, c, argv, envp, at, bt)
  }

  /** What building a stack does to the pages. */
  lemma StackAdded(a: Arch, root: nat, mem: map<nat, Page>, data: map<nat, nat>, pages: map<nat, Mapping>,
                   mem': map<nat, Page>, data': map<nat, nat>, sp: nat, vaddr: nat, c: nat, frame: nat,
                   argv: seq<seq<Byte>>, envp: seq<seq<Byte>>, at: seq<nat>, bt: seq<nat>)
    returns (pages': map<nat, Mapping>)
    requires PagesAre(a, mem, root, data, pages) && (forall v :: v in data ==> v < LOWER_PAGES)
    requires 0 < vaddr < ADDR_SPLIT && vaddr % PAGE_SIZE == 0
    requires data' == if sp == 0 then data else data[vaddr / PAGE_SIZE := frame]
    requires StackBuilt(a, root, mem, mem', frame, vaddr, c, sp, argv, envp, at, bt)
    ensures pages' == if sp == 0 then pages else pages[vaddr := Mapping(frame, STACK_FLAGS)]
    ensures PagesAre(a, mem', root, data', pages')
    ensures sp != 0 ==> StackIn(ByteMem(mem'), frame, vaddr, c, sp, argv, envp, at, bt)
  {
    var m := Mapping(frame, STACK_FLAGS);
    pages' := if sp == 0 then pages else pages[vaddr := m];
    if sp == 0 {
      PagesKept(a, mem, mem', root, data, pages);
    } else {
      PagesMapped(a, mem, mem', root, data, data', pages, pages', true, vaddr, m);
    }
  }

  /**
   The frame that is nobody's after a stack was built: the one the stack's page had before, or, without
   memory for tables, the one taken for the stack.
   */
  ghost function LostFrom(pages: map<nat, Mapping>, vaddr: nat, sp: nat, frame: nat): (r: set<nat>)
    ensures |r| <= 1
  {
    if sp == 0 then if frame == 0 then {} else {frame}
    else if vaddr in pages then {pages[vaddr].frame} else {}
  }

  lemma LostIsFrom(a: Arch, mem: map<nat, Page>, root: nat, data: map<nat, nat>, pages: map<nat, Mapping>, sp: nat,
                   vaddr: nat, frame: nat)
    requires PagesAre(a, mem, root, data, pages) && vaddr % PAGE_SIZE == 0 && (sp != 0 ==> frame !in data.Values)
    ensures LostBy(sp != 0, data, vaddr / PAGE_SIZE, frame) == LostFrom(pages, vaddr, sp, frame)
  {
    assert PageIs(a, mem, root, data, pages, vaddr);
    if vaddr in pages { assert data[vaddr / PAGE_SIZE] in data.Values; }
  }

  /**
   elf_build_user_stack in a space that is already in use: one page more, or the page below `stackTop`
   replaced; all frames that pages had keep their contents.
   */
  method AddStack(space: Space, stackTop: nat, argv: seq<seq<Byte>>, envp: seq<seq<Byte>>)
    returns (sp: nat, ghost vaddr: nat, ghost c: nat, ghost frame: nat, ghost at: seq<nat>, ghost bt: seq<nat>,
             ghost lost: set<nat>)
    requires space.Valid() && space.short.Served? && stackTop % PAGE_SIZE == 0 && PAGE_SIZE < stackTop <= ADDR_SPLIT
    requires UserStack.Fits(Total(argv) + Total(envp), Slots(|argv|, |envp|))
    modifies space`pages, space.owner`data, space.owner.ctx`own
    modifies space.owner.ctx.ram`mem, space.owner.ctx.ram`head, space.owner.ctx.ram`free
    ensures vaddr + PAGE_SIZE == stackTop && vaddr % PAGE_SIZE == 0 && (sp == 0 ==> space.owner.ctx.ram.free == [])
    ensures space.pages == if sp == 0 then old(space.pages) else old(space.pages)[vaddr := Mapping(frame, STACK_FLAGS)]
    ensures sp != 0 ==> StackIn(space.Mem(), frame, vaddr, c, sp, argv, envp, at, bt)
    ensures SameIn(old(space.owner.ctx.ram.mem), space.owner.ctx.ram.mem, old(space.pages))
    ensures lost == LostFrom(old(space.pages), vaddr, sp, frame) && lost <= old(space.owner.Stock())
    ensures space.owner.Stock() == old(space.owner.Stock()) - lost
    ensures space.Valid()
  {
    ghost var mem0, data0, pages0 := space.owner.ctx.ram.mem, space.owner.data, space.pages;
    space.AllMapped();
    sp, vaddr, c, frame, at, bt := Build(space.owner, stackTop, argv, envp);
    lost := LostBy(sp != 0, data0, vaddr / PAGE_SIZE, frame);
    LostIsFrom(space.owner.ctx.arch, mem0, space.owner.ctx.root, data0, pages0, sp, vaddr, frame);
    KeptPages(space.owner.ctx.arch, mem0, space.owner.ctx.ram.mem, space.owner.ctx.root, data0, pages0);
    ghost var next := StackAdded(space.owner.ctx.arch, space.owner.ctx.root, mem0, data0, pages0,
                                 space.owner.ctx.ram.mem, space.owner.data, sp, vaddr, c, frame, argv, envp, at, bt);
    space.pages := next;
  }

  /**
   The program is loaded, with entry point `entry`, and has its stack: `image` is the program's pages,
   all of them with their bytes and permissions, and the address space maps them and the stack's page,
   and nothing else.
   */
  ghost predicate Ready(space: Space, image: map<nat, Mapping>, file: seq<Byte>, machine: nat, entry: nat, frame: nat,
                        vaddr: nat, c: nat, sp: nat, argv: seq<seq<Byte>>, envp: seq<seq<Byte>>, at: seq<nat>,
                        bt: seq<nat>)
    reads space, space.owner.ctx.ram
  {
    && ReadHeader(file, machine).Some?
    && Executable(image, space.Mem(), file, ReadHeader(file, machine).value, entry)
    && space.pages == image[vaddr := Mapping(frame, STACK_FLAGS)]
    && StackIn(space.Mem(), frame, vaddr, c, sp, argv, envp, at, bt)
  }

  /** Loads a program into a fresh address space and builds its stack; `entry` and `sp` are where it starts. */
  method Prepare(space: Space, file: Option<seq<Byte>>, machine: nat, stackTop: nat, argv: seq<seq<Byte>>,
                 envp: seq<seq<Byte>>)
    returns (r: int, entry: nat, sp: nat, ghost image: map<nat, Mapping>, ghost vaddr: nat, ghost c: nat,
             ghost frame: nat, ghost at: seq<nat>, ghost bt: seq<nat>, ghost lost: set<nat>)
    requires space.Valid() && space.pages == map[] && space.short.Served?
    requires file.Some? && ReadHeader(file.value, machine).Some? ==>
               AllFit(file.value, ReadHeader(file.value, machine).value)
    requires stackTop % PAGE_SIZE == 0 && PAGE_SIZE < stackTop <= ADDR_SPLIT
    requires UserStack.Fits(Total(argv) + Total(envp), Slots(|argv|, |envp|))
    modifies space`pages, space`short, space.owner`data, space.owner.ctx`own
    modifies space.owner.ctx.ram`mem, space.owner.ctx.ram`head, space.owner.ctx.ram`free
    ensures r == 0 ==> file.Some? && vaddr + PAGE_SIZE == stackTop
    ensures r == 0 ==> Ready(space, image, file.value, machine, entry, frame, vaddr, c, sp, argv, envp, at, bt)
    ensures r != 0 ==>
              file.None? || ReadHeader(file.value, machine).None? || space.owner.ctx.ram.free == [] ||
              !Whole(file.value, ReadHeader(file.value, machine).value)
    ensures lost <= old(space.owner.Stock()) && space.owner.Stock() == old(space.owner.Stock()) - lost && |lost| <= 1
    ensures r == 0 ==> lost == if vaddr in image then {image[vaddr].frame} else {}
    ensures space.Valid()
  {
    vaddr, c, frame, at, bt, sp := 0, 0, 0, [], [], 0;
    r, entry := Load(space, file, machine);
    image, lost := space.pages, Lost(space.short);
    if r != 0 { return; }
    ghost var mem := space.owner.ctx.ram.mem;
    ghost var h := ReadHeader(file.value, machine).value;
    sp, vaddr, c, frame, at, bt, lost := AddStack(space, stackTop, argv, envp);
    r := if sp == 0 then -1 else 0;
    ImageKept(image, mem, space.owner.ctx.ram.mem, file.value, Segments(file.value, h.phoff, 0, h.phnum));
  }

  /** The hardware finds the program's byte, or zero, at every address of every segment outside the stack's page. */
  lemma ProgramIsThere(space: Space, image: map<nat, Mapping>, file: seq<Byte>, machine: nat, entry: nat, frame: nat,
                       vaddr: nat, c: nat, sp: nat, argv: seq<seq<Byte>>, envp: seq<seq<Byte>>, at: seq<nat>,
                       bt: seq<nat>, segs: seq<Segment>, j: nat, a: nat)
    requires space.Valid()
    requires Ready(space, image, file, machine, entry, frame, vaddr, c, sp, argv, envp, at, bt)
    requires var h := ReadHeader(file, machine).value; segs == Segments(file, h.phoff, 0, h.phnum)
    requires Separate(segs) && j < |segs| && segs[j].load
    requires segs[j].vaddr <= a < segs[j].vaddr + segs[j].memsz && a < ADDR_SPLIT && PageDown(a) != vaddr
    ensures var s := segs[j];
            if a < s.vaddr + s.filesz then
              && s.offset + (a - s.vaddr) < |file|
              && HardwareByte(space.owner.ctx, a) == Some(file[s.offset + (a - s.vaddr)])
            else HardwareByte(space.owner.ctx, a) == Some(0)
  {
    EveryByte(image, space.Mem(), file, segs, j, a);
    HardwareFinds(space, a);
  }

  /** The frames of a context just made are those that were free. */
  lemma NewStock(free: seq<nat>, root: nat, free': seq<nat>)
    requires free == [root] + free'
    ensures StockOf(free', map[ROOT := root], map[]) == Elements(free)
  {
    var own: Tree := map[ROOT := root];
    assert own[ROOT] == root;
    assert Elements(free) == {root} + Elements(free') by {
      assert free[0] == root;
      forall f | f in free' ensures f in free {
        var i :| 0 <= i < |free'| && free'[i] == f;
        assert free[i + 1] == f;
      }
    }
  }

  /** A context, and the book-keeping of its frames and pages. */
  method NewSpace(arch: Arch, ram: Memory, kernelRoot: nat, room: bool) returns (space: Space?)
    requires ram.Valid() && kernelRoot in ram.mem && kernelRoot !in ram.free
    requires forall f :: f in ram.mem ==> IsFrame(f, ram.hhdm) && f < PhysLimit(arch)
    modifies ram`mem, ram`head, ram`free
    ensures space == null <==> old(ram.free) == [] || !room
    ensures space == null ==> ram.Valid() && ram.free == old(ram.free)
    ensures space != null ==> fresh(space) && fresh(space.owner) && fresh(space.owner.ctx) && space.owner.ctx.ram == ram
    ensures space != null ==> space.Valid() && space.pages == map[] && space.short.Served?
    ensures space != null ==> space.owner.Stock() == Elements(old(ram.free))
  {
    ghost var free := ram.free;
    var ctx := CreateContext(arch, ram, kernelRoot, room);
    if ctx == null { return null; }
    var owner := new OwnedSpace(ctx);
    space := new Space(owner);
    NewStock(free, ctx.root, ram.free);
  }

  const USER_STACK_TOP: nat := 0x4080_0000

  /**
   What the kernel does for init: a context, the program, a stack without arguments.  The address space
   then holds the program and its stack, or the kernel gives up; all frames are accounted for.
   */
  method StartInit(arch: Arch, ram: Memory, kernelRoot: nat, room: bool, file: Option<seq<Byte>>, machine: nat)
    returns (space: Space?, r: int, entry: nat, sp: nat, ghost image: map<nat, Mapping>, ghost vaddr: nat,
             ghost c: nat, ghost frame: nat, ghost lost: set<nat>)
    requires ram.Valid() && kernelRoot in ram.mem && kernelRoot !in ram.free
    requires forall f :: f in ram.mem ==> IsFrame(f, ram.hhdm) && f < PhysLimit(arch)
    requires file.Some? && ReadHeader(file.value, machine).Some? ==>
               AllFit(file.value, ReadHeader(file.value, machine).value)
    modifies ram`mem, ram`head, ram`free
    ensures space == null <==> old(ram.free) == [] || !room
    ensures space == null ==> r == -1 && ram.Valid() && ram.free == old(ram.free)
    ensures space != null ==> fresh(space) && fresh(space.owner) && fresh(space.owner.ctx) && space.owner.ctx.ram == ram
    ensures space != null ==> space.Valid() && space.owner.Stock() == Elements(old(ram.free)) - lost && |lost| <= 1
    ensures r != 0 && space != null ==>
              file.None? || ReadHeader(file.value, machine).None? || ram.free == [] ||
              !Whole(file.value, ReadHeader(file.value, machine).value)
    ensures r == 0 ==> space != null && file.Some? && vaddr + PAGE_SIZE == USER_STACK_TOP
    ensures r == 0 ==> Ready(space, image, file.value, machine, entry, frame, vaddr, c, sp, [], [], [], [])
    ensures r == 0 ==> lost == if vaddr in image then {image[vaddr].frame} else {}
  {
    entry, sp, image, vaddr, c, frame, lost := 0, 0, map[], 0, 0, 0, {};
    space := NewSpace(arch, ram, kernelRoot, room);
    if space == null { return null, -1, 0, 0, map[], 0, 0, 0, {}; }
    ghost var at, bt;
    assert UserStack.Fits(Total([]) + Total([]), Slots(0, 0));
    r, entry, sp, image, vaddr, c, frame, at, bt, lost := Prepare(space, file, machine, USER_STACK_TOP, [], []);
  }

  /** A process that is started and torn down leaves the free list with the frames it had. */
  method StartAndDestroy(arch: Arch, ram: Memory, kernelRoot: nat, room: bool, file: Option<seq<Byte>>, machine: nat)
    returns (r: int, ghost image: map<nat, Mapping>, ghost lost: set<nat>)
    requires ram.Valid() && kernelRoot in ram.mem && kernelRoot !in ram.free
    requires forall f :: f in ram.mem ==> IsFrame(f, ram.hhdm) && f < PhysLimit(arch)
    requires file.Some? && ReadHeader(file.value, machine).Some? ==>
               AllFit(file.value, ReadHeader(file.value, machine).value)
    modifies ram`mem, ram`head, ram`free
    ensures ram.Valid() && Elements(ram.free) == Elements(old(ram.free)) - lost && |lost| <= 1
    ensures r == 0 && USER_STACK_TOP - PAGE_SIZE !in image ==> lost == {}
  {
    var space, entry, sp;
    ghost var vaddr, c, frame;
    space, r, entry, sp, image, vaddr, c, frame, lost := StartInit(arch, ram, kernelRoot, room, file, machine);
    if space == null { return -1, map[], {}; }
    space.owner.Destroy();
  }
}
