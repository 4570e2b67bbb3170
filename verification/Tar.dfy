/**
 Loading a ustar archive into the filesystem (kernel/src/fs/tar/tar.c).
 */
module Tar {
  import opened Base
  import opened SparseFile
  import opened VfsTree
  import opened VfsView
  import opened Vfs
  import opened TarFormat
  import opened TarWalk
  import Tokenizer

  const PATH_BUF: nat := 101

  /** The name field: bytes up to a NUL, at most a hundred. */
  function FieldName(mem: Image, addr: nat, n: nat): (r: seq<Byte>)
    requires n <= NAME_FIELD
    ensures IsString(r)
    decreases NAME_FIELD - n
  {
    if n == NAME_FIELD || mem(addr + n) == NUL then [] else [mem(addr + n)] + FieldName(mem, addr, n + 1)
  }

  /** The path of an entry: a slash and the name, as much as the buffer takes. */
  function PathOf(name: seq<Byte>): (r: seq<Byte>)
    ensures IsString(name) ==> IsString(r)
  {
    var p := [SLASH] + name;
    if |p| < PATH_BUF then p else p[..PATH_BUF - 1]
  }

  /** The nodes, and the memory left for more. */
  datatype State = State(fs: Fs, grants: nat)

  const MAKE_DIRS := Wish(false, true)
  const MAKE_FILE := Wish(true, false)

  /** ramfs_ops_write at offset 0 of a node: all of the data, or the load fails. */
  function WriteNode(s: Fs, id: nat, data: seq<Byte>, grants: nat): Loaded<State>
    requires id in s.nodes
  {
    if s.nodes[id].kind != Regular then Loaded(State(s, grants), false)
    else
      var w := PutAll(Disk(s.nodes[id].file, grants), 0, data);
      Loaded(State(SetFile(s, id, w.state.file), w.state.grants), w.n == |data|)
  }

  /** One entry of the archive. */
  function LoadEntry(mounts: seq<Mount>, s: State, raw: Raw): Loaded<State> {
    if raw.flag !in {TYPE_REG, TYPE_REG_ALT, TYPE_DIR} then Loaded(s, true)
    else
      var m := WalkPath(s.fs, mounts, raw.path, true, MAKE_DIRS, s.grants);
      if m.node.None? then Loaded(State(m.fs, m.grants), false)
      else
        var c := WalkPath(m.fs, mounts, raw.path, false, if raw.flag == TYPE_DIR then MAKE_DIRS else MAKE_FILE,
                          m.grants);
        if raw.flag == TYPE_DIR || c.node.None? || c.node.value !in c.fs.nodes
          then Loaded(State(c.fs, c.grants), c.node.Some? && raw.flag == TYPE_DIR)
        else WriteNode(c.fs, c.node.value, raw.data, c.grants)
  }

  function SizeAt(mem: Image, addr: nat): nat { OctalValue(Digits(Bytes(mem, addr + SIZE_AT, SIZE_FIELD))) }

  /** How the loader reads the block at an address. */
  function BlockAt(mem: Image, addr: nat): (r: Block)
    ensures r.Entry? ==> IsString(r.raw.path)
  {
    if mem(addr) == NUL then End
    else if Bytes(mem, addr + MAGIC_AT, 6) != MAGIC || Bytes(mem, addr + VERSION_AT, 2) != VERSION then Bad
    else
      var size := SizeAt(mem, addr);
      Entry(Raw(mem(addr + TYPE_AT), PathOf(FieldName(mem, addr, 0)), Bytes(mem, addr + BLOCK, size)),
            BLOCK - 1 + RoundUp(size))
  }

  function Blocks(mem: Image): nat -> Block { (addr: nat) => BlockAt(mem, addr) }

  function Loader(mounts: seq<Mount>): (State, Raw) -> Loaded<State> { (s, raw) => LoadEntry(mounts, s, raw) }

  // ---------------------------------------------------------------------------------------------
  // The loader

  /** A bound on the loader's addresses: no header says more than twelve octal digits. */
  const FAR: nat := 0x10_0000_1000

  lemma CreatedIsThere(s: Fs, mounts: seq<Mount>, path: seq<Byte>, wish: Wish, left: nat, t: Fs, node: Option<nat>)
    requires Sound(s) && node.Some? && (forall k :: 0 <= k < |mounts| ==> mounts[k].root in s.nodes)
    requires exists grants :: Outcome(t, node, left) == WalkPath(s, mounts, path, false, wish, grants)
    ensures node.value in t.nodes
  {
    var grants :| Outcome(t, node, left) == WalkPath(s, mounts, path, false, wish, grants);
    LocatedRoot(s, mounts, path);
    var p := Locate(mounts, path).value;
    DescendKeeps(s, p.root, p.path, false, wish, grants);
  }

  method LoadOne(vfs: FileSystem, raw: Raw, grants: nat) returns (ok: bool, left: nat)
    requires vfs.Valid() && IsString(raw.path)
    modifies vfs`fs
    ensures vfs.Valid() && LoadEntry(vfs.mounts, State(old(vfs.fs), grants), raw) == Loaded(State(vfs.fs, left), ok)
  {
    var flag, path := raw.flag, raw.path;
    if flag != TYPE_REG && flag != TYPE_REG_ALT && flag != TYPE_DIR { return true, grants; }
    var node;
    node, left := vfs.MkdirParents(path, grants);
    if node.None? { return false, left; }
    if flag == TYPE_DIR {
      node, left := vfs.CreatePath(path, MAKE_DIRS, left);
      return node.Some?, left;
    }
    ghost var s := vfs.fs;
    node, left := vfs.CreatePath(path, MAKE_FILE, left);
    if node.None? { return false, left; }
    CreatedIsThere(s, vfs.mounts, path, MAKE_FILE, left, vfs.fs, node);
    if vfs.fs.nodes[node.value].kind != Regular { return false, left; }
    var w := PutAll(Disk(vfs.fs.nodes[node.value].file, left), 0, raw.data);
    SetFileKeeps(vfs.fs, node.value, w.state.file);
    vfs.fs := SetFile(vfs.fs, node.value, w.state.file);
    return w.n == |raw.data|, w.state.grants;
  }

  /** Reads the block at an address as the loop does. */
  method ReadBlock(mem: Image, addr: nat) returns (b: Block)
    ensures b == BlockAt(mem, addr) && (b.Entry? ==> IsString(b.raw.path) && b.skip + 1 < FAR)
  {
    if mem(addr) == NUL { return End; }
    if Bytes(mem, addr + MAGIC_AT, 6) != MAGIC { return Bad; }
    if Bytes(mem, addr + VERSION_AT, 2) != VERSION { return Bad; }
    var size := ParseOctal(Bytes(mem, addr + SIZE_AT, SIZE_FIELD));
    return Entry(Raw(mem(addr + TYPE_AT), PathOf(FieldName(mem, addr, 0)), Bytes(mem, addr + BLOCK, size)),
                 BLOCK - 1 + RoundUp(size));
  }

  /** The block walk from `s` ends in `t`. */
  ghost predicate Ends(at: nat -> Block, load: (State, Raw) -> Loaded<State>, addr: nat, end: nat, s: State, t: State,
                       ok: bool) {
    Run(at, load, addr, end, s) == Loaded(t, ok)
  }

  ghost predicate Reads(at: nat -> Block, mem: Image) {
    forall addr: nat {:trigger BlockAt(mem, addr)} :: at(addr) == BlockAt(mem, addr)
  }

  ghost predicate Loads(load: (State, Raw) -> Loaded<State>, mounts: seq<Mount>) {
    forall s: State, raw: Raw {:trigger LoadEntry(mounts, s, raw)} :: load(s, raw) == LoadEntry(mounts, s, raw)
  }

  lemma ReadsAndLoads(mem: Image, mounts: seq<Mount>)
    ensures Reads(Blocks(mem), mem) && Loads(Loader(mounts), mounts)
  {
  }

  method NextBlock(mem: Image, addr: nat, ghost at: nat -> Block) returns (b: Block)
    requires Reads(at, mem)
    ensures b == at(addr) && (b.Entry? ==> IsString(b.raw.path) && b.skip + 1 < FAR)
  {
    b := ReadBlock(mem, addr);
  }

  method LoadNext(vfs: FileSystem, raw: Raw, grants: nat, ghost load: (State, Raw) -> Loaded<State>)
    returns (ok: bool, left: nat)
    requires vfs.Valid() && IsString(raw.path) && Loads(load, vfs.mounts)
    modifies vfs`fs
    ensures vfs.Valid() && load(State(old(vfs.fs), grants), raw) == Loaded(State(vfs.fs, left), ok)
  {
    ok, left := LoadOne(vfs, raw, grants);
  }

  /** Its loop. */
  method LoadBlocks(vfs: FileSystem, mem: Image, addr0: nat, end: nat, grants: nat,
                    ghost at: nat -> Block, ghost load: (State, Raw) -> Loaded<State>)
    returns (r: int, left: nat)
    requires vfs.Valid() && addr0 < TWO_64 && end + FAR <= TWO_64 && Reads(at, mem) && Loads(load, vfs.mounts)
    modifies vfs`fs
    ensures vfs.Valid() && (r == 0 || r == -1)
    ensures Ends(at, load, addr0, end, State(old(vfs.fs), grants), State(vfs.fs, left), r == 0)
  {
    left := grants;
    var addr := addr0;
    ghost var whole := Run(at, load, addr0, end, State(vfs.fs, grants));
    while addr < end
      invariant vfs.Valid() && addr < TWO_64
      invariant Run(at, load, addr, end, State(vfs.fs, left)) == whole
      decreases end - addr
    {
      var b := NextBlock(mem, addr, at);
      if b.End? { return 0, left; }
      if b.Bad? { return -1, left; }
      var ok;
      ok, left := LoadNext(vfs, b.raw, left, load);
      if !ok { return -1, left; }
      addr := addr + 1 + b.skip;
    }
    return 0, left;
  }

  /** tar_load; `at` and `load` are how blocks read and entries load in the reference walk. */
  method Load(vfs: FileSystem, mem: Image, addr0: nat, size: nat, grants: nat,
              ghost at: nat -> Block, ghost load: (State, Raw) -> Loaded<State>)
    returns (r: int, left: nat)
    requires vfs.Valid() && addr0 + size + FAR <= TWO_64 && Reads(at, mem) && Loads(load, vfs.mounts)
    modifies vfs`fs
    ensures vfs.Valid()
    ensures size < BLOCK ==> r == -1 && vfs.fs == old(vfs.fs) && left == grants
    ensures size >= BLOCK ==> (r == 0 || r == -1)
    ensures size >= BLOCK ==>
              Ends(at, load, addr0, addr0 + size, State(old(vfs.fs), grants), State(vfs.fs, left), r == 0)
  {
    if size < BLOCK { return -1, grants; }
    r, left := LoadBlocks(vfs, mem, addr0, addr0 + size, grants, at, load);
  }

  // ---------------------------------------------------------------------------------------------
  // What an archive leaves behind

  /** What should be at the place of an entry. */
  function ItemFor(e: TarEntry): Item { if e.FileEntry? then Data(e.data) else Dir }

  /** The view with an entry in place: its parents are directories, and nothing else changed. */
  ghost predicate Placed(view: View, p: Path, e: TarEntry, v: View) {
    && (forall q: Path :: q in v <==> q in view || q <= p)
    && (forall q: Path :: q in v ==> v[q] == if q == p then ItemFor(e) else if q in view then view[q] else Dir)
  }

  /** There is room for the entry: directories on the way, and no other kind of thing at its place. */
  ghost predicate Ready(view: View, p: Path, e: TarEntry) {
    && [] in view && p != [] && Short(p) && Passable(view, p)
    && (if e.FileEntry? then p !in view else p in view ==> view[p] == Dir)
  }

  /** A bound on the allocations an entry takes. */
  function Cost(p: Path, e: TarEntry): nat { 4 * |p| + 2 * |DataOf(e)| }

  ghost predicate LocatedAt(mounts: seq<Mount>, root: nat, e: TarEntry, p: Path) {
    Locate(mounts, PathOf(e.name)) == Some(Place(root, p))
  }

  lemma ParentsThere(view: View, p: Path, v: View)
    requires p != [] && Filled(view, p, |p| - 1, Dir, v) && Passable(view, p)
    ensures Passable(v, p) && (forall q: Path :: q <= p && q != p ==> q in v) && (p in v <==> p in view)
  {
    forall q: Path | q <= p && q != p ensures |q| <= |p| - 1 {
      assert q == p[..|q|];
      assert p[..|p|] == p;
    }
  }

  lemma FilledTwice(view: View, p: Path, leaf: Item, v1: View, v: View)
    requires p != [] && Filled(view, p, |p| - 1, Dir, v1) && Filled(v1, p, |p|, leaf, v)
    ensures Filled(view, p, |p|, leaf, v)
  {
    forall q: Path | q <= p && |q| == |p| ensures q == p { assert q == p[..|q|] == p; }
  }

  /** Both walks of an entry, parents first, in terms of the view. */
  lemma MakesPlace(s: Fs, root: nat, view: View, p: Path, wish: Wish, grants: nat) returns (v: View)
    requires Shows(s, root, view) && [] in view && p != [] && Short(p) && Passable(view, p)
    requires (wish == MAKE_DIRS || wish == MAKE_FILE) && grants >= 4 * |p|
    ensures var m := Descend(s, root, p, true, MAKE_DIRS, grants);
            var c := Descend(m.fs, root, p, false, wish, m.grants);
            && m.node.Some? && c.node.Some? && c.grants >= grants - 4 * |p|
            && Shows(c.fs, root, v) && Lookup(c.fs, root, p) == c.node
    ensures Filled(view, p, |p|, Leaf(wish), v)
  {
    assert p[0..] == p && p[..0] == [];
    FilledStart(view, p, Dir);
    var v1 := DescendShows(s, root, view, p, 0, view, root, true, MAKE_DIRS, grants);
    var m := Descend(s, root, p, true, MAKE_DIRS, grants);
    ParentsThere(view, p, v1);
    FilledStart(v1, p, Leaf(wish));
    v := DescendShows(m.fs, root, v1, p, 0, v1, root, false, wish, m.grants);
    FilledTwice(view, p, Leaf(wish), v1, v);
  }

  lemma WholeFile(data: seq<Byte>)
    ensures FlatWrite([], 0, data) == data && data[..|data|] == data
  {
  }

  /** Writing all of a new file. */
  lemma FileIsWritten(s: Fs, root: nat, view: View, p: Path, v: View, data: seq<Byte>, grants: nat)
    requires Shows(s, root, v) && p in v && v[p] == Data([]) && grants >= 2 * |data|
    ensures var n := Lookup(s, root, p);
            && n.Some? && n.value in s.nodes
            && var w := WriteNode(s, n.value, data, grants);
               w.ok && w.state.grants >= grants - 2 * |data| && Shows(w.state.fs, root, v[p := Data(data)])
  {
    assert ShownAt(s, root, p, v[p]);
    var f := s.nodes[Lookup(s, root, p).value].file;
    PutAllEnough(Disk(f, grants), 0, data);
    PutAllRefines(Disk(f, grants), 0, data);
    WholeFile(data);
    ShowsAfterWrite(s, root, v, p, PutAll(Disk(f, grants), 0, data).state.file);
  }

  /** The two walks of an entry, and the write. */
  function PlaceEntry(s: State, root: nat, p: Path, e: TarEntry): Loaded<State> {
    var m := Descend(s.fs, root, p, true, MAKE_DIRS, s.grants);
    if m.node.None? then Loaded(State(m.fs, m.grants), false)
    else
      var c := Descend(m.fs, root, p, false, if e.DirEntry? then MAKE_DIRS else MAKE_FILE, m.grants);
      if e.DirEntry? || c.node.None? || c.node.value !in c.fs.nodes
        then Loaded(State(c.fs, c.grants), c.node.Some? && e.DirEntry?)
      else WriteNode(c.fs, c.node.value, e.data, c.grants)
  }

  /** What the loader reads of an entry. */
  ghost predicate IsRawOf(raw: Raw, e: TarEntry) {
    && raw.path == PathOf(e.name) && raw.data == DataOf(e)
    && (if e.DirEntry? then raw.flag == TYPE_DIR else raw.flag in {TYPE_REG, TYPE_REG_ALT})
  }

  lemma LoadIsPlace(s: State, mounts: seq<Mount>, root: nat, p: Path, e: TarEntry, raw: Raw)
    requires LocatedAt(mounts, root, e, p) && IsRawOf(raw, e)
    ensures LoadEntry(mounts, s, raw) == PlaceEntry(s, root, p, e)
  {
  }

  lemma FilledIsPlaced(view: View, p: Path, e: TarEntry, v: View)
    requires Ready(view, p, e) && Filled(view, p, |p|, if e.DirEntry? then Dir else Data([]), v)
    ensures p in v && (e.FileEntry? ==> v[p] == Data([]))
    ensures Placed(view, p, e, if e.FileEntry? then v[p := Data(e.data)] else v)
  {
  }

  /** One entry of the archive, in terms of the view. */
  lemma EntryIsPlaced(s: State, root: nat, view: View, e: TarEntry, p: Path) returns (v: View)
    requires Shows(s.fs, root, view) && Ready(view, p, e) && s.grants >= Cost(p, e)
    ensures var r := PlaceEntry(s, root, p, e);
            r.ok && r.state.grants >= s.grants - Cost(p, e) && Shows(r.state.fs, root, v)
    ensures Placed(view, p, e, v)
  {
    var wish := if e.DirEntry? then MAKE_DIRS else MAKE_FILE;
    v := MakesPlace(s.fs, root, view, p, wish, s.grants);
    var m := Descend(s.fs, root, p, true, MAKE_DIRS, s.grants);
    var c := Descend(m.fs, root, p, false, wish, m.grants);
    FilledIsPlaced(view, p, e, v);
    if e.FileEntry? {
      FileIsWritten(c.fs, root, view, p, v, e.data, c.grants);
      v := v[p := Data(e.data)];
    }
  }

  /** The name the loader reads is the one in the header. */
  lemma {:induction false} FieldNameIs(mem: Image, addr: nat, name: seq<Byte>, n: nat)
    requires n <= |name| < NAME_FIELD && IsString(name) && Bytes(mem, addr, |name|) == name && mem(addr + |name|) == NUL
    ensures FieldName(mem, addr, n) == name[n..]
    decreases |name| - n
  {
    if n < |name| {
      assert mem(addr + n) == Bytes(mem, addr, |name|)[n] == name[n];
      FieldNameIs(mem, addr, name, n + 1);
    }
  }

  /** A file is at no place another entry needs or passes. */
  ghost predicate Compatible(es: seq<TarEntry>, ps: seq<Path>) {
    |ps| == |es| && forall i, j :: 0 <= i < |es| && 0 <= j < |es| && i != j && es[i].FileEntry? ==> !(ps[i] <= ps[j])
  }

  ghost predicate AllReady(view: View, es: seq<TarEntry>, ps: seq<Path>) {
    |ps| == |es| && forall i :: 0 <= i < |es| ==> Ready(view, ps[i], es[i])
  }

  ghost predicate AllLocated(mounts: seq<Mount>, root: nat, es: seq<TarEntry>, ps: seq<Path>) {
    |ps| == |es| && forall i :: 0 <= i < |es| ==> LocatedAt(mounts, root, es[i], ps[i])
  }

  function TotalCost(es: seq<TarEntry>, ps: seq<Path>): nat
    requires |ps| == |es|
    decreases |es|
  {
    if es == [] then 0 else Cost(ps[0], es[0]) + TotalCost(es[1..], ps[1..])
  }

  /** Placing one entry leaves the others their room. */
  lemma StillReady(view: View, es: seq<TarEntry>, ps: seq<Path>, v: View)
    requires es != [] && AllReady(view, es, ps) && Compatible(es, ps) && Placed(view, ps[0], es[0], v)
    ensures AllReady(v, es[1..], ps[1..]) && Compatible(es[1..], ps[1..])
  {
    forall k | 0 <= k < |es| - 1 ensures Ready(v, ps[1..][k], es[1..][k]) {
      var p, e := ps[k + 1], es[k + 1];
      assert Ready(view, p, e) && Ready(view, ps[0], es[0]);
      assert es[0].FileEntry? ==> !(ps[0] <= p);
      assert e.FileEntry? ==> !(p <= ps[0]);
    }
    forall i, j | 0 <= i < |es| - 1 && 0 <= j < |es| - 1 && i != j && es[1..][i].FileEntry?
      ensures !(ps[1..][i] <= ps[1..][j])
    {
      assert es[i + 1].FileEntry? ==> !(ps[i + 1] <= ps[j + 1]);
    }
  }

  ghost predicate Keeps(view: View, v: View) { forall q: Path :: q in view ==> q in v && v[q] == view[q] }

  ghost predicate Holds(v: View, es: seq<TarEntry>, ps: seq<Path>)
    requires |ps| == |es|
  {
    forall i :: 0 <= i < |es| ==> ps[i] in v && v[ps[i]] == ItemFor(es[i])
  }

  lemma PlacedKeeps(view: View, p: Path, e: TarEntry, v: View)
    requires Ready(view, p, e) && Placed(view, p, e, v)
    ensures Keeps(view, v) && p in v && v[p] == ItemFor(e)
  {
  }

  ghost predicate AreRawsOf(raws: seq<Raw>, es: seq<TarEntry>) {
    |raws| == |es| && forall i :: 0 <= i < |es| ==> IsRawOf(raws[i], es[i])
  }

  /** What the loader reads of one entry of an archive. */
  lemma HeaderRead(mem: Image, addr: nat, end: nat, e: TarEntry, at: nat -> Block)
    requires EntryAt(mem, addr, end, e) && Reads(at, mem)
    ensures at(addr).Entry? && IsRawOf(at(addr).raw, e) && addr + 1 + at(addr).skip == Behind(addr, e)
  {
    FieldNameIs(mem, addr, e.name, 0);
    assert mem(addr + 0) == Bytes(mem, addr, |e.name|)[0] == e.name[0];
    assert at(addr) == BlockAt(mem, addr);
  }

  lemma EndRead(mem: Image, addr: nat, at: nat -> Block)
    requires mem(addr) == NUL && Reads(at, mem)
    ensures at(addr) == End
  {
    assert at(addr) == BlockAt(mem, addr);
  }

  lemma MoreRaws(raw: Raw, raws: seq<Raw>, es: seq<TarEntry>)
    requires es != [] && IsRawOf(raw, es[0]) && AreRawsOf(raws, es[1..])
    ensures AreRawsOf([raw] + raws, es)
  {
    forall i | 0 <= i < |es| ensures IsRawOf(([raw] + raws)[i], es[i]) {
      if i > 0 { assert IsRawOf(raws[i - 1], es[1..][i - 1]); }
    }
  }

  /** The block walk finds exactly the entries of an archive. */
  lemma {:induction false} ArchiveHasBlocks(mem: Image, addr: nat, end: nat, es: seq<TarEntry>, at: nat -> Block)
    returns (raws: seq<Raw>)
    requires IsArchive(mem, addr, end, es) && Reads(at, mem)
    ensures AreRawsOf(raws, es) && Entries(at, addr, end) == Some(raws)
    decreases |es|
  {
    raws := [];
    if es == [] {
      assert InPlace(mem, addr, end, es, 0);
      if addr < end { EndRead(mem, addr, at); }
    } else {
      ArchiveRest(mem, addr, end, es);
      HeaderRead(mem, addr, end, es[0], at);
      var rest := ArchiveHasBlocks(mem, Behind(addr, es[0]), end, es[1..], at);
      MoreRaws(at(addr).raw, rest, es);
      raws := [at(addr).raw] + rest;
    }
  }

  lemma StillLocated(mounts: seq<Mount>, root: nat, es: seq<TarEntry>, ps: seq<Path>)
    requires es != [] && AllLocated(mounts, root, es, ps)
    ensures AllLocated(mounts, root, es[1..], ps[1..])
  {
    forall i | 0 <= i < |es| - 1 ensures LocatedAt(mounts, root, es[1..][i], ps[1..][i]) {
      assert LocatedAt(mounts, root, es[i + 1], ps[i + 1]);
    }
  }

  lemma HoldsAll(v1: View, v: View, es: seq<TarEntry>, ps: seq<Path>)
    requires es != [] && |ps| == |es| && ps[0] in v1 && v1[ps[0]] == ItemFor(es[0]) && Keeps(v1, v)
    requires Holds(v, es[1..], ps[1..])
    ensures Holds(v, es, ps)
  {
    forall i | 0 <= i < |es| ensures ps[i] in v && v[ps[i]] == ItemFor(es[i]) {
      if i > 0 { assert ps[1..][i - 1] in v; }
    }
  }

  /** A tree that shows `view` and has a place and memory for the entries. */
  ghost predicate HasRoom(s: State, mounts: seq<Mount>, root: nat, view: View, es: seq<TarEntry>, ps: seq<Path>) {
    && Shows(s.fs, root, view) && AllReady(view, es, ps) && Compatible(es, ps) && AllLocated(mounts, root, es, ps)
    && s.grants >= TotalCost(es, ps)
  }

  /** Loading entries puts every one in its place. */
  lemma {:induction false} LoadPlaces(s: State, mounts: seq<Mount>, load: (State, Raw) -> Loaded<State>, root: nat,
                                      view: View, raws: seq<Raw>, es: seq<TarEntry>, ps: seq<Path>)
    returns (v: View)
    requires Loads(load, mounts) && AreRawsOf(raws, es) && HasRoom(s, mounts, root, view, es, ps)
    ensures var l := LoadAll(load, raws, s); l.ok && Shows(l.state.fs, root, v)
    ensures Keeps(view, v) && Holds(v, es, ps)
    decreases |es|
  {
    v := view;
    if es != [] {
      var e, p := es[0], ps[0];
      assert LocatedAt(mounts, root, e, p) && Ready(view, p, e) && IsRawOf(raws[0], e);
      var v1 := EntryIsPlaced(s, root, view, e, p);
      LoadIsPlace(s, mounts, root, p, e, raws[0]);
      var t := load(s, raws[0]).state;
      PlacedKeeps(view, p, e, v1);
      StillReady(view, es, ps, v1);
      StillLocated(mounts, root, es, ps);
      v := LoadPlaces(t, mounts, load, root, v1, raws[1..], es[1..], ps[1..]);
      HoldsAll(v1, v, es, ps);
    }
  }

  // ---------------------------------------------------------------------------------------------
  // The round trip

  /** Looking up the name of an entry gives a node of the right kind with exactly its bytes. */
  ghost predicate Found(t: Fs, mounts: seq<Mount>, e: TarEntry) {
    var n := Find(t, mounts, PathOf(e.name));
    n.Some? && n.value in t.nodes && ShowsNode(t.nodes[n.value], ItemFor(e))
  }

  /** A load that went well: every entry is found after it, and everything in the view is still there. */
  ghost predicate LoadsAll(l: Loaded<State>, mounts: seq<Mount>, root: nat, view: View, es: seq<TarEntry>) {
    && l.ok && (forall i :: 0 <= i < |es| ==> Found(l.state.fs, mounts, es[i]))
    && forall q: Path :: q in view ==> ShownAt(l.state.fs, root, q, view[q])
  }

  lemma HoldsMeansFound(t: Fs, mounts: seq<Mount>, root: nat, view: View, v: View, es: seq<TarEntry>, ps: seq<Path>)
    requires Shows(t, root, v) && AllLocated(mounts, root, es, ps) && Holds(v, es, ps) && Keeps(view, v)
    ensures forall i :: 0 <= i < |es| ==> Found(t, mounts, es[i])
    ensures forall q: Path :: q in view ==> ShownAt(t, root, q, view[q])
  {
    forall i | 0 <= i < |es| ensures Found(t, mounts, es[i]) {
      assert LocatedAt(mounts, root, es[i], ps[i]);
      assert ps[i] in v && v[ps[i]] == ItemFor(es[i]);
      assert ShownAt(t, root, ps[i], v[ps[i]]);
    }
    forall q: Path | q in view ensures ShownAt(t, root, q, view[q]) { assert q in v && v[q] == view[q]; }
  }

  /** An archive of the entries in memory, and a tree that has room for them. */
  ghost predicate Loadable(mem: Image, addr: nat, size: nat, s: State, mounts: seq<Mount>, root: nat, view: View,
                           es: seq<TarEntry>, ps: seq<Path>) {
    IsArchive(mem, addr, addr + size, es) && size >= BLOCK && HasRoom(s, mounts, root, view, es, ps)
  }

  /** The walk over an archive loads its entries one after the other. */
  lemma LoadsArchive(mem: Image, addr: nat, size: nat, es: seq<TarEntry>, at: nat -> Block,
                     load: (State, Raw) -> Loaded<State>, s: State, l: Loaded<State>)
    returns (raws: seq<Raw>)
    requires IsArchive(mem, addr, addr + size, es) && Reads(at, mem)
    requires Ends(at, load, addr, addr + size, s, l.state, l.ok)
    ensures AreRawsOf(raws, es) && LoadAll(load, raws, s) == l
  {
    var end := addr + size;
    raws := ArchiveHasBlocks(mem, addr, end, es, at);
    RunIsLoadAll(at, load, addr, end, raws, s);
  }

  /** And that finds them all. */
  lemma LoadFindsAll(s: State, mounts: seq<Mount>, load: (State, Raw) -> Loaded<State>, root: nat, view: View,
                     raws: seq<Raw>, es: seq<TarEntry>, ps: seq<Path>, l: Loaded<State>)
    requires Loads(load, mounts) && AreRawsOf(raws, es) && l == LoadAll(load, raws, s)
    requires HasRoom(s, mounts, root, view, es, ps)
    ensures LoadsAll(l, mounts, root, view, es)
  {
    var v := LoadPlaces(s, mounts, load, root, view, raws, es, ps);
    HoldsMeansFound(l.state.fs, mounts, root, view, v, es, ps);
  }

  lemma RoundTripWith(mem: Image, addr: nat, size: nat, s: State, mounts: seq<Mount>, root: nat, view: View,
                      es: seq<TarEntry>, ps: seq<Path>, at: nat -> Block, load: (State, Raw) -> Loaded<State>,
                      l: Loaded<State>)
    requires Loadable(mem, addr, size, s, mounts, root, view, es, ps) && Reads(at, mem) && Loads(load, mounts)
    requires Ends(at, load, addr, addr + size, s, l.state, l.ok)
    ensures LoadsAll(l, mounts, root, view, es)
  {
    var raws := LoadsArchive(mem, addr, size, es, at, load, s, l);
    LoadFindsAll(s, mounts, load, root, view, raws, es, ps, l);
  }

  /**
   An archive of compatible entries loads completely over any tree that has room for them:
   every entry is found, and what was there before is still there.
   */
  lemma RoundTrip(mem: Image, addr: nat, size: nat, s: State, mounts: seq<Mount>, root: nat, view: View,
                  es: seq<TarEntry>, ps: seq<Path>)
    requires Loadable(mem, addr, size, s, mounts, root, view, es, ps)
    ensures LoadsAll(Run(Blocks(mem), Loader(mounts), addr, addr + size, s), mounts, root, view, es)
  {
    ReadsAndLoads(mem, mounts);
    RoundTripWith(mem, addr, size, s, mounts, root, view, es, ps, Blocks(mem), Loader(mounts),
                  Run(Blocks(mem), Loader(mounts), addr, addr + size, s));
  }

  /** A filesystem with nothing but an empty directory mounted at "/". */
  const EMPTY: Fs := Fs(map[0 := Inode([SLASH], Directory, [], File([], 0))], 1)
  const ROOT_MOUNT: seq<Mount> := [Mount([SLASH], 0)]
  const BARE: View := map[[] := Dir]

  lemma EmptyShowsBare()
    ensures Shows(EMPTY, 0, BARE)
  {
    forall q: Path ensures Lookup(EMPTY, 0, q).Some? <==> q == [] {
      if q != [] { assert Named(EMPTY.nodes, [], q[0]).None?; }
    }
    assert ShownAt(EMPTY, 0, [], Dir);
  }

  /** The components of an entry's name. */
  function PlaceOf(e: TarEntry): Path
    requires |PathOf(e.name)| >= 1
  {
    Tokenizer.Tokens(Rest(PathOf(e.name), 1), SEPARATORS, 0)
  }

  lemma {:induction false} TokensAreShort(s: seq<Byte>, at: nat)
    requires at <= |s| < NAME_SIZE
    ensures Short(Tokenizer.Tokens(s, SEPARATORS, at))
    decreases |s| - at
  {
    var lo := Tokenizer.SkipTo(s, SEPARATORS, at);
    if lo < |s| {
      var hi := Tokenizer.RunTo(s, SEPARATORS, lo);
      TokensAreShort(s, hi);
      ShortTail([s[lo..hi]] + Tokenizer.Tokens(s, SEPARATORS, hi));
      assert ([s[lo..hi]] + Tokenizer.Tokens(s, SEPARATORS, hi))[1..] == Tokenizer.Tokens(s, SEPARATORS, hi);
    }
  }

  lemma UnderRoot(e: TarEntry)
    requires IsEntry(e)
    ensures |PathOf(e.name)| >= 1 && LocatedAt(ROOT_MOUNT, 0, e, PlaceOf(e)) && Short(PlaceOf(e))
  {
    var path := PathOf(e.name);
    assert path == [SLASH] + e.name && [SLASH] <= path;
    assert Best(ROOT_MOUNT, path, 1, Some(0)) == Some(0);
    assert Best(ROOT_MOUNT, path, 0, None) == Some(0);
    TokensAreShort(Rest(path, 1), 0);
  }

  function Places(es: seq<TarEntry>): (r: seq<Path>)
    requires forall i :: 0 <= i < |es| ==> |PathOf(es[i].name)| >= 1
    ensures |r| == |es| && forall i :: 0 <= i < |es| ==> r[i] == PlaceOf(es[i])
  {
    seq(|es|, i requires 0 <= i < |es| => PlaceOf(es[i]))
  }

  /**
   tar_load of any archive of compatible entries: it succeeds, every entry is then found under its path, of
   the right kind and with exactly its bytes, and what was there before is still there.
   */
  method LoadArchive(vfs: FileSystem, mem: Image, addr: nat, size: nat, grants: nat,
                     ghost es: seq<TarEntry>, ghost ps: seq<Path>, ghost root: nat, ghost view: View)
    returns (r: int, left: nat)
    requires vfs.Valid() && addr + size + FAR <= TWO_64
    requires Loadable(mem, addr, size, State(vfs.fs, grants), vfs.mounts, root, view, es, ps)
    modifies vfs`fs
    ensures vfs.Valid() && LoadsAll(Loaded(State(vfs.fs, left), r == 0), vfs.mounts, root, view, es)
  {
    ghost var s := State(vfs.fs, grants);
    ReadsAndLoads(mem, vfs.mounts);
    r, left := Load(vfs, mem, addr, size, grants, Blocks(mem), Loader(vfs.mounts));
    RoundTripWith(mem, addr, size, s, vfs.mounts, root, view, es, ps, Blocks(mem), Loader(vfs.mounts),
                  Loaded(State(vfs.fs, left), r == 0));
  }

  /** Every entry has a name other than slashes. */
  ghost predicate HaveNames(es: seq<TarEntry>) {
    forall i :: 0 <= i < |es| ==> |PathOf(es[i].name)| >= 1 && PlaceOf(es[i]) != []
  }

  /** An empty filesystem has room for entries that get along with each other. */
  lemma EmptyHasRoom(es: seq<TarEntry>, grants: nat)
    requires AreEntries(es) && HaveNames(es) && Compatible(es, Places(es)) && grants >= TotalCost(es, Places(es))
    ensures HasRoom(State(EMPTY, grants), ROOT_MOUNT, 0, BARE, es, Places(es))
  {
    var ps := Places(es);
    EmptyShowsBare();
    forall i | 0 <= i < |es| ensures LocatedAt(ROOT_MOUNT, 0, es[i], ps[i]) && Ready(BARE, ps[i], es[i]) {
      assert IsEntry(es[i]);
      UnderRoot(es[i]);
    }
  }

  /** tar_load on a filesystem that is just a mounted root. */
  method LoadFresh(vfs: FileSystem, mem: Image, addr: nat, size: nat, grants: nat, ghost es: seq<TarEntry>)
    returns (r: int, left: nat)
    requires vfs.Valid() && addr + size + FAR <= TWO_64 && vfs.fs == EMPTY && vfs.mounts == ROOT_MOUNT
    requires IsArchive(mem, addr, addr + size, es) && size >= BLOCK
    requires HaveNames(es) && Compatible(es, Places(es)) && grants >= TotalCost(es, Places(es))
    modifies vfs`fs
    ensures vfs.Valid() && r == 0 && forall i :: 0 <= i < |es| ==> Found(vfs.fs, vfs.mounts, es[i])
  {
    assert AreEntries(es) by {
      forall i | 0 <= i < |es| ensures IsEntry(es[i]) {
        assert InPlace(mem, addr, addr + size, es, i);
      }
    }
    EmptyHasRoom(es, grants);
    r, left := LoadArchive(vfs, mem, addr, size, grants, es, Places(es), 0, BARE);
  }

  /**
   The round trip: what a ustar writer prints of compatible entries, whatever modes, owners and times it
   puts into the headers, is loaded completely; every entry is found with exactly its bytes.
   */
  method LoadPrinted(vfs: FileSystem, mem: Image, addr: nat, size: nat, grants: nat, ghost es: seq<TarEntry>,
                     ghost attrs: seq<Attributes>, ghost more: nat, ghost ps: seq<Path>, ghost root: nat,
                     ghost view: View)
    returns (r: int, left: nat)
    requires vfs.Valid() && addr + size + FAR <= TWO_64
    requires Printed(mem, addr, size, es, attrs, more)
    requires HasRoom(State(vfs.fs, grants), vfs.mounts, root, view, es, ps)
    modifies vfs`fs
    ensures vfs.Valid() && LoadsAll(Loaded(State(vfs.fs, left), r == 0), vfs.mounts, root, view, es)
  {
    PrintedIsArchive(mem, addr, size, es, attrs, more);
    r, left := LoadArchive(vfs, mem, addr, size, grants, es, ps, root, view);
  }
}
