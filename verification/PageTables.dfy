/**
 Four-level page tables as they lie in physical memory (kernel/src/mm/vmm.c), and what the
 hardware makes of them.

 A table of height 4 is a root, one of height 1 holds leaf entries; the source counts the same
 tables by levels 3 to 0.  The lower half of the address space has 2^35 pages, and `Up(v, h)` is
 the number of the height-`h` table that page `v` is translated through.
 */
module PageTables {
  import opened Base
  import opened Pte
  import opened Pmm

  const LOWER_PAGES: nat := 0x8_0000_0000

  /** `v` without its `n` lowest nine-bit digits. */
  function Up(v: nat, n: nat): nat { if n == 0 then v else Up(v / 512, n - 1) }

  lemma {:induction false} UpStep(v: nat, n: nat)
    ensures Up(v, n + 1) == Up(v, n) / 512
  {
    if n > 0 { UpStep(v / 512, n - 1); }
  }

  /** The root covers the whole lower half, through its first 256 entries. */
  lemma RootCovers(v: nat)
    requires v < LOWER_PAGES
    ensures Up(v, 4) == 0 && Up(v, 3) < 256
  {
    assert Up(v, 1) == v / 512;
    UpStep(v, 1);
    UpStep(v, 2);
    UpStep(v, 3);
  }

  /** The hardware's walk: the leaf entry for page `v` below a table of height `h`, if every entry is present. */
  function Walk(a: Arch, mem: map<nat, Page>, table: nat, h: nat, v: nat): (r: Option<Word>)
    requires 1 <= h
    decreases h
  {
    if table !in mem then None
    else
      var entry := mem[table][Up(v, h - 1) % 512];
      if !Present(entry) then None
      else if h == 1 then Some(entry)
      else Walk(a, mem, GetPhys(a, entry), h - 1, v)
  }

  // ---------------------------------------------------------------------------------------------
  // The tree

  /** The table of height `height` that translates the pages `v` with `Up(v, height) == prefix`. */
  datatype Node = Node(height: nat, prefix: nat)

  const ROOT := Node(4, 0)

  function Child(n: Node, i: nat): Node
    requires n.height > 0
  {
    Node(n.height - 1, n.prefix * 512 + i)
  }

  function Parent(n: Node): Node { Node(n.height + 1, n.prefix / 512) }

  /** How many entries of a table belong to the lower half. */
  function Width(h: nat): nat { if h == 4 then 256 else 512 }

  /** Which frame holds which table. */
  type Tree = map<Node, nat>

  /** A present entry of an inner table leads to the table it should. */
  ghost predicate EntryOk(a: Arch, mem: map<nat, Page>, own: Tree, n: Node, i: nat)
    requires n in own && own[n] in mem && n.height > 0 && i < 512
  {
    var entry := mem[own[n]][i];
    Present(entry) ==> Child(n, i) in own && own[Child(n, i)] == GetPhys(a, entry)
  }

  /** Every table but the root is entered in its parent. */
  ghost predicate ParentOk(mem: map<nat, Page>, own: Tree, n: Node)
    requires n in own
  {
    n.height < 4 ==>
      && Parent(n) in own && own[Parent(n)] in mem
      && n.prefix % 512 < Width(n.height + 1)
      && Present(mem[own[Parent(n)]][n.prefix % 512])
  }

  ghost predicate NodeOk(a: Arch, mem: map<nat, Page>, own: Tree, n: Node)
    requires n in own
  {
    && 1 <= n.height <= 4 && (n.height == 4 ==> n.prefix == 0)
    && own[n] in mem
    && ParentOk(mem, own, n)
    && (n.height > 1 ==> forall i :: 0 <= i < Width(n.height) ==> EntryOk(a, mem, own, n, i))
  }

  ghost predicate Injective(own: Tree) {
    forall m, n :: m in own && n in own && own[m] == own[n] ==> m == n
  }

  /** `own` describes the lower-half tables below `root`. */
  ghost predicate Tables(a: Arch, mem: map<nat, Page>, own: Tree, root: nat) {
    && ROOT in own && own[ROOT] == root
    && Injective(own)
    && forall n {:trigger NodeOk(a, mem, own, n)} :: n in own ==> NodeOk(a, mem, own, n)
  }

  /** Every table is in memory. */
  lemma TablesInMemory(a: Arch, mem: map<nat, Page>, own: Tree, root: nat)
    requires Tables(a, mem, own, root)
    ensures forall n :: n in own ==> own[n] in mem
  {
    forall n | n in own ensures own[n] in mem { assert NodeOk(a, mem, own, n); }
  }

  /** The leaf entry of page `v` according to the tree. */
  ghost function Leaf(mem: map<nat, Page>, own: Tree, v: nat): Option<Word> {
    var n := Node(1, v / 512);
    if n in own && own[n] in mem && Present(mem[own[n]][v % 512]) then Some(mem[own[n]][v % 512]) else None
  }

  /** A page with a leaf table has a table at every height. */
  lemma {:induction false} Ancestor(a: Arch, mem: map<nat, Page>, own: Tree, root: nat, v: nat, h: nat)
    requires Tables(a, mem, own, root) && 1 <= h <= 4
    ensures Node(1, v / 512) in own ==> Node(h, Up(v, h)) in own
  {
    if h == 1 {
      assert Up(v, 1) == v / 512;
    } else {
      Ancestor(a, mem, own, root, v, h - 1);
      UpStep(v, h - 1);
      var n := Node(h - 1, Up(v, h - 1));
      assert n in own ==> NodeOk(a, mem, own, n);
    }
  }

  /** An absent entry has no table below it. */
  lemma AbsentEntry(a: Arch, mem: map<nat, Page>, own: Tree, root: nat, n: Node, i: nat)
    requires Tables(a, mem, own, root) && n in own && 1 < n.height <= 4 && i < 512
    requires own[n] in mem && !Present(mem[own[n]][i])
    ensures Child(n, i) !in own
  {
    var c := Child(n, i);
    assert Parent(c) == n && c.prefix % 512 == i;
    assert c in own ==> NodeOk(a, mem, own, c);
  }

  /** The entry page `v` is translated through, in the table of height `h`. */
  lemma EntryOf(a: Arch, mem: map<nat, Page>, own: Tree, root: nat, v: nat, h: nat)
    requires Tables(a, mem, own, root) && v < LOWER_PAGES && 1 < h <= 4 && Node(h, Up(v, h)) in own
    ensures own[Node(h, Up(v, h))] in mem
    ensures Up(v, h - 1) % 512 < Width(h) && Child(Node(h, Up(v, h)), Up(v, h - 1) % 512) == Node(h - 1, Up(v, h - 1))
    ensures var entry := mem[own[Node(h, Up(v, h))]][Up(v, h - 1) % 512];
            if Present(entry) then
              Node(h - 1, Up(v, h - 1)) in own && own[Node(h - 1, Up(v, h - 1))] == GetPhys(a, entry)
            else
              Node(h - 1, Up(v, h - 1)) !in own
  {
    var n, i := Node(h, Up(v, h)), Up(v, h - 1) % 512;
    UpStep(v, h - 1);
    RootCovers(v);
    assert NodeOk(a, mem, own, n);
    assert EntryOk(a, mem, own, n, i);
    if !Present(mem[own[n]][i]) { AbsentEntry(a, mem, own, root, n, i); }
  }

  /** The hardware walk finds exactly the leaf the tree describes. */
  lemma {:induction false} WalkIsLeaf(a: Arch, mem: map<nat, Page>, own: Tree, root: nat, v: nat, h: nat)
    requires Tables(a, mem, own, root) && v < LOWER_PAGES && 1 <= h <= 4 && Node(h, Up(v, h)) in own
    ensures Walk(a, mem, own[Node(h, Up(v, h))], h, v) == Leaf(mem, own, v)
  {
    if h == 1 {
      assert Up(v, 0) == v && Up(v, 1) == v / 512;
      assert NodeOk(a, mem, own, Node(1, v / 512));
    } else {
      EntryOf(a, mem, own, root, v, h);
      if Present(mem[own[Node(h, Up(v, h))]][Up(v, h - 1) % 512]) {
        WalkIsLeaf(a, mem, own, root, v, h - 1);
      } else {
        Ancestor(a, mem, own, root, v, h - 1);
      }
    }
  }

  /** The tree only reaches pages of the lower half. */
  lemma LeafInLower(a: Arch, mem: map<nat, Page>, own: Tree, root: nat, v: nat)
    requires Tables(a, mem, own, root) && Leaf(mem, own, v).Some?
    ensures v < LOWER_PAGES
  {
    Ancestor(a, mem, own, root, v, 3);
    var n := Node(3, Up(v, 3));
    assert NodeOk(a, mem, own, n) && NodeOk(a, mem, own, Parent(n));
    assert Up(v, 1) == v / 512;
    UpStep(v, 1);
    UpStep(v, 2);
  }

  // ---------------------------------------------------------------------------------------------
  // What keeps the tree

  /** Pages outside the tree do not matter. */
  lemma TablesFrame(a: Arch, mem: map<nat, Page>, mem': map<nat, Page>, own: Tree, root: nat)
    requires Tables(a, mem, own, root)
    requires forall n :: n in own ==> own[n] in mem' && own[n] in mem && mem'[own[n]] == mem[own[n]]
    ensures Tables(a, mem', own, root)
    ensures forall v :: Leaf(mem', own, v) == Leaf(mem, own, v)
  {
    forall n | n in own ensures NodeOk(a, mem', own, n) {
      assert NodeOk(a, mem, own, n);
      if n.height > 1 {
        forall i | 0 <= i < Width(n.height) ensures EntryOk(a, mem', own, n, i) {
          assert EntryOk(a, mem, own, n, i);
        }
      }
    }
  }

  lemma LeafWriteKeeps(a: Arch, mem: map<nat, Page>, own: Tree, root: nat, leaf: Node, i: nat, w: Word)
    requires Tables(a, mem, own, root) && leaf in own && leaf.height == 1 && own[leaf] in mem && i < 512
    ensures Tables(a, mem[own[leaf] := mem[own[leaf]][i := w]], own, root)
  {
    var mem' := mem[own[leaf] := mem[own[leaf]][i := w]];
    forall n | n in own ensures NodeOk(a, mem', own, n) {
      assert NodeOk(a, mem, own, n);
      if n.height > 1 {
        assert own[n] != own[leaf];
        forall i | 0 <= i < Width(n.height) ensures EntryOk(a, mem', own, n, i) {
          assert EntryOk(a, mem, own, n, i);
        }
      }
      if n.height < 4 { assert own[Parent(n)] != own[leaf]; }
    }
  }

  /** Writing a leaf entry changes the translation of one page and of no other. */
  lemma LeafWrite(mem: map<nat, Page>, own: Tree, v: nat, w: Word, mem': map<nat, Page>)
    requires Injective(own) && Node(1, v / 512) in own && own[Node(1, v / 512)] in mem
    requires var t := own[Node(1, v / 512)]; mem' == mem[t := mem[t][v % 512 := w]]
    ensures Leaf(mem', own, v) == if Present(w) then Some(w) else None
    ensures forall u: nat :: u != v ==> Leaf(mem', own, u) == Leaf(mem, own, u)
  {
    var t := own[Node(1, v / 512)];
    forall u: nat | u != v ensures Leaf(mem', own, u) == Leaf(mem, own, u) {
      if Node(1, u / 512) in own && own[Node(1, u / 512)] == t {
        assert u / 512 == v / 512;
      }
    }
  }

  lemma InsertKeepsNode(a: Arch, mem: map<nat, Page>, own: Tree, n: Node, i: nat, f: nat, e: Word, m: Node)
    requires n in own && n.height > 1 && i < Width(n.height) && own[n] in mem && !Present(mem[own[n]][i])
    requires m in own && NodeOk(a, mem, own, m) && Injective(own) && Child(n, i) !in own
    requires Present(e) && GetPhys(a, e) == f
    ensures NodeOk(a, mem[own[n] := mem[own[n]][i := e]], own[Child(n, i) := f], m)
  {
    var mem', own' := mem[own[n] := mem[own[n]][i := e]], own[Child(n, i) := f];
    if m.height > 1 {
      forall j | 0 <= j < Width(m.height) ensures EntryOk(a, mem', own', m, j) {
        assert EntryOk(a, mem, own, m, j);
        assert own[m] == own[n] ==> m == n;
      }
    }
    if m.height < 4 {
      assert own[Parent(m)] == own[n] ==> Parent(m) == n;
    }
  }

  /** Linking a zeroed page as a new table keeps the tree and every translation. */
  lemma InsertKeeps(a: Arch, mem: map<nat, Page>, own: Tree, root: nat, n: Node, i: nat, f: nat, e: Word,
                    mem': map<nat, Page>)
    requires Tables(a, mem, own, root)
    requires n in own && n.height > 1 && i < Width(n.height) && own[n] in mem && !Present(mem[own[n]][i])
    requires f in mem && mem[f] == ZERO_PAGE && forall m :: m in own ==> own[m] != f
    requires Present(e) && GetPhys(a, e) == f
    requires mem' == mem[own[n] := mem[own[n]][i := e]]
    ensures Child(n, i) !in own
    ensures Tables(a, mem', own[Child(n, i) := f], root)
  {
    var c, own' := Child(n, i), own[Child(n, i) := f];
    assert NodeOk(a, mem, own, n);
    AbsentEntry(a, mem, own, root, n, i);
    assert Parent(c) == n && c.prefix % 512 == i;
    forall m | m in own' ensures NodeOk(a, mem', own', m) {
      if m != c { InsertKeepsNode(a, mem, own, n, i, f, e, m); }
    }
  }

  lemma InsertKeepsLeaves(mem: map<nat, Page>, own: Tree, n: Node, i: nat, f: nat, e: Word)
    requires n in own && n.height > 1 && i < 512 && own[n] in mem && Child(n, i) !in own
    requires f in mem && mem[f] == ZERO_PAGE && (forall m :: m in own ==> own[m] != f) && Injective(own)
    ensures var mem', own' := mem[own[n] := mem[own[n]][i := e]], own[Child(n, i) := f];
            forall u: nat :: Leaf(mem', own', u) == Leaf(mem, own, u)
  {
    var mem', own' := mem[own[n] := mem[own[n]][i := e]], own[Child(n, i) := f];
    forall u: nat ensures Leaf(mem', own', u) == Leaf(mem, own, u) {
      var l := Node(1, u / 512);
      if l in own { assert own[l] == own[n] ==> l == n; }
    }
  }

  /** Zeroing a page outside the tree and linking it: the two steps together. */
  lemma LinkKeeps(a: Arch, mem0: map<nat, Page>, mem: map<nat, Page>, own: Tree, root: nat, n: Node, i: nat, f: nat,
                  e: Word, mem': map<nat, Page>)
    requires Tables(a, mem0, own, root)
    requires forall m :: m in own ==> own[m] != f && own[m] in mem0 && own[m] in mem && mem[own[m]] == mem0[own[m]]
    requires n in own && n.height > 1 && i < Width(n.height) && own[n] in mem && !Present(mem[own[n]][i])
    requires f in mem && Present(e) && GetPhys(a, e) == f
    requires mem' == mem[f := ZERO_PAGE][own[n] := mem[own[n]][i := e]]
    ensures Child(n, i) !in own && Tables(a, mem', own[Child(n, i) := f], root)
    ensures forall u: nat :: Leaf(mem', own[Child(n, i) := f], u) == Leaf(mem0, own, u)
  {
    var mem1 := mem[f := ZERO_PAGE];
    TablesFrame(a, mem0, mem1, own, root);
    InsertKeeps(a, mem1, own, root, n, i, f, e, mem');
    InsertKeepsLeaves(mem1, own, n, i, f, e);
  }

  // ---------------------------------------------------------------------------------------------
  // Where tables come from

  ghost function Elements(s: seq<nat>): set<nat> { set x | x in s }

  /** The frames that left the front of the free list are exactly the ones that joined the tree. */
  ghost predicate Took(own: Tree, free: seq<nat>, own': Tree, free': seq<nat>) {
    && |free'| <= |free|
    && free' == free[|free| - |free'|..]
    && own'.Values == own.Values + Elements(free[..|free| - |free'|])
    && own.Keys <= own'.Keys
    && forall n :: n in own ==> own'[n] == own[n]
  }

  lemma TookNothing(own: Tree, free: seq<nat>)
    ensures Took(own, free, own, free)
  {
  }

  lemma TookOne(own: Tree, n: Node, f: nat, free: seq<nat>)
    requires n !in own
    ensures Took(own, [f] + free, own[n := f], free)
  {
    var own' := own[n := f];
    assert ([f] + free)[..1] == [f];
    forall x ensures x in own'.Values <==> x in own.Values + {f} {
      if x in own.Values {
        var m :| m in own && own[m] == x;
        assert own'[m] == x;
      }
      if x == f { assert own'[n] == x; }
    }
  }

  lemma TookMore(own: Tree, free: seq<nat>, own1: Tree, free1: seq<nat>, own2: Tree, free2: seq<nat>)
    requires Took(own, free, own1, free1) && Took(own1, free1, own2, free2)
    ensures Took(own, free, own2, free2)
  {
    var k, k1, k2 := |free| - |free1|, |free1| - |free2|, |free| - |free2|;
    assert free[..k2] == free[..k] + free1[..k1];
  }

  /** A frame neither free nor in the tree is still neither after frames moved from one to the other. */
  lemma StaysFresh(own: Tree, free: seq<nat>, own': Tree, free': seq<nat>, f: nat)
    requires Took(own, free, own', free') && f !in own.Values && f !in free
    ensures f !in own'.Values && f !in free'
  {
  }
}
