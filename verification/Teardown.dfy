/**
 Tearing an address space down (kernel/src/mm/vmm.c): every table and every mapped frame of the
 lower half goes back to the page allocator exactly once, and no page is read after it was freed.
 */
module Teardown {
  import opened Base
  import opened Pte
  import opened Pmm
  import opened PageTables
  import opened Vmm

  /** The frames freed for the first `i` entries of a table of height `h`, last freed first. */
  function Freed(a: Arch, mem: map<nat, Page>, table: nat, h: nat, i: nat): (r: seq<nat>)
    requires h >= 1 && i <= 512
    decreases h, i
  {
    if i == 0 || table !in mem then []
    else if !Present(mem[table][i - 1]) then Freed(a, mem, table, h, i - 1)
    else
      var child := GetPhys(a, mem[table][i - 1]);
      [child] + (if h > 1 then Freed(a, mem, child, h - 1, 512) else []) + Freed(a, mem, table, h, i - 1)
  }

  // ---------------------------------------------------------------------------------------------
  // A tree that includes the mapped frames, as nodes of height 0

  ghost predicate FullNode(a: Arch, mem: map<nat, Page>, all: Tree, n: Node)
    requires n in all
  {
    && n.height <= 4 && (n.height == 4 ==> n.prefix == 0)
    && all[n] in mem
    && ParentOk(mem, all, n)
    && (n.height > 0 ==>
          forall i {:trigger EntryOk(a, mem, all, n, i)} :: 0 <= i < Width(n.height) ==> EntryOk(a, mem, all, n, i))
  }

  ghost predicate FullTree(a: Arch, mem: map<nat, Page>, all: Tree, root: nat) {
    && ROOT in all && all[ROOT] == root
    && Injective(all)
    && forall n {:trigger FullNode(a, mem, all, n)} :: n in all ==> FullNode(a, mem, all, n)
  }

  /** The entry number, counted over the whole address space, under which `m` hangs in height `h`. */
  function Block(m: Node, h: nat): nat
    requires m.height < h
  {
    Up(m.prefix, h - 1 - m.height)
  }

  /** `m` hangs under one of the first `i` entries of `n`. */
  ghost predicate Under(n: Node, i: nat, m: Node) {
    m.height < n.height && n.prefix * 512 <= Block(m, n.height) < n.prefix * 512 + i
  }

  lemma BlockUp(m: Node, h: nat)
    requires m.height < h
    ensures Block(m, h + 1) == Block(m, h) / 512
  {
    UpStep(m.prefix, h - 1 - m.height);
  }

  /** What a present entry leads to. */
  lemma Below(a: Arch, mem: map<nat, Page>, all: Tree, root: nat, n: Node, i: nat)
    requires FullTree(a, mem, all, root) && n in all && n.height > 0 && i < Width(n.height)
    ensures all[n] in mem && n.height <= 4
    ensures Present(mem[all[n]][i]) <==> Child(n, i) in all
    ensures Present(mem[all[n]][i]) ==> all[Child(n, i)] == GetPhys(a, mem[all[n]][i])
  {
    var c := Child(n, i);
    assert FullNode(a, mem, all, n) && EntryOk(a, mem, all, n, i);
    assert Parent(c) == n && c.prefix % 512 == i;
    assert c in all ==> FullNode(a, mem, all, c);
  }

  /** Where a frame freed for the first `i` entries comes from. */
  lemma FreedCases(a: Arch, mem: map<nat, Page>, table: nat, h: nat, i: nat, x: nat)
    requires h >= 1 && 0 < i <= 512 && x in Freed(a, mem, table, h, i)
    ensures table in mem
    ensures || x in Freed(a, mem, table, h, i - 1)
            || (Present(mem[table][i - 1]) && x == GetPhys(a, mem[table][i - 1]))
            || (Present(mem[table][i - 1]) && h > 1 && x in Freed(a, mem, GetPhys(a, mem[table][i - 1]), h - 1, 512))
  {
  }

  lemma UnderChild(n: Node, i: nat, m: Node)
    requires n.height > 0 && i > 0
    ensures Under(n, i, Child(n, i - 1))
    ensures Under(Child(n, i - 1), 512, m) ==> Under(n, i, m) && !Under(n, i - 1, m)
  {
    assert Up(Child(n, i - 1).prefix, 0) == Child(n, i - 1).prefix;
    if m.height < n.height - 1 { BlockUp(m, n.height - 1); }
  }

  /** Everything freed hangs under the entries freed. */
  lemma {:induction false} FreedIsUnder(a: Arch, mem: map<nat, Page>, all: Tree, root: nat, n: Node, i: nat, f: nat)
      returns (m: Node)
    requires FullTree(a, mem, all, root) && n in all && n.height > 0 && i <= Width(n.height)
    requires f in Freed(a, mem, all[n], n.height, i)
    ensures m in all && all[m] == f && Under(n, i, m)
    decreases n.height, i
  {
    FreedCases(a, mem, all[n], n.height, i, f);
    Below(a, mem, all, root, n, i - 1);
    var c := Child(n, i - 1);
    if f in Freed(a, mem, all[n], n.height, i - 1) {
      m := FreedIsUnder(a, mem, all, root, n, i - 1, f);
    } else if f == all[c] {
      m := c;
      UnderChild(n, i, m);
    } else {
      m := FreedIsUnder(a, mem, all, root, c, 512, f);
      UnderChild(n, i, m);
    }
  }

  lemma ParentIn(a: Arch, mem: map<nat, Page>, all: Tree, root: nat, m: Node)
    requires FullTree(a, mem, all, root) && m in all && m.height < 4
    ensures Parent(m) in all
  {
    assert FullNode(a, mem, all, m);
  }

  /** The node of height `h` above `m`. */
  lemma {:induction false} Above(a: Arch, mem: map<nat, Page>, all: Tree, root: nat, m: Node, h: nat)
    requires FullTree(a, mem, all, root) && m in all && m.height <= h <= 4
    ensures Node(h, Up(m.prefix, h - m.height)) in all
  {
    if m.height == h {
      assert Node(h, Up(m.prefix, 0)) == m;
    } else {
      Above(a, mem, all, root, m, h - 1);
      UpStep(m.prefix, h - 1 - m.height);
      ParentIn(a, mem, all, root, Node(h - 1, Up(m.prefix, h - 1 - m.height)));
    }
  }

  /** One more entry: what its subtree and its own frame add. */
  lemma FreedStep(a: Arch, mem: map<nat, Page>, table: nat, h: nat, i: nat, x: nat)
    requires h >= 1 && 0 < i <= 512 && table in mem
    ensures x in Freed(a, mem, table, h, i - 1) ==> x in Freed(a, mem, table, h, i)
    ensures Present(mem[table][i - 1]) ==>
              var child := GetPhys(a, mem[table][i - 1]);
              && child in Freed(a, mem, table, h, i)
              && (h > 1 && x in Freed(a, mem, child, h - 1, 512) ==> x in Freed(a, mem, table, h, i))
  {
  }

  lemma UnderLastShape(n: Node, i: nat, m: Node)
    requires n.height > 0 && i > 0 && Under(n, i, m) && !Under(n, i - 1, m)
    ensures Block(m, n.height) == Child(n, i - 1).prefix
    ensures m.height == n.height - 1 ==> m == Child(n, i - 1)
    ensures m.height < n.height - 1 ==> Under(Child(n, i - 1), 512, m)
  {
    if m.height < n.height - 1 { BlockUp(m, n.height - 1); }
  }

  /** Under the last of the entries: it is the child there, or under it. */
  lemma UnderLast(a: Arch, mem: map<nat, Page>, all: Tree, root: nat, n: Node, i: nat, m: Node)
    requires FullTree(a, mem, all, root) && 0 < n.height <= 4 && i > 0
    requires m in all && Under(n, i, m) && !Under(n, i - 1, m)
    ensures Child(n, i - 1) in all
    ensures m != Child(n, i - 1) ==> m.height < n.height - 1 && Under(Child(n, i - 1), 512, m)
  {
    UnderLastShape(n, i, m);
    Above(a, mem, all, root, m, n.height - 1);
  }

  /** What the last of the entries contributes, in terms of the tree. */
  lemma ChildFreed(a: Arch, mem: map<nat, Page>, all: Tree, root: nat, n: Node, i: nat, x: nat)
    requires FullTree(a, mem, all, root) && n in all && n.height > 0 && 0 < i <= Width(n.height)
    requires Child(n, i - 1) in all
    ensures all[Child(n, i - 1)] in Freed(a, mem, all[n], n.height, i)
    ensures n.height > 1 && x in Freed(a, mem, all[Child(n, i - 1)], n.height - 1, 512) ==>
              x in Freed(a, mem, all[n], n.height, i)
  {
    Below(a, mem, all, root, n, i - 1);
    FreedStep(a, mem, all[n], n.height, i, x);
  }

  /** Everything that hangs under the entries freed is freed. */
  lemma {:induction false} UnderIsFreed(a: Arch, mem: map<nat, Page>, all: Tree, root: nat, n: Node, i: nat, m: Node)
    requires FullTree(a, mem, all, root) && n in all && n.height > 0 && i <= Width(n.height)
    requires m in all && Under(n, i, m)
    ensures all[m] in Freed(a, mem, all[n], n.height, i)
    decreases n.height, i
  {
    if Under(n, i - 1, m) {
      UnderIsFreed(a, mem, all, root, n, i - 1, m);
      FreedStep(a, mem, all[n], n.height, i, all[m]);
    } else {
      assert n.height <= 4 by { assert FullNode(a, mem, all, n); }
      UnderLast(a, mem, all, root, n, i, m);
      ChildFreed(a, mem, all, root, n, i, all[m]);
      if m != Child(n, i - 1) { UnderIsFreed(a, mem, all, root, Child(n, i - 1), 512, m); }
    }
  }

  lemma DistinctConcat(s: seq<nat>, t: seq<nat>)
    requires Distinct(s) && Distinct(t) && forall x :: x in s ==> x !in t
    ensures Distinct(s + t)
  {
    forall i, j | 0 <= i < j < |s + t| ensures (s + t)[i] != (s + t)[j] {
      if i < |s| <= j { assert s[i] in s && t[j - |s|] in t; }
    }
  }

  /** The frame a subtree hangs on is not in it, and not under earlier entries either. */
  lemma NotFreedEarlier(a: Arch, mem: map<nat, Page>, all: Tree, root: nat, n: Node, i: nat, m: Node)
    requires FullTree(a, mem, all, root) && n in all && n.height > 0 && i <= Width(n.height)
    requires m in all && !Under(n, i, m)
    ensures all[m] !in Freed(a, mem, all[n], n.height, i)
  {
    if all[m] in Freed(a, mem, all[n], n.height, i) {
      var m' := FreedIsUnder(a, mem, all, root, n, i, all[m]);
    }
  }

  /** Subtrees under different entries share no frame. */
  lemma {:induction false} SubtreesApart(a: Arch, mem: map<nat, Page>, all: Tree, root: nat, n: Node, i: nat, x: nat)
    requires FullTree(a, mem, all, root) && n in all && n.height > 1 && 0 < i <= Width(n.height)
    requires Child(n, i - 1) in all && x in Freed(a, mem, all[Child(n, i - 1)], n.height - 1, 512)
    ensures x !in Freed(a, mem, all[n], n.height, i - 1)
  {
    Below(a, mem, all, root, n, i - 1);
    var m := FreedIsUnder(a, mem, all, root, Child(n, i - 1), 512, x);
    UnderChild(n, i, m);
    NotFreedEarlier(a, mem, all, root, n, i - 1, m);
  }

  /** No frame is freed twice, nor the table itself. */
  lemma {:induction false} FreedOnce(a: Arch, mem: map<nat, Page>, all: Tree, root: nat, n: Node, i: nat)
    requires FullTree(a, mem, all, root) && n in all && n.height > 0 && i <= Width(n.height)
    ensures Distinct(Freed(a, mem, all[n], n.height, i))
    ensures all[n] !in Freed(a, mem, all[n], n.height, i)
    decreases n.height, i
  {
    NotFreedEarlier(a, mem, all, root, n, i, n);
    if i > 0 {
      Below(a, mem, all, root, n, i - 1);
      FreedOnce(a, mem, all, root, n, i - 1);
      var c, rest := Child(n, i - 1), Freed(a, mem, all[n], n.height, i - 1);
      if c in all {
        var sub := if n.height > 1 then Freed(a, mem, all[c], n.height - 1, 512) else [];
        if n.height > 1 { FreedOnce(a, mem, all, root, c, 512); }
        forall x | x in sub ensures x !in rest { SubtreesApart(a, mem, all, root, n, i, x); }
        NotFreedEarlier(a, mem, all, root, n, i - 1, c);
        DistinctConcat([all[c]], sub);
        DistinctConcat([all[c]] + sub, rest);
      }
    }
  }

  // ---------------------------------------------------------------------------------------------
  // The recursive free

  /** No page still owned differs from what it was when the teardown began. */
  ghost predicate Untouched(ram: Memory, mem0: map<nat, Page>)
    reads ram
  {
    ram.mem.Keys == mem0.Keys && forall f :: f in ram.mem && f !in ram.free ==> ram.mem[f] == mem0[f]
  }

  /** Frames that may be freed: in memory, not free, none twice. */
  ghost predicate Freeable(ram: Memory, frames: seq<nat>)
    reads ram
  {
    Distinct(frames) && forall f :: f in frames ==> IsFrame(f, ram.hhdm) && f in ram.mem && f !in ram.free
  }

  lemma {:induction false} FreedSuffix(a: Arch, mem: map<nat, Page>, table: nat, h: nat, i: nat, j: nat)
    requires h >= 1 && i <= j <= 512
    ensures |Freed(a, mem, table, h, i)| <= |Freed(a, mem, table, h, j)|
    ensures var s := Freed(a, mem, table, h, j);
            s[|s| - |Freed(a, mem, table, h, i)|..] == Freed(a, mem, table, h, i)
    decreases j
  {
    if i < j { FreedSuffix(a, mem, table, h, i, j - 1); }
  }

  /** Reads an entry of a table; the table must not have been freed. */
  method ReadEntry(ram: Memory, table: nat, i: nat) returns (e: Word)
    requires table in ram.mem && table !in ram.free && i < 512
    ensures e == ram.mem[table][i]
  {
    e := ram.mem[table][i];
  }

  /** What one present entry of a table of height `h` adds: its frame, and the subtree below it. */
  function FreedEntry(a: Arch, mem: map<nat, Page>, child: nat, h: nat): seq<nat>
    requires h >= 1
  {
    [child] + (if h > 1 then Freed(a, mem, child, h - 1, 512) else [])
  }

  /** A middle part of a list without repetitions. */
  lemma PartOf(whole: seq<nat>, part: seq<nat>, after: seq<nat>)
    requires Distinct(whole) && |part + after| <= |whole| && whole[|whole| - |part + after|..] == part + after
    ensures Distinct(part) && forall f :: f in part ==> f in whole && f !in after
  {
    var n := |whole| - |part + after|;
    assert forall k :: 0 <= k < |part + after| ==> (part + after)[k] == whole[n + k];
    assert forall k :: 0 <= k < |part| ==> part[k] == whole[n + k];
    assert forall k :: 0 <= k < |after| ==> after[k] == (part + after)[|part| + k] == whole[n + |part| + k];
    forall f | f in part ensures f in whole && f !in after {
      var k :| 0 <= k < |part| && part[k] == f;
      assert whole[n + k] == f;
    }
  }

  lemma {:induction false} FreedNext(a: Arch, mem: map<nat, Page>, table: nat, h: nat, i: nat)
    requires h >= 1 && i < 512 && table in mem && Present(mem[table][i])
    ensures Freed(a, mem, table, h, i + 1) == FreedEntry(a, mem, GetPhys(a, mem[table][i]), h) +
            Freed(a, mem, table, h, i)
  {
  }

  /** Cutting the frames of entry `i` out of those of the first `width` entries. */
  lemma {:induction false} EntryPart(a: Arch, mem: map<nat, Page>, table: nat, h: nat, i: nat, width: nat)
    requires h >= 1 && i < width <= 512 && table in mem && Present(mem[table][i])
    requires Distinct(Freed(a, mem, table, h, width))
    ensures var part := FreedEntry(a, mem, GetPhys(a, mem[table][i]), h);
            && Distinct(part)
            && (forall f :: f in part ==> f in Freed(a, mem, table, h, width) && f !in Freed(a, mem, table, h, i))
            && Freed(a, mem, table, h, i + 1) == part + Freed(a, mem, table, h, i)
  {
    FreedNext(a, mem, table, h, i);
    FreedSuffix(a, mem, table, h, i + 1, width);
    var part := FreedEntry(a, mem, GetPhys(a, mem[table][i]), h);
    PartOf(Freed(a, mem, table, h, width), part, Freed(a, mem, table, h, i));
  }

  lemma TableStaysOut(a: Arch, mem: map<nat, Page>, table: nat, h: nat, i: nat, width: nat)
    requires h >= 1 && i <= width <= 512 && table !in Freed(a, mem, table, h, width)
    ensures table !in Freed(a, mem, table, h, i)
  {
    FreedSuffix(a, mem, table, h, i, width);
  }

  method PushFrame(ram: Memory, f: nat, ghost mem0: map<nat, Page>)
    requires ram.Valid() && Untouched(ram, mem0) && IsFrame(f, ram.hhdm) && f in ram.mem && f !in ram.free
    modifies ram`mem, ram`head, ram`free
    ensures ram.Valid() && Untouched(ram, mem0) && ram.free == [f] + old(ram.free)
  {
    ram.FreeOne(f);
  }

  lemma EntryFreeable(ram: Memory, a: Arch, mem: map<nat, Page>, table: nat, h: nat, i: nat, width: nat, was: seq<nat>)
    requires h >= 1 && i < width <= 512 && table in mem && Present(mem[table][i])
    requires Distinct(Freed(a, mem, table, h, width))
    requires forall f :: f in Freed(a, mem, table, h, width) ==> IsFrame(f, ram.hhdm) && f in ram.mem && f !in was
    requires ram.free == Freed(a, mem, table, h, i) + was
    ensures Freeable(ram, FreedEntry(a, mem, GetPhys(a, mem[table][i]), h))
    ensures Freed(a, mem, table, h, i + 1) + was == FreedEntry(a, mem, GetPhys(a, mem[table][i]), h) + ram.free
  {
    EntryPart(a, mem, table, h, i, width);
    var part, rest := FreedEntry(a, mem, GetPhys(a, mem[table][i]), h), Freed(a, mem, table, h, i);
    assert part + (rest + was) == part + rest + was;
  }

  /** The body of that loop. */
  method FreeEntryAt(ram: Memory, a: Arch, table: nat, h: nat, i: nat, ghost width: nat,
                     ghost mem0: map<nat, Page>, ghost was: seq<nat>)
    requires ram.Valid() && h >= 1 && i < width <= 512 && Untouched(ram, mem0)
    requires table in ram.mem && table !in was && table !in Freed(a, mem0, table, h, width)
    requires Distinct(Freed(a, mem0, table, h, width))
    requires forall f :: f in Freed(a, mem0, table, h, width) ==> IsFrame(f, ram.hhdm) && f in ram.mem && f !in was
    requires ram.free == Freed(a, mem0, table, h, i) + was
    modifies ram`mem, ram`head, ram`free
    ensures ram.Valid() && Untouched(ram, mem0)
    ensures ram.free == Freed(a, mem0, table, h, i + 1) + was
    decreases h, 0
  {
    TableStaysOut(a, mem0, table, h, i, width);
    var e := ReadEntry(ram, table, i);
    if Present(e) {
      var child := GetPhys(a, e);
      EntryFreeable(ram, a, mem0, table, h, i, width, was);
      FreeChild(ram, a, child, h, mem0);
    }
  }

  /** The loop over the first `width` entries. */
  method FreeEntries(ram: Memory, a: Arch, table: nat, h: nat, width: nat, ghost mem0: map<nat, Page>)
    requires ram.Valid() && h >= 1 && width <= 512 && Untouched(ram, mem0)
    requires table in ram.mem && table !in ram.free
    requires Freeable(ram, Freed(a, mem0, table, h, width)) && table !in Freed(a, mem0, table, h, width)
    modifies ram`mem, ram`head, ram`free
    ensures ram.Valid() && Untouched(ram, mem0)
    ensures ram.free == Freed(a, mem0, table, h, width) + old(ram.free)
    decreases h, 1
  {
    ghost var was := ram.free;
    var i := 0;
    while i < width
      invariant 0 <= i <= width
      invariant ram.Valid() && Untouched(ram, mem0)
      invariant ram.free == Freed(a, mem0, table, h, i) + was
    {
      FreeEntryAt(ram, a, table, h, i, width, mem0, was);
      i := i + 1;
    }
  }

  /** vmm_free_table_recursive: frees everything below a table, not the table itself. */
  method FreeTable(ram: Memory, a: Arch, table: nat, h: nat, ghost mem0: map<nat, Page>)
    requires ram.Valid() && h >= 1 && Untouched(ram, mem0)
    requires table in ram.mem && table !in ram.free
    requires Freeable(ram, Freed(a, mem0, table, h, 512)) && table !in Freed(a, mem0, table, h, 512)
    modifies ram`mem, ram`head, ram`free
    ensures ram.Valid() && Untouched(ram, mem0)
    ensures ram.free == Freed(a, mem0, table, h, 512) + old(ram.free)
    decreases h, 2
  {
    FreeEntries(ram, a, table, h, 512, mem0);
  }

  /** A frame and the frames below it may be freed, those below first. */
  lemma FreeableParts(ram: Memory, child: nat, sub: seq<nat>)
    requires Freeable(ram, [child] + sub)
    ensures Freeable(ram, sub) && child !in sub
    ensures IsFrame(child, ram.hhdm) && child in ram.mem && child !in ram.free
  {
    var all := [child] + sub;
    assert child == all[0];
    assert forall k :: 0 <= k < |sub| ==> sub[k] == all[k + 1];
    forall f | f in sub ensures f in all {
      var k :| 0 <= k < |sub| && sub[k] == f;
      assert all[k + 1] == f;
    }
  }

  /** Empties what hangs below one entry, then frees the entry's own frame. */
  method FreeChild(ram: Memory, a: Arch, child: nat, h: nat, ghost mem0: map<nat, Page>)
    requires ram.Valid() && h >= 1 && Untouched(ram, mem0)
    requires Freeable(ram, FreedEntry(a, mem0, child, h))
    modifies ram`mem, ram`head, ram`free
    ensures ram.Valid() && Untouched(ram, mem0)
    ensures ram.free == FreedEntry(a, mem0, child, h) + old(ram.free)
    decreases h - 1, 3
  {
    ghost var sub := if h > 1 then Freed(a, mem0, child, h - 1, 512) else [];
    ghost var was := ram.free;
    FreeableParts(ram, child, sub);
    if h > 1 { FreeTable(ram, a, child, h - 1, mem0); }
    assert ram.free == sub + was;
    PushFrame(ram, child, mem0);
    Associative([child], sub, was);
  }

  // ---------------------------------------------------------------------------------------------
  // Address spaces that own what they map

  /** The tree with the mapped frames added under it. */
  ghost function WithFrames(own: Tree, data: map<nat, nat>): (all: Tree)
    ensures forall n :: n in all <==> n in own || (n.height == 0 && n.prefix in data)
    ensures forall v :: v in data ==> Node(0, v) in all && all[Node(0, v)] == data[v]
    ensures forall n :: n in own && n.height > 0 ==> all[n] == own[n]
  {
    own + map v | v in data :: Node(0, v) := data[v]
  }

  /** Page `v` is mapped if and only if it has a frame, and then to that frame. */
  ghost predicate OwnsPage(a: Arch, mem: map<nat, Page>, own: Tree, data: map<nat, nat>, v: nat) {
    && (Leaf(mem, own, v).Some? <==> v in data)
    && (v in data ==> data[v] in mem && GetPhys(a, Leaf(mem, own, v).value) == data[v])
  }

  /** No frame is used for two pages. */
  ghost predicate Once(data: map<nat, nat>) {
    forall u, v :: u in data && v in data && data[u] == data[v] ==> u == v
  }

  /** `data` is the frame of every mapped page, each frame mapped once and none of them a table. */
  ghost predicate Owns(a: Arch, mem: map<nat, Page>, own: Tree, data: map<nat, nat>) {
    && (forall v: nat :: OwnsPage(a, mem, own, data, v))
    && Once(data)
    && data.Values !! own.Values
  }

  lemma FrameAdded(own: Tree, data: map<nat, nat>, n: Node)
    requires n in WithFrames(own, data) && (n in own ==> n.height > 0)
    ensures n in own ==> WithFrames(own, data)[n] in own.Values
    ensures n !in own ==> n.height == 0 && n.prefix in data && WithFrames(own, data)[n] == data[n.prefix]
    ensures n !in own ==> WithFrames(own, data)[n] in data.Values
  {
    if n !in own { assert n == Node(0, n.prefix); }
  }

  lemma FramesInjective(own: Tree, data: map<nat, nat>)
    requires Injective(own) && (forall n :: n in own ==> n.height > 0) && data.Values !! own.Values
    requires forall u, v :: u in data && v in data && data[u] == data[v] ==> u == v
    ensures Injective(WithFrames(own, data))
  {
    var all := WithFrames(own, data);
    forall m, n | m in all && n in all && all[m] == all[n] ensures m == n {
      FrameAdded(own, data, m);
      FrameAdded(own, data, n);
    }
  }

  lemma FullInner(a: Arch, mem: map<nat, Page>, own: Tree, data: map<nat, nat>, n: Node)
    requires n in own && n.height > 1 && NodeOk(a, mem, own, n)
    ensures FullNode(a, mem, WithFrames(own, data), n)
  {
    var all := WithFrames(own, data);
    forall i | 0 <= i < Width(n.height) ensures EntryOk(a, mem, all, n, i) {
      assert EntryOk(a, mem, own, n, i);
    }
  }

  lemma FullLeafEntry(a: Arch, mem: map<nat, Page>, own: Tree, data: map<nat, nat>, n: Node, i: nat)
    requires n in own && n.height == 1 && own[n] in mem && Owns(a, mem, own, data) && i < 512
    ensures EntryOk(a, mem, WithFrames(own, data), n, i)
  {
    var v := n.prefix * 512 + i;
    assert OwnsPage(a, mem, own, data, v);
    assert Node(1, v / 512) == n && v % 512 == i;
    assert Leaf(mem, own, v) == if Present(mem[own[n]][i]) then Some(mem[own[n]][i]) else None;
    assert Child(n, i) == Node(0, v);
  }

  lemma FullLeafTable(a: Arch, mem: map<nat, Page>, own: Tree, data: map<nat, nat>, n: Node)
    requires n in own && n.height == 1 && NodeOk(a, mem, own, n) && Owns(a, mem, own, data)
    ensures FullNode(a, mem, WithFrames(own, data), n)
  {
    forall i | 0 <= i < 512 ensures EntryOk(a, mem, WithFrames(own, data), n, i) {
      FullLeafEntry(a, mem, own, data, n, i);
    }
  }

  lemma FullLeaf(a: Arch, mem: map<nat, Page>, own: Tree, data: map<nat, nat>, n: Node)
    requires Owns(a, mem, own, data) && n in WithFrames(own, data) && n !in own
    ensures FullNode(a, mem, WithFrames(own, data), n)
  {
    assert OwnsPage(a, mem, own, data, n.prefix);
  }

  lemma FullFromOwned(a: Arch, mem: map<nat, Page>, own: Tree, root: nat, data: map<nat, nat>)
    requires Tables(a, mem, own, root) && Owns(a, mem, own, data)
    ensures FullTree(a, mem, WithFrames(own, data), root)
  {
    var all := WithFrames(own, data);
    assert forall n :: n in own ==> n.height > 0 by { assert forall n :: n in own ==> NodeOk(a, mem, own, n); }
    FramesInjective(own, data);
    forall n | n in all ensures FullNode(a, mem, all, n) {
      if n in own {
        assert NodeOk(a, mem, own, n);
        if n.height > 1 { FullInner(a, mem, own, data, n); } else { FullLeafTable(a, mem, own, data, n); }
      } else {
        FullLeaf(a, mem, own, data, n);
      }
    }
  }

  lemma FrameOrTable(a: Arch, mem: map<nat, Page>, own: Tree, root: nat, data: map<nat, nat>, n: Node)
    requires Tables(a, mem, own, root) && n in WithFrames(own, data)
    ensures n in own ==> WithFrames(own, data)[n] == own[n]
    ensures WithFrames(own, data)[n] in own.Values || WithFrames(own, data)[n] in data.Values
  {
    assert n in own ==> NodeOk(a, mem, own, n);
    FrameAdded(own, data, n);
  }

  lemma EverythingIsFreed(a: Arch, mem: map<nat, Page>, all: Tree, root: nat, n: Node)
    requires FullTree(a, mem, all, root) && n in all
    ensures all[n] in [root] + Freed(a, mem, root, 4, 256)
  {
    assert FullNode(a, mem, all, n);
    if n.height < 4 {
      Above(a, mem, all, root, n, 3);
      var m := Node(3, Up(n.prefix, 3 - n.height));
      assert FullNode(a, mem, all, m) && FullNode(a, mem, all, Parent(m));
      assert Under(ROOT, 256, n);
      UnderIsFreed(a, mem, all, root, ROOT, 256, n);
    }
  }

  /** What is freed when everything below the root and the root itself goes. */
  lemma FreedIsEverything(a: Arch, mem: map<nat, Page>, own: Tree, root: nat, data: map<nat, nat>, f: nat)
    requires Tables(a, mem, own, root) && Owns(a, mem, own, data)
    ensures f in [root] + Freed(a, mem, root, 4, 256) <==> f in own.Values || f in data.Values
  {
    var all := WithFrames(own, data);
    FullFromOwned(a, mem, own, root, data);
    if f in Freed(a, mem, root, 4, 256) {
      var m := FreedIsUnder(a, mem, all, root, ROOT, 256, f);
      FrameOrTable(a, mem, own, root, data, m);
    }
    if f in own.Values {
      var n :| n in own && own[n] == f;
      EverythingIsFreed(a, mem, all, root, n);
      FrameOrTable(a, mem, own, root, data, n);
    }
    if f in data.Values {
      var v :| v in data && data[v] == f;
      EverythingIsFreed(a, mem, all, root, Node(0, v));
    }
  }

  lemma OwnsMapped(a: Arch, mem: map<nat, Page>, own: Tree, data: map<nat, nat>,
                   mem': map<nat, Page>, own': Tree, v: nat, w: Word, phys: nat)
    requires Owns(a, mem, own, data) && mem'.Keys == mem.Keys
    requires forall u: nat :: Leaf(mem', own', u) == if u == v then Some(w) else Leaf(mem, own, u)
    requires GetPhys(a, w) == phys && phys in mem' && phys !in own'.Values
    requires phys !in data.Values || (v in data && data[v] == phys)
    requires forall u :: u in data ==> data[u] !in own'.Values
    ensures Owns(a, mem', own', data[v := phys])
  {
    var data' := data[v := phys];
    forall u: nat ensures OwnsPage(a, mem', own', data', u) { assert OwnsPage(a, mem, own, data, u); }
    forall u, t | u in data' && t in data' && data'[u] == data'[t] ensures u == t {
      assert u != v ==> data[u] in data.Values;
      assert t != v ==> data[t] in data.Values;
    }
    forall f | f in data'.Values ensures f !in own'.Values {
      var u :| u in data' && data'[u] == f;
    }
  }

  lemma OwnsKept(a: Arch, mem: map<nat, Page>, own: Tree, data: map<nat, nat>, mem': map<nat, Page>, own': Tree)
    requires Owns(a, mem, own, data) && mem'.Keys == mem.Keys
    requires forall u: nat :: Leaf(mem', own', u) == Leaf(mem, own, u)
    requires forall u :: u in data ==> data[u] !in own'.Values
    ensures Owns(a, mem', own', data)
  {
    forall u: nat ensures OwnsPage(a, mem', own', data, u) { assert OwnsPage(a, mem, own, data, u); }
    forall f | f in data.Values ensures f !in own'.Values {
      var u :| u in data && data[u] == f;
    }
  }

  lemma OwnsUnmapped(a: Arch, mem: map<nat, Page>, own: Tree, data: map<nat, nat>, mem': map<nat, Page>, v: nat)
    requires Owns(a, mem, own, data) && mem'.Keys == mem.Keys
    requires forall u: nat :: Leaf(mem', own, u) == if u == v then None else Leaf(mem, own, u)
    ensures Owns(a, mem', own, data - {v})
    ensures v in data ==> data[v] in mem' && data[v] !in own.Values && data[v] !in (data - {v}).Values
  {
    var data' := data - {v};
    forall u: nat ensures OwnsPage(a, mem', own, data', u) { assert OwnsPage(a, mem, own, data, u); }
    assert OwnsPage(a, mem, own, data, v);
    if v in data { assert data[v] in data.Values; }
    forall f | f in data'.Values ensures f !in own.Values {
      var u :| u in data' && data'[u] == f;
      assert data[u] in data.Values;
    }
  }

  /** Only tables and free pages have been written. */
  ghost predicate OnlyWrites(mem: map<nat, Page>, mem': map<nat, Page>, own': Tree, free': seq<nat>) {
    mem'.Keys == mem.Keys && forall f :: f in mem && f !in own'.Values && f !in free' ==> mem'[f] == mem[f]
  }

  /**
   Frames that were neither free nor this space's, nor `given` to it, are still neither, with the same
   contents.
   */
  ghost predicate Spares(mem: map<nat, Page>, free: seq<nat>, own: Tree, data: map<nat, nat>, given: set<nat>,
                         mem': map<nat, Page>, free': seq<nat>, own': Tree, data': map<nat, nat>) {
    && mem'.Keys == mem.Keys
    && forall f :: f in mem && f !in free && f !in own.Values && f !in data.Values && f !in given ==>
         mem'[f] == mem[f] && f !in free' && f !in own'.Values && f !in data'.Values
  }

  lemma SparedBy(mem: map<nat, Page>, free: seq<nat>, own: Tree, data: map<nat, nat>, given: set<nat>,
                 mem': map<nat, Page>, free': seq<nat>, own': Tree, data': map<nat, nat>)
    requires mem'.Keys == mem.Keys
    requires forall f :: f in own'.Values || f in free' ==> f in own.Values || f in free
    requires forall v :: v in data' ==> (v in data && data'[v] == data[v]) || data'[v] in given || data'[v] in free
    requires forall f :: f in mem && f !in own'.Values && f !in free' && f !in free ==> mem'[f] == mem[f]
    ensures Spares(mem, free, own, data, given, mem', free', own', data')
  {
    forall f | f in data'.Values ensures f in data.Values || f in given || f in free {
      var v :| v in data' && data'[v] == f;
    }
  }

  /** Every frame of a page keeps its contents. */
  ghost predicate KeptIn(mem: map<nat, Page>, mem': map<nat, Page>, data: map<nat, nat>) {
    forall v :: v in data ==> data[v] in mem && data[v] in mem' && mem'[data[v]] == mem[data[v]]
  }

  /** No mapped frame is free. */
  ghost predicate NoneFree(data: map<nat, nat>, free: seq<nat>) { forall v :: v in data ==> data[v] !in free }

  /** Writes to tables and to pages that are or were free leave the frames of pages alone. */
  lemma KeptByOthers(a: Arch, mem: map<nat, Page>, free: seq<nat>, own: Tree, data: map<nat, nat>,
                     mem': map<nat, Page>, free': seq<nat>, own': Tree)
    requires Owns(a, mem, own, data) && NoneFree(data, free) && mem'.Keys == mem.Keys
    requires forall f :: f in own'.Values || f in free' ==> f in own.Values || f in free
    requires forall f :: f in mem && f !in own'.Values && f !in free' && f !in free ==> mem'[f] == mem[f]
    ensures KeptIn(mem, mem', data)
  {
    forall v | v in data ensures data[v] in mem && mem'[data[v]] == mem[data[v]] {
      assert OwnsPage(a, mem, own, data, v) && data[v] in data.Values;
    }
  }

  lemma KeptTwice(m0: map<nat, Page>, m1: map<nat, Page>, m2: map<nat, Page>, data: map<nat, nat>)
    requires KeptIn(m0, m1, data) && KeptIn(m1, m2, data)
    ensures KeptIn(m0, m2, data)
  {
    forall v | v in data ensures data[v] in m0 && data[v] in m2 && m2[data[v]] == m0[data[v]] {
      assert data[v] in m1;
    }
  }

  lemma DataStaysFresh(own: Tree, free: seq<nat>, own': Tree, free': seq<nat>, data: map<nat, nat>)
    requires Took(own, free, own', free') && data.Values !! own.Values && forall v :: v in data ==> data[v] !in free
    ensures forall v :: v in data ==> data[v] !in own'.Values && data[v] !in free'
  {
    forall v | v in data ensures data[v] !in own'.Values && data[v] !in free' {
      assert data[v] in data.Values;
      StaysFresh(own, free, own', free', data[v]);
    }
  }

  /** What mapping a frame does to the ownership of frames. */
  lemma MapFacts(a: Arch, mem: map<nat, Page>, free: seq<nat>, own: Tree, data: map<nat, nat>, mem': map<nat, Page>,
                 free': seq<nat>, own': Tree, data': map<nat, nat>, ok: bool, v: nat, w: Word, phys: nat)
    requires Owns(a, mem, own, data) && NoneFree(data, free) && phys in mem && phys !in free && phys !in own.Values
    requires phys !in data.Values || (v in data && data[v] == phys)
    requires Took(own, free, own', free') && OnlyWrites(mem, mem', own', free') && GetPhys(a, w) == phys
    requires forall u: nat :: Leaf(mem', own', u) == if ok && u == v then Some(w) else Leaf(mem, own, u)
    requires data' == if ok then data[v := phys] else data
    ensures Owns(a, mem', own', data') && NoneFree(data', free')
  {
    StaysFresh(own, free, own', free', phys);
    DataStaysFresh(own, free, own', free', data);
    if ok {
      OwnsMapped(a, mem, own, data, mem', own', v, w, phys);
    } else {
      OwnsKept(a, mem, own, data, mem', own');
    }
  }

  lemma DataNotTouched(own: Tree, free: seq<nat>, own': Tree, free': seq<nat>, data: map<nat, nat>)
    requires forall f :: f in own'.Values || f in free' ==> f in own.Values || f in free
    requires data.Values !! own.Values && forall v :: v in data ==> data[v] !in free
    ensures forall v :: v in data ==> data[v] !in own'.Values && data[v] !in free'
    ensures forall f :: f in data.Values ==> f !in free
  {
    forall v | v in data ensures data[v] !in own'.Values && data[v] !in free' {
      assert data[v] in data.Values;
    }
  }

  /** What a page fault does to the ownership of frames; the frame a page had before is nobody's afterwards. */
  lemma FaultFacts(a: Arch, mem: map<nat, Page>, free: seq<nat>, own: Tree, data: map<nat, nat>, mem': map<nat, Page>,
                   free': seq<nat>, own': Tree, data': map<nat, nat>, handled: bool, v: nat, frame: Word)
    requires Owns(a, mem, own, data) && NoneFree(data, free) && mem'.Keys == mem.Keys
    requires forall f :: f in own'.Values || f in free' ==> f in own.Values || f in free
    requires handled ==> frame in free && frame in mem' && frame !in own'.Values && frame !in free'
    requires handled ==> frame % 4096 == 0 && frame < PhysLimit(a)
    requires forall u: nat :: Leaf(mem', own', u) ==
               if handled && u == v then Some(Make(a, frame, TABLE_FLAGS, false)) else Leaf(mem, own, u)
    requires data' == if handled then data[v := frame] else data
    ensures Owns(a, mem', own', data') && NoneFree(data', free')
    ensures handled && v in data ==>
              data[v] in mem' && data[v] !in free' && data[v] !in own'.Values && data[v] !in data'.Values
  {
    DataNotTouched(own, free, own', free', data);
    if handled {
      EntryBack(a, frame, TABLE_FLAGS, false);
      OwnsMapped(a, mem, own, data, mem', own', v, Make(a, frame, TABLE_FLAGS, false), frame);
      if v in data { assert OwnsPage(a, mem, own, data, v) && data[v] in data.Values; }
    } else {
      OwnsKept(a, mem, own, data, mem', own');
    }
  }

  /** All frames that are free, tables of a context, or mapped by it. */
  ghost function StockOf(free: seq<nat>, own: Tree, data: map<nat, nat>): set<nat> {
    Elements(free) + own.Values + data.Values
  }

  lemma StockMapped(free: seq<nat>, own: Tree, data: map<nat, nat>, free': seq<nat>, own': Tree, v: nat, f: nat)
    requires Took(own, free, own', free') && (v in data ==> data[v] == f)
    ensures StockOf(free', own', data) == StockOf(free, own, data)
    ensures StockOf(free', own', data[v := f]) == StockOf(free, own, data) + {f}
  {
    var n := |free| - |free'|;
    assert free == free[..n] + free';
    assert Elements(free) == Elements(free[..n]) + Elements(free');
    var data' := data[v := f];
    assert data'[v] == f;
    forall x ensures x in data'.Values <==> x in data.Values + {f} {
      if x in data.Values {
        var u :| u in data && data[u] == x;
        assert data'[u] == x;
      }
    }
  }

  /** Mapping another frame over a page's own frame loses that one. */
  lemma StockReplaced(free: seq<nat>, own: Tree, data: map<nat, nat>, free': seq<nat>, own': Tree, v: nat, f: nat)
    requires Took(own, free, own', free') && v in data && data[v] !in free && data[v] !in own.Values && data[v] != f
    requires forall u :: u in data && data[u] == data[v] ==> u == v
    ensures StockOf(free', own', data[v := f]) == StockOf(free, own, data) + {f} - {data[v]}
  {
    var less := data - {v};
    assert data[v := f] == less[v := f];
    StockMapped(free, own, less, free', own', v, f);
    forall x ensures x in less.Values <==> x in data.Values && x != data[v] {
      if x in data.Values && x != data[v] {
        var u :| u in data && data[u] == x;
        assert less[u] == x;
      }
    }
  }

  /** The frame that page `v` loses when `f` is mapped there. */
  ghost function Dropped(data: map<nat, nat>, v: nat, f: nat): set<nat> {
    if v in data && data[v] != f then {data[v]} else {}
  }

  lemma StockAfterMap(a: Arch, mem: map<nat, Page>, free: seq<nat>, own: Tree, data: map<nat, nat>, free': seq<nat>,
                      own': Tree, data': map<nat, nat>, ok: bool, v: nat, f: nat)
    requires Owns(a, mem, own, data) && NoneFree(data, free) && Took(own, free, own', free')
    requires data' == if ok then data[v := f] else data
    ensures StockOf(free', own', data') ==
            if ok then StockOf(free, own, data) + {f} - Dropped(data, v, f) else StockOf(free, own, data)
  {
    if ok && v in data && data[v] != f {
      assert data[v] in data.Values;
      StockReplaced(free, own, data, free', own', v, f);
    } else {
      StockMapped(free, own, data, free', own', v, if v in data then data[v] else f);
    }
  }

  lemma StockTaken(free: seq<nat>, own: Tree, data: map<nat, nat>, f: nat, free': seq<nat>)
    requires free == [f] + free' && Distinct(free) && f !in own.Values && f !in data.Values
    ensures StockOf(free', own, data) == StockOf(free, own, data) - {f}
  {
    assert forall k :: 0 <= k < |free'| ==> free'[k] == free[k + 1];
    assert free[0] == f && f !in free';
    assert Elements(free) == {f} + Elements(free');
  }

  /** Memory that is no table of a context does not matter to it. */
  lemma KeptElsewhere(a: Arch, mem: map<nat, Page>, own: Tree, root: nat, data: map<nat, nat>, mem': map<nat, Page>)
    requires Tables(a, mem, own, root) && Owns(a, mem, own, data) && mem'.Keys == mem.Keys
    requires forall f :: f in own.Values && f in mem ==> mem'[f] == mem[f]
    ensures Tables(a, mem', own, root) && Owns(a, mem', own, data)
    ensures ViewUpdated(a, root, mem, mem', false, 0, None)
  {
    forall n | n in own ensures own[n] in mem' && own[n] in mem && mem'[own[n]] == mem[own[n]] {
      assert NodeOk(a, mem, own, n) && own[n] in own.Values;
    }
    TablesFrame(a, mem, mem', own, root);
    OwnsKept(a, mem, own, data, mem', own);
    WalkFromLeaves(a, root, mem, own, mem', own, false, 0, None);
    ViewFromWalk(a, root, mem, mem', false, 0, None, None);
  }

  /** An address space together with the frames its pages are mapped to. */
  class OwnedSpace {
    const ctx: AddressSpace
    /** The frame of every mapped page. */
    ghost var data: map<nat, nat>

    ghost predicate Valid()
      reads this, ctx, ctx.ram
    {
      && ctx.Valid()
      && Owns(ctx.arch, ctx.ram.mem, ctx.own, data)
      && NoneFree(data, ctx.ram.free)
    }

    /** A frame that is nobody's: not free, not a table, not mapped here. */
    ghost predicate Loose(f: nat)
      reads this, ctx, ctx.ram
    {
      f in ctx.ram.mem && f !in ctx.ram.free && f !in ctx.own.Values && f !in data.Values
    }

    ghost function Stock(): set<nat>
      reads this, ctx, ctx.ram
    {
      StockOf(ctx.ram.free, ctx.own, data)
    }

    /** Page `v` is mapped to frame `f`. */
    ghost predicate HasFrame(v: nat, f: nat)
      reads this
    {
      v in data && data[v] == f
    }

    constructor (ctx: AddressSpace)
      requires ctx.Valid() && forall v :: 0 <= v < LOWER_PAGES ==> ctx.Translation(v) == None
      ensures Valid() && this.ctx == ctx && data == map[]
    {
      this.ctx, data := ctx, map[];
      new;
      forall v: nat ensures Leaf(ctx.ram.mem, ctx.own, v) == None { ctx.LeafIsTranslation(v); }
    }

    /** A frame that may be mapped at page `v` is neither free nor a table; a page that has a frame is translated. */
    lemma Accessible(phys: nat, v: nat)
      requires Valid() && v < LOWER_PAGES && (Loose(phys) || HasFrame(v, phys))
      ensures phys in ctx.ram.mem && phys !in ctx.ram.free && phys !in ctx.own.Values
      ensures phys !in data.Values || HasFrame(v, phys)
      ensures v in data ==> ctx.Translation(v).Some?
    {
      ctx.TranslationIsLeaf(v);
      assert OwnsPage(ctx.arch, ctx.ram.mem, ctx.own, data, v);
      if HasFrame(v, phys) { assert data[v] in data.Values; }
    }

    /** Maps a frame of the caller's, which becomes the page's frame, or maps a page's own frame again. */
    method Map(virt: nat, phys: Word, flags: Flags) returns (ok: bool)
      requires Valid() && virt < ADDR_SPLIT
      requires Loose(phys) || HasFrame(virt / 4096, phys)
      modifies ctx.ram`mem, ctx.ram`head, ctx.ram`free, ctx`own, this`data
      ensures data == if ok then old(data)[virt / 4096 := phys] else old(data)
      ensures !ok ==> ctx.ram.free == []
      ensures virt / 4096 in old(data) ==> ok
      ensures Took(old(ctx.own), old(ctx.ram.free), ctx.own, ctx.ram.free)
      ensures OnlyWrites(old(ctx.ram.mem), ctx.ram.mem, ctx.own, ctx.ram.free)
      ensures ViewUpdated(ctx.arch, ctx.root, old(ctx.ram.mem), ctx.ram.mem, ok, virt / 4096,
                          Some(Mapping(phys, flags.(present := true))))
      ensures KeptIn(old(ctx.ram.mem), ctx.ram.mem, old(data))
      ensures Valid()
    {
      ghost var own0, free0, mem0, data0 := ctx.own, ctx.ram.free, ctx.ram.mem, data;
      ghost var v, w := virt / 4096, Make(ctx.arch, phys, flags.(present := true), false);
      Accessible(phys, v);
      ok := ctx.MapPage(virt, phys, flags);
      EntryBack(ctx.arch, phys, flags.(present := true), false);
      data := if ok then data[v := phys] else data;
      MapFacts(ctx.arch, mem0, free0, own0, data0, ctx.ram.mem, ctx.ram.free, ctx.own, data, ok, v, w, phys);
      KeptByOthers(ctx.arch, mem0, free0, own0, data0, ctx.ram.mem, ctx.ram.free, ctx.own);
    }

    /** Tables and mapped frames are frames of memory that are not free. */
    lemma Accounted(f: nat)
      requires Valid() && (f in ctx.own.Values || f in data.Values)
      ensures IsFrame(f, ctx.ram.hhdm) && f in ctx.ram.mem && f !in ctx.ram.free
    {
      if f in ctx.own.Values {
        var n :| n in ctx.own && ctx.own[n] == f;
        assert NodeOk(ctx.arch, ctx.ram.mem, ctx.own, n);
      } else {
        var v :| v in data && data[v] == f;
        assert OwnsPage(ctx.arch, ctx.ram.mem, ctx.own, data, v);
      }
    }

    lemma FramesNotFree()
      requires Valid()
      ensures forall f :: f in data.Values ==> f in ctx.ram.mem && f !in ctx.ram.free
    {
      forall f | f in data.Values ensures f in ctx.ram.mem && f !in ctx.ram.free { Accounted(f); }
    }

    /** Mapping a frame does not touch its contents. */
    lemma KeptByMap(mem: map<nat, Page>, v: nat, f: nat)
      requires Valid() && HasFrame(v, f) && OnlyWrites(mem, ctx.ram.mem, ctx.own, ctx.ram.free)
      ensures f in ctx.ram.mem && f in mem && ctx.ram.mem[f] == mem[f]
    {
      assert data[v] in data.Values;
      FramesNotFree();
    }

    /** Unmaps a page: its frame, if any, is the caller's again. */
    method Unmap(virt: nat) returns (ok: bool)
      requires Valid() && virt < ADDR_SPLIT
      modifies ctx.ram`mem, this`data
      ensures Valid()
      ensures ok == (virt / 4096 in old(data)) && data == old(data) - {virt / 4096}
      ensures ok ==> Loose(old(data)[virt / 4096])
      ensures ViewUpdated(ctx.arch, ctx.root, old(ctx.ram.mem), ctx.ram.mem, true, virt / 4096, None)
      ensures KeptIn(old(ctx.ram.mem), ctx.ram.mem, old(data))
      ensures Spares(old(ctx.ram.mem), old(ctx.ram.free), old(ctx.own), old(data), {},
                     ctx.ram.mem, ctx.ram.free, ctx.own, data)
    {
      ghost var mem0, data0 := ctx.ram.mem, data;
      ctx.TranslationIsLeaf(virt / 4096);
      assert OwnsPage(ctx.arch, ctx.ram.mem, ctx.own, data, virt / 4096);
      ok := ctx.UnmapPage(virt);
      OwnsUnmapped(ctx.arch, mem0, ctx.own, data, ctx.ram.mem, virt / 4096);
      KeptByOthers(ctx.arch, mem0, ctx.ram.free, ctx.own, data, ctx.ram.mem, ctx.ram.free, ctx.own);
      data := data - {virt / 4096};
      SparedBy(mem0, ctx.ram.free, ctx.own, data0, {}, ctx.ram.mem, ctx.ram.free, ctx.own, data);
    }

    /** Demand paging: the zeroed page taken from the free list becomes the page's frame. */
    method Fault(addr: nat, faultOnPresent: bool) returns (handled: bool)
      requires Valid() && ctx.demandHi <= ADDR_SPLIT
      modifies ctx.ram`mem, ctx.ram`head, ctx.ram`free, ctx`own, this`data
      ensures Valid()
      ensures !handled ==> data == old(data)
      ensures !handled && ctx.demandLo <= addr < ctx.demandHi && !faultOnPresent ==> |ctx.ram.free| <= 1
      ensures handled ==> ctx.demandLo <= addr < ctx.demandHi && !faultOnPresent
      ensures handled ==> old(ctx.ram.free) != [] && data == old(data)[addr / 4096 := old(ctx.ram.free)[0]]
      ensures handled ==> ViewUpdated(ctx.arch, ctx.root, old(ctx.ram.mem), ctx.ram.mem, true, addr / 4096,
                                      Some(Mapping(old(ctx.ram.free)[0], TABLE_FLAGS)))
      ensures KeptIn(old(ctx.ram.mem), ctx.ram.mem, old(data))
      ensures handled && addr / 4096 in old(data) ==> Loose(old(data)[addr / 4096])
      ensures Spares(old(ctx.ram.mem), old(ctx.ram.free), old(ctx.own), old(data), {},
                     ctx.ram.mem, ctx.ram.free, ctx.own, data)
    {
      ghost var own0, free0, mem0, data0 := ctx.own, ctx.ram.free, ctx.ram.mem, data;
      ghost var frame;
      handled, frame := ctx.DemandFault(addr, faultOnPresent);
      ghost var v := addr / 4096;
      data := if handled then data[v := frame] else data;
      FaultFacts(ctx.arch, mem0, free0, own0, data0, ctx.ram.mem, ctx.ram.free, ctx.own, data, handled, v, frame);
      KeptByOthers(ctx.arch, mem0, free0, own0, data0, ctx.ram.mem, ctx.ram.free, ctx.own);
      SparedBy(mem0, free0, own0, data0, {}, ctx.ram.mem, ctx.ram.free, ctx.own, data);
    }

    lemma TablesNotFree()
      requires Valid()
      ensures forall f :: f in ctx.own.Values ==> f in ctx.ram.mem && f !in ctx.ram.free
    {
      forall f | f in ctx.own.Values ensures f in ctx.ram.mem && f !in ctx.ram.free { Accounted(f); }
    }

    /** pmm_alloc of one frame, with anything in it, or 0. */
    method TakeFrame() returns (phys: nat)
      requires Valid()
      modifies ctx.ram`mem, ctx.ram`head, ctx.ram`free
      ensures phys == 0 <==> old(ctx.ram.free) == []
      ensures old(ctx.ram.free) == if phys == 0 then ctx.ram.free else [phys] + ctx.ram.free
      ensures OnlyWrites(old(ctx.ram.mem), ctx.ram.mem, ctx.own, ctx.ram.free)
      ensures ViewUpdated(ctx.arch, ctx.root, old(ctx.ram.mem), ctx.ram.mem, false, 0, None)
      ensures KeptIn(old(ctx.ram.mem), ctx.ram.mem, data)
      ensures Valid() && (phys != 0 ==> Loose(phys))
    {
      ghost var mem0, free0 := ctx.ram.mem, ctx.ram.free;
      TablesNotFree();
      FramesNotFree();
      phys := ctx.ram.AllocOne();
      KeptByOthers(ctx.arch, mem0, free0, ctx.own, data, ctx.ram.mem, ctx.ram.free, ctx.own);
      KeptElsewhere(ctx.arch, mem0, ctx.own, ctx.root, data, ctx.ram.mem);
    }

    /** memset or memcpy into a frame that is neither free nor a table. */
    method WriteFrame(f: nat, p: Page)
      requires Valid() && f in ctx.ram.mem && f !in ctx.ram.free && f !in ctx.own.Values
      modifies ctx.ram`mem
      ensures ctx.ram.mem == old(ctx.ram.mem)[f := p]
      ensures ViewUpdated(ctx.arch, ctx.root, old(ctx.ram.mem), ctx.ram.mem, false, 0, None)
      ensures Valid()
    {
      ghost var mem0 := ctx.ram.mem;
      ctx.ram.WritePage(f, p);
      KeptElsewhere(ctx.arch, mem0, ctx.own, ctx.root, data, ctx.ram.mem);
    }

    lemma AllFreeable()
      requires Valid()
      ensures var below := Freed(ctx.arch, ctx.ram.mem, ctx.root, 4, 256);
              && (forall f :: f in [ctx.root] + below <==> f in ctx.own.Values || f in data.Values)
              && ctx.root !in below && ctx.root in ctx.ram.mem && ctx.root !in ctx.ram.free
              && IsFrame(ctx.root, ctx.ram.hhdm)
              && Freeable(ctx.ram, below)
    {
      var below := Freed(ctx.arch, ctx.ram.mem, ctx.root, 4, 256);
      forall f ensures f in [ctx.root] + below <==> f in ctx.own.Values || f in data.Values {
        FreedIsEverything(ctx.arch, ctx.ram.mem, ctx.own, ctx.root, data, f);
      }
      FullFromOwned(ctx.arch, ctx.ram.mem, ctx.own, ctx.root, data);
      FreedOnce(ctx.arch, ctx.ram.mem, WithFrames(ctx.own, data), ctx.root, ROOT, 256);
      forall f | f in [ctx.root] + below ensures IsFrame(f, ctx.ram.hhdm) && f in ctx.ram.mem && f !in ctx.ram.free {
        Accounted(f);
      }
      assert ctx.root in [ctx.root] + below;
      forall f | f in below ensures IsFrame(f, ctx.ram.hhdm) && f in ctx.ram.mem && f !in ctx.ram.free {
        assert f in [ctx.root] + below;
      }
    }

    /**
     vmm_destroy_context: the free list gets the root, every table and every mapped frame, each
     exactly once, and nothing else.  Only frames freed are written, and each table is read only
     while it is not free, as ReadEntry demands.
     */
    method Destroy()
      requires Valid()
      modifies ctx.ram`mem, ctx.ram`head, ctx.ram`free
      ensures ctx.ram.Valid()
      ensures ctx.ram.free == [ctx.root] + Freed(ctx.arch, old(ctx.ram.mem), ctx.root, 4, 256) + old(ctx.ram.free)
      ensures forall f :: f in ctx.ram.free <==> f in old(ctx.ram.free) || f in ctx.own.Values || f in data.Values
      ensures ctx.ram.mem.Keys == old(ctx.ram.mem.Keys)
      ensures forall f :: f in ctx.ram.mem && f !in ctx.ram.free ==> ctx.ram.mem[f] == old(ctx.ram.mem[f])
    {
      ghost var mem0, was := ctx.ram.mem, ctx.ram.free;
      ghost var below := Freed(ctx.arch, mem0, ctx.root, 4, 256);
      AllFreeable();
      FreeEntries(ctx.ram, ctx.arch, ctx.root, 4, 256, mem0);
      PushFrame(ctx.ram, ctx.root, mem0);
      assert [ctx.root] + (below + was) == [ctx.root] + below + was;
    }
  }
}
