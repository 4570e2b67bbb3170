/**
 The physical page allocator (kernel/src/mm/pmm.c).  The free list has no storage of its own:
 each free page holds, in its first word, the kernel address of the next one.
 */
module Pmm {
  import opened Base

  /** The 512 words of a page. */
  type Page = p: seq<Word> | |p| == 512 witness seq(512, _ => 0)

  const ZERO_PAGE: Page := seq(512, _ => 0)

  // ---------------------------------------------------------------------------------------------
  // The list as a value

  /** The frame at position `k` is the page just under the one before it. */
  ghost predicate Below(free: seq<nat>, k: nat)
    requires 0 < k < |free|
  {
    free[k] == free[k - 1] - PAGE_SIZE
  }

  /** `n` frames of the list, from position `i` on, are neighbours in memory, highest first. */
  ghost predicate RunAt(free: seq<nat>, i: nat, n: nat) {
    i + n <= |free| && forall k :: i < k < i + n ==> Below(free, k)
  }

  /** How many frames pmm_alloc looks for: `count - 1` links in 64-bit arithmetic, and one more. */
  function Wanted(count: nat): nat { if count == 0 then TWO_64 else count }

  /** The frames `phys`, `phys + PAGE_SIZE`, ... as freeing them leaves them in the list, highest first. */
  function FreedRun(phys: nat, n: nat): (r: seq<nat>)
    ensures |r| == n
    ensures forall k :: 0 <= k < n ==> r[k] == phys + (n - 1 - k) * PAGE_SIZE
  {
    seq(n, k requires 0 <= k < n => phys + (n - 1 - k) * PAGE_SIZE)
  }

  lemma FreedRunDescends(phys: nat, n: nat, k: nat)
    requires k < n
    ensures FreedRun(phys, n)[k] !in FreedRun(phys, n)[k + 1..]
  {
  }

  /** What was just freed is a run, at the front of the list, and starts at its lowest frame. */
  lemma FreedRunIsRun(phys: nat, n: nat, rest: seq<nat>)
    requires n > 0
    ensures RunAt(FreedRun(phys, n) + rest, 0, n)
    ensures (FreedRun(phys, n) + rest)[..n] == FreedRun(phys, n) && FreedRun(phys, n)[n - 1] == phys
  {
  }

  /** Along a run the frame `k` places down is `k` pages lower. */
  lemma {:induction false} RunDescends(free: seq<nat>, i: nat, n: nat, k: nat)
    requires RunAt(free, i, n) && k < n
    ensures free[i + k] == free[i] - k * PAGE_SIZE
  {
    if k > 0 {
      RunDescends(free, i, n, k - 1);
      assert Below(free, i + k);
    }
  }

  /** A run is what freeing its lowest frame, as many at once, would leave. */
  lemma RunBase(free: seq<nat>, i: nat, n: nat)
    requires RunAt(free, i, n) && n > 0
    ensures free[i + n - 1] == free[i] - (n - 1) * PAGE_SIZE
    ensures FreedRun(free[i + n - 1], n) == free[i..i + n]
  {
    RunDescends(free, i, n, n - 1);
    var run := free[i..i + n];
    forall k | 0 <= k < n ensures run[k] == FreedRun(free[i + n - 1], n)[k] {
      RunDescends(free, i, n, k);
    }
  }

  /** What is taken out of a list without repetitions is not in what is left. */
  lemma RunLeaves(free: seq<nat>, i: nat, n: nat, f: nat)
    requires Distinct(free) && i + n <= |free|
    ensures f in free[i..i + n] ==> f !in free[..i] + free[i + n..]
    ensures f in free[..i] + free[i + n..] ==> f in free
  {
    var left := free[..i] + free[i + n..];
    assert forall k :: 0 <= k < |left| ==> left[k] == free[if k < i then k else k + n];
  }

  lemma RunExtends(free: seq<nat>, i: nat, n: nat)
    requires n > 0
    ensures RunAt(free, i, n + 1) <==>
            RunAt(free, i, n) && i + n < |free| && Below(free, i + n)
  {
  }

  lemma RunPrefix(free: seq<nat>, i: nat, m: nat, n: nat)
    requires m <= n
    ensures RunAt(free, i, n) ==> RunAt(free, i, m)
  {
  }

  // ---------------------------------------------------------------------------------------------
  // The list threaded through memory

  /** The kernel address of position `i` of the list, null at its end. */
  ghost function LinkTo(free: seq<nat>, hhdm: nat, i: nat): nat {
    if i < |free| then free[i] + hhdm else 0
  }

  /** A frame: page aligned, not null, its kernel address a 64-bit number. */
  predicate IsFrame(f: nat, hhdm: nat) { f % PAGE_SIZE == 0 && 0 < f && f + hhdm < TWO_64 }

  ghost predicate NodeAt(mem: map<nat, Page>, free: seq<nat>, hhdm: nat, i: nat)
    requires i < |free|
  {
    IsFrame(free[i], hhdm) && free[i] in mem && mem[free[i]][0] == LinkTo(free, hhdm, i + 1)
  }

  /** Every free page links to the next. */
  ghost predicate Linked(mem: map<nat, Page>, free: seq<nat>, hhdm: nat) {
    forall i :: 0 <= i < |free| ==> NodeAt(mem, free, hhdm, i)
  }

  /** Pages outside the list do not matter to it. */
  lemma LinkedFrame(mem: map<nat, Page>, mem': map<nat, Page>, free: seq<nat>, hhdm: nat)
    requires Linked(mem, free, hhdm)
    requires forall f :: f in free && f in mem ==> f in mem' && mem'[f] == mem[f]
    ensures Linked(mem', free, hhdm)
  {
    forall i | 0 <= i < |free| ensures NodeAt(mem', free, hhdm, i) {
      assert NodeAt(mem, free, hhdm, i) && free[i] in free;
    }
  }

  /** Taking out the head, or redirecting the link before, leaves the rest linked. */
  lemma UnlinkKeeps(mem: map<nat, Page>, free: seq<nat>, hhdm: nat, i: nat, n: nat, end: Word, mem': map<nat, Page>)
    requires Linked(mem, free, hhdm) && Distinct(free) && 0 < n && i + n <= |free|
    requires end == LinkTo(free, hhdm, i + n)
    requires i == 0 ==> mem' == mem
    requires i > 0 ==> free[i - 1] in mem && mem' == mem[free[i - 1] := mem[free[i - 1]][0 := end]]
    ensures Linked(mem', free[..i] + free[i + n..], hhdm) && Distinct(free[..i] + free[i + n..])
  {
    var free' := free[..i] + free[i + n..];
    forall k | 0 <= k < |free'| ensures NodeAt(mem', free', hhdm, k) {
      var j := if k < i then k else k + n;
      assert NodeAt(mem, free, hhdm, j) && free'[k] == free[j];
      assert k != i - 1 ==> LinkTo(free', hhdm, k + 1) == LinkTo(free, hhdm, j + 1);
      assert k == i - 1 ==> LinkTo(free', hhdm, k + 1) == end;
    }
    forall k, l | 0 <= k < l < |free'| ensures free'[k] != free'[l] {
      assert free'[k] == free[if k < i then k else k + n] && free'[l] == free[if l < i then l else l + n];
    }
  }

  /** Linking a page in front of the list. */
  lemma PushKeeps(mem: map<nat, Page>, free: seq<nat>, hhdm: nat, f: nat, head: Word)
    requires Linked(mem, free, hhdm) && Distinct(free) && head == LinkTo(free, hhdm, 0)
    requires IsFrame(f, hhdm) && f in mem && f !in free
    ensures Linked(mem[f := mem[f][0 := head]], [f] + free, hhdm) && Distinct([f] + free)
  {
    var mem', free' := mem[f := mem[f][0 := head]], [f] + free;
    forall k | 0 <= k < |free'| ensures NodeAt(mem', free', hhdm, k) {
      if k > 0 {
        assert NodeAt(mem, free, hhdm, k - 1);
        assert LinkTo(free', hhdm, k + 1) == LinkTo(free, hhdm, k);
      }
    }
  }

  /** Physical memory, the direct map that makes it addressable, and the head of the free list. */
  class Memory {
    var mem: map<nat, Page>   // by physical address
    var head: nat             // kernel address of the first free page, 0 for none
    const hhdm: nat           // where physical memory is mapped
    /** The free frames in list order. */
    ghost var free: seq<nat>

    ghost predicate Valid()
      reads this
    {
      hhdm > 0 && Distinct(free) && head == LinkTo(free, hhdm, 0) && Linked(mem, free, hhdm)
    }

    constructor (hhdm: nat, mem: map<nat, Page>)
      requires hhdm > 0
      ensures Valid() && free == [] && this.mem == mem && this.hhdm == hhdm
    {
      this.hhdm, this.mem := hhdm, mem;
      head, free := 0, [];
    }

    /** Writes one word of a page that is not free. */
    method WriteWord(f: nat, i: nat, w: Word)
      requires Valid() && f in mem && f !in free && i < 512
      modifies this`mem
      ensures Valid() && mem == old(mem)[f := old(mem)[f][i := w]]
    {
      LinkedFrame(mem, mem[f := mem[f][i := w]], free, hhdm);
      mem := mem[f := mem[f][i := w]];
    }

    /** Writes a whole page that is not free. */
    method WritePage(f: nat, p: Page)
      requires Valid() && f in mem && f !in free
      modifies this`mem
      ensures Valid() && mem == old(mem)[f := p]
    {
      LinkedFrame(mem, mem[f := p], free, hhdm);
      mem := mem[f := p];
    }

    /** memset of a whole page that is not free. */
    method ZeroPage(f: nat)
      requires Valid() && f in mem && f !in free
      modifies this`mem
      ensures Valid() && mem == old(mem)[f := ZERO_PAGE]
    {
      WritePage(f, ZERO_PAGE);
    }

    /** Reads the `next` field of the page at kernel address `node`. */
    function Next(node: nat): Word
      requires node >= hhdm && node - hhdm in mem
      reads this
    {
      mem[node - hhdm][0]
    }

    method SetNext(node: nat, next: Word)
      requires node >= hhdm && node - hhdm in mem
      modifies this`mem
      ensures mem == old(mem)[node - hhdm := old(mem)[node - hhdm][0 := next]]
    {
      mem := mem[node - hhdm := mem[node - hhdm][0 := next]];
    }

    /** The inner search: are `links + 1` neighbours listed from `start` on? */
    method Contiguous(start: nat, links: nat, ghost i: nat) returns (ok: bool)
      requires Valid() && i < |free| && start == free[i] + hhdm
      ensures ok <==> RunAt(free, i, links + 1)
    {
      var curr := start;
      ok := true;
      var actual := 0;
      while actual < links
        invariant 0 <= actual <= links
        invariant RunAt(free, i, actual + 1) && curr == free[i + actual] + hhdm
        invariant ok
      {
        ghost var at := i + actual;
        assert NodeAt(mem, free, hhdm, at);
        assert at + 1 < |free| ==> NodeAt(mem, free, hhdm, at + 1);
        RunExtends(free, i, actual + 1);
        ok := curr - PAGE_SIZE == Next(curr);
        if !ok {
          RunPrefix(free, i, actual + 2, links + 1);
          return;
        }
        curr := Next(curr);
        actual := actual + 1;
      }
    }

    /** The outer search: the first node from which `links + 1` neighbours are listed, and the node before it. */
    method FindRun(links: nat, ghost n: nat) returns (prev: nat, start: nat, ghost i: nat)
      requires Valid() && n == links + 1
      ensures start == 0 ==> forall j :: 0 <= j < |free| ==> !RunAt(free, j, n)
      ensures start != 0 ==> i < |free| && start == free[i] + hhdm && RunAt(free, i, n)
      ensures start != 0 ==> prev == if i == 0 then 0 else free[i - 1] + hhdm
      ensures start != 0 ==> forall j :: 0 <= j < i ==> !RunAt(free, j, n)
    {
      prev, start, i := 0, head, 0;
      assert free != [] ==> NodeAt(mem, free, hhdm, 0);
      while start != 0
        invariant 0 <= i <= |free| && start == LinkTo(free, hhdm, i) && (start == 0 ==> i == |free|)
        invariant prev == if i == 0 then 0 else free[i - 1] + hhdm
        invariant forall j :: 0 <= j < i ==> !RunAt(free, j, n)
        decreases |free| - i
      {
        var contiguous := Contiguous(start, links, i);
        if contiguous { return; }
        prev := start;
        assert NodeAt(mem, free, hhdm, i);
        start := Next(start);
        i := i + 1;
        assert i < |free| ==> NodeAt(mem, free, hhdm, i);
      }
    }

    /** The node `links + 1` places after `start`. */
    method Skip(start: nat, links: nat, ghost i: nat) returns (end: nat)
      requires Valid() && i + links < |free| && start == free[i] + hhdm
      ensures end == LinkTo(free, hhdm, i + links + 1)
    {
      assert NodeAt(mem, free, hhdm, i);
      end := Next(start);
      var actual := 0;
      while actual < links
        invariant 0 <= actual <= links && end == LinkTo(free, hhdm, i + actual + 1)
      {
        ghost var k := i + actual + 1;
        assert NodeAt(mem, free, hhdm, k);
        end := Next(end);
        actual := actual + 1;
      }
    }

    /** Takes positions `i` to `i + n` out of the list by redirecting the link before them. */
    method Unlink(prev: nat, end: nat, ghost i: nat, ghost n: nat)
      requires Valid() && i + n <= |free| && n > 0
      requires prev == (if i == 0 then 0 else free[i - 1] + hhdm) && end == LinkTo(free, hhdm, i + n)
      modifies this`mem, this`head, this`free
      ensures Valid() && free == old(free)[..i] + old(free)[i + n..]
      ensures mem.Keys == old(mem.Keys)
      ensures forall f :: f in mem && f !in free ==> mem[f] == old(mem[f])
    {
      ghost var was, before := free, mem;
      assert i > 0 ==> NodeAt(mem, free, hhdm, i - 1);
      assert i + n < |free| ==> NodeAt(mem, free, hhdm, i + n);
      if prev == 0 {
        head := end;
      } else {
        SetNext(prev, end);
      }
      UnlinkKeeps(before, was, hhdm, i, n, end, mem);
      free := was[..i] + was[i + n..];
      assert i > 0 ==> free[i - 1] == was[i - 1];
    }

    /**
     First fit: takes out of the list the first `count` neighbours it finds and returns their lowest
     address, or returns 0 and changes nothing when there are none.
     */
    method Alloc(count: nat) returns (phys: nat, ghost at: nat)
      requires Valid() && count < TWO_64
      modifies this`mem, this`head, this`free
      ensures Valid()
      ensures phys == 0 <==> !exists i :: RunAt(old(free), i, Wanted(count))
      ensures phys == 0 ==> mem == old(mem) && free == old(free) && head == old(head)
      ensures count == 0 && |old(free)| < TWO_64 ==> phys == 0
      ensures phys != 0 ==> RunAt(old(free), at, Wanted(count))
      ensures phys != 0 ==> forall i :: 0 <= i < at ==> !RunAt(old(free), i, Wanted(count))
      ensures phys != 0 ==> free == old(free)[..at] + old(free)[at + Wanted(count)..]
      ensures phys != 0 ==> FreedRun(phys, Wanted(count)) == old(free)[at..at + Wanted(count)]
      ensures phys != 0 ==> IsFrame(phys, hhdm)
      // only links of pages that stay free are written
      ensures mem.Keys == old(mem.Keys)
      ensures forall f :: f in mem && f !in free ==> mem[f] == old(mem[f])
    {
      phys, at := 0, 0;
      var links := (count + TWO_64 - 1) % TWO_64;
      ghost var n := Wanted(count);
      assert links + 1 == n;
      var prev, start;
      prev, start, at := FindRun(links, n);
      if start == 0 {
        return;
      }
      var end := Skip(start, links, at);
      RunBase(free, at, n);
      phys := start - hhdm - links * PAGE_SIZE;
      assert phys == free[at + links] != 0 && IsFrame(phys, hhdm) by {
        assert NodeAt(mem, free, hhdm, at + links);
      }
      Unlink(prev, end, at, n);
    }

    /** One page: the head of the list, or 0 when the list is empty. */
    method AllocOne() returns (phys: nat)
      requires Valid()
      modifies this`mem, this`head, this`free
      ensures Valid()
      ensures phys == 0 <==> old(free) == []
      ensures old(free) == if phys == 0 then free else [phys] + free
      ensures mem.Keys == old(mem.Keys)
      ensures forall f :: f in mem && f !in free ==> mem[f] == old(mem[f])
      ensures phys == 0 ==> mem == old(mem)
      ensures phys != 0 ==> IsFrame(phys, hhdm) && phys in mem && phys !in free
    {
      ghost var was, at := free, 0;
      assert was != [] ==> RunAt(was, 0, Wanted(1)) && NodeAt(mem, was, hhdm, 0);
      phys, at := Alloc(1);
      if phys != 0 {
        assert at == 0;
        assert FreedRun(phys, 1) == was[0..1] && FreedRun(phys, 1)[0] == phys;
      }
    }

    method PushOne(f: nat)
      requires Valid() && IsFrame(f, hhdm) && f in mem && f !in free
      modifies this`mem, this`head, this`free
      ensures Valid() && free == [f] + old(free)
      ensures mem.Keys == old(mem.Keys) && forall g :: g in mem && g != f ==> mem[g] == old(mem[g])
    {
      var node := f + hhdm;
      assert free != [] ==> NodeAt(mem, free, hhdm, 0);
      PushKeeps(mem, free, hhdm, f, head);
      SetNext(node, head);
      head := node;
      free := [f] + free;
    }

    method PushNext(f: nat, ghost run: seq<nat>, ghost k: nat, ghost was: seq<nat>)
      requires Valid() && k < |run| && run[k] == f && free == run[k + 1..] + was
      requires IsFrame(f, hhdm) && f in mem && f !in run[k + 1..] && f !in was
      modifies this`mem, this`head, this`free
      ensures Valid() && free == run[k..] + was && f in run
      ensures mem.Keys == old(mem.Keys) && forall g :: g in mem && g != f ==> mem[g] == old(mem[g])
    {
      PushOne(f);
      assert run[k..] == [f] + run[k + 1..];
    }

    /** Puts `count` neighbouring frames in front of the list; freeing address 0 does nothing. */
    method Free(phys: nat, count: nat)
      requires Valid()
      requires phys != 0 ==> forall f :: f in FreedRun(phys, count) ==>
                 IsFrame(f, hhdm) && f in mem && f !in free
      modifies this`mem, this`head, this`free
      ensures Valid()
      ensures free == if phys == 0 then old(free) else FreedRun(phys, count) + old(free)
      ensures mem.Keys == old(mem.Keys)
      // only the first word of the freed pages is written
      ensures forall f :: f in mem && (phys == 0 || f !in FreedRun(phys, count)) ==> mem[f] == old(mem[f])
    {
      if phys == 0 { return; }
      var next := phys;
      var i := 0;
      ghost var was, run := free, FreedRun(phys, count);
      while i < count
        invariant 0 <= i <= count && next == phys + i * PAGE_SIZE
        invariant Valid() && free == run[count - i..] + was
        invariant mem.Keys == old(mem.Keys)
        invariant forall f :: f in mem && f !in run ==> mem[f] == old(mem[f])
      {
        FreedRunDescends(phys, count, count - 1 - i);
        PushNext(next, run, count - 1 - i, was);
        next := next + PAGE_SIZE;
        i := i + 1;
      }
      assert run[0..] == run;
    }

    /** One frame goes in front of the list. */
    method FreeOne(f: nat)
      requires Valid() && f in mem && f !in free && IsFrame(f, hhdm)
      modifies this`mem, this`head, this`free
      ensures Valid() && free == [f] + old(free) && mem.Keys == old(mem.Keys)
      ensures forall g :: g in mem && g != f ==> mem[g] == old(mem[g])
    {
      assert FreedRun(f, 1) == [f];
      Free(f, 1);
    }

    /** Freeing and allocating as much again gives the same block back and the same list. */
    method FreeThenAlloc(phys: nat, count: nat) returns (again: nat)
      requires Valid() && 0 < count < TWO_64 && phys != 0
      requires forall f :: f in FreedRun(phys, count) ==> IsFrame(f, hhdm) && f in mem && f !in free
      modifies this`mem, this`head, this`free
      ensures Valid() && again == phys && free == old(free)
    {
      Free(phys, count);
      ghost var freed := free;
      FreedRunIsRun(phys, count, old(free));
      assert RunAt(freed, 0, Wanted(count));
      ghost var at;
      again, at := Alloc(count);
      assert at == 0;
      assert FreedRun(again, count) == freed[..count];
      assert freed[count..] == old(free);
    }

    method FreePageCount() returns (count: nat)
      requires Valid()
      ensures count == |free|
    {
      count := 0;
      var node := head;
      while node != 0
        invariant 0 <= count <= |free| && node == LinkTo(free, hhdm, count)
        decreases |free| - count
      {
        assert NodeAt(mem, free, hhdm, count);
        assert count + 1 < |free| ==> NodeAt(mem, free, hhdm, count + 1);
        count := count + 1;
        node := Next(node);
      }
    }
  }
}
