/**
 What an executable should look like in memory (gABI chapter 5, Program Loading), page by page, as the
 loader of kernel/src/proc/elf.c builds it: the segments' file bytes laid over zeros, in order.
 */
module ElfImage {
  import opened Base
  import opened Pte
  import opened SparseFile

  /** A program header, as far as it matters; `load` says that it is a PT_LOAD. */
  datatype Segment = Segment(load: bool, flags: nat, offset: nat, vaddr: nat, filesz: nat, memsz: nat)

  function PageDown(a: nat): (r: nat)
    ensures r <= a < r + PAGE_SIZE && r % PAGE_SIZE == 0
  {
    a / PAGE_SIZE * PAGE_SIZE
  }

  function Lo(s: Segment): (r: nat)
    ensures r % PAGE_SIZE == 0 && r <= s.vaddr
  {
    PageDown(s.vaddr)
  }

  function Hi(s: Segment): (r: nat)
    ensures r % PAGE_SIZE == 0 && s.vaddr + s.memsz <= r
  {
    PageDown(s.vaddr + s.memsz + PAGE_SIZE - 1)
  }

  /** Page `p` is one of the segment's. */
  predicate Covers(s: Segment, p: nat) { s.load && Lo(s) <= p < Hi(s) }

  /** Address `a` gets a byte of the file. */
  predicate Backs(s: Segment, a: nat) { s.load && s.vaddr <= a < s.vaddr + s.filesz && Lo(s) <= a < Hi(s) }

  function FileByte(file: seq<Byte>, s: Segment, a: nat): Byte {
    if a >= s.vaddr && s.offset + (a - s.vaddr) < |file| then file[s.offset + (a - s.vaddr)] else 0
  }

  function OverlayByte(under: FilePage, file: seq<Byte>, s: Segment, p: nat, i: nat): Byte
    requires i < PAGE_SIZE
  {
    if Backs(s, p + i) then FileByte(file, s, p + i) else under[i]
  }

  /** A page with the segment's file bytes laid over it. */
  function Overlay(under: FilePage, file: seq<Byte>, s: Segment, p: nat): (r: FilePage)
    ensures forall i :: 0 <= i < PAGE_SIZE ==> r[i] == if Backs(s, p + i) then FileByte(file, s, p + i) else under[i]
  {
    seq<Byte>(PAGE_SIZE, i requires 0 <= i < PAGE_SIZE => OverlayByte(under, file, s, p, i))
  }

  /** Page `p` after the first `k` segments. */
  function PageImage(file: seq<Byte>, segs: seq<Segment>, k: nat, p: nat): FilePage
    requires k <= |segs|
    decreases k
  {
    if k == 0 then Zeros(PAGE_SIZE) else Overlay(PageImage(file, segs, k - 1, p), file, segs[k - 1], p)
  }

  predicate CoveredBy(segs: seq<Segment>, k: nat, p: nat)
    requires k <= |segs|
    decreases k
  {
    k > 0 && (Covers(segs[k - 1], p) || CoveredBy(segs, k - 1, p))
  }

  /** The page flags for a segment: always readable by the user, writable and executable as it says. */
  function Protection(s: Segment): Flags {
    Flags(true, s.flags / 2 % 2 == 1, true, false, s.flags % 2 == 0)
  }

  /** The flags of the last segment that covers a page. */
  function LastFlags(segs: seq<Segment>, k: nat, p: nat, default: Flags): Flags
    requires k <= |segs|
    decreases k
  {
    if k == 0 then default
    else if Covers(segs[k - 1], p) then Protection(segs[k - 1])
    else LastFlags(segs, k - 1, p, default)
  }

  /** Bytes of a page are in a segment's pages exactly when the page is. */
  lemma SamePage(s: Segment, p: nat, i: nat)
    requires p % PAGE_SIZE == 0 && i < PAGE_SIZE
    ensures Lo(s) <= p + i < Hi(s) <==> Lo(s) <= p < Hi(s)
  {
    var l, h, q := Lo(s) / PAGE_SIZE, Hi(s) / PAGE_SIZE, p / PAGE_SIZE;
    assert Lo(s) == l * PAGE_SIZE && Hi(s) == h * PAGE_SIZE && p == q * PAGE_SIZE;
  }

  /** A segment leaves the pages it does not cover alone. */
  lemma OverlayElsewhere(under: FilePage, file: seq<Byte>, s: Segment, p: nat)
    requires p % PAGE_SIZE == 0 && !Covers(s, p)
    ensures Overlay(under, file, s, p) == under
  {
    forall i | 0 <= i < PAGE_SIZE ensures Overlay(under, file, s, p)[i] == under[i] { SamePage(s, p, i); }
  }

  /** A page no segment covers yet is still zero. */
  lemma {:induction false} UncoveredIsZero(file: seq<Byte>, segs: seq<Segment>, k: nat, p: nat)
    requires k <= |segs| && p % PAGE_SIZE == 0 && !CoveredBy(segs, k, p)
    ensures PageImage(file, segs, k, p) == Zeros(PAGE_SIZE)
    decreases k
  {
    if k > 0 {
      UncoveredIsZero(file, segs, k - 1, p);
      OverlayElsewhere(PageImage(file, segs, k - 1, p), file, segs[k - 1], p);
    }
  }

  // ---------------------------------------------------------------------------------------------
  // The image byte by byte

  /** The byte at an address: the file's, by the last segment that brings one, or zero. */
  function ImageByte(file: seq<Byte>, segs: seq<Segment>, k: nat, a: nat): Byte
    requires k <= |segs|
    decreases k
  {
    if k == 0 then 0
    else if Backs(segs[k - 1], a) then FileByte(file, segs[k - 1], a)
    else ImageByte(file, segs, k - 1, a)
  }

  lemma {:induction false} PageImageByte(file: seq<Byte>, segs: seq<Segment>, k: nat, p: nat, i: nat)
    requires k <= |segs| && i < PAGE_SIZE
    ensures PageImage(file, segs, k, p)[i] == ImageByte(file, segs, k, p + i)
    decreases k
  {
    if k > 0 { PageImageByte(file, segs, k - 1, p, i); }
  }

  ghost predicate Apart(s: Segment, t: Segment) { s.vaddr + s.memsz <= t.vaddr || t.vaddr + t.memsz <= s.vaddr }

  /** The memory ranges of the segments to load have no byte in common, and hold what comes from the file. */
  ghost predicate Separate(segs: seq<Segment>) {
    && (forall i :: 0 <= i < |segs| && segs[i].load ==> segs[i].filesz <= segs[i].memsz)
    && (forall i, j :: 0 <= i < |segs| && 0 <= j < |segs| && i != j && segs[i].load && segs[j].load ==>
        Apart(segs[i], segs[j]))
  }

  /** In a segment's range every byte is its own: the file's up to the file size, zero beyond. */
  lemma {:induction false} OwnByte(file: seq<Byte>, segs: seq<Segment>, k: nat, j: nat, a: nat)
    requires Separate(segs) && j < |segs| && k <= |segs| && segs[j].load
    requires segs[j].vaddr <= a < segs[j].vaddr + segs[j].memsz
    ensures ImageByte(file, segs, k, a) ==
            if j < k && a < segs[j].vaddr + segs[j].filesz then FileByte(file, segs[j], a) else 0
    decreases k
  {
    if k > 0 {
      OwnByte(file, segs, k - 1, j, a);
      if k - 1 != j && segs[k - 1].load { assert Apart(segs[k - 1], segs[j]); }
    }
  }
}
