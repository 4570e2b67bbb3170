/**
 The program loader (kernel/src/proc/elf.c): headers checked and read from the file, every segment's
 pages made and filled, then the permissions set.
 */
module Elf {
  import opened Base
  import opened Endian
  import opened ElfImage
  import opened PageBytes
  import opened PageTables
  import opened Pmm
  import opened Pte
  import opened SparseFile
  import opened Teardown
  import opened Vmm

  const EHDR_SIZE: nat := 64
  const PHDR_SIZE: nat := 56
  const PT_LOAD: nat := 1
  const ET_EXEC: nat := 2
  const ELFCLASS64: Byte := 2

  // ---------------------------------------------------------------------------------------------
  // Headers

  datatype Header = Header(entry: nat, phoff: nat, phnum: nat)

  /** The checks on the file header, in the order of the source; None when one fails. */
  function ReadHeader(file: seq<Byte>, machine: nat): Option<Header> {
    var h := FlatRead(file, 0, EHDR_SIZE);
    if |h| != EHDR_SIZE then None
    else if h[0] != 0x7f || h[1] != 69 || h[2] != 76 || h[3] != 70 then None
    else if h[4] != ELFCLASS64 || Value(h[16..18]) != ET_EXEC || Value(h[18..20]) != machine then None
    else if Value(h[54..56]) != PHDR_SIZE then None
    else Some(Header(Value(h[24..32]), Value(h[32..40]), Value(h[56..58])))
  }

  /** Program header `i`; None for a short read. */
  function ReadSegment(file: seq<Byte>, phoff: nat, i: nat): Option<Segment> {
    var b := FlatRead(file, (phoff + i * PHDR_SIZE) % TWO_64, PHDR_SIZE);
    if |b| != PHDR_SIZE then None
    else Some(Segment(Value(b[..4]) == PT_LOAD, Value(b[4..8]), Value(b[8..16]), Value(b[16..24]), Value(b[32..40]),
                      Value(b[40..48])))
  }

  /** The program headers up to the first that cannot be read. */
  function Segments(file: seq<Byte>, phoff: nat, i: nat, n: nat): (r: seq<Segment>)
    requires i <= n
    ensures |r| <= n - i
    decreases n - i
  {
    if i == n || ReadSegment(file, phoff, i).None? then []
    else [ReadSegment(file, phoff, i).value] + Segments(file, phoff, i + 1, n)
  }

  lemma {:induction false} SegmentsAt(file: seq<Byte>, phoff: nat, i: nat, n: nat, k: nat)
    requires i + k <= n && k <= |Segments(file, phoff, i, n)|
    ensures k < |Segments(file, phoff, i, n)| ==>
              ReadSegment(file, phoff, i + k) == Some(Segments(file, phoff, i, n)[k])
    ensures k == |Segments(file, phoff, i, n)| ==> i + k == n || ReadSegment(file, phoff, i + k).None?
    decreases k
  {
    if k > 0 { SegmentsAt(file, phoff, i + 1, n, k - 1); }
  }

  ghost predicate SegmentAt(file: seq<Byte>, phoff: nat, i: nat, s: Option<Segment>) {
    ReadSegment(file, phoff, i) == s
  }

  /** The list of program headers: each as it reads, and when there are fewer than promised, the next is short. */
  ghost predicate AreSegments(file: seq<Byte>, phoff: nat, phnum: nat, segs: seq<Segment>) {
    && |segs| <= phnum && (forall i :: 0 <= i < |segs| ==> SegmentAt(file, phoff, i, Some(segs[i])))
    && (|segs| < phnum ==> SegmentAt(file, phoff, |segs|, None))
  }

  lemma SegmentsAre(file: seq<Byte>, phoff: nat, phnum: nat)
    ensures AreSegments(file, phoff, phnum, Segments(file, phoff, 0, phnum))
  {
    var segs := Segments(file, phoff, 0, phnum);
    forall i | 0 <= i < |segs| ensures SegmentAt(file, phoff, i, Some(segs[i])) {
      SegmentsAt(file, phoff, 0, phnum, i);
    }
    SegmentsAt(file, phoff, 0, phnum, |segs|);
  }

  /** Reads program header `i`. */
  method FetchSegment(file: seq<Byte>, phoff: nat, phnum: nat, i: nat, ghost segs: seq<Segment>)
    returns (s: Option<Segment>)
    requires AreSegments(file, phoff, phnum, segs) && i <= |segs| && i < phnum
    ensures s == if i < |segs| then Some(segs[i]) else None
  {
    s := ReadSegment(file, phoff, i);
    assert SegmentAt(file, phoff, i, if i < |segs| then Some(segs[i]) else None);
  }

  /** No sum the loader forms leaves 64 bits, and the pages are in the lower half. */
  ghost predicate Fits(s: Segment) {
    s.load ==> Hi(s) <= ADDR_SPLIT && s.vaddr + s.filesz < TWO_64 && s.offset + s.filesz < TWO_64
  }

  // ---------------------------------------------------------------------------------------------
  // The address space being filled

  /** Writable for the user, as all pages are while they are filled. */
  const FILL_FLAGS := Flags(true, true, true, false, false)

  /** The memory of frames as bytes. */
  ghost function ByteMem(mem: map<nat, Page>): (r: map<nat, FilePage>)
    ensures r.Keys == mem.Keys && forall f :: f in mem ==> r[f] == BytesOf(mem[f])
  {
    map f | f in mem :: BytesOf(mem[f])
  }

  ghost predicate PageIs(a: Arch, mem: map<nat, Page>, root: nat, data: map<nat, nat>, pages: map<nat, Mapping>,
                         p: nat) {
    && (p in pages <==> p % PAGE_SIZE == 0 && p / PAGE_SIZE in data)
    && (p in pages ==> pages[p].frame == data[p / PAGE_SIZE] && ViewOf(a, mem, root, p / PAGE_SIZE) == Some(pages[p]))
  }

  /** `pages` is what the hardware makes of the tables, by page address. */
  ghost predicate PagesAre(a: Arch, mem: map<nat, Page>, root: nat, data: map<nat, nat>, pages: map<nat, Mapping>) {
    forall p: nat :: PageIs(a, mem, root, data, pages, p)
  }

  lemma PageNumber(p: nat, q: nat)
    requires p % PAGE_SIZE == 0
    ensures q % PAGE_SIZE == 0 && q / PAGE_SIZE == p / PAGE_SIZE ==> q == p
  {
  }

  lemma PagesMapped(a: Arch, mem: map<nat, Page>, mem': map<nat, Page>, root: nat, data: map<nat, nat>,
                    data': map<nat, nat>, pages: map<nat, Mapping>, pages': map<nat, Mapping>, done: bool, p: nat,
                    m: Mapping)
    requires PagesAre(a, mem, root, data, pages) && p % PAGE_SIZE == 0 && p / PAGE_SIZE < LOWER_PAGES
    requires forall v :: v in data ==> v < LOWER_PAGES
    requires ViewUpdated(a, root, mem, mem', done, p / PAGE_SIZE, Some(m))
    requires data' == if done then data[p / PAGE_SIZE := m.frame] else data
    requires pages' == if done then pages[p := m] else pages
    ensures PagesAre(a, mem', root, data', pages')
  {
    forall q: nat ensures PageIs(a, mem', root, data', pages', q) {
      assert PageIs(a, mem, root, data, pages, q);
      assert q % PAGE_SIZE == 0 && q / PAGE_SIZE == p / PAGE_SIZE ==> q == p by { PageNumber(p, q); }
    }
  }

  lemma PagesKept(a: Arch, mem: map<nat, Page>, mem': map<nat, Page>, root: nat, data: map<nat, nat>,
                  pages: map<nat, Mapping>)
    requires PagesAre(a, mem, root, data, pages) && (forall v :: v in data ==> v < LOWER_PAGES)
    requires ViewUpdated(a, root, mem, mem', false, 0, None)
    ensures PagesAre(a, mem', root, data, pages)
  {
    forall q: nat ensures PageIs(a, mem', root, data, pages, q) { assert PageIs(a, mem, root, data, pages, q); }
  }

  /** The frames of the pages hold what they held. */
  ghost predicate SameIn(mem: map<nat, Page>, mem': map<nat, Page>, pages: map<nat, Mapping>) {
    forall p :: p in pages ==>
      pages[p].frame in mem && pages[p].frame in mem' && mem'[pages[p].frame] == mem[pages[p].frame]
  }

  lemma SameInTwice(m0: map<nat, Page>, m1: map<nat, Page>, m2: map<nat, Page>, pages: map<nat, Mapping>)
    requires SameIn(m0, m1, pages) && SameIn(m1, m2, pages)
    ensures SameIn(m0, m2, pages)
  {
  }

  lemma SameFrames(m0: map<nat, Page>, m1: map<nat, Page>, m2: map<nat, Page>, pages: map<nat, Mapping>,
                   other: map<nat, Mapping>)
    requires SameIn(m0, m1, pages) && SameIn(m1, m2, other)
    requires forall q :: q in pages ==> q in other && other[q].frame == pages[q].frame
    ensures SameIn(m0, m2, pages)
  {
  }

  lemma SameInBut(m0: map<nat, Page>, m1: map<nat, Page>, m2: map<nat, Page>, pages: map<nat, Mapping>, f: nat)
    requires SameIn(m0, m1, pages) && (forall q :: q in pages ==> pages[q].frame != f) && m2.Keys == m1.Keys
    requires forall g :: g in m2 && g != f ==> m2[g] == m1[g]
    ensures SameIn(m0, m2, pages)
  {
  }

  /** Making tables out of free frames leaves the frames of pages alone. */
  lemma FramesSame(mem: map<nat, Page>, free: seq<nat>, own: Tree, mem': map<nat, Page>, free': seq<nat>, own': Tree,
                   pages: map<nat, Mapping>, page: nat, m: Mapping)
    requires Took(own, free, own', free') && OnlyWrites(mem, mem', own', free')
    requires forall p :: p in pages ==>
               pages[p].frame in mem && pages[p].frame !in free && pages[p].frame !in own.Values
    requires m.frame in mem && m.frame !in free && m.frame !in own.Values
    ensures SameIn(mem, mem', pages) && SameIn(mem, mem', pages[page := m])
  {
    StaysFresh(own, free, own', free', m.frame);
    forall p | p in pages ensures mem'[pages[p].frame] == mem[pages[p].frame] {
      StaysFresh(own, free, own', free', pages[p].frame);
    }
  }

  /** The pages are in the lower half, and their frames neither free nor tables. */
  ghost predicate FramesApart(mem: map<nat, Page>, free: seq<nat>, own: Tree, data: map<nat, nat>,
                              pages: map<nat, Mapping>) {
    && (forall p :: p in pages ==> pages[p].frame in mem && pages[p].frame !in free && pages[p].frame !in own.Values)
    && (forall v :: v in data ==> v < LOWER_PAGES)
  }

  /** What mapping a frame does to the pages. */
  lemma PageMapped(a: Arch, root: nat, mem: map<nat, Page>, free: seq<nat>, own: Tree, data: map<nat, nat>,
                   pages: map<nat, Mapping>, mem': map<nat, Page>, free': seq<nat>, own': Tree, data': map<nat, nat>,
                   ok: bool, page: nat, m: Mapping)
    returns (next: map<nat, Mapping>)
    requires PagesAre(a, mem, root, data, pages) && FramesApart(mem, free, own, data, pages)
    requires page % PAGE_SIZE == 0 && page < ADDR_SPLIT
    requires page / PAGE_SIZE in data ==> data[page / PAGE_SIZE] == m.frame
    requires m.frame in mem && m.frame !in free && m.frame !in own.Values
    requires Took(own, free, own', free') && OnlyWrites(mem, mem', own', free')
    requires data' == if ok then data[page / PAGE_SIZE := m.frame] else data
    requires ViewUpdated(a, root, mem, mem', ok, page / PAGE_SIZE, Some(m))
    ensures next == (if ok then pages[page := m] else pages) && PagesAre(a, mem', root, data', next)
    ensures SameIn(mem, mem', pages) && SameIn(mem, mem', next)
    ensures StockOf(free', own', data') == StockOf(free, own, data) + if ok then {m.frame} else {}
  {
    next := if ok then pages[page := m] else pages;
    PagesMapped(a, mem, mem', root, data, data', pages, next, ok, page, m);
    StockMapped(free, own, data, free', own', page / PAGE_SIZE, m.frame);
    FramesSame(mem, free, own, mem', free', own', pages, page, m);
  }

  ghost predicate Mapped(pages: map<nat, Mapping>, mem: map<nat, FilePage>) {
    forall q :: q in pages ==> pages[q].frame in mem && q % PAGE_SIZE == 0
  }

  function PageAt(pages: map<nat, Mapping>, mem: map<nat, FilePage>, q: nat): FilePage
    requires q in pages && pages[q].frame in mem
  {
    mem[pages[q].frame]
  }

  /** Page `q` is there, with the image of the first `k` segments. */
  ghost predicate HoldsPage(pages: map<nat, Mapping>, mem: map<nat, FilePage>, file: seq<Byte>, segs: seq<Segment>,
                            k: nat, q: nat)
    requires k <= |segs|
  {
    q in pages && pages[q].frame in mem && PageAt(pages, mem, q) == PageImage(file, segs, k, q)
  }

  ghost predicate LoadingAt(pages: map<nat, Mapping>, mem: map<nat, FilePage>, file: seq<Byte>, segs: seq<Segment>,
                            k: nat, upTo: nat, q: nat)
    requires k < |segs|
  {
    if q % PAGE_SIZE == 0 && (CoveredBy(segs, k, q) || (Covers(segs[k], q) && q < upTo)) then
      HoldsPage(pages, mem, file, segs, if Covers(segs[k], q) && q >= upTo then k else k + 1, q)
    else q !in pages
  }

  /** The pages of the first `k` segments are there and filled, and those of segment `k` below `upTo`. */
  ghost predicate LoadingIn(pages: map<nat, Mapping>, mem: map<nat, FilePage>, file: seq<Byte>, segs: seq<Segment>,
                            k: nat, upTo: nat)
    requires k < |segs|
  {
    forall q: nat {:trigger LoadingAt(pages, mem, file, segs, k, upTo, q)} ::
      LoadingAt(pages, mem, file, segs, k, upTo, q)
  }

  ghost predicate FilledAt(pages: map<nat, Mapping>, mem: map<nat, FilePage>, file: seq<Byte>, segs: seq<Segment>,
                           k: nat, q: nat)
    requires k <= |segs|
  {
    if q % PAGE_SIZE == 0 && CoveredBy(segs, k, q) then HoldsPage(pages, mem, file, segs, k, q) else q !in pages
  }

  /** The pages of the first `k` segments, and no others, are there and filled. */
  ghost predicate FilledIn(pages: map<nat, Mapping>, mem: map<nat, FilePage>, file: seq<Byte>, segs: seq<Segment>,
                           k: nat)
    requires k <= |segs|
  {
    forall q: nat {:trigger FilledAt(pages, mem, file, segs, k, q)} :: FilledAt(pages, mem, file, segs, k, q)
  }

  lemma LoadingStarts(pages: map<nat, Mapping>, mem: map<nat, FilePage>, file: seq<Byte>, segs: seq<Segment>, k: nat)
    requires k < |segs| && FilledIn(pages, mem, file, segs, k)
    ensures LoadingIn(pages, mem, file, segs, k, Lo(segs[k]))
  {
    var low := Lo(segs[k]);
    forall q: nat ensures LoadingAt(pages, mem, file, segs, k, low, q) {
      assert FilledAt(pages, mem, file, segs, k, q);
      if q % PAGE_SIZE == 0 && !Covers(segs[k], q) {
        OverlayElsewhere(PageImage(file, segs, k, q), file, segs[k], q);
      }
    }
  }

  lemma LoadingEnds(pages: map<nat, Mapping>, mem: map<nat, FilePage>, file: seq<Byte>, segs: seq<Segment>, k: nat,
                    upTo: nat)
    requires k < |segs| && LoadingIn(pages, mem, file, segs, k, upTo) && (segs[k].load ==> upTo >= Hi(segs[k]))
    ensures FilledIn(pages, mem, file, segs, k + 1)
  {
    var n := k + 1;
    forall q: nat ensures FilledAt(pages, mem, file, segs, n, q) {
      assert LoadingAt(pages, mem, file, segs, k, upTo, q);
    }
  }

  lemma LoadingMapped(pages: map<nat, Mapping>, mem: map<nat, FilePage>, file: seq<Byte>, segs: seq<Segment>, k: nat,
                      upTo: nat)
    requires k < |segs| && LoadingIn(pages, mem, file, segs, k, upTo)
    ensures Mapped(pages, mem)
  {
    forall q | q in pages ensures pages[q].frame in mem && q % PAGE_SIZE == 0 {
      assert LoadingAt(pages, mem, file, segs, k, upTo, q);
    }
  }

  lemma OneMore(page: nat, q: nat)
    requires page % PAGE_SIZE == 0 && q % PAGE_SIZE == 0
    ensures q < page + PAGE_SIZE <==> q < page || q == page
  {
    assert page == page / PAGE_SIZE * PAGE_SIZE && q == q / PAGE_SIZE * PAGE_SIZE;
  }

  /** One more page of segment `k`. */
  lemma LoadingNextIn(pages: map<nat, Mapping>, mem: map<nat, FilePage>, pages': map<nat, Mapping>,
                      mem': map<nat, FilePage>, file: seq<Byte>, segs: seq<Segment>, k: nat, page: nat)
    requires k < |segs| && Covers(segs[k], page) && page % PAGE_SIZE == 0 && LoadingIn(pages, mem, file, segs, k, page)
    requires Mapped(pages, mem) && Mapped(pages', mem')
    requires page in pages' && forall q :: q in pages' <==> q in pages || q == page
    requires forall q :: q in pages && q != page ==> PageAt(pages', mem', q) == PageAt(pages, mem, q)
    requires PageAt(pages', mem', page) ==
             Overlay(if page in pages then PageAt(pages, mem, page) else Zeros(PAGE_SIZE), file, segs[k], page)
    ensures LoadingIn(pages', mem', file, segs, k, page + PAGE_SIZE)
  {
    assert LoadingAt(pages, mem, file, segs, k, page, page);
    if page !in pages { UncoveredIsZero(file, segs, k, page); }
    assert HoldsPage(pages', mem', file, segs, k + 1, page);
    var next := page + PAGE_SIZE;
    forall q: nat ensures LoadingAt(pages', mem', file, segs, k, next, q) {
      assert LoadingAt(pages, mem, file, segs, k, page, q);
      if q % PAGE_SIZE == 0 { OneMore(page, q); }
    }
  }

  lemma NextIsPage(page: nat)
    requires page % PAGE_SIZE == 0
    ensures (page + PAGE_SIZE) % PAGE_SIZE == 0
  {
  }

  /** Segment `k` has its permissions set on its pages below `upTo`; frames are as they were. */
  ghost predicate Protected(pages: map<nat, Mapping>, first: map<nat, Mapping>, segs: seq<Segment>, k: nat, upTo: nat)
    requires k < |segs|
  {
    && pages.Keys == first.Keys
    && forall q :: q in pages ==>
         pages[q] == Mapping(first[q].frame, if Covers(segs[k], q) && q < upTo then Protection(segs[k])
                             else LastFlags(segs, k, q, first[q].flags))
  }

  lemma ProtectedNext(was: map<nat, Mapping>, pages: map<nat, Mapping>, first: map<nat, Mapping>, segs: seq<Segment>,
                      k: nat, page: nat)
    requires k < |segs| && page % PAGE_SIZE == 0 && Covers(segs[k], page) && page in was
    requires Protected(was, first, segs, k, page)
    requires pages == was[page := Mapping(was[page].frame, Protection(segs[k]))]
    requires forall q :: q in was ==> q % PAGE_SIZE == 0
    ensures Protected(pages, first, segs, k, page + PAGE_SIZE)
  {
    forall q | q in pages
      ensures pages[q] == Mapping(first[q].frame, if Covers(segs[k], q) && q < page + PAGE_SIZE then Protection(segs[k])
                                                  else LastFlags(segs, k, q, first[q].flags))
    {
      OneMore(page, q);
    }
  }

  /** Every page has the permissions of the last of the first `k` segments that covers it. */
  ghost predicate ProtectedBy(pages: map<nat, Mapping>, first: map<nat, Mapping>, segs: seq<Segment>, k: nat)
    requires k <= |segs|
  {
    && pages.Keys == first.Keys
    && forall q :: q in pages ==> pages[q] == Mapping(first[q].frame, LastFlags(segs, k, q, first[q].flags))
  }

  lemma ProtectedStarts(pages: map<nat, Mapping>, first: map<nat, Mapping>, segs: seq<Segment>, k: nat)
    requires k < |segs| && ProtectedBy(pages, first, segs, k)
    ensures Protected(pages, first, segs, k, Lo(segs[k]))
  {
  }

  lemma ProtectedEnds(pages: map<nat, Mapping>, first: map<nat, Mapping>, segs: seq<Segment>, k: nat, upTo: nat)
    requires k < |segs| && Protected(pages, first, segs, k, upTo) && upTo >= Hi(segs[k])
    ensures ProtectedBy(pages, first, segs, k + 1)
  {
  }

  ghost predicate ThereAt(keys: set<nat>, s: Segment, q: nat) { q % PAGE_SIZE == 0 && Covers(s, q) ==> q in keys }

  /** Every page of every segment is among `keys`. */
  ghost predicate AllThere(keys: set<nat>, segs: seq<Segment>) {
    forall k, q: nat :: 0 <= k < |segs| ==> ThereAt(keys, segs[k], q)
  }

  lemma {:induction false} CoversMeansCovered(segs: seq<Segment>, n: nat, k: nat, p: nat)
    requires k < n <= |segs| && Covers(segs[k], p)
    ensures CoveredBy(segs, n, p)
    decreases n
  {
    if k + 1 < n { CoversMeansCovered(segs, n - 1, k, p); }
  }

  lemma FilledIsThere(pages: map<nat, Mapping>, mem: map<nat, FilePage>, file: seq<Byte>, segs: seq<Segment>)
    requires FilledIn(pages, mem, file, segs, |segs|)
    ensures AllThere(pages.Keys, segs)
    ensures forall q :: q in pages ==> q % PAGE_SIZE == 0 && CoveredBy(segs, |segs|, q)
  {
    forall q | q in pages ensures q % PAGE_SIZE == 0 && CoveredBy(segs, |segs|, q) {
      assert FilledAt(pages, mem, file, segs, |segs|, q);
    }
    forall k, q: nat | 0 <= k < |segs| ensures ThereAt(pages.Keys, segs[k], q) {
      assert FilledAt(pages, mem, file, segs, |segs|, q);
      if Covers(segs[k], q) { CoversMeansCovered(segs, |segs|, k, q); }
    }
  }

  lemma StillFilled(pages: map<nat, Mapping>, mem': map<nat, Page>, first: map<nat, Mapping>, mem: map<nat, Page>,
                    file: seq<Byte>, segs: seq<Segment>)
    requires ProtectedBy(pages, first, segs, |segs|) && FilledIn(first, ByteMem(mem), file, segs, |segs|)
    requires SameIn(mem, mem', first)
    ensures FilledIn(pages, ByteMem(mem'), file, segs, |segs|)
  {
    forall q: nat ensures FilledAt(pages, ByteMem(mem'), file, segs, |segs|, q) {
      assert FilledAt(first, ByteMem(mem), file, segs, |segs|, q);
    }
  }

  /** What a page needs of the file is there. */
  ghost predicate InFile(file: seq<Byte>, s: Segment, page: nat) {
    forall a :: page <= a < page + PAGE_SIZE && Backs(s, a) ==> s.offset + (a - s.vaddr) < |file|
  }

  /** What the segment's pages below `upTo` need of the file is there. */
  ghost predicate InFileTo(file: seq<Byte>, s: Segment, upTo: nat) {
    forall q: nat :: Lo(s) <= q < upTo && q % PAGE_SIZE == 0 ==> InFile(file, s, q)
  }

  ghost predicate AllInFile(file: seq<Byte>, s: Segment) { InFileTo(file, s, Hi(s)) }

  lemma InFileNext(file: seq<Byte>, s: Segment, page: nat)
    requires page % PAGE_SIZE == 0 && InFileTo(file, s, page) && InFile(file, s, page)
    ensures InFileTo(file, s, page + PAGE_SIZE)
  {
    forall q: nat | Lo(s) <= q < page + PAGE_SIZE && q % PAGE_SIZE == 0 ensures InFile(file, s, q) { OneMore(page, q); }
  }

  lemma InFileEnds(file: seq<Byte>, s: Segment, page: nat)
    requires InFileTo(file, s, page) && page >= Hi(s)
    ensures AllInFile(file, s)
  {
  }

  lemma MissingPage(file: seq<Byte>, s: Segment, page: nat)
    requires page % PAGE_SIZE == 0 && Covers(s, page) && !InFile(file, s, page)
    ensures !AllInFile(file, s)
  {
  }

  /** Every program header is in the file, and so is everything the segments need of it. */
  ghost predicate Complete(file: seq<Byte>, segs: seq<Segment>, phnum: nat) {
    |segs| == phnum && forall i :: 0 <= i < |segs| ==> AllInFile(file, segs[i])
  }

  /** What the first `k` segments need of the file is there. */
  ghost predicate Backed(file: seq<Byte>, segs: seq<Segment>, k: nat)
    requires k <= |segs|
  {
    forall j {:trigger AllInFile(file, segs[j])} :: 0 <= j < k ==> AllInFile(file, segs[j])
  }

  lemma BackedNext(file: seq<Byte>, segs: seq<Segment>, k: nat)
    requires k < |segs| && Backed(file, segs, k) && AllInFile(file, segs[k])
    ensures Backed(file, segs, k + 1)
  {
    var n := k + 1;
    forall j | 0 <= j < n ensures AllInFile(file, segs[j]) { }
  }

  lemma BackedIsComplete(file: seq<Byte>, segs: seq<Segment>)
    requires Backed(file, segs, |segs|)
    ensures Complete(file, segs, |segs|)
  {
    forall j | 0 <= j < |segs| ensures AllInFile(file, segs[j]) { }
  }

  lemma NotComplete(file: seq<Byte>, segs: seq<Segment>, phnum: nat, i: nat)
    requires i <= |segs| && i < phnum && (i == |segs| || !AllInFile(file, segs[i]))
    ensures !Complete(file, segs, phnum)
  {
  }

  /** Without segments nothing is to be there. */
  lemma NothingFilled(mem: map<nat, FilePage>, file: seq<Byte>, segs: seq<Segment>)
    ensures FilledIn(map[], mem, file, segs, 0)
  {
    forall q: nat ensures FilledAt(map[], mem, file, segs, 0, q) { }
  }

  /** A short read means that the file ends before the page has all it needs. */
  lemma ShortIsMissing(file: seq<Byte>, s: Segment, page: nat, start: nat, end: nat)
    requires page % PAGE_SIZE == 0 && Covers(s, page) && start < end
    requires start == (if page > s.vaddr then page else s.vaddr)
    requires end == if page + PAGE_SIZE < s.vaddr + s.filesz then page + PAGE_SIZE else s.vaddr + s.filesz
    requires |FlatRead(file, s.offset + (start - s.vaddr), end - start)| != end - start
    ensures !InFile(file, s, page)
  {
    SamePage(s, page, end - 1 - page);
    assert Backs(s, end - 1);
  }

  /** The bytes read are those the segment lays over the page. */
  lemma ReadOver(under: FilePage, file: seq<Byte>, s: Segment, page: nat, start: nat, end: nat, bytes: seq<Byte>)
    requires page % PAGE_SIZE == 0 && Covers(s, page) && start < end
    requires start == (if page > s.vaddr then page else s.vaddr)
    requires end == if page + PAGE_SIZE < s.vaddr + s.filesz then page + PAGE_SIZE else s.vaddr + s.filesz
    requires bytes == FlatRead(file, s.offset + (start - s.vaddr), end - start) && |bytes| == end - start
    ensures start - page + |bytes| <= PAGE_SIZE && Spliced(under, start - page, bytes) == Overlay(under, file, s, page)
    ensures InFile(file, s, page)
  {
    var r := Spliced(under, start - page, bytes);
    forall i | 0 <= i < PAGE_SIZE ensures r[i] == Overlay(under, file, s, page)[i] {
      SamePage(s, page, i);
      if start <= page + i < end { assert r[i] == bytes[page + i - start]; }
    }
  }

  lemma NothingOver(under: FilePage, file: seq<Byte>, s: Segment, page: nat)
    requires page % PAGE_SIZE == 0
    requires var start := if page > s.vaddr then page else s.vaddr;
             (if page + PAGE_SIZE < s.vaddr + s.filesz then page + PAGE_SIZE else s.vaddr + s.filesz) <= start
    ensures Overlay(under, file, s, page) == under && InFile(file, s, page)
  {
    forall i | 0 <= i < PAGE_SIZE ensures Overlay(under, file, s, page)[i] == under[i] { }
  }

  /** `pages'` is `pages` with page `page`, new and zero unless it was there, at frame `phys`. */
  ghost predicate HasPage(mem: map<nat, Page>, pages: map<nat, Mapping>, mem': map<nat, Page>,
                          pages': map<nat, Mapping>, page: nat, phys: nat) {
    && page in pages' && pages'[page].frame == phys && phys in mem' && SameIn(mem, mem', pages)
    && pages' == (if page in pages then pages else pages[page := pages'[page]])
    && (page !in pages ==> BytesOf(mem'[phys]) == Zeros(PAGE_SIZE))
  }

  /** `pages'` is `pages` with page `page`, which has the segment laid over what was there, or over zeros. */
  ghost predicate PageLaid(mem: map<nat, Page>, pages: map<nat, Mapping>, mem': map<nat, Page>,
                           pages': map<nat, Mapping>, file: seq<Byte>, s: Segment, page: nat) {
    && page in pages' && pages'[page].frame in mem'
    && pages' == (if page in pages then pages else pages[page := pages'[page]])
    && SameIn(mem, mem', pages - {page}) && (page in pages ==> pages[page].frame in mem)
    && BytesOf(mem'[pages'[page].frame]) ==
       Overlay(if page in pages then BytesOf(mem[pages[page].frame]) else Zeros(PAGE_SIZE), file, s, page)
  }

  lemma LaidOver(mem: map<nat, Page>, pages: map<nat, Mapping>, mem1: map<nat, Page>, mem': map<nat, Page>,
                 pages': map<nat, Mapping>, file: seq<Byte>, s: Segment, page: nat, phys: nat, under: FilePage)
    requires HasPage(mem, pages, mem1, pages', page, phys) && under == BytesOf(mem1[phys]) && mem'.Keys == mem1.Keys
    requires forall q :: q in pages' && q != page ==> pages'[q].frame != phys
    requires forall f :: f in mem' && f != phys ==> mem'[f] == mem1[f]
    requires phys in mem' && BytesOf(mem'[phys]) == Overlay(under, file, s, page)
    ensures PageLaid(mem, pages, mem', pages', file, s, page)
  {
    forall q | q in pages - {page} ensures pages[q].frame in mem' && mem'[pages[q].frame] == mem[pages[q].frame] {
      assert q in pages' && pages'[q] == pages[q];
    }
  }

  /** One more page of segment `k`. */
  lemma LoadingNext(pages: map<nat, Mapping>, mem: map<nat, Page>, pages': map<nat, Mapping>, mem': map<nat, Page>,
                    file: seq<Byte>, segs: seq<Segment>, k: nat, page: nat)
    requires k < |segs| && Covers(segs[k], page) && page % PAGE_SIZE == 0
    requires LoadingIn(pages, ByteMem(mem), file, segs, k, page)
    requires forall q :: q in pages' ==> q % PAGE_SIZE == 0 && pages'[q].frame in mem'
    requires PageLaid(mem, pages, mem', pages', file, segs[k], page)
    ensures LoadingIn(pages', ByteMem(mem'), file, segs, k, page + PAGE_SIZE)
  {
    LoadingMapped(pages, ByteMem(mem), file, segs, k, page);
    forall q | q in pages && q != page ensures PageAt(pages', ByteMem(mem'), q) == PageAt(pages, ByteMem(mem), q) {
      assert q in pages - {page} && pages'[q] == pages[q];
    }
    LoadingNextIn(pages, ByteMem(mem), pages', ByteMem(mem'), file, segs, k, page);
  }

  /** What memory was asked for in vain: nothing yet, a frame, or tables for a frame that had been taken. */
  datatype Shortage = Served | NoFrame | NoTable(frame: nat)

  /** A frame for which there were no tables is nobody's any more. */
  ghost function Lost(s: Shortage): (r: set<nat>)
    ensures |r| <= 1
  {
    if s.NoTable? then {s.frame} else {}
  }

  /** A frame taken and then mapped, or lost. */
  lemma TakenAndMapped(before: set<nat>, between: set<nat>, after: set<nat>, f: nat, ok: bool)
    requires f in before && between == before - {f} && after == between + if ok then {f} else {}
    ensures after == before - Lost(if ok then Served else NoTable(f))
  {
  }

  class Space {
    const owner: OwnedSpace
    /** What is mapped, by page address. */
    ghost var pages: map<nat, Mapping>
    ghost var short: Shortage

    ghost predicate Valid()
      reads this, owner, owner.ctx, owner.ctx.ram
    {
      && owner.Valid()
      && PagesAre(owner.ctx.arch, owner.ctx.ram.mem, owner.ctx.root, owner.data, pages)
      && (!short.Served? ==> owner.ctx.ram.free == [])
    }

    /** Physical memory as bytes. */
    ghost function Mem(): map<nat, FilePage>
      reads owner.ctx.ram
    {
      ByteMem(owner.ctx.ram.mem)
    }

    /** A frame that holds, or is about to hold, a page of this space. */
    ghost predicate Usable(f: nat)
      reads this, owner, owner.ctx, owner.ctx.ram
    {
      f in owner.ctx.ram.mem && f !in owner.ctx.ram.free && f !in owner.ctx.own.Values
    }

    constructor (owner: OwnedSpace)
      requires owner.Valid() && owner.data == map[]
      ensures Valid() && this.owner == owner && pages == map[] && short == Served
    {
      this.owner, pages, short := owner, map[], Served;
      new;
      assert forall p: nat :: PageIs(owner.ctx.arch, owner.ctx.ram.mem, owner.ctx.root, owner.data, pages, p);
    }

    /** Every mapped page has a frame of its own. */
    lemma MappedAt(p: nat)
      requires Valid() && p in pages
      ensures p % PAGE_SIZE == 0 && p < ADDR_SPLIT && p / PAGE_SIZE in owner.data
      ensures pages[p].frame == owner.data[p / PAGE_SIZE] && pages[p].frame != 0 && Usable(pages[p].frame)
    {
      var v := p / PAGE_SIZE;
      assert PageIs(owner.ctx.arch, owner.ctx.ram.mem, owner.ctx.root, owner.data, pages, p);
      assert OwnsPage(owner.ctx.arch, owner.ctx.ram.mem, owner.ctx.own, owner.data, v);
      assert owner.data[v] in owner.data.Values;
      owner.Accounted(owner.data[v]);
      owner.ctx.LeafIsTranslation(v);
    }

    /** Pages have different frames. */
    lemma FramesDiffer(p: nat, q: nat)
      requires Valid() && p in pages && q in pages && p != q
      ensures pages[p].frame != pages[q].frame
    {
      MappedAt(p);
      MappedAt(q);
      assert p == p / PAGE_SIZE * PAGE_SIZE && q == q / PAGE_SIZE * PAGE_SIZE;
    }

    /** What the hardware finds for a page. */
    lemma Seen(page: nat)
      requires Valid() && page % PAGE_SIZE == 0 && page < ADDR_SPLIT
      ensures owner.ctx.View(page / PAGE_SIZE) == if page in pages then Some(pages[page]) else None
      ensures page in pages ==> pages[page].frame != 0
    {
      if page in pages { MappedAt(page); }
      owner.ctx.LeafIsTranslation(page / PAGE_SIZE);
      assert OwnsPage(owner.ctx.arch, owner.ctx.ram.mem, owner.ctx.own, owner.data, page / PAGE_SIZE);
      assert PageIs(owner.ctx.arch, owner.ctx.ram.mem, owner.ctx.root, owner.data, pages, page);
    }

    /** vmm_virt_to_phys. */
    method VirtToPhys(page: nat) returns (phys: nat)
      requires Valid() && page % PAGE_SIZE == 0 && page < ADDR_SPLIT
      ensures page in pages ==> phys == pages[page].frame && phys != 0
      ensures page !in pages ==> phys == 0
    {
      Seen(page);
      phys := owner.ctx.VirtToPhys(page);
    }

    /** The mapped pages have frames that are neither free nor tables. */
    lemma AllMapped()
      requires Valid()
      ensures forall p :: p in pages ==> p % PAGE_SIZE == 0 && p < ADDR_SPLIT && Usable(pages[p].frame)
      ensures FramesApart(owner.ctx.ram.mem, owner.ctx.ram.free, owner.ctx.own, owner.data, pages)
    {
      forall p | p in pages ensures p % PAGE_SIZE == 0 && p < ADDR_SPLIT && Usable(pages[p].frame) { MappedAt(p); }
      forall v | v in owner.data ensures v < LOWER_PAGES {
        assert OwnsPage(owner.ctx.arch, owner.ctx.ram.mem, owner.ctx.own, owner.data, v);
        owner.ctx.LeafIsTranslation(v);
      }
    }

    /** pmm_alloc(1). */
    method NewFrame() returns (phys: nat)
      requires Valid() && short.Served?
      modifies this`short, owner.ctx.ram`mem, owner.ctx.ram`head, owner.ctx.ram`free
      ensures short == if phys == 0 then NoFrame else Served
      ensures SameIn(old(owner.ctx.ram.mem), owner.ctx.ram.mem, pages)
      ensures phys != 0 ==> phys in old(owner.Stock())
      ensures owner.Stock() == old(owner.Stock()) - if phys == 0 then {} else {phys}
      ensures Valid() && (phys != 0 ==> owner.Loose(phys))
    {
      AllMapped();
      ghost var mem0, free0 := owner.ctx.ram.mem, owner.ctx.ram.free;
      phys := owner.TakeFrame();
      PagesKept(owner.ctx.arch, mem0, owner.ctx.ram.mem, owner.ctx.root, owner.data, pages);
      if phys == 0 {
        short := NoFrame;
      } else {
        StockTaken(free0, owner.ctx.own, owner.data, phys, owner.ctx.ram.free);
        assert free0[0] == phys;
      }
    }

    lemma MayMap(page: nat, phys: nat)
      requires Valid() && page % PAGE_SIZE == 0
      requires if page in pages then pages[page].frame == phys else owner.Loose(phys)
      ensures owner.Loose(phys) || owner.HasFrame(page / PAGE_SIZE, phys)
      ensures page / PAGE_SIZE in owner.data ==> page in pages && owner.data[page / PAGE_SIZE] == phys
      ensures page in pages ==> page / PAGE_SIZE in owner.data
      ensures Usable(phys)
    {
      assert PageIs(owner.ctx.arch, owner.ctx.ram.mem, owner.ctx.root, owner.data, pages, page);
      if page in pages { MappedAt(page); }
    }

    /** The call of vmm_map_page; `next` is what is then mapped. */
    method MapFrame(page: nat, phys: nat, flags: Flags) returns (ok: bool, ghost next: map<nat, Mapping>)
      requires Valid() && page % PAGE_SIZE == 0 && page < ADDR_SPLIT && flags.present
      requires if page in pages then pages[page].frame == phys else owner.Loose(phys)
      modifies owner`data, owner.ctx`own, owner.ctx.ram`mem, owner.ctx.ram`head, owner.ctx.ram`free
      ensures next == (if ok then pages[page := Mapping(phys, flags)] else pages)
      ensures (page in pages ==> ok) && (!ok || !short.Served? ==> owner.ctx.ram.free == [])
      ensures SameIn(old(owner.ctx.ram.mem), owner.ctx.ram.mem, pages)
      ensures SameIn(old(owner.ctx.ram.mem), owner.ctx.ram.mem, next)
      ensures owner.Stock() == old(owner.Stock()) + if ok then {phys} else {}
      ensures PagesAre(owner.ctx.arch, owner.ctx.ram.mem, owner.ctx.root, owner.data, next)
      ensures owner.Valid()
    {
      AllMapped();
      ghost var mem0, free0, own0, data0 := owner.ctx.ram.mem, owner.ctx.ram.free, owner.ctx.own, owner.data;
      MayMap(page, phys);
      assert flags.(present := true) == flags;
      ok := owner.Map(page, phys, flags);
      next := PageMapped(owner.ctx.arch, owner.ctx.root, mem0, free0, own0, data0, pages,
                       owner.ctx.ram.mem, owner.ctx.ram.free, owner.ctx.own, owner.data, ok, page,
                       Mapping(phys, flags));
    }

    /** vmm_map_page, of a new frame at an unmapped page or of a page's own frame again. */
    method MapPage(page: nat, phys: nat, flags: Flags) returns (ok: bool)
      requires Valid() && short.Served? && page % PAGE_SIZE == 0 && page < ADDR_SPLIT && flags.present
      requires if page in pages then pages[page].frame == phys else owner.Loose(phys)
      modifies this`pages, this`short, owner`data, owner.ctx`own, owner.ctx.ram`mem, owner.ctx.ram`head,
               owner.ctx.ram`free
      ensures pages == (if ok then old(pages)[page := Mapping(phys, flags)] else old(pages))
      ensures short == (if ok then Served else NoTable(phys)) && (page in old(pages) ==> ok)
      ensures SameIn(old(owner.ctx.ram.mem), owner.ctx.ram.mem, old(pages))
      ensures SameIn(old(owner.ctx.ram.mem), owner.ctx.ram.mem, pages)
      ensures owner.Stock() == old(owner.Stock()) + if ok then {phys} else {}
      ensures Valid()
    {
      ghost var next;
      ok, next := MapFrame(page, phys, flags);
      pages, short := next, if ok then Served else NoTable(phys);
    }

    /** memset or memcpy through the direct map: the bytes of a frame that is neither free nor a table. */
    method Fill(phys: nat, b: FilePage)
      requires Valid() && Usable(phys)
      modifies owner.ctx.ram`mem
      ensures owner.ctx.ram.mem.Keys == old(owner.ctx.ram.mem.Keys) && BytesOf(owner.ctx.ram.mem[phys]) == b
      ensures forall f :: f in owner.ctx.ram.mem && f != phys ==> owner.ctx.ram.mem[f] == old(owner.ctx.ram.mem[f])
      ensures Valid() && owner.Stock() == old(owner.Stock())
    {
      AllMapped();
      ghost var mem0 := owner.ctx.ram.mem;
      BytesStored(b);
      owner.WriteFrame(phys, WordsOf(b));
      PagesKept(owner.ctx.arch, mem0, owner.ctx.ram.mem, owner.ctx.root, owner.data, pages);
    }

    /** A frame that is nobody's is no page's. */
    lemma LooseIsNew(phys: nat)
      requires Valid() && owner.Loose(phys)
      ensures forall q :: q in pages ==> pages[q].frame != phys
    {
      forall q | q in pages ensures pages[q].frame != phys {
        MappedAt(q);
        assert owner.data[q / PAGE_SIZE] in owner.data.Values;
      }
    }

    // -------------------------------------------------------------------------------------------
    // Pass 1

    /** A frame from the free list, mapped with anything in it; 0 when there is no memory for it. */
    method MapNew(page: nat) returns (phys: nat)
      requires Valid() && short.Served? && page % PAGE_SIZE == 0 && page < ADDR_SPLIT && page !in pages
      modifies this`pages, this`short, owner`data, owner.ctx`own, owner.ctx.ram`mem, owner.ctx.ram`head,
               owner.ctx.ram`free
      ensures pages == if phys == 0 then old(pages) else old(pages)[page := Mapping(phys, FILL_FLAGS)]
      ensures short.Served? <==> phys != 0
      ensures SameIn(old(owner.ctx.ram.mem), owner.ctx.ram.mem, old(pages))
      ensures phys != 0 ==> forall q :: q in old(pages) ==> old(pages)[q].frame != phys
      ensures owner.Stock() == old(owner.Stock()) - Lost(short) && Lost(short) <= old(owner.Stock())
      ensures Valid()
    {
      ghost var mem0, pages0, stock0 := owner.ctx.ram.mem, pages, owner.Stock();
      phys := NewFrame();
      if phys == 0 { return; }
      LooseIsNew(phys);
      ghost var mem1, stock1 := owner.ctx.ram.mem, owner.Stock();
      var ok := MapPage(page, phys, FILL_FLAGS);
      TakenAndMapped(stock0, stock1, owner.Stock(), phys, ok);
      SameInTwice(mem0, mem1, owner.ctx.ram.mem, pages0);
      if !ok { return 0; }
    }

    /** A fresh page, mapped and then zeroed; 0 when there is no memory for it. */
    method AddPage(page: nat) returns (phys: nat)
      requires Valid() && short.Served? && page % PAGE_SIZE == 0 && page < ADDR_SPLIT && page !in pages
      modifies this`pages, this`short, owner`data, owner.ctx`own, owner.ctx.ram`mem, owner.ctx.ram`head,
               owner.ctx.ram`free
      ensures pages == if phys == 0 then old(pages) else old(pages)[page := Mapping(phys, FILL_FLAGS)]
      ensures short.Served? <==> phys != 0
      ensures SameIn(old(owner.ctx.ram.mem), owner.ctx.ram.mem, old(pages))
      ensures phys != 0 ==> phys in owner.ctx.ram.mem && BytesOf(owner.ctx.ram.mem[phys]) == Zeros(PAGE_SIZE)
      ensures owner.Stock() == old(owner.Stock()) - Lost(short) && Lost(short) <= old(owner.Stock())
      ensures Valid()
    {
      ghost var mem0, pages0 := owner.ctx.ram.mem, pages;
      phys := MapNew(page);
      if phys == 0 { return; }
      ghost var mem1 := owner.ctx.ram.mem;
      MappedAt(page);
      Fill(phys, Zeros(PAGE_SIZE));
      SameInBut(mem0, mem1, owner.ctx.ram.mem, pages0, phys);
    }

    /** A mapped page: the one that is there, or a fresh zeroed one. */
    method GetPage(page: nat) returns (phys: nat)
      requires Valid() && short.Served? && page % PAGE_SIZE == 0 && page < ADDR_SPLIT
      modifies this`pages, this`short, owner`data, owner.ctx`own, owner.ctx.ram`mem, owner.ctx.ram`head,
               owner.ctx.ram`free
      ensures short.Served? <==> phys != 0
      ensures phys != 0 ==> HasPage(old(owner.ctx.ram.mem), old(pages), owner.ctx.ram.mem, pages, page, phys)
      ensures owner.Stock() == old(owner.Stock()) - Lost(short) && Lost(short) <= old(owner.Stock())
      ensures Valid()
    {
      phys := VirtToPhys(page);
      if phys == 0 {
        phys := AddPage(page);
      } else {
        AllMapped();
      }
    }

    /** Reads the part of the file that falls into the page over what is there. */
    method ReadInto(file: seq<Byte>, s: Segment, page: nat, phys: nat) returns (ok: bool)
      requires Valid() && page % PAGE_SIZE == 0 && Covers(s, page) && Fits(s) && Usable(phys)
      modifies owner.ctx.ram`mem
      ensures ok <==> InFile(file, s, page)
      ensures owner.ctx.ram.mem.Keys == old(owner.ctx.ram.mem.Keys)
      ensures forall f :: f in owner.ctx.ram.mem && f != phys ==> owner.ctx.ram.mem[f] == old(owner.ctx.ram.mem[f])
      ensures ok ==> BytesOf(owner.ctx.ram.mem[phys]) == Overlay(BytesOf(old(owner.ctx.ram.mem[phys])), file, s, page)
      ensures Valid() && owner.Stock() == old(owner.Stock())
    {
      var under := BytesOf(owner.ctx.ram.mem[phys]);
      var start := if page > s.vaddr then page else s.vaddr;
      var end := if page + PAGE_SIZE < s.vaddr + s.filesz then page + PAGE_SIZE else s.vaddr + s.filesz;
      if end <= start {
        NothingOver(under, file, s, page);
        return true;
      }
      var bytes := FlatRead(file, s.offset + (start - s.vaddr), end - start);
      if |bytes| != end - start {
        ShortIsMissing(file, s, page, start, end);
        return false;
      }
      ReadOver(under, file, s, page, start, end, bytes);
      Fill(phys, Spliced(under, start - page, bytes));
      ok := true;
    }

    /** No other page has the frame of this one. */
    lemma AllDiffer(page: nat)
      requires Valid() && page in pages
      ensures forall q :: q in pages && q != page ==> pages[q].frame != pages[page].frame
    {
      forall q | q in pages && q != page ensures pages[q].frame != pages[page].frame { FramesDiffer(q, page); }
    }

    /** One page of a segment: the part of the file that falls into it is read over what is there. */
    method LoadPage(file: seq<Byte>, s: Segment, page: nat) returns (ok: bool)
      requires Valid() && short.Served? && page % PAGE_SIZE == 0 && Covers(s, page) && Fits(s)
      modifies this`pages, this`short, owner`data, owner.ctx`own, owner.ctx.ram`mem, owner.ctx.ram`head,
               owner.ctx.ram`free
      ensures ok ==> PageLaid(old(owner.ctx.ram.mem), old(pages), owner.ctx.ram.mem, pages, file, s, page)
      ensures ok ==> InFile(file, s, page) && short.Served?
      ensures owner.Stock() == old(owner.Stock()) - Lost(short) && Lost(short) <= old(owner.Stock())
      ensures !ok ==> !short.Served? || !InFile(file, s, page)
      ensures Valid()
    {
      ghost var mem0, pages0 := owner.ctx.ram.mem, pages;
      var phys := GetPage(page);
      if phys == 0 { return false; }
      MappedAt(page);
      AllDiffer(page);
      ghost var mem1, under := owner.ctx.ram.mem, BytesOf(owner.ctx.ram.mem[phys]);
      ok := ReadInto(file, s, page, phys);
      if ok { LaidOver(mem0, pages0, mem1, owner.ctx.ram.mem, pages, file, s, page, phys, under); }
    }

    lemma AllApart()
      requires Valid()
      ensures forall p, q :: p in pages && q in pages && p != q ==> pages[p].frame != pages[q].frame
    {
      forall p, q | p in pages && q in pages && p != q ensures pages[p].frame != pages[q].frame { FramesDiffer(p, q); }
    }

    ghost predicate Loading(file: seq<Byte>, segs: seq<Segment>, k: nat, upTo: nat)
      requires k < |segs|
      reads this, owner.ctx.ram
    {
      LoadingIn(pages, Mem(), file, segs, k, upTo)
    }

    ghost predicate Filled(file: seq<Byte>, segs: seq<Segment>, k: nat)
      requires k <= |segs|
      reads this, owner.ctx.ram
    {
      FilledIn(pages, Mem(), file, segs, k)
    }

    method NextPage(file: seq<Byte>, s: Segment, page: nat, ghost segs: seq<Segment>, ghost k: nat) returns (ok: bool)
      requires Valid() && short.Served?
      requires k < |segs| && s == segs[k] && Fits(s) && Covers(s, page) && page % PAGE_SIZE == 0
      requires Loading(file, segs, k, page)
      modifies this`pages, this`short, owner`data, owner.ctx`own, owner.ctx.ram`mem, owner.ctx.ram`head,
               owner.ctx.ram`free
      ensures ok ==> Loading(file, segs, k, page + PAGE_SIZE) && InFile(file, s, page)
      ensures ok ==> short.Served?
      ensures owner.Stock() == old(owner.Stock()) - Lost(short) && Lost(short) <= old(owner.Stock())
      ensures !ok ==> !short.Served? || !InFile(file, s, page)
      ensures Valid()
    {
      ghost var mem0, pages0 := owner.ctx.ram.mem, pages;
      ok := LoadPage(file, s, page);
      AllMapped();
      if ok { LoadingNext(pages0, mem0, pages, owner.ctx.ram.mem, file, segs, k, page); }
    }

    /** The page loop of pass 1 for segment `k`. */
    method LoadSegment(file: seq<Byte>, s: Segment, ghost segs: seq<Segment>, ghost k: nat) returns (ok: bool)
      requires Valid() && short.Served? && k < |segs| && s == segs[k] && s.load && Fits(s) && Filled(file, segs, k)
      modifies this`pages, this`short, owner`data, owner.ctx`own, owner.ctx.ram`mem, owner.ctx.ram`head,
               owner.ctx.ram`free
      ensures ok ==> Filled(file, segs, k + 1) && AllInFile(file, s)
      ensures ok ==> short.Served?
      ensures owner.Stock() == old(owner.Stock()) - Lost(short) && Lost(short) <= old(owner.Stock())
      ensures !ok ==> !short.Served? || !AllInFile(file, s)
      ensures Valid()
    {
      LoadingStarts(pages, Mem(), file, segs, k);
      var page := Lo(s);
      while page < Hi(s)
        invariant Valid() && page % PAGE_SIZE == 0 && Lo(s) <= page && Loading(file, segs, k, page)
        invariant InFileTo(file, s, page)
        invariant short.Served? && owner.Stock() == old(owner.Stock())
        decreases Hi(s) - page
      {
        ok := NextPage(file, s, page, segs, k);
        if !ok {
          if !InFile(file, s, page) { MissingPage(file, s, page); }
          return;
        }
        InFileNext(file, s, page);
        NextIsPage(page);
        page := page + PAGE_SIZE;
      }
      InFileEnds(file, s, page);
      LoadingEnds(pages, Mem(), file, segs, k, page);
      ok := true;
    }

    /** The body of pass 1: reads header `i` and loads its segment, if it is one to load. */
    method NextSegment(file: seq<Byte>, phoff: nat, phnum: nat, i: nat, ghost segs: seq<Segment>) returns (ok: bool)
      requires Valid() && short.Served?
      requires AreSegments(file, phoff, phnum, segs) && i <= |segs| && i < phnum && Filled(file, segs, i)
      requires i < |segs| ==> Fits(segs[i])
      modifies this`pages, this`short, owner`data, owner.ctx`own, owner.ctx.ram`mem, owner.ctx.ram`head,
               owner.ctx.ram`free
      ensures ok ==> i < |segs| && Filled(file, segs, i + 1) && AllInFile(file, segs[i])
      ensures ok ==> short.Served?
      ensures owner.Stock() == old(owner.Stock()) - Lost(short) && Lost(short) <= old(owner.Stock())
      ensures !ok ==> !short.Served? || i == |segs| || !AllInFile(file, segs[i])
      ensures Valid()
    {
      var s := FetchSegment(file, phoff, phnum, i, segs);
      if s.None? { return false; }
      if s.value.load {
        ok := LoadSegment(file, s.value, segs, i);
      } else {
        LoadingStarts(pages, Mem(), file, segs, i);
        LoadingEnds(pages, Mem(), file, segs, i, Lo(segs[i]));
        ok := true;
      }
    }

    /** Pass 1: every PT_LOAD segment gets its pages allocated, zeroed and filled. */
    method LoadSegments(file: seq<Byte>, phoff: nat, phnum: nat, ghost segs: seq<Segment>) returns (ok: bool)
      requires Valid() && short.Served? && pages == map[] && AreSegments(file, phoff, phnum, segs)
      requires forall i :: 0 <= i < |segs| ==> Fits(segs[i])
      modifies this`pages, this`short, owner`data, owner.ctx`own, owner.ctx.ram`mem, owner.ctx.ram`head,
               owner.ctx.ram`free
      ensures ok ==> Complete(file, segs, phnum) && Filled(file, segs, phnum)
      ensures ok ==> short.Served?
      ensures owner.Stock() == old(owner.Stock()) - Lost(short) && Lost(short) <= old(owner.Stock())
      ensures !ok ==> !short.Served? || !Complete(file, segs, phnum)
      ensures Valid()
    {
      var i := 0;
      NothingFilled(Mem(), file, segs);
      while i < phnum
        invariant Valid() && i <= |segs| <= phnum && Filled(file, segs, i) && Backed(file, segs, i)
        invariant short.Served? && owner.Stock() == old(owner.Stock())
      {
        ok := NextSegment(file, phoff, phnum, i, segs);
        if !ok {
          if short.Served? { NotComplete(file, segs, phnum, i); }
          return;
        }
        BackedNext(file, segs, i);
        i := i + 1;
      }
      assert i == |segs| == phnum;
      BackedIsComplete(file, segs);
      ok := true;
    }

    // -------------------------------------------------------------------------------------------
    // Pass 2

    method ProtectPage(s: Segment, page: nat, ghost segs: seq<Segment>, ghost k: nat, ghost first: map<nat, Mapping>)
      requires Valid() && short.Served?
      requires k < |segs| && s == segs[k] && page % PAGE_SIZE == 0 && Covers(s, page) && page in pages
      requires Protected(pages, first, segs, k, page)
      modifies this`pages, this`short, owner`data, owner.ctx`own, owner.ctx.ram`mem, owner.ctx.ram`head,
               owner.ctx.ram`free
      ensures short.Served? && owner.Stock() == old(owner.Stock())
      ensures Protected(pages, first, segs, k, page + PAGE_SIZE)
      ensures SameIn(old(owner.ctx.ram.mem), owner.ctx.ram.mem, pages)
      ensures Valid()
    {
      MappedAt(page);
      var phys := VirtToPhys(page);
      ghost var was := pages;
      AllMapped();
      var ok := MapPage(page, phys, Protection(s));
      ProtectedNext(was, pages, first, segs, k, page);
    }

    /** The page loop of pass 2: only permissions change, and only on the segment's pages. */
    method ProtectSegment(s: Segment, ghost segs: seq<Segment>, ghost k: nat, ghost first: map<nat, Mapping>)
      requires Valid() && short.Served? && k < |segs| && s == segs[k] && s.load && ProtectedBy(pages, first, segs, k)
      requires AllThere(pages.Keys, segs)
      modifies this`pages, this`short, owner`data, owner.ctx`own, owner.ctx.ram`mem, owner.ctx.ram`head,
               owner.ctx.ram`free
      ensures short.Served? && owner.Stock() == old(owner.Stock())
      ensures ProtectedBy(pages, first, segs, k + 1) && SameIn(old(owner.ctx.ram.mem), owner.ctx.ram.mem, first)
      ensures Valid()
    {
      ProtectedStarts(pages, first, segs, k);
      AllMapped();
      assert SameIn(owner.ctx.ram.mem, owner.ctx.ram.mem, first);
      var page := Lo(s);
      while page < Hi(s)
        invariant Valid() && page % PAGE_SIZE == 0 && Lo(s) <= page && Protected(pages, first, segs, k, page)
        invariant short.Served? && owner.Stock() == old(owner.Stock())
        invariant SameIn(old(owner.ctx.ram.mem), owner.ctx.ram.mem, first)
        decreases Hi(s) - page
      {
        assert ThereAt(pages.Keys, segs[k], page);
        NextIsPage(page);
        ghost var mem1 := owner.ctx.ram.mem;
        ProtectPage(s, page, segs, k, first);
        SameFrames(old(owner.ctx.ram.mem), mem1, owner.ctx.ram.mem, first, pages);
        page := page + PAGE_SIZE;
      }
      ProtectedEnds(pages, first, segs, k, page);
    }

    /** Pass 2: now that every segment is loaded, the real permissions. */
    method ProtectSegments(file: seq<Byte>, phoff: nat, phnum: nat, ghost segs: seq<Segment>)
      requires Valid() && short.Served?
      requires AreSegments(file, phoff, phnum, segs) && |segs| == phnum && AllThere(pages.Keys, segs)
      modifies this`pages, this`short, owner`data, owner.ctx`own, owner.ctx.ram`mem, owner.ctx.ram`head,
               owner.ctx.ram`free
      ensures short.Served? && owner.Stock() == old(owner.Stock())
      ensures ProtectedBy(pages, old(pages), segs, phnum)
      ensures SameIn(old(owner.ctx.ram.mem), owner.ctx.ram.mem, old(pages))
      ensures Valid()
    {
      ghost var first, mem0 := pages, owner.ctx.ram.mem;
      AllMapped();
      assert SameIn(mem0, mem0, first);
      var i := 0;
      while i < phnum
        invariant Valid() && i <= phnum && ProtectedBy(pages, first, segs, i)
        invariant short.Served? && owner.Stock() == old(owner.Stock())
        invariant SameIn(mem0, owner.ctx.ram.mem, first)
      {
        var s := FetchSegment(file, phoff, phnum, i, segs);
        if s.value.load {
          ghost var mem1 := owner.ctx.ram.mem;
          ProtectSegment(s.value, segs, i, first);
          SameFrames(mem0, mem1, owner.ctx.ram.mem, first, first);
        }
        i := i + 1;
      }
    }
  }

  /** No segment reaches out of the lower half or wraps around. */
  ghost predicate AllFit(file: seq<Byte>, h: Header) {
    var segs := Segments(file, h.phoff, 0, h.phnum);
    forall i :: 0 <= i < |segs| ==> Fits(segs[i])
  }

  ghost predicate Whole(file: seq<Byte>, h: Header) { Complete(file, Segments(file, h.phoff, 0, h.phnum), h.phnum) }

  ghost predicate HoldsImage(pages: map<nat, Mapping>, mem: map<nat, FilePage>, file: seq<Byte>, segs: seq<Segment>) {
    && FilledIn(pages, mem, file, segs, |segs|)
    && (forall i :: 0 <= i < |segs| ==> AllInFile(file, segs[i]))
    && (forall q :: q in pages ==> pages[q].flags == LastFlags(segs, |segs|, q, FILL_FLAGS))
    && (forall p, q :: p in pages && q in pages && p != q ==> pages[p].frame != pages[q].frame)
  }

  /** The process image. */
  ghost predicate Executable(pages: map<nat, Mapping>, mem: map<nat, FilePage>, file: seq<Byte>, h: Header,
                             entry: nat) {
    var segs := Segments(file, h.phoff, 0, h.phnum);
    |segs| == h.phnum && entry == h.entry && HoldsImage(pages, mem, file, segs)
  }

  lemma {:induction false} DefaultUnused(segs: seq<Segment>, k: nat, p: nat, d: Flags, e: Flags)
    requires k <= |segs| && CoveredBy(segs, k, p)
    ensures LastFlags(segs, k, p, d) == LastFlags(segs, k, p, e)
    decreases k
  {
    if !Covers(segs[k - 1], p) { DefaultUnused(segs, k - 1, p, d, e); }
  }

  lemma FlagsAreOwn(pages: map<nat, Mapping>, first: map<nat, Mapping>, segs: seq<Segment>)
    requires ProtectedBy(pages, first, segs, |segs|)
    requires forall q :: q in pages ==> q % PAGE_SIZE == 0 && CoveredBy(segs, |segs|, q)
    ensures forall q :: q in pages ==> pages[q].flags == LastFlags(segs, |segs|, q, FILL_FLAGS)
  {
    forall q | q in pages ensures pages[q].flags == LastFlags(segs, |segs|, q, FILL_FLAGS) {
      DefaultUnused(segs, |segs|, q, first[q].flags, FILL_FLAGS);
    }
  }

  /**
   elf_load, after the path is resolved, into a fresh address space: on success exactly the pages of the
   segments are mapped, each with the image's bytes and the permissions of the last segment covering it.
   It succeeds exactly when the file is an executable for the machine, it is complete, and memory lasts.
   */
  method Load(space: Space, file: Option<seq<Byte>>, machine: nat) returns (r: int, entry: nat)
    requires space.Valid() && space.pages == map[] && space.short.Served?
    requires file.Some? && ReadHeader(file.value, machine).Some? ==>
             AllFit(file.value, ReadHeader(file.value, machine).value)
    modifies space`pages, space`short, space.owner`data, space.owner.ctx`own
    modifies space.owner.ctx.ram`mem, space.owner.ctx.ram`head, space.owner.ctx.ram`free
    ensures r == 0 || r == -1
    ensures file.None? || ReadHeader(file.value, machine).None? ==> r == -1 && space.pages == old(space.pages)
    ensures r == 0 <==> file.Some? && ReadHeader(file.value, machine).Some? && space.short.Served? &&
                        Whole(file.value, ReadHeader(file.value, machine).value)
    ensures r == 0 ==> Executable(space.pages, space.Mem(), file.value, ReadHeader(file.value, machine).value, entry)
    ensures space.owner.Stock() == old(space.owner.Stock()) - Lost(space.short)
    ensures Lost(space.short) <= old(space.owner.Stock())
    ensures space.Valid()
  {
    entry := 0;
    if file.None? { return -1, 0; }
    var h := ReadHeader(file.value, machine);
    if h.None? { return -1, 0; }
    ghost var segs := Segments(file.value, h.value.phoff, 0, h.value.phnum);
    SegmentsAre(file.value, h.value.phoff, h.value.phnum);
    var ok := space.LoadSegments(file.value, h.value.phoff, h.value.phnum, segs);
    if !ok { return -1, 0; }
    ghost var first, mem := space.pages, space.owner.ctx.ram.mem;
    FilledIsThere(first, space.Mem(), file.value, segs);
    space.ProtectSegments(file.value, h.value.phoff, h.value.phnum, segs);
    StillFilled(space.pages, space.owner.ctx.ram.mem, first, mem, file.value, segs);
    FlagsAreOwn(space.pages, first, segs);
    space.AllApart();
    return 0, h.value.entry;
  }

  /** The byte a process finds at an address. */
  function ByteAtAddress(pages: map<nat, Mapping>, mem: map<nat, FilePage>, a: nat): Option<Byte> {
    var p := PageDown(a);
    if p in pages && pages[p].frame in mem then Some(mem[pages[p].frame][a - p]) else None
  }

  lemma BackedIsInFile(file: seq<Byte>, s: Segment, p: nat, a: nat)
    requires AllInFile(file, s) && p == PageDown(a) && Covers(s, p) && s.vaddr <= a < s.vaddr + s.filesz
    ensures s.offset + (a - s.vaddr) < |file|
  {
    SamePage(s, p, a - p);
    assert Backs(s, a) && InFile(file, s, p);
  }

  lemma PageOfRange(s: Segment, a: nat)
    requires s.load && s.vaddr <= a < s.vaddr + s.memsz
    ensures Covers(s, PageDown(a))
  {
    var l, h, q := Lo(s) / PAGE_SIZE, Hi(s) / PAGE_SIZE, a / PAGE_SIZE;
    assert Lo(s) == l * PAGE_SIZE && Hi(s) == h * PAGE_SIZE && PageDown(a) == q * PAGE_SIZE;
  }

  /**
   For segments whose memory does not overlap, every byte of every PT_LOAD range is there: the file's
   byte, or zero beyond the file size, even where segments share a page.
   */
  lemma EveryByte(pages: map<nat, Mapping>, mem: map<nat, FilePage>, file: seq<Byte>, segs: seq<Segment>, j: nat,
                  a: nat)
    requires HoldsImage(pages, mem, file, segs) && Separate(segs)
    requires j < |segs| && segs[j].load && segs[j].vaddr <= a < segs[j].vaddr + segs[j].memsz
    ensures var s := segs[j];
            if a < s.vaddr + s.filesz then
              s.offset + (a - s.vaddr) < |file| && ByteAtAddress(pages, mem, a) == Some(file[s.offset + (a - s.vaddr)])
            else ByteAtAddress(pages, mem, a) == Some(0)
  {
    var s, p := segs[j], PageDown(a);
    PageOfRange(s, a);
    CoversMeansCovered(segs, |segs|, j, p);
    assert FilledAt(pages, mem, file, segs, |segs|, p);
    assert ByteAtAddress(pages, mem, a) == Some(PageAt(pages, mem, p)[a - p]);
    PageImageByte(file, segs, |segs|, p, a - p);
    OwnByte(file, segs, |segs|, j, a);
    if a < s.vaddr + s.filesz { BackedIsInFile(file, s, p, a); }
  }

  /** The byte the hardware finds at an address of the lower half. */
  ghost function HardwareByte(s: AddressSpace, a: nat): Option<Byte>
    reads s, s.ram
  {
    var m := s.View(a / PAGE_SIZE);
    if m.Some? && m.value.frame in s.ram.mem then Some(BytesOf(s.ram.mem[m.value.frame])[a % PAGE_SIZE]) else None
  }

  lemma PageParts(a: nat)
    ensures PageDown(a) / PAGE_SIZE == a / PAGE_SIZE && a - PageDown(a) == a % PAGE_SIZE && PageDown(a) % PAGE_SIZE == 0
  {
  }

  /** What the loader put there is what the hardware finds. */
  lemma HardwareFinds(space: Space, a: nat)
    requires space.Valid() && a < ADDR_SPLIT
    ensures HardwareByte(space.owner.ctx, a) == ByteAtAddress(space.pages, space.Mem(), a)
  {
    var p := PageDown(a);
    PageParts(a);
    space.Seen(p);
    if p in space.pages { space.MappedAt(p); }
  }

  /**
   Loading a program, or failing to, and destroying its address space gives every frame back, but for one
   that had been taken when there was no memory for its tables.
   */
  method LoadAndDestroy(space: Space, file: Option<seq<Byte>>, machine: nat) returns (r: int)
    requires space.Valid() && space.pages == map[] && space.short.Served?
    requires file.Some? && ReadHeader(file.value, machine).Some? ==>
             AllFit(file.value, ReadHeader(file.value, machine).value)
    modifies space`pages, space`short, space.owner`data, space.owner.ctx`own
    modifies space.owner.ctx.ram`mem, space.owner.ctx.ram`head, space.owner.ctx.ram`free
    ensures space.owner.ctx.ram.Valid()
    ensures Elements(space.owner.ctx.ram.free) == old(space.owner.Stock()) - Lost(space.short)
    ensures Lost(space.short) <= old(space.owner.Stock())
  {
    var entry;
    r, entry := Load(space, file, machine);
    space.owner.Destroy();
  }
}
