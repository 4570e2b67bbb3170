/**
 The initial stack of a process (elf_build_user_stack in kernel/src/proc/elf.c; section 3.4.1 of the
 System V AMD64 psABI), built downward in one page and read back upward.
 */
module UserStack {
  import opened Base
  import opened Endian
  import opened PageBytes
  import opened Pmm
  import opened Pte
  import opened SparseFile
  import opened Teardown
  import opened Tokenizer
  import opened Vmm

  // ---------------------------------------------------------------------------------------------
  // Words and strings in a page

  function WordAt(b: seq<Byte>, c: nat): nat
    requires c + 8 <= |b|
  {
    Value(b[c..c + 8])
  }

  /** The word number `i` from `c` upward is `w`. */
  ghost predicate HasWord(b: seq<Byte>, c: nat, i: nat, w: nat) { c + 8 * i + 8 <= |b| && WordAt(b, c + 8 * i) == w }

  /** The words `ws` lie upward from `c`. */
  ghost predicate WordsAt(b: seq<Byte>, c: nat, ws: seq<nat>) {
    c + 8 * |ws| <= |b| && forall i {:trigger HasWord(b, c, i, ws[i])} :: 0 <= i < |ws| ==> HasWord(b, c, i, ws[i])
  }

  ghost predicate ZeroBelow(b: seq<Byte>, c: nat) { c <= |b| && forall i :: 0 <= i < c ==> b[i] == 0 }

  /** The two pages agree from `c` on. */
  ghost predicate SameFrom(b: seq<Byte>, b': seq<Byte>, c: nat) { |b'| == |b| && c <= |b| && b'[c..] == b[c..] }

  lemma WordKept(b: seq<Byte>, b': seq<Byte>, c: nat, at: nat, i: nat, w: nat)
    requires HasWord(b, at, i, w) && SameFrom(b, b', c) && c <= at
    ensures HasWord(b', at, i, w)
  {
    var p := at + 8 * i;
    assert b'[p..p + 8] == b'[c..][p - c..p - c + 8] && b[p..p + 8] == b[c..][p - c..p - c + 8];
  }

  lemma WordsKept(b: seq<Byte>, b': seq<Byte>, c: nat, at: nat, ws: seq<nat>)
    requires WordsAt(b, at, ws) && SameFrom(b, b', c) && c <= at
    ensures WordsAt(b', at, ws)
  {
    forall i | 0 <= i < |ws| ensures HasWord(b', at, i, ws[i]) {
      assert HasWord(b, at, i, ws[i]);
      WordKept(b, b', c, at, i, ws[i]);
    }
  }

  lemma WordsMore(b: seq<Byte>, c: nat, w: nat, ws: seq<nat>)
    requires HasWord(b, c, 0, w) && WordsAt(b, c + 8, ws)
    ensures WordsAt(b, c, [w] + ws)
  {
    var all := [w] + ws;
    forall i | 0 <= i < |all| ensures HasWord(b, c, i, all[i]) {
      if i > 0 { assert HasWord(b, c + 8, i - 1, ws[i - 1]); }
    }
  }

  lemma StringKept(b: seq<Byte>, b': seq<Byte>, c: nat, p: nat, w: seq<Byte>)
    requires StringAt(b, p, w) && SameFrom(b, b', c) && c <= p
    ensures StringAt(b', p, w)
  {
    assert b'[p..p + |w|] == b'[c..][p - c..p - c + |w|] && b[p..p + |w|] == b[c..][p - c..p - c + |w|];
    assert b'[p + |w|] == b'[c..][p + |w| - c] && b[p + |w|] == b[c..][p + |w| - c];
  }

  /** Each string lies at its place, at or above `c`. */
  ghost predicate StringsAt(b: seq<Byte>, c: nat, at: seq<nat>, strs: seq<seq<Byte>>) {
    |at| == |strs| && forall i :: 0 <= i < |strs| ==> c <= at[i] && StringAt(b, at[i], strs[i])
  }

  lemma StringsKept(b: seq<Byte>, b': seq<Byte>, c: nat, d: nat, at: seq<nat>, strs: seq<seq<Byte>>)
    requires StringsAt(b, d, at, strs) && SameFrom(b, b', c) && c <= d
    ensures StringsAt(b', d, at, strs)
  {
    forall i | 0 <= i < |strs| ensures StringAt(b', at[i], strs[i]) { StringKept(b, b', c, at[i], strs[i]); }
  }

  /** The bytes of the strings with their terminators. */
  function Total(strs: seq<seq<Byte>>): nat {
    if strs == [] then 0 else Total(strs[..|strs| - 1]) + |strs[|strs| - 1]| + 1
  }

  /** The first strings lie between `low` and `top`, each below the one before. */
  ghost predicate Stacked(low: nat, top: nat, at: seq<nat>, strs: seq<seq<Byte>>) {
    && |at| <= |strs| && (forall i :: 0 <= i < |at| ==> low <= at[i] && at[i] + |strs[i]| + 1 <= top)
    && forall i, j :: 0 <= i < j < |at| ==> at[j] + |strs[j]| + 1 <= at[i]
  }

  ghost predicate Disjoint(a: nat, n: nat, b: nat, m: nat) { a + n <= b || b + m <= a }

  /** No two strings, terminators included, have a byte in common. */
  ghost predicate NoOverlap(at: seq<nat>, strs: seq<seq<Byte>>) {
    |at| == |strs| && forall i, j :: 0 <= i < j < |strs| ==> Disjoint(at[i], |strs[i]| + 1, at[j], |strs[j]| + 1)
  }

  lemma StackedNext(low: nat, top: nat, at: seq<nat>, strs: seq<seq<Byte>>, p: nat)
    requires Stacked(low, top, at, strs) && |at| < |strs| && p + |strs[|at|]| + 1 == low <= top
    ensures Stacked(p, top, at + [p], strs)
  {
  }

  /** Stacking one list of strings below another keeps all of them apart. */
  lemma StackedApart(low: nat, mid: nat, top: nat, at: seq<nat>, argv: seq<seq<Byte>>, bt: seq<nat>,
                     envp: seq<seq<Byte>>)
    requires Stacked(mid, top, at, argv) && |at| == |argv| && Stacked(low, mid, bt, envp) && |bt| == |envp|
    ensures NoOverlap(at + bt, argv + envp)
  {
    var places, all := at + bt, argv + envp;
    forall i, j | 0 <= i < j < |all| ensures Disjoint(places[i], |all[i]| + 1, places[j], |all[j]| + 1) {
      if j < |argv| {
        assert at[j] + |argv[j]| + 1 <= at[i];
      } else if i >= |argv| {
        assert bt[j - |argv|] + |envp[j - |argv|]| + 1 <= bt[i - |argv|];
      }
    }
  }

  /** A page with some bytes replaced. */
  function Patched(b: seq<Byte>, at: nat, bytes: seq<Byte>): (r: seq<Byte>)
    requires at + |bytes| <= |b|
    ensures |r| == |b|
  {
    b[..at] + bytes + b[at + |bytes|..]
  }

  lemma PatchedParts(b: seq<Byte>, at: nat, bytes: seq<Byte>, c: nat)
    requires at + |bytes| <= c <= |b|
    ensures var r := Patched(b, at, bytes);
            r[at..at + |bytes|] == bytes && SameFrom(b, r, c) && (ZeroBelow(b, c) ==> ZeroBelow(r, at))
  {
    var r := Patched(b, at, bytes);
    assert r[c..] == b[c..];
    assert forall i :: 0 <= i < at ==> r[i] == b[i];
  }

  lemma TotalPrefix(strs: seq<seq<Byte>>, i: nat)
    requires i < |strs|
    ensures Total(strs[..i + 1]) == Total(strs[..i]) + |strs[i]| + 1 <= Total(strs)
    decreases |strs| - i
  {
    assert strs[..i + 1][..i] == strs[..i];
    if i + 1 < |strs| { TotalPrefix(strs, i + 1); } else { assert strs[..i + 1] == strs; }
  }

  /** One more string, below the others. */
  lemma OneString(b: seq<Byte>, c: nat, d: nat, at: seq<nat>, strs: seq<seq<Byte>>, i: nat)
    requires i < |strs| && d + |strs[i]| + 1 == c <= |b| && ZeroBelow(b, c) && StringsAt(b, c, at, strs[..i])
    ensures var r := Patched(b, d, strs[i] + [NUL]);
            ZeroBelow(r, d) && SameFrom(b, r, c) && StringsAt(r, d, at + [d], strs[..i + 1])
  {
    var w := strs[i];
    var r := Patched(b, d, w + [NUL]);
    PatchedParts(b, d, w + [NUL], c);
    StringsKept(b, r, c, c, at, strs[..i]);
    var all := r[d..d + |w| + 1];
    assert all == w + [NUL];
    assert r[d..d + |w|] == all[..|w|] && r[d + |w|] == all[|w|];
    assert StringAt(r, d, w);
    forall j | 0 <= j < i + 1 ensures d <= (at + [d])[j] && StringAt(r, (at + [d])[j], strs[..i + 1][j]) {
      if j < i { assert strs[..i][j] == strs[j]; }
    }
  }

  /** Eight bytes put below the other words are one more word. */
  lemma WordPatched(b: seq<Byte>, c: nat, bytes: seq<Byte>, ws: seq<nat>)
    requires 8 <= c <= |b| && |bytes| == 8 && WordsAt(b, c, ws) && ZeroBelow(b, c)
    ensures var r := Patched(b, c - 8, bytes);
            WordsAt(r, c - 8, [Value(bytes)] + ws) && ZeroBelow(r, c - 8) && SameFrom(b, r, c)
  {
    var r := Patched(b, c - 8, bytes);
    PatchedParts(b, c - 8, bytes, c);
    WordsKept(b, r, c, c, ws);
    assert HasWord(r, c - 8, 0, Value(bytes));
    WordsMore(r, c - 8, Value(bytes), ws);
  }

  /** One more word, below the others; a zero needs no write. */
  lemma OneWord(b: seq<Byte>, c: nat, w: nat, ws: seq<nat>)
    requires 8 <= c <= |b| && w < TWO_64 && WordsAt(b, c, ws) && ZeroBelow(b, c)
    ensures var r := Patched(b, c - 8, LittleEndian(w, 8));
            WordsAt(r, c - 8, [w] + ws) && ZeroBelow(r, c - 8) && SameFrom(b, r, c)
  {
    Pow256Is();
    ValueOfLittleEndian(w, 8);
    WordPatched(b, c, LittleEndian(w, 8), ws);
  }

  lemma {:induction false} ZeroValue(z: seq<Byte>)
    requires forall i :: 0 <= i < |z| ==> z[i] == 0
    ensures Value(z) == 0
    decreases |z|
  {
    if z != [] { ZeroValue(z[1..]); }
  }

  lemma ZeroWord(b: seq<Byte>, c: nat, ws: seq<nat>)
    requires 8 <= c <= |b| && WordsAt(b, c, ws) && ZeroBelow(b, c)
    ensures WordsAt(b, c - 8, [0] + ws) && ZeroBelow(b, c - 8)
  {
    ZeroValue(b[c - 8..c]);
    WordsMore(b, c - 8, 0, ws);
  }

  // ---------------------------------------------------------------------------------------------
  // Building

  /** memcpy into the page. */
  method Put(base: array<Byte>, at: nat, bytes: seq<Byte>)
    requires at + |bytes| <= base.Length
    modifies base
    ensures base[..] == Patched(old(base[..]), at, bytes)
  {
    forall i | 0 <= i < |bytes| { base[at + i] := bytes[i]; }
    assert forall i :: at <= i < at + |bytes| ==> base[i] == bytes[i - at];
  }

  lemma SameFromTwice(a: seq<Byte>, b: seq<Byte>, c: seq<Byte>, x: nat, y: nat)
    requires SameFrom(a, b, x) && SameFrom(b, c, y) && y <= x
    ensures SameFrom(a, c, x)
  {
    assert c[x..] == c[y..][x - y..] && b[x..] == b[y..][x - y..];
  }

  /** One string: the cursor moves down by its length, and there it goes. */
  method PutString(base: array<Byte>, top: nat, w: seq<Byte>, ghost at: seq<nat>, ghost strs: seq<seq<Byte>>,
                   ghost i: nat, ghost b0: seq<Byte>, ghost c0: nat)
    returns (cursor: nat)
    requires i < |strs| && w == strs[i] && |w| + 1 <= top <= base.Length
    requires ZeroBelow(base[..], top) && StringsAt(base[..], top, at, strs[..i]) && SameFrom(b0, base[..], c0)
    requires top <= c0
    modifies base
    ensures cursor == top - (|w| + 1) && ZeroBelow(base[..], cursor) && SameFrom(b0, base[..], c0)
    ensures StringsAt(base[..], cursor, at + [cursor], strs[..i + 1])
  {
    cursor := top - (|w| + 1);
    ghost var b := base[..];
    OneString(b, top, cursor, at, strs, i);
    SameFromTwice(b0, b, Patched(b, cursor, w + [NUL]), c0, top);
    Put(base, cursor, w + [NUL]);
  }

  /** The strings, each below the one before; their places. */
  method PutStrings(base: array<Byte>, top: nat, strs: seq<seq<Byte>>) returns (cursor: nat, at: seq<nat>)
    requires top <= base.Length && Total(strs) <= top && ZeroBelow(base[..], top)
    modifies base
    ensures cursor == top - Total(strs) && ZeroBelow(base[..], cursor) && SameFrom(old(base[..]), base[..], top)
    ensures StringsAt(base[..], cursor, at, strs) && Stacked(cursor, top, at, strs)
  {
    cursor, at := top, [];
    var i := 0;
    while i < |strs|
      invariant 0 <= i <= |strs| && |at| == i && cursor + Total(strs[..i]) == top
      invariant ZeroBelow(base[..], cursor) && SameFrom(old(base[..]), base[..], top)
      invariant StringsAt(base[..], cursor, at, strs[..i]) && Stacked(cursor, top, at, strs)
    {
      TotalPrefix(strs, i);
      ghost var low := cursor;
      cursor := PutString(base, cursor, strs[i], at, strs, i, old(base[..]), top);
      StackedNext(low, top, at, strs, cursor);
      at := at + [cursor];
      i := i + 1;
    }
    assert strs[..i] == strs;
  }

  /** One word, below the others. */
  method PutWord(base: array<Byte>, at: nat, w: nat, ghost ws: seq<nat>, ghost b0: seq<Byte>, ghost c0: nat)
    requires at + 8 <= base.Length && w < TWO_64 && ZeroBelow(base[..], at + 8) && WordsAt(base[..], at + 8, ws)
    requires SameFrom(b0, base[..], c0) && at + 8 <= c0
    modifies base
    ensures ZeroBelow(base[..], at) && WordsAt(base[..], at, [w] + ws) && SameFrom(b0, base[..], c0)
  {
    ghost var b := base[..];
    OneWord(b, at + 8, w, ws);
    SameFromTwice(b0, b, Patched(b, at, LittleEndian(w, 8)), c0, at + 8);
    Put(base, at, LittleEndian(w, 8));
  }

  /** Pointers from the last to the first, each below the one before. */
  method PutPointers(base: array<Byte>, top: nat, ptrs: seq<nat>, ghost ws: seq<nat>) returns (cursor: nat)
    requires 8 * |ptrs| <= top <= base.Length && ZeroBelow(base[..], top) && WordsAt(base[..], top, ws)
    requires forall i :: 0 <= i < |ptrs| ==> ptrs[i] < TWO_64
    modifies base
    ensures cursor == top - 8 * |ptrs| && ZeroBelow(base[..], cursor) && SameFrom(old(base[..]), base[..], top)
    ensures WordsAt(base[..], cursor, ptrs + ws)
  {
    cursor := top;
    var i := |ptrs|;
    assert ptrs[i..] + ws == ws;
    while i > 0
      invariant 0 <= i <= |ptrs| && cursor == top - 8 * (|ptrs| - i)
      invariant ZeroBelow(base[..], cursor) && SameFrom(old(base[..]), base[..], top)
      invariant WordsAt(base[..], cursor, ptrs[i..] + ws)
    {
      i := i - 1;
      PutWord(base, cursor - 8, ptrs[i], ptrs[i + 1..] + ws, old(base[..]), top);
      assert [ptrs[i]] + (ptrs[i + 1..] + ws) == ptrs[i..] + ws;
      cursor := cursor - 8;
    }
    assert ptrs[0..] + ws == ptrs + ws;
  }

  function Pointers(vaddr: nat, at: seq<nat>): (r: seq<nat>)
    ensures |r| == |at| && forall i :: 0 <= i < |at| ==> r[i] == vaddr + at[i]
  {
    seq(|at|, i requires 0 <= i < |at| => vaddr + at[i])
  }

  /** From argc through the two words of AT_NULL. */
  function Slots(argc: nat, envc: nat): nat { 1 + (argc + 1) + (envc + 1) + 2 }

  /** Where the table starts, below `bytes` of strings, aligned up to a whole number of words. */
  function TableTop(bytes: nat, slots: nat): int {
    var c := (PAGE_SIZE - bytes) / 8 * 8;
    if (c - slots * 8) % 16 != 0 then c - 8 else c
  }

  /** The strings and the table fit in the page. */
  predicate Fits(bytes: nat, slots: nat) { bytes <= PAGE_SIZE && TableTop(bytes, slots) >= 8 * slots }

  /** Whatever the strings, argc lands on a multiple of sixteen. */
  lemma TopIsAligned(bytes: nat, slots: nat)
    ensures (TableTop(bytes, slots) - 8 * slots) % 16 == 0 && TableTop(bytes, slots) <= PAGE_SIZE - bytes
  {
    var m := (PAGE_SIZE - bytes) / 8 - slots;
    assert (PAGE_SIZE - bytes) / 8 * 8 - slots * 8 == 8 * m;
    assert (8 * m) % 16 == 0 || (8 * m - 8) % 16 == 0 by { assert m == m / 2 * 2 || m == m / 2 * 2 + 1; }
  }

  lemma PageSum(vaddr: nat, c: nat, sp: nat)
    requires vaddr % 4096 == 0 && c % 16 == 0 && sp == vaddr + c
    ensures sp % 16 == 0
  {
    var q, m := vaddr / 4096, c / 16;
    assert vaddr == 4096 * q && c == 16 * m;
    assert sp == 16 * (256 * q + m);
  }

  /** What lies upward from argc. */
  function Table(argc: nat, argvPtrs: seq<nat>, envPtrs: seq<nat>): seq<nat> {
    [argc] + (argvPtrs + ([0] + (envPtrs + [0, 0, 0])))
  }

  /** A stack page: the table at `c`, and above it the strings it points to, without overlap. */
  ghost predicate Laid(b: seq<Byte>, vaddr: nat, c: nat, argv: seq<seq<Byte>>, envp: seq<seq<Byte>>, at: seq<nat>,
                       bt: seq<nat>) {
    && |b| == PAGE_SIZE && WordsAt(b, c, Table(|argv|, Pointers(vaddr, at), Pointers(vaddr, bt)))
    && StringsAt(b, c + 8 * Slots(|argv|, |envp|), at, argv) && StringsAt(b, c + 8 * Slots(|argv|, |envp|), bt, envp)
    && NoOverlap(at + bt, argv + envp)
  }

  /** Aligns the cursor and pads it, so that argc lands on a multiple of sixteen. */
  method TableStart(low: nat, slots: nat) returns (top: nat)
    requires low <= PAGE_SIZE && Fits(PAGE_SIZE - low, slots)
    ensures 8 * slots <= top <= low && (top - 8 * slots) % 16 == 0 && top == TableTop(PAGE_SIZE - low, slots)
  {
    TopIsAligned(PAGE_SIZE - low, slots);
    top := low / 8 * 8;
    if (top - slots * 8) % 16 != 0 { top := top - 8; }
  }

  lemma SameFromUp(a: seq<Byte>, b: seq<Byte>, x: nat, y: nat)
    requires SameFrom(a, b, x) && x <= y <= |a|
    ensures SameFrom(a, b, y)
  {
    assert a[y..] == a[x..][y - x..] && b[y..] == b[x..][y - x..];
  }

  lemma ThreeZeros(b: seq<Byte>, c: nat)
    requires 24 <= c <= |b| && ZeroBelow(b, c)
    ensures WordsAt(b, c - 24, [0, 0, 0]) && ZeroBelow(b, c - 24)
  {
    ZeroWord(b, c, []);
    ZeroWord(b, c - 8, [0] + []);
    ZeroWord(b, c - 16, [0] + ([0] + []));
    assert [0] + ([0] + ([0] + [])) == [0, 0, 0];
  }

  method PutWords(base: array<Byte>, top: nat, argvPtrs: seq<nat>, envPtrs: seq<nat>) returns (cursor: nat)
    requires base.Length == PAGE_SIZE && 8 * Slots(|argvPtrs|, |envPtrs|) <= top <= PAGE_SIZE
    requires ZeroBelow(base[..], top)
    requires forall i :: 0 <= i < |argvPtrs| ==> argvPtrs[i] < TWO_64
    requires forall i :: 0 <= i < |envPtrs| ==> envPtrs[i] < TWO_64
    modifies base
    ensures cursor == top - 8 * Slots(|argvPtrs|, |envPtrs|) && SameFrom(old(base[..]), base[..], top)
    ensures WordsAt(base[..], cursor, Table(|argvPtrs|, argvPtrs, envPtrs))
  {
    ghost var b0, b := base[..], base[..];
    // AT_NULL and the end of envp are zero already
    ThreeZeros(b, top);
    cursor := PutPointers(base, top - 24, envPtrs, [0, 0, 0]);
    b := base[..];
    SameFromUp(b0, b, top - 24, top);
    ZeroWord(b, cursor, envPtrs + [0, 0, 0]);
    cursor := cursor - 8;
    ghost var rest, c := [0] + (envPtrs + [0, 0, 0]), cursor;
    cursor := PutPointers(base, cursor, argvPtrs, rest);
    SameFromTwice(b0, b, base[..], top, c);
    cursor := cursor - 8;
    PutWord(base, cursor, |argvPtrs|, argvPtrs + rest, b0, top);
  }

  /** The pointer table, top down, below the strings: AT_NULL, envp, argv, argc. */
  method PutTable(base: array<Byte>, vaddr: nat, low: nat, top: nat, argvAt: seq<nat>, envAt: seq<nat>,
                  ghost argv: seq<seq<Byte>>, ghost envp: seq<seq<Byte>>)
    returns (cursor: nat)
    requires base.Length == PAGE_SIZE && vaddr + PAGE_SIZE < TWO_64
    requires 8 * Slots(|argv|, |envp|) <= top <= low <= PAGE_SIZE
    requires ZeroBelow(base[..], low) && StringsAt(base[..], low, argvAt, argv) && StringsAt(base[..], low, envAt, envp)
    requires NoOverlap(argvAt + envAt, argv + envp)
    modifies base
    ensures cursor == top - 8 * Slots(|argv|, |envp|) && Laid(base[..], vaddr, cursor, argv, envp, argvAt, envAt)
  {
    ghost var b := base[..];
    cursor := PutWords(base, top, Pointers(vaddr, argvAt), Pointers(vaddr, envAt));
    StringsKept(b, base[..], top, low, argvAt, argv);
    StringsKept(b, base[..], top, low, envAt, envp);
  }

  /** The strings of both lists, below the top of a page of zeros. */
  method PutBoth(base: array<Byte>, argv: seq<seq<Byte>>, envp: seq<seq<Byte>>)
    returns (low: nat, argvAt: seq<nat>, envAt: seq<nat>)
    requires base.Length == PAGE_SIZE && Total(argv) + Total(envp) <= PAGE_SIZE
    modifies base
    ensures low == PAGE_SIZE - (Total(argv) + Total(envp)) && ZeroBelow(base[..], low)
    ensures StringsAt(base[..], low, argvAt, argv) && StringsAt(base[..], low, envAt, envp)
    ensures NoOverlap(argvAt + envAt, argv + envp)
  {
    forall i | 0 <= i < base.Length { base[i] := 0; }
    low, argvAt := PutStrings(base, PAGE_SIZE, argv);
    ghost var b, c := base[..], low;
    low, envAt := PutStrings(base, low, envp);
    StringsKept(b, base[..], c, c, argvAt, argv);
    StackedApart(low, c, PAGE_SIZE, argvAt, argv, envAt, envp);
  }

  /** Strings and table, in a page of zeros. */
  method BuildIn(base: array<Byte>, vaddr: nat, argv: seq<seq<Byte>>, envp: seq<seq<Byte>>)
    returns (cursor: nat, ghost at: seq<nat>, ghost bt: seq<nat>)
    requires base.Length == PAGE_SIZE && vaddr + PAGE_SIZE < TWO_64
    requires Fits(Total(argv) + Total(envp), Slots(|argv|, |envp|))
    modifies base
    ensures cursor % 16 == 0 && Laid(base[..], vaddr, cursor, argv, envp, at, bt)
  {
    var low, argvAt, envAt := PutBoth(base, argv, envp);
    var top := TableStart(low, Slots(|argv|, |envp|));
    cursor := PutTable(base, vaddr, low, top, argvAt, envAt, argv, envp);
    at, bt := argvAt, envAt;
  }

  /** Writable for the user, not executable. */
  const STACK_FLAGS := Flags(true, true, true, false, true)

  /**
   The page at `vaddr` is mapped, with a stack laid out from offset `c` on, and nothing else is mapped differently.
   */
  ghost predicate HasStack(a: Arch, root: nat, mem: map<nat, Page>, mem': map<nat, Page>, frame: nat, vaddr: nat,
                           c: nat, argv: seq<seq<Byte>>, envp: seq<seq<Byte>>, at: seq<nat>, bt: seq<nat>) {
    && frame in mem' && Laid(BytesOf(mem'[frame]), vaddr, c, argv, envp, at, bt)
    && ViewUpdated(a, root, mem, mem', true, vaddr / PAGE_SIZE, Some(Mapping(frame, STACK_FLAGS)))
  }

  method MakePage(vaddr: nat, argv: seq<seq<Byte>>, envp: seq<seq<Byte>>)
    returns (page: FilePage, cursor: nat, ghost at: seq<nat>, ghost bt: seq<nat>)
    requires vaddr + PAGE_SIZE < TWO_64 && Fits(Total(argv) + Total(envp), Slots(|argv|, |envp|))
    ensures cursor % 16 == 0 && Laid(page, vaddr, cursor, argv, envp, at, bt)
  {
    var base := new Byte[PAGE_SIZE];
    cursor, at, bt := BuildIn(base, vaddr, argv, envp);
    page := base[..];
  }

  /** A frame that is nobody's is no page's, and the frames of pages are in memory. */
  lemma LooseIsApart(space: OwnedSpace, phys: nat)
    requires space.Valid() && space.Loose(phys)
    ensures forall v :: v in space.data ==> space.data[v] != phys && space.data[v] in space.ctx.ram.mem
  {
    forall v | v in space.data ensures space.data[v] != phys && space.data[v] in space.ctx.ram.mem {
      assert space.data[v] in space.data.Values;
      space.Accounted(space.data[v]);
    }
  }

  /** Puts the bytes into a frame of the caller's and maps it. */
  method Install(space: OwnedSpace, vaddr: nat, phys: nat, page: FilePage) returns (ok: bool)
    requires space.Valid() && space.Loose(phys) && vaddr < ADDR_SPLIT
    modifies space`data, space.ctx`own, space.ctx.ram`mem, space.ctx.ram`head, space.ctx.ram`free
    ensures !ok ==> space.ctx.ram.free == []
    ensures ok ==> phys in space.ctx.ram.mem && BytesOf(space.ctx.ram.mem[phys]) == page
    ensures ViewUpdated(space.ctx.arch, space.ctx.root, old(space.ctx.ram.mem), space.ctx.ram.mem, ok,
                        vaddr / PAGE_SIZE, Some(Mapping(phys, STACK_FLAGS)))
    ensures KeptIn(old(space.ctx.ram.mem), space.ctx.ram.mem, old(space.data))
    ensures space.data == if ok then old(space.data)[vaddr / PAGE_SIZE := phys] else old(space.data)
    ensures space.Stock() ==
            if ok then old(space.Stock()) + {phys} - Dropped(old(space.data), vaddr / PAGE_SIZE, phys)
            else old(space.Stock())
    ensures space.Valid()
  {
    ghost var mem0, data0 := space.ctx.ram.mem, space.data;
    LooseIsApart(space, phys);
    BytesStored(page);
    space.WriteFrame(phys, WordsOf(page));
    ghost var mem1 := space.ctx.ram.mem;
    assert KeptIn(mem0, mem1, data0);
    ghost var own1, free1 := space.ctx.own, space.ctx.ram.free;
    ok := space.Map(vaddr, phys, Flags(false, true, true, false, true));
    StockAfterMap(space.ctx.arch, mem1, free1, own1, data0, space.ctx.ram.free, space.ctx.own, space.data, ok,
                  vaddr / PAGE_SIZE, phys);
    KeptTwice(mem0, mem1, space.ctx.ram.mem, data0);
    ViewSame(space.ctx.arch, space.ctx.root, mem0, mem1, space.ctx.ram.mem, ok, vaddr / PAGE_SIZE,
             Some(Mapping(phys, STACK_FLAGS)));
    if ok { space.KeptByMap(mem1, vaddr / PAGE_SIZE, phys); }
  }

  /** Either there is a stack with its argc at `sp`, or `sp` is 0 and nothing is mapped differently. */
  ghost predicate StackBuilt(a: Arch, root: nat, mem: map<nat, Page>, mem': map<nat, Page>, frame: nat, vaddr: nat,
                             c: nat, sp: nat, argv: seq<seq<Byte>>, envp: seq<seq<Byte>>, at: seq<nat>, bt: seq<nat>) {
    if sp == 0 then ViewUpdated(a, root, mem, mem', false, 0, None)
    else sp == vaddr + c && sp % 16 == 0 && HasStack(a, root, mem, mem', frame, vaddr, c, argv, envp, at, bt)
  }

  lemma StackFacts(a: Arch, root: nat, m0: map<nat, Page>, m1: map<nat, Page>, ok: bool, vaddr: nat, frame: nat,
                   page: FilePage, c: nat, sp: nat, argv: seq<seq<Byte>>, envp: seq<seq<Byte>>,
                   at: seq<nat>, bt: seq<nat>)
    requires Laid(page, vaddr, c, argv, envp, at, bt) && (ok ==> frame in m1 && BytesOf(m1[frame]) == page)
    requires vaddr % PAGE_SIZE == 0 && c % 16 == 0 && vaddr > 0 && sp == if ok then vaddr + c else 0
    requires ViewUpdated(a, root, m0, m1, ok, vaddr / PAGE_SIZE, Some(Mapping(frame, STACK_FLAGS)))
    ensures StackBuilt(a, root, m0, m1, frame, vaddr, c, sp, argv, envp, at, bt)
  {
    PageSum(vaddr, c, vaddr + c);
    if !ok { ViewNotDone(a, root, m0, m1, vaddr / PAGE_SIZE, Some(Mapping(frame, STACK_FLAGS)), 0, None); }
  }

  /**
   The frame that is nobody's after a stack was placed at page `v`: the page's former frame, or the new one
   when there was no memory for its tables.
   */
  ghost function LostBy(ok: bool, data: map<nat, nat>, v: nat, frame: nat): set<nat> {
    if ok then Dropped(data, v, frame) else if frame == 0 then {} else {frame}
  }

  /** A fresh frame with the given bytes, mapped at `vaddr`. */
  method Place(space: OwnedSpace, vaddr: nat, page: FilePage) returns (ok: bool, ghost frame: nat)
    requires space.Valid() && vaddr < ADDR_SPLIT
    modifies space`data, space.ctx`own, space.ctx.ram`mem, space.ctx.ram`head, space.ctx.ram`free
    ensures !ok ==> space.ctx.ram.free == []
    ensures ok ==> frame in space.ctx.ram.mem && BytesOf(space.ctx.ram.mem[frame]) == page
    ensures ViewUpdated(space.ctx.arch, space.ctx.root, old(space.ctx.ram.mem), space.ctx.ram.mem, ok,
                        vaddr / PAGE_SIZE, Some(Mapping(frame, STACK_FLAGS)))
    ensures KeptIn(old(space.ctx.ram.mem), space.ctx.ram.mem, old(space.data))
    ensures space.data == if ok then old(space.data)[vaddr / PAGE_SIZE := frame] else old(space.data)
    ensures ok ==> frame !in old(space.data).Values
    ensures var lost := LostBy(ok, old(space.data), vaddr / PAGE_SIZE, frame);
            lost <= old(space.Stock()) && space.Stock() == old(space.Stock()) - lost
    ensures space.Valid()
  {
    ghost var mem0, data0, free0 := space.ctx.ram.mem, space.data, space.ctx.ram.free;
    var phys := space.TakeFrame();
    frame := phys;
    ghost var mem1, v, m := space.ctx.ram.mem, vaddr / PAGE_SIZE, Some(Mapping(phys, STACK_FLAGS));
    if phys == 0 {
      ViewNotDone(space.ctx.arch, space.ctx.root, mem0, mem1, 0, None, v, m);
      return false, 0;
    }
    StockTaken(free0, space.ctx.own, data0, phys, space.ctx.ram.free);
    assert free0[0] == phys;
    ok := Install(space, vaddr, phys, page);
    KeptTwice(mem0, mem1, space.ctx.ram.mem, data0);
    ViewSame(space.ctx.arch, space.ctx.root, mem0, mem1, space.ctx.ram.mem, ok, v, m);
  }

  /**
   elf_build_user_stack: the stack in a fresh page below `stackTop`, and where its argc lies; 0 when there
   is no memory for it.
   */
  method Build(space: OwnedSpace, stackTop: nat, argv: seq<seq<Byte>>, envp: seq<seq<Byte>>)
    returns (sp: nat, ghost vaddr: nat, ghost c: nat, ghost frame: nat, ghost at: seq<nat>, ghost bt: seq<nat>)
    requires space.Valid() && stackTop % PAGE_SIZE == 0 && PAGE_SIZE < stackTop <= ADDR_SPLIT
    requires Fits(Total(argv) + Total(envp), Slots(|argv|, |envp|))
    modifies space`data, space.ctx`own, space.ctx.ram`mem, space.ctx.ram`head, space.ctx.ram`free
    ensures sp == 0 ==> space.ctx.ram.free == []
    ensures vaddr + PAGE_SIZE == stackTop && vaddr % PAGE_SIZE == 0
    ensures space.data == if sp == 0 then old(space.data) else old(space.data)[vaddr / PAGE_SIZE := frame]
    ensures sp != 0 ==> frame !in old(space.data).Values
    ensures KeptIn(old(space.ctx.ram.mem), space.ctx.ram.mem, old(space.data))
    ensures var lost := LostBy(sp != 0, old(space.data), vaddr / PAGE_SIZE, frame);
            lost <= old(space.Stock()) && space.Stock() == old(space.Stock()) - lost
    ensures StackBuilt(space.ctx.arch, space.ctx.root, old(space.ctx.ram.mem), space.ctx.ram.mem, frame, vaddr, c, sp,
                       argv, envp, at, bt)
    ensures space.Valid()
  {
    var base := stackTop - PAGE_SIZE;
    ghost var mem0 := space.ctx.ram.mem;
    // the bytes depend on nothing in memory, so they may as well be made before there is a page for them
    var page, offset;
    page, offset, at, bt := MakePage(base, argv, envp);
    var ok;
    ok, frame := Place(space, base, page);
    vaddr, c := base, offset;
    sp := if ok then base + offset else 0;
    StackFacts(space.ctx.arch, space.ctx.root, mem0, space.ctx.ram.mem, ok, base, frame, page, offset, sp, argv, envp,
               at, bt);
  }

  // ---------------------------------------------------------------------------------------------
  // Reading back

  /** The table of a laid out stack, word by word. */
  lemma TableIndex(b: seq<Byte>, c: nat, argvPtrs: seq<nat>, envPtrs: seq<nat>, j: nat)
    requires WordsAt(b, c, Table(|argvPtrs|, argvPtrs, envPtrs)) && j < Slots(|argvPtrs|, |envPtrs|)
    ensures HasWord(b, c, j, if j == 0 then |argvPtrs|
                             else if j <= |argvPtrs| then argvPtrs[j - 1]
                             else if j == |argvPtrs| + 1 then 0
                             else if j < |argvPtrs| + 2 + |envPtrs| then envPtrs[j - |argvPtrs| - 2]
                             else 0)
  {
    var table := Table(|argvPtrs|, argvPtrs, envPtrs);
    assert HasWord(b, c, j, table[j]);
  }

  /** Pointers to the strings lie upward from `c`. */
  ghost predicate PointersAt(b: seq<Byte>, vaddr: nat, c: nat, at: seq<nat>) {
    forall i {:trigger HasWord(b, c, i, vaddr + at[i])} :: 0 <= i < |at| ==> HasWord(b, c, i, vaddr + at[i])
  }

  /** Follows `n` pointers. */
  method ReadArgs(b: seq<Byte>, vaddr: nat, c: nat, n: nat, ghost at: seq<nat>, ghost strs: seq<seq<Byte>>)
    returns (args: seq<seq<Byte>>)
    requires |at| == |strs| == n && PointersAt(b, vaddr, c, at)
    requires forall i :: 0 <= i < n ==> StringAt(b, at[i], strs[i]) && IsString(strs[i])
    ensures args == strs
  {
    args := [];
    var i := 0;
    while i < n
      invariant 0 <= i <= n && args == strs[..i]
    {
      assert HasWord(b, c, i, vaddr + at[i]);
      var text := Text(b, WordAt(b, c + 8 * i) - vaddr, strs[i]);
      args := args + [text];
      i := i + 1;
    }
  }

  /** Follows pointers up to a NULL. */
  method ReadEnv(b: seq<Byte>, vaddr: nat, c: nat, ghost at: seq<nat>, ghost strs: seq<seq<Byte>>)
    returns (env: seq<seq<Byte>>)
    requires 0 < vaddr && |at| == |strs| && PointersAt(b, vaddr, c, at) && HasWord(b, c, |at|, 0)
    requires forall i :: 0 <= i < |strs| ==> StringAt(b, at[i], strs[i]) && IsString(strs[i])
    ensures env == strs
  {
    env := [];
    var i := 0;
    assert HasWord(b, c, 0, if 0 < |at| then vaddr + at[0] else 0);
    while WordAt(b, c + 8 * i) != 0
      invariant 0 <= i <= |at| && env == strs[..i] && HasWord(b, c, i, if i < |at| then vaddr + at[i] else 0)
      decreases |at| - i
    {
      var text := Text(b, WordAt(b, c + 8 * i) - vaddr, strs[i]);
      env := env + [text];
      i := i + 1;
      assert HasWord(b, c, i, if i < |at| then vaddr + at[i] else 0);
    }
  }

  /** The word `n` words up is the first word from there. */
  lemma WordShift(b: seq<Byte>, c: nat, n: nat, i: nat, w: nat)
    requires HasWord(b, c, n + i, w)
    ensures HasWord(b, c + 8 * n, i, w)
  {
  }

  /** The pointers to the arguments, behind argc, and the NULL behind them. */
  lemma ArgvPointers(b: seq<Byte>, vaddr: nat, c: nat, at: seq<nat>, bt: seq<nat>)
    requires WordsAt(b, c, Table(|at|, Pointers(vaddr, at), Pointers(vaddr, bt)))
    ensures HasWord(b, c, 0, |at|) && PointersAt(b, vaddr, c + 8, at) && HasWord(b, c, |at| + 1, 0)
  {
    var aps, eps := Pointers(vaddr, at), Pointers(vaddr, bt);
    TableIndex(b, c, aps, eps, 0);
    TableIndex(b, c, aps, eps, |at| + 1);
    forall i | 0 <= i < |at| ensures HasWord(b, c + 8, i, vaddr + at[i]) {
      TableIndex(b, c, aps, eps, 1 + i);
      WordShift(b, c, 1, i, vaddr + at[i]);
    }
  }

  /** The pointers to the environment, and the NULL behind them. */
  lemma EnvPointers(b: seq<Byte>, vaddr: nat, c: nat, at: seq<nat>, bt: seq<nat>)
    requires WordsAt(b, c, Table(|at|, Pointers(vaddr, at), Pointers(vaddr, bt)))
    ensures PointersAt(b, vaddr, c + 8 * (|at| + 2), bt) && HasWord(b, c + 8 * (|at| + 2), |bt|, 0)
  {
    var n, aps, eps := |at| + 2, Pointers(vaddr, at), Pointers(vaddr, bt);
    TableIndex(b, c, aps, eps, n + |bt|);
    WordShift(b, c, n, |bt|, 0);
    forall i | 0 <= i < |bt| ensures HasWord(b, c + 8 * n, i, vaddr + bt[i]) {
      TableIndex(b, c, aps, eps, n + i);
      WordShift(b, c, n, i, vaddr + bt[i]);
    }
  }

  /**
   What a process does with its first stack pointer: argc, that many arguments, a NULL, the environment
   up to a NULL, and the AT_NULL entry. It gets the strings the kernel was given.
   */
  method ReadBack(b: seq<Byte>, vaddr: nat, sp: nat, ghost argv: seq<seq<Byte>>, ghost envp: seq<seq<Byte>>,
                  ghost at: seq<nat>, ghost bt: seq<nat>)
    returns (args: seq<seq<Byte>>, env: seq<seq<Byte>>)
    requires 0 < vaddr <= sp && Laid(b, vaddr, sp - vaddr, argv, envp, at, bt)
    requires forall i :: 0 <= i < |argv| ==> IsString(argv[i])
    requires forall i :: 0 <= i < |envp| ==> IsString(envp[i])
    ensures args == argv && env == envp
  {
    var c := sp - vaddr;
    ArgvPointers(b, vaddr, c, at, bt);
    EnvPointers(b, vaddr, c, at, bt);
    var argc := WordAt(b, c);
    args := ReadArgs(b, vaddr, c + 8, argc, at, argv);
    env := ReadEnv(b, vaddr, c + 8 * (argc + 2), bt, envp);
  }
}
