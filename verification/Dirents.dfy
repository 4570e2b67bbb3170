/**
 Directory listings: the records sys_getdents64 packs (kernel/src/fs/vfs/file.c) and the walk of the
 shell's `ls` over them (user/src/psh/psh.c).
 */
module Dirents {
  import opened Base
  import opened Endian
  import opened UserMemory

  const NAME_OFFSET: nat := 19
  const NAME_SIZE: nat := 128
  const LARGEST_RECORD: nat := 152

  const DT_REG: Byte := 8
  const DT_DIR: Byte := 4
  const DT_CHR: Byte := 2
  const DT_UNKNOWN: Byte := 0

  /** What readdir gives: a name, the node's flags, its inode number. */
  datatype Entry = Entry(name: seq<Byte>, flags: nat, inode: Word)

  /** What a reader finds in a record. */
  datatype Listed = Listed(inode: nat, off: nat, dtype: Byte, name: seq<Byte>)

  ghost predicate IsName(name: seq<Byte>) {
    |name| < NAME_SIZE && forall i :: 0 <= i < |name| ==> name[i] != NUL
  }

  ghost predicate AreEntries(es: seq<Entry>) {
    |es| < TWO_32 && forall i :: 0 <= i < |es| ==> IsName(es[i].name)
  }

  function DType(flags: nat): Byte {
    if flags % 2 == 1 then DT_REG
    else if flags / 2 % 2 == 1 then DT_DIR
    else if flags / 4 % 2 == 1 then DT_CHR
    else DT_UNKNOWN
  }

  // ---------------------------------------------------------------------------------------------
  // Records

  function RecordLength(name: seq<Byte>): (r: nat)
    ensures r % 8 == 0 && NAME_OFFSET + |name| + 1 <= r < NAME_OFFSET + |name| + 9
    ensures |name| < NAME_SIZE ==> r <= LARGEST_RECORD
  {
    (NAME_OFFSET + |name| + 1 + 7) / 8 * 8
  }

  /** The record of an entry whose successor is at directory offset `next`. */
  function Record(e: Entry, next: Word): (r: seq<Byte>)
    ensures |r| == RecordLength(e.name)
  {
    var n := RecordLength(e.name);
    LittleEndian(e.inode, 8) + LittleEndian(next, 8) + LittleEndian(n, 2) + [DType(e.flags)] + e.name +
    Zeros(n - NAME_OFFSET - |e.name|)
  }

  /** The fields of a record, as a reader looks for them. */
  ghost predicate IsRecord(r: seq<Byte>, e: Entry, next: nat) {
    && NAME_OFFSET + |e.name| < |r|
    && Value(r[..8]) == e.inode && Value(r[8..16]) == next && Value(r[16..18]) == |r| && r[18] == DType(e.flags)
    && r[NAME_OFFSET..NAME_OFFSET + |e.name|] == e.name && r[NAME_OFFSET + |e.name|] == NUL
  }

  ghost predicate Padded(r: seq<Byte>, from: nat) { forall i :: from <= i < |r| ==> r[i] == NUL }

  ghost predicate RecordAt(r: seq<Byte>, e: Entry, at: nat) {
    IsRecord(r, e, at + 1) && |r| == RecordLength(e.name) && Padded(r, NAME_OFFSET + |e.name|)
  }

  /** The records of a list of entries; entry `i` says that its successor is at `off + i + 1`. */
  ghost predicate AreRecords(rs: seq<seq<Byte>>, es: seq<Entry>, off: nat) {
    |rs| == |es| && forall i :: 0 <= i < |es| ==> RecordAt(rs[i], es[i], off + i)
  }

  function Item(e: Entry, at: nat): Listed { Listed(e.inode, at + 1, DType(e.flags), e.name) }

  /** What a reader should find. */
  function Listing(es: seq<Entry>, off: nat): (r: seq<Listed>)
    ensures |r| == |es|
    decreases |es|
  {
    if es == [] then [] else [Item(es[0], off)] + Listing(es[1..], off + 1)
  }

  lemma {:induction false} ListingAt(es: seq<Entry>, off: nat, i: nat)
    requires i < |es|
    ensures Listing(es, off)[i] == Item(es[i], off + i)
    decreases i
  {
    if i > 0 { ListingAt(es[1..], off + 1, i - 1); }
  }

  lemma {:induction false} ListingSplit(es: seq<Entry>, off: nat, k: nat)
    requires k <= |es|
    ensures Listing(es, off) == Listing(es[..k], off) + Listing(es[k..], off + k)
    decreases k
  {
    if k == 0 {
      assert es[k..] == es;
    } else {
      ListingSplit(es[1..], off + 1, k - 1);
      assert es[1..][..k - 1] == es[..k][1..] && es[1..][k - 1..] == es[k..];
    }
  }

  // ---------------------------------------------------------------------------------------------
  // Runs of records

  function Join(rs: seq<seq<Byte>>): (r: seq<Byte>) {
    if rs == [] then [] else rs[0] + Join(rs[1..])
  }

  lemma {:induction false} JoinLast(rs: seq<seq<Byte>>, r: seq<Byte>)
    ensures Join(rs + [r]) == Join(rs) + r
    decreases |rs|
  {
    if rs == [] {
      assert Join([r]) == r + Join([]);
    } else {
      assert (rs + [r])[1..] == rs[1..] + [r];
      JoinLast(rs[1..], r);
    }
  }

  // ---------------------------------------------------------------------------------------------
  // Reading a record

  /** strnlen. */
  method StrNLen(b: seq<Byte>, at: nat, max: nat) returns (n: nat)
    requires at + max <= |b|
    ensures n <= max && (forall i :: at <= i < at + n ==> b[i] != NUL) && (n < max ==> b[at + n] == NUL)
  {
    n := 0;
    while n < max && b[at + n] != NUL
      invariant n <= max && forall i :: at <= i < at + n ==> b[i] != NUL
    {
      n := n + 1;
    }
  }

  lemma FieldValues(inode: Word, next: Word, n: nat)
    requires n <= LARGEST_RECORD
    ensures Value(LittleEndian(inode, 8)) == inode && Value(LittleEndian(next, 8)) == next
    ensures Value(LittleEndian(n, 2)) == n
  {
    Pow256Is();
    ValueOfLittleEndian(inode, 8);
    ValueOfLittleEndian(next, 8);
    ValueOfLittleEndian(n, 2);
  }

  lemma Pieces(ino: seq<Byte>, off: seq<Byte>, len: seq<Byte>, dtype: Byte, name: seq<Byte>, pad: seq<Byte>,
               r: seq<Byte>)
    requires |ino| == 8 && |off| == 8 && |len| == 2 && pad != [] && r == ino + off + len + [dtype] + name + pad
    ensures r[..8] == ino && r[8..16] == off && r[16..18] == len && r[18] == dtype
    ensures r[NAME_OFFSET..NAME_OFFSET + |name|] == name
    ensures forall i :: NAME_OFFSET + |name| <= i < |r| ==> r[i] == pad[i - NAME_OFFSET - |name|]
  {
  }

  /** The fields lie where they were put. */
  lemma RecordIsRecord(e: Entry, next: Word)
    requires IsName(e.name)
    ensures IsRecord(Record(e, next), e, next) && Padded(Record(e, next), NAME_OFFSET + |e.name|)
  {
    var n := RecordLength(e.name);
    FieldValues(e.inode, next, n);
    Pieces(LittleEndian(e.inode, 8), LittleEndian(next, 8), LittleEndian(n, 2), DType(e.flags), e.name,
           Zeros(n - NAME_OFFSET - |e.name|), Record(e, next));
  }

  lemma NameEnds(r: seq<Byte>, name: seq<Byte>, n: nat)
    requires IsName(name) && NAME_OFFSET + |name| < |r| && NAME_OFFSET + n <= |r|
    requires r[NAME_OFFSET..NAME_OFFSET + |name|] == name && r[NAME_OFFSET + |name|] == NUL
    requires forall i :: NAME_OFFSET <= i < NAME_OFFSET + n ==> r[i] != NUL
    requires NAME_OFFSET + n < |r| ==> r[NAME_OFFSET + n] == NUL
    ensures n == |name|
  {
  }

  /** The record of an entry lies in the buffer at `at`. */
  ghost predicate LiesAt(b: seq<Byte>, at: nat, r: seq<Byte>, e: Entry, next: nat) {
    IsName(e.name) && IsRecord(r, e, next) && at + |r| <= |b| && b[at..at + |r|] == r
  }

  /** One step of the walk: the record at `at`, and how far to the next. */
  method ReadRecord(b: seq<Byte>, at: nat, ghost r: seq<Byte>, ghost e: Entry, ghost next: nat)
    returns (item: Listed, step: nat)
    requires LiesAt(b, at, r, e, next)
    ensures item == Listed(e.inode, next, DType(e.flags), e.name) && step == |r|
  {
    SliceOfSlice(b, at, at + |r|, 16, 18);
    step := Value(b[at + 16..at + 18]);
    var d := b[at..at + step];
    var n := StrNLen(d, NAME_OFFSET, step - NAME_OFFSET);
    NameEnds(d, e.name, n);
    item := Listed(Value(d[..8]), Value(d[8..16]), d[18], d[NAME_OFFSET..NAME_OFFSET + n]);
  }

  /** Between `at` and `len` the buffer holds the records of the entries, and nothing else. */
  ghost predicate RunAt(b: seq<Byte>, at: nat, len: nat, rs: seq<seq<Byte>>, es: seq<Entry>, off: nat) {
    && at <= len <= |b| && b[at..len] == Join(rs) && AreRecords(rs, es, off)
    && forall i :: 0 <= i < |es| ==> IsName(es[i].name)
  }

  lemma EmptyRun(rs: seq<seq<Byte>>, es: seq<Entry>, off: nat)
    requires AreRecords(rs, es, off)
    ensures Join(rs) == [] <==> es == []
  {
    if rs != [] { assert RecordAt(rs[0], es[0], off + 0); }
  }

  lemma RecordsBehind(rs: seq<seq<Byte>>, es: seq<Entry>, off: nat)
    requires AreRecords(rs, es, off) && es != []
    ensures RecordAt(rs[0], es[0], off) && AreRecords(rs[1..], es[1..], off + 1)
  {
    assert RecordAt(rs[0], es[0], off + 0);
    forall i | 0 <= i < |es| - 1 ensures RecordAt(rs[1..][i], es[1..][i], off + 1 + i) {
      assert RecordAt(rs[i + 1], es[i + 1], off + (i + 1));
    }
  }

  /** The record in front of a run, and the run behind it. */
  lemma FirstRecord(b: seq<Byte>, at: nat, len: nat, rs: seq<seq<Byte>>, es: seq<Entry>, off: nat)
    requires at < len && RunAt(b, at, len, rs, es, off)
    ensures rs != [] && es != [] && |rs[0]| > 0 && LiesAt(b, at, rs[0], es[0], off + 1)
    ensures RunAt(b, at + |rs[0]|, len, rs[1..], es[1..], off + 1)
    ensures Listing(es, off) == [Item(es[0], off)] + Listing(es[1..], off + 1)
  {
    EmptyRun(rs, es, off);
    RecordsBehind(rs, es, off);
    SliceIsConcat(b, at, len, rs[0], Join(rs[1..]));
  }

  /**
   The shell's walk over a buffer of packed records: it finds every entry, in order, and lands exactly
   on the length.
   */
  method ReadRecords(b: seq<Byte>, len: nat, ghost rs: seq<seq<Byte>>, ghost es: seq<Entry>, ghost off: nat)
    returns (items: seq<Listed>, at: nat)
    requires RunAt(b, 0, len, rs, es, off)
    ensures items == Listing(es, off) && at == len
  {
    items, at := [], 0;
    ghost var todo, left, pos := rs, es, off;
    while at < len
      invariant at <= len && RunAt(b, at, len, todo, left, pos)
      invariant items + Listing(left, pos) == Listing(es, off)
      decreases len - at
    {
      FirstRecord(b, at, len, todo, left, pos);
      var item, step := ReadRecord(b, at, todo[0], left[0], pos + 1);
      Associative(items, [item], Listing(left[1..], pos + 1));
      items := items + [item];
      // a record has a header, so the shell's test for an empty one never ends the walk early
      assert step > 0;
      if step == 0 { break; }
      at := at + step;
      todo, left, pos := todo[1..], left[1..], pos + 1;
    }
    EmptyRun(todo, left, pos);
  }

  // ---------------------------------------------------------------------------------------------
  // Packing into the caller's buffer

  /** The bytes of the caller's buffer that can be reached. */
  function Room(dirp: nat, count: nat): nat {
    if dirp > ADDR_SPLIT then 0 else if count < ADDR_SPLIT - dirp then count else ADDR_SPLIT - dirp
  }

  /** The children from a directory offset on; the index handed to readdir has 32 bits. */
  ghost function AheadOf(entries: seq<Entry>, offset: nat): seq<Entry> {
    if offset % TWO_32 < |entries| then entries[offset % TWO_32..] else []
  }

  lemma SameHigh(q: nat, s: nat, k: nat)
    requires s + k < TWO_32 && q * TWO_32 + s < TWO_64
    ensures (q * TWO_32 + s + k) % TWO_32 == s + k && q * TWO_32 + s + k < TWO_64
  {
  }

  /** A buffer of `count` bytes holds the record of each entry. */
  ghost predicate HoldsEach(entries: seq<Entry>, count: nat) {
    forall i :: 0 <= i < |entries| ==> RecordLength(entries[i].name) <= count
  }

  /** What was listed and what is ahead make up the whole listing. */
  ghost predicate SplitsInto(es: seq<Entry>, off: nat, items: seq<Listed>, rest: seq<Entry>, off': nat) {
    Listing(es, off) == items + Listing(rest, off')
  }

  lemma ListingSplits(es: seq<Entry>, off: nat, k: nat)
    requires k <= |es|
    ensures SplitsInto(es, off, Listing(es[..k], off), es[k..], off + k)
  {
    ListingSplit(es, off, k);
  }

  /** Seeking to the offset a record names resumes with the entry after it. */
  lemma SeekResumes(entries: seq<Entry>, offset: nat, i: nat)
    requires AreEntries(entries) && offset < TWO_64 && i < |AheadOf(entries, offset)|
    ensures var items := Listing(AheadOf(entries, offset), offset);
            items[i].off == offset + i + 1 && AheadOf(entries, items[i].off) == AheadOf(entries, offset)[i + 1..]
  {
    var q, s := offset / TWO_32, offset % TWO_32;
    ListingAt(AheadOf(entries, offset), offset, i);
    SameHigh(q, s, i + 1);
  }

  lemma JoinMore(m: map<nat, Byte>, a: nat, rs: seq<seq<Byte>>, r: seq<Byte>)
    ensures Join(rs + [r]) == Join(rs) + r
    ensures Store(Store(m, a, Join(rs)), a + |Join(rs)|, r) == Store(m, a, Join(rs + [r]))
  {
    JoinLast(rs, r);
    StoreConcat(m, a, Join(rs), a + |Join(rs)|, r);
  }

  lemma MoreRecords(rs: seq<seq<Byte>>, es: seq<Entry>, off: nat, r: seq<Byte>)
    requires |rs| < |es| && AreRecords(rs, es[..|rs|], off) && RecordAt(r, es[|rs|], off + |rs|)
    ensures AreRecords(rs + [r], es[..|rs| + 1], off)
  {
    forall i | 0 <= i < |rs| + 1 ensures RecordAt((rs + [r])[i], es[..|rs| + 1][i], off + i) {
      if i < |rs| { assert RecordAt(rs[i], es[..|rs|][i], off + i); }
    }
  }

  class Directory {
    const entries: seq<Entry>
    var offset: nat

    constructor (entries: seq<Entry>)
      ensures this.entries == entries && offset == 0
    {
      this.entries, offset := entries, 0;
    }

    ghost function Ahead(): seq<Entry>
      reads this
    {
      AheadOf(entries, offset)
    }

    /** ramfs_ops_readdir. */
    method ReadDir(index: nat) returns (r: int, e: Entry)
      ensures index < |entries| ==> r == 1 && e == entries[index]
      ensures index >= |entries| ==> r == 0
    {
      var i := 0;
      while i < |entries|
        invariant i <= |entries| && i <= index
      {
        if i == index { return 1, entries[i]; }
        i := i + 1;
      }
      return 0, Entry([], 0, 0);
    }

    /** Builds the record of an entry found at directory offset `at`. */
    method MakeRecord(e: Entry, at: nat) returns (r: seq<Byte>)
      requires IsName(e.name) && at + 1 < TWO_64
      ensures RecordAt(r, e, at)
    {
      RecordIsRecord(e, at + 1);
      r := Record(e, at + 1);
    }

    /** The 32-bit index moves with the offset as long as there are children. */
    lemma NextIndex(off: nat)
      requires |entries| < TWO_32 && off % TWO_32 < |entries| && off < TWO_64
      ensures (off + 1) % TWO_32 == off % TWO_32 + 1 && off + 1 < TWO_64
    {
      assert off == off / TWO_32 * TWO_32 + off % TWO_32;
    }

    /** The body of that loop: the next entry, packed behind `actual` bytes; or why there is none. */
    method PutEntry(user: Memory, dirp: nat, count: nat, actual: nat)
      returns (err: int, n: nat, ghost record: seq<Byte>)
      requires AreEntries(entries) && offset < TWO_64 && dirp < TWO_64 && count < TWO_64 && actual <= Room(dirp, count)
      modifies this`offset, user
      ensures n == 0 ==> offset == old(offset) && user.bytes == old(user.bytes)
      ensures n == 0 && old(Ahead()) == [] ==> err == 0
      ensures n == 0 && old(Ahead()) != [] ==>
                var len := RecordLength(old(Ahead())[0].name);
                actual + len > Room(dirp, count) && err == if actual + len > count then -EINVAL else -EFAULT
      ensures n != 0 ==>
                && old(Ahead()) != [] && offset == old(offset) + 1 < TWO_64 && Ahead() == old(Ahead())[1..]
                && RecordAt(record, old(Ahead())[0], old(offset)) && n == |record| && actual + n <= Room(dirp, count)
                && user.bytes == Store(old(user.bytes), dirp + actual, record)
    {
      record := [];
      var res, e := ReadDir(offset % TWO_32);
      if res != 1 { return 0, 0, []; }
      NextIndex(offset);
      n := RecordLength(e.name);
      if actual + n > count { return -EINVAL, 0, []; }
      var chunk := MakeRecord(e, offset);
      err := user.CopyToUser(dirp + actual, chunk);
      if err != 0 { return err, 0, []; }
      offset := offset + 1;
      record := chunk;
    }

    /**
     sys_getdents64, after the descriptor is resolved: as many records as fit in the caller's buffer,
     from the offset on. `rs` are the records.
     */
    method GetDents(user: Memory, dirp: nat, count: nat) returns (r: int, ghost rs: seq<seq<Byte>>)
      requires AreEntries(entries) && offset < TWO_64 && dirp < TWO_64 && count < TWO_64
      modifies this`offset, user
      ensures |rs| <= |old(Ahead())| && AreRecords(rs, old(Ahead())[..|rs|], old(offset))
      ensures offset == old(offset) + |rs| && offset < TWO_64 && Ahead() == old(Ahead())[|rs|..]
      ensures user.bytes == Store(old(user.bytes), dirp, Join(rs)) && |Join(rs)| <= Room(dirp, count)
      ensures dirp == 0 ==> r == -EFAULT && rs == []
      ensures dirp != 0 ==>
                r == if rs != [] || old(Ahead()) == [] then |Join(rs)|
                     else if RecordLength(old(Ahead())[0].name) > count then -EINVAL else -EFAULT
      ensures dirp != 0 && |rs| < |old(Ahead())| ==>
                |Join(rs)| + RecordLength(old(Ahead())[|rs|].name) > Room(dirp, count)
    {
      rs := [];
      StoreNothing(user.bytes, dirp);
      if dirp == 0 { return -EFAULT, []; }
      ghost var ahead, off0 := Ahead(), offset;
      var actual := 0;
      while true
        invariant |rs| <= |ahead| && AreRecords(rs, ahead[..|rs|], off0) && offset == off0 + |rs| < TWO_64
        invariant Ahead() == ahead[|rs|..]
        invariant user.bytes == Store(old(user.bytes), dirp, Join(rs)) && actual == |Join(rs)| <= Room(dirp, count)
        invariant rs == [] <==> actual == 0
        decreases |ahead| - |rs|
      {
        var err, n;
        ghost var record;
        err, n, record := PutEntry(user, dirp, count, actual);
        if n == 0 {
          if actual == 0 { return err, rs; }
          break;
        }
        JoinMore(old(user.bytes), dirp, rs, record);
        MoreRecords(rs, ahead, off0, record);
        rs := rs + [record];
        actual := actual + n;
      }
      return actual, rs;
    }

    lemma FirstFits(off: nat, count: nat)
      requires HoldsEach(entries, count) && AheadOf(entries, off) != []
      ensures RecordLength(AheadOf(entries, off)[0].name) <= count
    {
    }

    /** The shell's walk over what was packed into its buffer. */
    method ReadBuffer(user: Memory, dirp: nat, len: nat, ghost was: map<nat, Byte>,
                      ghost rs: seq<seq<Byte>>, ghost es: seq<Entry>, ghost off: nat)
      returns (items: seq<Listed>)
      requires user.bytes == Store(was, dirp, Join(rs)) && len == |Join(rs)| && AreRecords(rs, es, off)
      requires forall i :: 0 <= i < |es| ==> IsName(es[i].name)
      ensures items == Listing(es, off)
    {
      LoadStored(was, dirp, Join(rs));
      var b := Load(user.bytes, dirp, len);
      assert b[0..len] == b;
      var end;
      items, end := ReadRecords(b, len, rs, es, off);
    }

    /** One call with a buffer that holds each record, and the walk over what it packed. */
    method ListSome(user: Memory, dirp: nat, count: nat) returns (len: int, items: seq<Listed>)
      requires AreEntries(entries) && offset < TWO_64 && 0 < dirp && dirp + count <= ADDR_SPLIT
      requires HoldsEach(entries, count)
      modifies this`offset, user
      ensures SplitsInto(old(Ahead()), old(offset), items, Ahead(), offset)
      ensures offset < TWO_64 && offset + |Ahead()| == old(offset + |Ahead()|)
      ensures len >= 0 && (len > 0 <==> old(Ahead()) != []) && (len > 0 <==> items != [])
    {
      ghost var rs;
      ghost var ahead, off0 := Ahead(), offset;
      len, rs := GetDents(user, dirp, count);
      ghost var n := |rs|;
      ghost var es := ahead[..n];
      if ahead != [] { FirstFits(off0, count); }
      EmptyRun(rs, es, off0);
      items := ReadBuffer(user, dirp, len, old(user.bytes), rs, es, off0);
      assert Ahead() == ahead[n..] && offset == off0 + n;
      ListingSplits(ahead, off0, n);
      assert |items| == n;
    }

    /**
     The shell's `ls` with a buffer that holds each record: every entry from the offset on, once and in
     order, and then nothing more.
     */
    method List(user: Memory, dirp: nat, count: nat) returns (items: seq<Listed>)
      requires AreEntries(entries) && offset < TWO_64 && 0 < dirp && dirp + count <= ADDR_SPLIT
      requires HoldsEach(entries, count)
      modifies this`offset, user
      ensures items == Listing(old(Ahead()), old(offset))
      ensures Ahead() == [] && offset == old(offset) + |old(Ahead())|
    {
      items := [];
      ghost var whole := Listing(Ahead(), offset);
      ghost var total := offset + |Ahead()|;
      var len, part := ListSome(user, dirp, count);
      ghost var rest := Listing(Ahead(), offset);
      while len > 0
        invariant offset < TWO_64 && offset + |Ahead()| == total && rest == Listing(Ahead(), offset)
        invariant items + (part + rest) == whole
        invariant len <= 0 ==> part == [] && rest == []
        invariant len > 0 ==> part != []
        decreases |part| + |rest|
      {
        Associative(items, part, rest);
        items := items + part;
        len, part := ListSome(user, dirp, count);
        rest := Listing(Ahead(), offset);
      }
    }
  }
}
