/**
 The ustar format (the Interchange Format of the pax utility in POSIX.1) as far as the loader reads it
 (kernel/src/fs/tar/tar.c): octal numbers, headers, archives.
 */
module TarFormat {
  import opened Base

  const BLOCK: nat := 512
  const NAME_FIELD: nat := 100
  const SIZE_AT: nat := 124
  const SIZE_FIELD: nat := 12
  const TYPE_AT: nat := 156
  const MAGIC_AT: nat := 257
  const VERSION_AT: nat := 263

  const MAGIC: seq<Byte> := [117, 115, 116, 97, 114, 0]
  const VERSION: seq<Byte> := [48, 48]

  const TYPE_REG: Byte := 48
  const TYPE_REG_ALT: Byte := 0
  const TYPE_DIR: Byte := 53

  /** Memory the archive lies in, byte by byte. */
  type Image = nat -> Byte

  function Bytes(mem: Image, a: nat, n: nat): (r: seq<Byte>)
    ensures |r| == n && forall i :: 0 <= i < n ==> r[i] == mem(a + i)
  {
    seq<Byte>(n, i requires 0 <= i => mem(a + i))
  }

  // ---------------------------------------------------------------------------------------------
  // Octal numbers

  predicate IsOctal(c: Byte) { 48 <= c <= 55 }

  /** The digits a field starts with. */
  function Digits(field: seq<Byte>): (r: seq<Byte>)
    ensures r <= field && forall i :: 0 <= i < |r| ==> IsOctal(r[i])
  {
    if field == [] || !IsOctal(field[0]) then [] else [field[0]] + Digits(field[1..])
  }

  function Pow8(n: nat): (r: nat)
    ensures r > 0
  {
    if n == 0 then 1 else 8 * Pow8(n - 1)
  }

  /** The number that octal digits stand for, most significant first. */
  function OctalValue(d: seq<Byte>): (r: nat)
    requires forall i :: 0 <= i < |d| ==> IsOctal(d[i])
    ensures r < Pow8(|d|)
  {
    if d == [] then 0
    else
      assert IsOctal(d[|d| - 1]);
      OctalValue(d[..|d| - 1]) * 8 + (d[|d| - 1] as int - 48)
  }

  lemma {:induction false} DigitsEnd(field: seq<Byte>, n: nat)
    requires n <= |field| && (forall k :: 0 <= k < n ==> IsOctal(field[k])) && (n < |field| ==> !IsOctal(field[n]))
    ensures Digits(field) == field[..n]
    decreases n
  {
    if n > 0 {
      DigitsEnd(field[1..], n - 1);
      assert field[..n] == [field[0]] + field[1..][..n - 1];
    }
  }

  lemma Pow8Is()
    ensures Pow8(11) == 0x2_0000_0000 && Pow8(12) == 0x10_0000_0000
  {
    assert Pow8(4) == 4096;
    assert Pow8(8) == 0x100_0000;
  }

  lemma {:induction false} Pow8Grows(a: nat, b: nat)
    requires a <= b
    ensures Pow8(a) <= Pow8(b)
    decreases b
  {
    if a < b { Pow8Grows(a, b - 1); }
  }

  /** tar_parse_octal. */
  method ParseOctal(field: seq<Byte>) returns (value: nat)
    requires |field| <= SIZE_FIELD
    ensures value == OctalValue(Digits(field)) && value < 0x10_0000_0000
  {
    value := 0;
    var i := 0;
    while i < |field| && IsOctal(field[i])
      invariant i <= |field| && forall k :: 0 <= k < i ==> IsOctal(field[k])
      invariant value == OctalValue(field[..i])
    {
      assert field[..i + 1][..i] == field[..i];
      value := value * 8 + (field[i] as int - 48);
      i := i + 1;
    }
    DigitsEnd(field, i);
    Pow8Grows(i, SIZE_FIELD);
    Pow8Is();
  }

  /** `w` octal digits of a number. */
  function Octal(n: nat, w: nat): (r: seq<Byte>)
    ensures |r| == w && forall i :: 0 <= i < w ==> IsOctal(r[i])
    decreases w
  {
    if w == 0 then [] else Octal(n / 8, w - 1) + [48 + n % 8]
  }

  lemma {:induction false} ValueOfOctal(n: nat, w: nat)
    requires n < Pow8(w)
    ensures OctalValue(Octal(n, w)) == n
    decreases w
  {
    if w > 0 {
      ValueOfOctal(n / 8, w - 1);
      assert Octal(n, w)[..w - 1] == Octal(n / 8, w - 1);
    }
  }

  /** A printed number with anything but a digit behind it reads back as itself. */
  lemma OctalReadsBack(n: nat, w: nat, rest: seq<Byte>)
    requires n < Pow8(w) && (rest != [] ==> !IsOctal(rest[0]))
    ensures OctalValue(Digits(Octal(n, w) + rest)) == n
  {
    DigitsEnd(Octal(n, w) + rest, w);
    assert (Octal(n, w) + rest)[..w] == Octal(n, w);
    ValueOfOctal(n, w);
  }

  // ---------------------------------------------------------------------------------------------
  // Archives

  datatype TarEntry = FileEntry(name: seq<Byte>, data: seq<Byte>) | DirEntry(name: seq<Byte>)

  function DataOf(e: TarEntry): seq<Byte> { if e.FileEntry? then e.data else [] }

  function RoundUp(size: nat): (r: nat)
    ensures size <= r < size + BLOCK
  {
    (size + BLOCK - 1) / BLOCK * BLOCK
  }

  /** A name that leaves room for the slash the loader puts in front. */
  ghost predicate IsEntry(e: TarEntry) {
    0 < |e.name| < NAME_FIELD && IsString(e.name) && |DataOf(e)| < 0x2_0000_0000
  }

  /** The fields the loader reads; the others may hold anything. */
  ghost predicate IsHeader(mem: Image, addr: nat, e: TarEntry) {
    && Bytes(mem, addr, |e.name|) == e.name && mem(addr + |e.name|) == NUL
    && Bytes(mem, addr + MAGIC_AT, 6) == MAGIC && Bytes(mem, addr + VERSION_AT, 2) == VERSION
    && OctalValue(Digits(Bytes(mem, addr + SIZE_AT, SIZE_FIELD))) == |DataOf(e)|
    && (if e.DirEntry? then mem(addr + TYPE_AT) == TYPE_DIR else mem(addr + TYPE_AT) in {TYPE_REG, TYPE_REG_ALT})
  }

  /** An entry at `addr`, header and data. */
  ghost predicate EntryAt(mem: Image, addr: nat, end: nat, e: TarEntry) {
    addr < end && IsEntry(e) && IsHeader(mem, addr, e) && Bytes(mem, addr + BLOCK, |DataOf(e)|) == DataOf(e)
  }

  /** Where the block behind an entry at `addr` starts. */
  function Behind(addr: nat, e: TarEntry): (r: nat)
    ensures r > addr
  {
    addr + BLOCK + RoundUp(|DataOf(e)|)
  }

  /** Where entry `i` starts. */
  function Start(addr: nat, es: seq<TarEntry>, i: nat): nat
    requires i <= |es|
    decreases i
  {
    if i == 0 then addr else Start(Behind(addr, es[0]), es[1..], i - 1)
  }

  /** Entry `i` is where it should be; behind the last is `end`, or a block that starts with a zero. */
  ghost predicate InPlace(mem: Image, addr: nat, end: nat, es: seq<TarEntry>, i: nat)
    requires i <= |es|
  {
    var a := Start(addr, es, i);
    if i < |es| then EntryAt(mem, a, end, es[i]) else a >= end || mem(a) == NUL
  }

  /** Headers and data in turn, up to the end. */
  ghost predicate IsArchive(mem: Image, addr: nat, end: nat, es: seq<TarEntry>) {
    forall i {:trigger InPlace(mem, addr, end, es, i)} :: 0 <= i <= |es| ==> InPlace(mem, addr, end, es, i)
  }

  ghost predicate AreEntries(es: seq<TarEntry>) { forall i :: 0 <= i < |es| ==> IsEntry(es[i]) }

  lemma StartNext(addr: nat, es: seq<TarEntry>, i: nat)
    requires i < |es|
    ensures Start(addr, es, i + 1) == Start(Behind(addr, es[0]), es[1..], i)
  {
  }

  /** Behind the first entry of an archive comes an archive of the others. */
  lemma {:induction false} ArchiveRest(mem: Image, addr: nat, end: nat, es: seq<TarEntry>)
    requires IsArchive(mem, addr, end, es) && es != []
    ensures EntryAt(mem, addr, end, es[0]) && IsArchive(mem, Behind(addr, es[0]), end, es[1..])
  {
    var next, rest := Behind(addr, es[0]), es[1..];
    assert InPlace(mem, addr, end, es, 0);
    forall i | 0 <= i <= |rest| ensures InPlace(mem, next, end, rest, i) {
      StartNext(addr, es, i);
      assert InPlace(mem, addr, end, es, i + 1);
    }
  }

  /** An entry in front of an archive makes a longer one. */
  lemma {:induction false} ArchiveMore(mem: Image, addr: nat, end: nat, es: seq<TarEntry>)
    requires es != [] && EntryAt(mem, addr, end, es[0]) && IsArchive(mem, Behind(addr, es[0]), end, es[1..])
    ensures IsArchive(mem, addr, end, es)
  {
    var next, rest := Behind(addr, es[0]), es[1..];
    forall i | 0 <= i <= |es| ensures InPlace(mem, addr, end, es, i) {
      if i > 0 {
        StartNext(addr, es, i - 1);
        assert InPlace(mem, next, end, rest, i - 1);
      }
    }
  }

  // ---------------------------------------------------------------------------------------------
  // Printing

  const SUM_AT: nat := 148
  const SUM_FIELD: nat := 8
  const SPACE: Byte := 32

  /** A number, and the spaces or NULs that fill its field behind the digits. */
  datatype Number = Number(value: nat, end: seq<Byte>)

  ghost predicate IsNumber(n: Number, width: nat) {
    && 0 < |n.end| <= width && (forall i :: 0 <= i < |n.end| ==> n.end[i] in {SPACE, NUL})
    && n.value < Pow8(width - |n.end|)
  }

  /** A numeric field: octal digits with leading zeros, and the end. */
  function NumberField(n: Number, width: nat): (r: seq<Byte>)
    requires |n.end| <= width
    ensures |r| == width
  {
    Octal(n.value, width - |n.end|) + n.end
  }

  lemma NumberReadsBack(n: Number, width: nat)
    requires IsNumber(n, width)
    ensures OctalValue(Digits(NumberField(n, width))) == n.value
  {
    OctalReadsBack(n.value, width - |n.end|, n.end);
  }

  /** A text field, filled up with zeros. */
  function TextField(s: seq<Byte>, width: nat): (r: seq<Byte>)
    requires |s| <= width
    ensures |r| == width
  {
    s + Zeros(width - |s|)
  }

  /** What a writer puts into a header besides the name, the size and the kind. */
  datatype Attributes = Attributes(mode: Number, uid: Number, gid: Number, mtime: Number, user: seq<Byte>,
                                   group: seq<Byte>, device: seq<Byte>, sizeEnd: seq<Byte>, sumEnd: seq<Byte>,
                                   oldType: bool)

  function SizeOf(e: TarEntry, a: Attributes): Number { Number(|DataOf(e)|, a.sizeEnd) }

  /** The fields are as wide as they may be, and leave room for the size and a checksum of six digits. */
  ghost predicate AreAttributes(e: TarEntry, a: Attributes) {
    && IsNumber(a.mode, 8) && IsNumber(a.uid, 8) && IsNumber(a.gid, 8) && IsNumber(a.mtime, 12)
    && |a.user| < 32 && IsString(a.user) && |a.group| < 32 && IsString(a.group) && |a.device| == 16
    && IsNumber(SizeOf(e, a), SIZE_FIELD) && IsNumber(Number(0, a.sumEnd), SUM_FIELD) && |a.sumEnd| <= 2
  }

  /** An entry with a name that fits and what a writer adds to it. */
  ghost predicate Printable(e: TarEntry, a: Attributes) { IsEntry(e) && AreAttributes(e, a) }

  function NamePart(e: TarEntry, a: Attributes): (r: seq<Byte>)
    requires Printable(e, a)
    ensures |r| == SIZE_AT
  {
    TextField(e.name, NAME_FIELD) + (NumberField(a.mode, 8) + (NumberField(a.uid, 8) + NumberField(a.gid, 8)))
  }

  function SizePart(e: TarEntry, a: Attributes): (r: seq<Byte>)
    requires Printable(e, a)
    ensures |r| == SUM_AT - SIZE_AT
  {
    NumberField(SizeOf(e, a), SIZE_FIELD) + NumberField(a.mtime, 12)
  }

  /** Behind the type comes an empty link name. */
  function TypePart(e: TarEntry, a: Attributes): (r: seq<Byte>)
    ensures |r| == MAGIC_AT - TYPE_AT
  {
    [if e.DirEntry? then TYPE_DIR else if a.oldType then TYPE_REG_ALT else TYPE_REG] + Zeros(100)
  }

  /** Behind the version come the owner's names, the device numbers and an empty prefix. */
  function MagicPart(e: TarEntry, a: Attributes): (r: seq<Byte>)
    requires Printable(e, a)
    ensures |r| == BLOCK - MAGIC_AT
  {
    MAGIC + (VERSION + (TextField(a.user, 32) + (TextField(a.group, 32) + (a.device + Zeros(167)))))
  }

  /** A header block with the given bytes in the field for the checksum. */
  function HeaderWith(e: TarEntry, a: Attributes, sum: seq<Byte>): (r: seq<Byte>)
    requires Printable(e, a) && |sum| == SUM_FIELD
    ensures |r| == BLOCK
  {
    NamePart(e, a) + (SizePart(e, a) + (sum + (TypePart(e, a) + MagicPart(e, a))))
  }

  function Sum(s: seq<Byte>): (r: nat)
    ensures r <= 255 * |s|
  {
    if s == [] then 0 else s[0] + Sum(s[1..])
  }

  function Spaces(n: nat): (r: seq<Byte>)
    ensures |r| == n
  {
    seq(n, _ => SPACE)
  }

  /** The sum of the bytes of a header, taken with spaces for the checksum itself. */
  function Checksum(e: TarEntry, a: Attributes): (r: nat)
    requires Printable(e, a)
  {
    Sum(HeaderWith(e, a, Spaces(SUM_FIELD)))
  }

  /** A header block. */
  function Header(e: TarEntry, a: Attributes): (r: seq<Byte>)
    requires Printable(e, a)
    ensures |r| == BLOCK
  {
    HeaderWith(e, a, NumberField(Number(Checksum(e, a), a.sumEnd), SUM_FIELD))
  }

  /** Whoever sums up a printed header, with spaces for the checksum, gets the number in that field. */
  lemma ChecksumHolds(e: TarEntry, a: Attributes)
    requires Printable(e, a)
    ensures var h := Header(e, a);
            OctalValue(Digits(h[SUM_AT..SUM_AT + SUM_FIELD])) ==
            Sum(h[..SUM_AT] + Spaces(SUM_FIELD) + h[SUM_AT + SUM_FIELD..])
  {
    var n := Number(Checksum(e, a), a.sumEnd);
    var h, front, back := Header(e, a), NamePart(e, a) + SizePart(e, a), TypePart(e, a) + MagicPart(e, a);
    assert h[..SUM_AT] == front && h[SUM_AT..SUM_AT + SUM_FIELD] == NumberField(n, SUM_FIELD);
    assert h[SUM_AT + SUM_FIELD..] == back;
    assert front + Spaces(SUM_FIELD) + back == HeaderWith(e, a, Spaces(SUM_FIELD));
    Pow8Grows(6, SUM_FIELD - |a.sumEnd|);
    assert Pow8(6) == 0x4_0000 by { assert Pow8(3) == 512; }
    NumberReadsBack(n, SUM_FIELD);
  }

  /** The data, filled up to whole blocks. */
  function Body(e: TarEntry): (r: seq<Byte>)
    ensures |r| == RoundUp(|DataOf(e)|)
  {
    DataOf(e) + Zeros(RoundUp(|DataOf(e)|) - |DataOf(e)|)
  }

  ghost predicate AllPrintable(es: seq<TarEntry>, attrs: seq<Attributes>) {
    |attrs| == |es| && forall i :: 0 <= i < |es| ==> Printable(es[i], attrs[i])
  }

  /** The entries, two blocks of zeros, and as many more as the writer fills its last record with. */
  function Print(es: seq<TarEntry>, attrs: seq<Attributes>, more: nat): (r: seq<Byte>)
    requires AllPrintable(es, attrs)
    ensures |r| >= 2 * BLOCK
    decreases |es|
  {
    if es == [] then Zeros((2 + more) * BLOCK)
    else Header(es[0], attrs[0]) + (Body(es[0]) + Print(es[1..], attrs[1..], more))
  }

  /** The bytes of `b` lie in memory at `a`. */
  ghost predicate LiesAt(mem: Image, a: nat, b: seq<Byte>) {
    forall i :: 0 <= i < |b| ==> mem(a + i) == b[i]
  }

  lemma LiesParts(mem: Image, a: nat, b: seq<Byte>, c: seq<Byte>)
    requires LiesAt(mem, a, b + c)
    ensures LiesAt(mem, a, b) && LiesAt(mem, a + |b|, c)
  {
    forall i | 0 <= i < |b| ensures mem(a + i) == b[i] { assert (b + c)[i] == b[i]; }
    forall i | 0 <= i < |c| ensures mem(a + |b| + i) == c[i] {
      assert (b + c)[|b| + i] == c[i] && a + (|b| + i) == a + |b| + i;
    }
  }

  lemma LiesBytes(mem: Image, a: nat, b: seq<Byte>)
    requires LiesAt(mem, a, b)
    ensures Bytes(mem, a, |b|) == b
  {
  }

  lemma LiesFirst(mem: Image, a: nat, b: seq<Byte>)
    requires LiesAt(mem, a, b) && b != []
    ensures mem(a) == b[0]
  {
    assert mem(a + 0) == b[0];
  }

  lemma NameRead(mem: Image, addr: nat, e: TarEntry, a: Attributes)
    requires Printable(e, a) && LiesAt(mem, addr, NamePart(e, a))
    ensures Bytes(mem, addr, |e.name|) == e.name && mem(addr + |e.name|) == NUL
  {
    var zeros := Zeros(NAME_FIELD - |e.name|);
    LiesParts(mem, addr, e.name + zeros, NumberField(a.mode, 8) + (NumberField(a.uid, 8) + NumberField(a.gid, 8)));
    LiesParts(mem, addr, e.name, zeros);
    LiesBytes(mem, addr, e.name);
    LiesFirst(mem, addr + |e.name|, zeros);
  }

  lemma SizeRead(mem: Image, a: nat, e: TarEntry, attr: Attributes)
    requires Printable(e, attr) && LiesAt(mem, a, SizePart(e, attr))
    ensures OctalValue(Digits(Bytes(mem, a, SIZE_FIELD))) == |DataOf(e)|
  {
    LiesParts(mem, a, NumberField(SizeOf(e, attr), SIZE_FIELD), NumberField(attr.mtime, 12));
    LiesBytes(mem, a, NumberField(SizeOf(e, attr), SIZE_FIELD));
    NumberReadsBack(SizeOf(e, attr), SIZE_FIELD);
  }

  lemma MagicRead(mem: Image, a: nat, rest: seq<Byte>)
    requires LiesAt(mem, a, MAGIC + (VERSION + rest))
    ensures Bytes(mem, a, 6) == MAGIC && Bytes(mem, a + 6, 2) == VERSION
  {
    LiesParts(mem, a, MAGIC, VERSION + rest);
    LiesParts(mem, a + 6, VERSION, rest);
    LiesBytes(mem, a, MAGIC);
    LiesBytes(mem, a + 6, VERSION);
  }

  lemma HeaderParts(mem: Image, addr: nat, name: seq<Byte>, size: seq<Byte>, sum: seq<Byte>, kind: seq<Byte>,
                    magic: seq<Byte>)
    requires LiesAt(mem, addr, name + (size + (sum + (kind + magic))))
    requires |name| == SIZE_AT && |name + size| == SUM_AT && |sum| == SUM_FIELD && |kind| == MAGIC_AT - TYPE_AT
    ensures LiesAt(mem, addr, name) && LiesAt(mem, addr + SIZE_AT, size)
    ensures LiesAt(mem, addr + TYPE_AT, kind) && LiesAt(mem, addr + MAGIC_AT, magic)
  {
    LiesParts(mem, addr, name, size + (sum + (kind + magic)));
    LiesParts(mem, addr + SIZE_AT, size, sum + (kind + magic));
    LiesParts(mem, addr + SUM_AT, sum, kind + magic);
    LiesParts(mem, addr + TYPE_AT, kind, magic);
  }

  /** A printed header has the fields the loader looks for. */
  lemma HeaderIsHeader(mem: Image, addr: nat, e: TarEntry, a: Attributes)
    requires Printable(e, a) && LiesAt(mem, addr, Header(e, a))
    ensures IsHeader(mem, addr, e)
  {
    var sum := NumberField(Number(Checksum(e, a), a.sumEnd), SUM_FIELD);
    HeaderParts(mem, addr, NamePart(e, a), SizePart(e, a), sum, TypePart(e, a), MagicPart(e, a));
    NameRead(mem, addr, e, a);
    SizeRead(mem, addr + SIZE_AT, e, a);
    MagicRead(mem, addr + MAGIC_AT, TextField(a.user, 32) + (TextField(a.group, 32) + (a.device + Zeros(167))));
    LiesFirst(mem, addr + TYPE_AT, TypePart(e, a));
  }

  /** One printed entry, and what lies behind it. */
  lemma EntryPrinted(mem: Image, addr: nat, e: TarEntry, a: Attributes, rest: seq<Byte>, end: nat)
    requires Printable(e, a) && LiesAt(mem, addr, Header(e, a) + (Body(e) + rest)) && addr < end
    ensures EntryAt(mem, addr, end, e) && LiesAt(mem, Behind(addr, e), rest)
  {
    LiesParts(mem, addr, Header(e, a), Body(e) + rest);
    HeaderIsHeader(mem, addr, e, a);
    LiesParts(mem, addr + BLOCK, Body(e), rest);
    LiesParts(mem, addr + BLOCK, DataOf(e), Zeros(RoundUp(|DataOf(e)|) - |DataOf(e)|));
    LiesBytes(mem, addr + BLOCK, DataOf(e));
  }

  lemma {:induction false} PrintFirst(es: seq<TarEntry>, attrs: seq<Attributes>, more: nat)
    requires AllPrintable(es, attrs) && es != []
    ensures Printable(es[0], attrs[0]) && AllPrintable(es[1..], attrs[1..])
    ensures Print(es, attrs, more) == Header(es[0], attrs[0]) + (Body(es[0]) + Print(es[1..], attrs[1..], more))
    ensures |Print(es, attrs, more)| == Behind(0, es[0]) + |Print(es[1..], attrs[1..], more)|
  {
    assert Printable(es[0], attrs[0]);
  }

  /** What is printed is an archive of the entries. */
  lemma {:induction false} PrintIsArchive(mem: Image, addr: nat, es: seq<TarEntry>, attrs: seq<Attributes>, more: nat,
                                          end: nat)
    requires AllPrintable(es, attrs) && LiesAt(mem, addr, Print(es, attrs, more))
    requires end == addr + |Print(es, attrs, more)|
    ensures IsArchive(mem, addr, end, es)
    decreases |es|
  {
    if es == [] {
      LiesFirst(mem, addr, Print(es, attrs, more));
    } else {
      PrintFirst(es, attrs, more);
      EntryPrinted(mem, addr, es[0], attrs[0], Print(es[1..], attrs[1..], more), end);
      PrintIsArchive(mem, Behind(addr, es[0]), es[1..], attrs[1..], more, end);
      ArchiveMore(mem, addr, end, es);
    }
  }

  /** What a ustar writer makes of the entries lies in memory. */
  ghost predicate Printed(mem: Image, addr: nat, size: nat, es: seq<TarEntry>, attrs: seq<Attributes>, more: nat) {
    && AllPrintable(es, attrs)
    && size == |Print(es, attrs, more)| && LiesAt(mem, addr, Print(es, attrs, more))
  }

  lemma {:induction false} PrintedIsArchive(mem: Image, addr: nat, size: nat, es: seq<TarEntry>,
                                            attrs: seq<Attributes>, more: nat)
    requires Printed(mem, addr, size, es, attrs, more)
    ensures IsArchive(mem, addr, addr + size, es) && size >= BLOCK
  {
    PrintIsArchive(mem, addr, es, attrs, more, addr + size);
  }
}
