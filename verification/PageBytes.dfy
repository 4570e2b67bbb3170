/** A page of physical memory as its 4096 bytes, each word with its lowest byte first. */
module PageBytes {
  import opened Base
  import opened Endian
  import opened Pmm
  import opened SparseFile

  function ByteOf(p: Page, i: nat): Byte
    requires i < PAGE_SIZE
  {
    LittleEndian(p[i / 8], 8)[i % 8]
  }

  /** The bytes of a page. */
  function BytesOf(p: Page): (b: FilePage)
    ensures forall i :: 0 <= i < PAGE_SIZE ==> b[i] == ByteOf(p, i)
  {
    seq<Byte>(PAGE_SIZE, i requires 0 <= i < PAGE_SIZE => ByteOf(p, i))
  }

  function WordOf(b: FilePage, j: nat): (w: Word)
    requires j < 512
  {
    ValueBound(b[8 * j..8 * j + 8]);
    Pow256Is();
    Value(b[8 * j..8 * j + 8])
  }

  /** The page that holds the given bytes. */
  function WordsOf(b: FilePage): (p: Page)
    ensures forall j :: 0 <= j < 512 ==> p[j] == WordOf(b, j)
  {
    seq<Word>(512, j requires 0 <= j < 512 => WordOf(b, j))
  }

  lemma {:induction false} LittleEndianOfValue(b: seq<Byte>)
    ensures LittleEndian(Value(b), |b|) == b
    decreases |b|
  {
    if b != [] {
      LittleEndianOfValue(b[1..]);
      assert Value(b) % 256 == b[0] && Value(b) / 256 == Value(b[1..]);
      assert [b[0]] + b[1..] == b;
    }
  }

  /** The bytes of one word. */
  lemma {:induction false} WordStored(b: FilePage, j: nat, k: nat)
    requires j < 512 && k < 8
    ensures LittleEndian(WordOf(b, j), 8)[k] == b[8 * j + k]
  {
    LittleEndianOfValue(b[8 * j..8 * j + 8]);
  }

  lemma {:induction false} ByteStored(b: FilePage, i: nat)
    requires i < PAGE_SIZE
    ensures ByteOf(WordsOf(b), i) == b[i]
  {
    var j, k := i / 8, i % 8;
    WordStored(b, j, k);
    assert WordsOf(b)[j] == WordOf(b, j);
  }

  /** Bytes stored in a page are the bytes of the page. */
  lemma BytesStored(b: FilePage)
    ensures BytesOf(WordsOf(b)) == b
  {
    forall i | 0 <= i < PAGE_SIZE ensures ByteOf(WordsOf(b), i) == b[i] { ByteStored(b, i); }
  }
}
