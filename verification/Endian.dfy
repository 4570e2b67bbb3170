/** Numbers in memory, the lowest byte first. */
module Endian {
  import opened Base

  function Pow256(w: nat): (r: nat)
    ensures r > 0
  {
    if w == 0 then 1 else 256 * Pow256(w - 1)
  }

  /** The low `w` bytes of a number, the lowest first. */
  function LittleEndian(n: nat, w: nat): (r: seq<Byte>)
    ensures |r| == w
    decreases w
  {
    if w == 0 then [] else [n % 256] + LittleEndian(n / 256, w - 1)
  }

  function Value(b: seq<Byte>): (r: nat) {
    if b == [] then 0 else b[0] + 256 * Value(b[1..])
  }

  lemma {:induction false} ValueOfLittleEndian(n: nat, w: nat)
    requires n < Pow256(w)
    ensures Value(LittleEndian(n, w)) == n
    decreases w
  {
    if w > 0 {
      ValueOfLittleEndian(n / 256, w - 1);
      assert LittleEndian(n, w)[1..] == LittleEndian(n / 256, w - 1);
    }
  }

  lemma {:induction false} ValueBound(b: seq<Byte>)
    ensures Value(b) < Pow256(|b|)
    decreases |b|
  {
    if b != [] { ValueBound(b[1..]); }
  }

  lemma Pow256Is()
    ensures Pow256(2) == 0x1_0000 && Pow256(8) == TWO_64
  {
    assert Pow256(2) == 0x1_0000;
    assert Pow256(4) == TWO_32;
    assert Pow256(6) == 0x1_0000_0000_0000;
  }
}
