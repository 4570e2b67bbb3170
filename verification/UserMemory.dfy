/**
 User memory and the two copies across its border (kernel/src/mm/uaccess.c). Memory that was never
 written reads as zero: a page is made on first touch.
 */
module UserMemory {
  import opened Base

  const EFAULT: int := 14

  function Load(m: map<nat, Byte>, a: nat, n: nat): (r: seq<Byte>)
    ensures |r| == n
  {
    seq<Byte>(n, k requires 0 <= k => if a + k in m then m[a + k] else 0)
  }

  function Store(m: map<nat, Byte>, a: nat, data: seq<Byte>): map<nat, Byte>
    decreases |data|
  {
    if data == [] then m else Store(m[a := data[0]], a + 1, data[1..])
  }

  /** Exactly the `|data|` bytes at `a` are stored. */
  lemma {:induction false} StoreAt(m: map<nat, Byte>, a: nat, data: seq<Byte>, k: nat)
    ensures var r := Store(m, a, data);
            && (k in r <==> k in m || a <= k < a + |data|)
            && (k in r ==> r[k] == if a <= k < a + |data| then data[k - a] else m[k])
    decreases |data|
  {
    if data != [] { StoreAt(m[a := data[0]], a + 1, data[1..], k); }
  }

  /** Reading back what was stored. */
  lemma LoadStored(m: map<nat, Byte>, a: nat, data: seq<Byte>)
    ensures Load(Store(m, a, data), a, |data|) == data
  {
    forall k | 0 <= k < |data| ensures Load(Store(m, a, data), a, |data|)[k] == data[k] { StoreAt(m, a, data, a + k); }
  }

  lemma {:induction false} StoreConcat(m: map<nat, Byte>, a: nat, d: seq<Byte>, b: nat, e: seq<Byte>)
    requires b == a + |d|
    ensures Store(Store(m, a, d), b, e) == Store(m, a, d + e)
    decreases |d|
  {
    if d == [] {
      assert d + e == e;
    } else {
      assert (d + e)[1..] == d[1..] + e;
      StoreConcat(m[a := d[0]], a + 1, d[1..], b, e);
    }
  }

  lemma StoreNothing(m: map<nat, Byte>, a: nat)
    ensures Store(m, a, []) == m
  {
  }

  /** The check both copies make: the range neither wraps nor reaches the upper half. */
  predicate InUserHalf(start: nat, len: nat)
    requires start < TWO_64 && len < TWO_64
  {
    var end := (start + len) % TWO_64;
    !(end < start) && !(end > ADDR_SPLIT)
  }

  lemma UserHalf(start: nat, len: nat)
    requires start < TWO_64 && len < TWO_64
    ensures InUserHalf(start, len) <==> start + len <= ADDR_SPLIT
  {
    if start + len >= TWO_64 { assert (start + len) % TWO_64 == start + len - TWO_64; }
  }

  class Memory {
    var bytes: map<nat, Byte>

    method CopyToUser(dst: nat, data: seq<Byte>) returns (r: int)
      requires dst < TWO_64 && |data| < TWO_64
      modifies this
      ensures dst + |data| <= ADDR_SPLIT ==> r == 0 && bytes == Store(old(bytes), dst, data)
      ensures dst + |data| > ADDR_SPLIT ==> r == -EFAULT && bytes == old(bytes)
    {
      UserHalf(dst, |data|);
      if !InUserHalf(dst, |data|) { return -EFAULT; }
      bytes := Store(bytes, dst, data);
      return 0;
    }

    method CopyFromUser(src: nat, len: nat) returns (r: int, data: seq<Byte>)
      requires src < TWO_64 && len < TWO_64
      ensures src + len <= ADDR_SPLIT ==> r == 0 && data == Load(bytes, src, len)
      ensures src + len > ADDR_SPLIT ==> r == -EFAULT
    {
      UserHalf(src, len);
      if !InUserHalf(src, len) { return -EFAULT, []; }
      return 0, Load(bytes, src, len);
    }
  }
}
