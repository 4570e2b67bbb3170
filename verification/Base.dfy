/** Small value types shared by the other modules. */
module Base {
  datatype Option<+T> = None | Some(value: T)

  /** An unsigned 8-bit byte. */
  type Byte = x: int | 0 <= x < 256

  /** A 64-bit word. */
  type Word = w: int | 0 <= w < 0x1_0000_0000_0000_0000

  const NUL: Byte := 0
  const EINVAL: int := 22
  const PAGE_SIZE: nat := 4096
  const TWO_32: nat := 0x1_0000_0000
  const TWO_64: nat := 0x1_0000_0000_0000_0000
  /** User addresses are below this, kernel addresses above. */
  const ADDR_SPLIT: nat := 0x8000_0000_0000

  function Min(a: nat, b: nat): nat { if a < b then a else b }

  function Zeros(n: nat): (r: seq<Byte>)
    ensures |r| == n && forall i :: 0 <= i < n ==> r[i] == 0
  {
    seq(n, _ => 0)
  }

  /** A list with no element twice. */
  ghost predicate Distinct<T>(s: seq<T>) {
    forall i, j :: 0 <= i < j < |s| ==> s[i] != s[j]
  }

  /** The text of a NUL-terminated string. */
  ghost predicate IsString(s: seq<Byte>) { forall i :: 0 <= i < |s| ==> s[i] != NUL }

  lemma PrefixThenSlice<T>(s: seq<T>, a: nat, b: nat)
    requires a <= b <= |s|
    ensures s[..a] + s[a..b] == s[..b]
  {
  }

  lemma SliceOfSlice<T>(s: seq<T>, a: nat, b: nat, c: nat, d: nat)
    requires a <= b <= |s| && c <= d <= b - a
    ensures s[a..b][c..d] == s[a + c..a + d]
  {
    forall k | 0 <= k < d - c ensures s[a..b][c..d][k] == s[a + c..a + d][k] {
      assert s[a..b][c..d][k] == s[a..b][c + k];
    }
  }

  lemma Associative<T>(a: seq<T>, b: seq<T>, c: seq<T>)
    ensures (a + b) + c == a + (b + c)
  {
  }

  lemma SliceIsConcat<T>(s: seq<T>, a: nat, b: nat, d: seq<T>, e: seq<T>)
    requires a <= b <= |s| && s[a..b] == d + e
    ensures a + |d| <= b && s[a..a + |d|] == d && s[a + |d|..b] == e
  {
    assert |s[a..b]| == |d| + |e|;
    assert s[a..a + |d|] == s[a..b][..|d|] && s[a + |d|..b] == s[a..b][|d|..];
  }
}
