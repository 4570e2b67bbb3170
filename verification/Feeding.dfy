/**
 Handing a run of bytes to something that takes them one at a time, at rising positions, and may
 stop: what a write in chunks of any size has in common with a write in one piece.
 */
module Feeding {
  import opened Base

  datatype Took<S> = Took(state: S, ok: bool)
  datatype Fed<S> = Fed(state: S, n: nat)

  function After<S>(n: nat, r: Fed<S>): Fed<S> { Fed(r.state, n + r.n) }

  /** Byte after byte until one is refused; `n` says how many were taken. */
  function Feed<S>(take: (S, nat, Byte) -> Took<S>, s: S, off: nat, data: seq<Byte>): (r: Fed<S>)
    ensures r.n <= |data|
    decreases |data|
  {
    if data == [] then Fed(s, 0)
    else
      var t := take(s, off, data[0]);
      if !t.ok then Fed(t.state, 0) else After(1, Feed(take, t.state, off + 1, data[1..]))
  }

  lemma FeedFirst<S>(take: (S, nat, Byte) -> Took<S>, s: S, off: nat, b: Byte, data: seq<Byte>)
    ensures var t := take(s, off, b);
            Feed(take, s, off, [b] + data) ==
            if !t.ok then Fed(t.state, 0) else After(1, Feed(take, t.state, off + 1, data))
  {
    assert ([b] + data)[1..] == data;
  }

  /** Two runs one after the other are one run. */
  lemma {:induction false} FeedConcat<S>(take: (S, nat, Byte) -> Took<S>, s: S, off: nat, d: seq<Byte>, e: seq<Byte>)
    ensures var a := Feed(take, s, off, d);
            Feed(take, s, off, d + e) == if a.n < |d| then a else After(|d|, Feed(take, a.state, off + |d|, e))
    decreases |d|
  {
    if d == [] {
      assert d + e == e;
    } else {
      var tail := d[1..];
      assert d == [d[0]] + tail;
      assert d + e == [d[0]] + (tail + e);
      FeedFirst(take, s, off, d[0], tail);
      FeedFirst(take, s, off, d[0], tail + e);
      FeedConcat(take, take(s, off, d[0]).state, off + 1, tail, e);
      assert off + 1 + |tail| == off + |d|;
    }
  }

  ghost predicate RefusesAgain<S>(take: (S, nat, Byte) -> Took<S>, s: S, off: nat, b: Byte, c: Byte) {
    !take(s, off, b).ok ==> var t := take(s, off, b).state; take(t, off, c) == Took(t, false)
  }

  /** One that refuses goes on refusing at that position, and no longer changes. */
  ghost predicate Stubborn<S(!new)>(take: (S, nat, Byte) -> Took<S>) {
    forall s, off, b, c :: RefusesAgain(take, s, off, b, c)
  }

  /** After a refusal, trying to go on does nothing. */
  lemma {:induction false} FeedAgain<S(!new)>(take: (S, nat, Byte) -> Took<S>, s: S, off: nat, data: seq<Byte>,
                                       more: seq<Byte>)
    requires Stubborn(take) && Feed(take, s, off, data).n < |data| && more != []
    ensures var r := Feed(take, s, off, data); Feed(take, r.state, off + r.n, more) == Fed(r.state, 0)
    decreases |data|
  {
    var t, tail := take(s, off, data[0]), data[1..];
    assert data == [data[0]] + tail;
    FeedFirst(take, s, off, data[0], tail);
    if t.ok {
      FeedAgain(take, t.state, off + 1, tail, more);
      var r := Feed(take, t.state, off + 1, tail);
      assert off + 1 + r.n == off + (1 + r.n);
    } else {
      assert RefusesAgain(take, s, off, data[0], more[0]);
    }
  }

  /** Going on with a run after its first `done` bytes: a chunk taken whole goes on, one taken in part ends it. */
  lemma FeedMore<S>(take: (S, nat, Byte) -> Took<S>, s0: S, off: nat, data: seq<Byte>, done: nat, s: S, at: nat,
                    c: nat, r: Fed<S>)
    requires done + c <= |data| && Feed(take, s0, off, data[..done]) == Fed(s, done) && at == off + done
    requires r == Feed(take, s, at, data[done..done + c])
    ensures r.n == c ==> Feed(take, s0, off, data[..done + c]) == Fed(r.state, done + c)
    ensures r.n < c ==> Feed(take, s0, off, data) == Fed(r.state, done + r.n)
  {
    FeedConcat(take, s0, off, data[..done], data[done..done + c]);
    PrefixThenSlice(data, done, done + c);
    FeedConcat(take, s0, off, data[..done + c], data[done + c..]);
    assert data[..done + c] + data[done + c..] == data;
  }
}
