/**
 The in-place tokenizer strtokr (kernel/src/core/memory.c) that path resolution runs on.
 */
module Tokenizer {
  import opened Base

  // ---------------------------------------------------------------------------------------------
  // Pieces of a string

  /** The end of the delimiters from `at` on. */
  function SkipTo(s: seq<Byte>, delim: seq<Byte>, at: nat): (r: nat)
    requires at <= |s|
    ensures at <= r <= |s| && (forall i :: at <= i < r ==> s[i] in delim) && (r < |s| ==> s[r] !in delim)
    decreases |s| - at
  {
    if at < |s| && s[at] in delim then SkipTo(s, delim, at + 1) else at
  }

  /** The end of the piece that starts at `at`. */
  function RunTo(s: seq<Byte>, delim: seq<Byte>, at: nat): (r: nat)
    requires at <= |s|
    ensures at <= r <= |s| && (forall i :: at <= i < r ==> s[i] !in delim) && (r < |s| ==> s[r] in delim)
    ensures at < |s| && s[at] !in delim ==> r > at
    decreases |s| - at
  {
    if at < |s| && s[at] !in delim then RunTo(s, delim, at + 1) else at
  }

  datatype Span = Span(lo: nat, hi: nat)

  /** Where the pieces from `at` on lie. */
  function Spans(s: seq<Byte>, delim: seq<Byte>, at: nat): (r: seq<Span>)
    requires at <= |s|
    ensures forall k :: 0 <= k < |r| ==> at <= r[k].lo < r[k].hi <= |s|
    decreases |s| - at
  {
    var lo := SkipTo(s, delim, at);
    if lo == |s| then [] else [Span(lo, RunTo(s, delim, lo))] + Spans(s, delim, RunTo(s, delim, lo))
  }

  /** The pieces from `at` on. */
  function Tokens(s: seq<Byte>, delim: seq<Byte>, at: nat): (r: seq<seq<Byte>>)
    requires at <= |s|
    decreases |s| - at
  {
    var lo := SkipTo(s, delim, at);
    if lo == |s| then [] else [s[lo..RunTo(s, delim, lo)]] + Tokens(s, delim, RunTo(s, delim, lo))
  }

  lemma {:induction false} TokensAreSpans(s: seq<Byte>, delim: seq<Byte>, at: nat)
    requires at <= |s|
    ensures |Tokens(s, delim, at)| == |Spans(s, delim, at)|
    ensures forall k :: 0 <= k < |Tokens(s, delim, at)| ==>
              Tokens(s, delim, at)[k] == s[Spans(s, delim, at)[k].lo..Spans(s, delim, at)[k].hi]
    decreases |s| - at
  {
    var lo := SkipTo(s, delim, at);
    if lo < |s| { TokensAreSpans(s, delim, RunTo(s, delim, lo)); }
  }

  /** A stretch without delimiters that cannot be made longer on either side. */
  ghost predicate Maximal(s: seq<Byte>, delim: seq<Byte>, p: Span, at: nat) {
    && at <= p.lo < p.hi <= |s|
    && (forall i :: p.lo <= i < p.hi ==> s[i] !in delim)
    && (p.lo == at || s[p.lo - 1] in delim) && (p.hi == |s| || s[p.hi] in delim)
  }

  /** The pieces are maximal. */
  lemma {:induction false} SpansAreMaximal(s: seq<Byte>, delim: seq<Byte>, at: nat, from: nat, k: nat)
    requires from <= at <= |s| && (at == from || at == |s| || s[at] in delim) && k < |Spans(s, delim, at)|
    ensures Maximal(s, delim, Spans(s, delim, at)[k], from)
    decreases |s| - at
  {
    var lo := SkipTo(s, delim, at);
    if k > 0 { SpansAreMaximal(s, delim, RunTo(s, delim, lo), from, k - 1); }
  }

  /** They follow one another with a gap. */
  lemma {:induction false} SpansAreOrdered(s: seq<Byte>, delim: seq<Byte>, at: nat, k: nat)
    requires at <= |s| && k + 1 < |Spans(s, delim, at)|
    ensures Spans(s, delim, at)[k].hi < Spans(s, delim, at)[k + 1].lo
    decreases |s| - at
  {
    var hi := RunTo(s, delim, SkipTo(s, delim, at));
    if k > 0 { SpansAreOrdered(s, delim, hi, k - 1); } else { SpansAreMaximal(s, delim, hi, hi, 0); }
  }

  ghost predicate InSome(spans: seq<Span>, i: nat) {
    exists k :: 0 <= k < |spans| && spans[k].lo <= i < spans[k].hi
  }

  /** Together they hold every byte that is no delimiter. */
  lemma {:induction false} SpansCover(s: seq<Byte>, delim: seq<Byte>, at: nat, i: nat)
    requires at <= i < |s| && s[i] !in delim
    ensures InSome(Spans(s, delim, at), i)
    decreases |s| - at
  {
    var lo := SkipTo(s, delim, at);
    var hi := RunTo(s, delim, lo);
    var all, rest := Spans(s, delim, at), Spans(s, delim, hi);
    assert all == [Span(lo, hi)] + rest;
    if i < hi {
      assert all[0].lo <= i < all[0].hi;
    } else {
      SpansCover(s, delim, hi, i);
      var k :| 0 <= k < |rest| && rest[k].lo <= i < rest[k].hi;
      assert all[k + 1] == rest[k];
    }
  }

  /** The first piece, and the pieces past the delimiter behind it. */
  lemma FirstToken(s: seq<Byte>, delim: seq<Byte>, at: nat)
    requires at <= |s| && SkipTo(s, delim, at) < |s|
    ensures var lo := SkipTo(s, delim, at);
            var hi := RunTo(s, delim, lo);
            && |Tokens(s, delim, at)| > 0 && Tokens(s, delim, at)[0] == s[lo..hi]
            && Tokens(s, delim, at)[1..] == Tokens(s, delim, if hi < |s| then hi + 1 else hi)
  {
    var hi := RunTo(s, delim, SkipTo(s, delim, at));
    if hi < |s| { assert SkipTo(s, delim, hi) == SkipTo(s, delim, hi + 1); }
  }

  // ---------------------------------------------------------------------------------------------
  // The tokenizer

  /** From position `at` on, the buffer still holds the string that was at `base`. */
  ghost predicate Holds(b: seq<Byte>, base: nat, s: seq<Byte>, at: nat) {
    && at <= |s| && base + |s| < |b| && b[base + |s|] == NUL
    && forall j :: base + at <= j < base + |s| ==> b[j] == s[j - base]
  }

  /** A NUL-terminated string in the buffer. */
  ghost predicate StringAt(b: seq<Byte>, p: nat, w: seq<Byte>) {
    p + |w| < |b| && b[p..p + |w|] == w && b[p + |w|] == NUL
  }

  /** The string at `p`, read up to its terminator. */
  method Text(b: seq<Byte>, p: nat, ghost w: seq<Byte>) returns (text: seq<Byte>)
    requires StringAt(b, p, w) && IsString(w)
    ensures text == w
  {
    var i := p;
    while b[i] != NUL
      invariant p <= i <= p + |w| && (i < p + |w| ==> b[i] == w[i - p])
      decreases p + |w| - i
    {
      i := i + 1;
      assert i < p + |w| ==> b[p..p + |w|][i - p] == w[i - p];
    }
    text := b[p..i];
  }

  /** The save pointer of a scan that got to `at`; NULL only at the end. */
  ghost predicate SavedAt(save: Option<nat>, base: nat, s: seq<Byte>, at: nat) {
    if save.None? then at == |s| else save.value == base + at
  }

  method IsDelim(c: Byte, delim: seq<Byte>) returns (r: bool)
    ensures r <==> c in delim
  {
    var i := 0;
    while i < |delim|
      invariant i <= |delim| && c !in delim[..i]
    {
      if c == delim[i] { return true; }
      i := i + 1;
    }
    assert delim[..i] == delim;
    return false;
  }

  method SkipDelims(buf: array<Byte>, next: nat, delim: seq<Byte>, ghost base: nat, ghost s: seq<Byte>, ghost at: nat)
    returns (n: nat)
    requires IsString(s) && Holds(buf[..], base, s, at) && next == base + at
    ensures n == base + SkipTo(s, delim, at)
  {
    n := next;
    while buf[n] != NUL
      invariant base + at <= n <= base + |s| && SkipTo(s, delim, n - base) == SkipTo(s, delim, at)
      decreases base + |s| - n
    {
      var d := IsDelim(buf[n], delim);
      if !d { return; }
      n := n + 1;
    }
  }

  /** The end of the piece at `first`, and whether a delimiter is there. */
  method ScanToken(buf: array<Byte>, first: nat, delim: seq<Byte>, ghost base: nat, ghost s: seq<Byte>, ghost at: nat)
    returns (end: nat, more: bool)
    requires IsString(s) && Holds(buf[..], base, s, at) && first == base + SkipTo(s, delim, at) && buf[first] != NUL
    ensures end == base + RunTo(s, delim, first - base) && (more <==> end < base + |s|)
    ensures buf[first..end] == s[first - base..end - base]
  {
    end := first;
    ghost var hi := RunTo(s, delim, first - base);
    while buf[end] != NUL
      invariant first <= end <= base + hi && RunTo(s, delim, end - base) == hi
      decreases base + |s| - end
    {
      more := IsDelim(buf[end], delim);
      if more { return; }
      end := end + 1;
    }
    more := false;
  }

  /** Terminates the piece at `first` and gives the position behind it. */
  method TakeToken(buf: array<Byte>, first: nat, delim: seq<Byte>, ghost base: nat, ghost s: seq<Byte>, ghost at: nat)
    returns (save': Option<nat>, ghost at': nat)
    requires IsString(s) && Holds(buf[..], base, s, at) && first == base + SkipTo(s, delim, at) && buf[first] != NUL
    modifies buf
    ensures var hi := RunTo(s, delim, first - base);
            && at' == (if hi < |s| then hi + 1 else hi) && save' == Some(base + at')
            && StringAt(buf[..], first, s[first - base..hi]) && Holds(buf[..], base, s, at')
    ensures forall j :: 0 <= j < first ==> buf[j] == old(buf[j])
  {
    var end, more := ScanToken(buf, first, delim, base, s, at);
    if !more { return Some(end), |s|; }
    buf[end] := NUL;
    assert buf[first..end] == old(buf[first..end]);
    return Some(end + 1), end + 1 - base;
  }

  /** The piece a call of strtokr yields, as far as the scan and the string go. */
  ghost predicate Yields(b: seq<Byte>, token: Option<nat>, base: nat, s: seq<Byte>, delim: seq<Byte>, at: nat,
                         at': nat)
    requires at <= |s| && at' <= |s|
  {
    var tokens := Tokens(s, delim, at);
    if tokens == [] then token == None && Tokens(s, delim, at') == []
    else
      && token.Some? && base + at <= token.value && token.value + |tokens[0]| <= base + at'
      && StringAt(b, token.value, tokens[0]) && Tokens(s, delim, at') == tokens[1..]
      && (token.value + |tokens[0]| == base + at' ==> at' == |s|)
  }

  lemma {:induction false} NothingYielded(b: seq<Byte>, base: nat, s: seq<Byte>, delim: seq<Byte>, at: nat)
    requires at <= |s| && SkipTo(s, delim, at) == |s|
    ensures Yields(b, None, base, s, delim, at, |s|)
  {
  }

  lemma {:induction false} PieceYielded(b: seq<Byte>, base: nat, s: seq<Byte>, delim: seq<Byte>, at: nat, at': nat)
    requires at <= |s| && SkipTo(s, delim, at) < |s|
    requires var lo := SkipTo(s, delim, at);
             var hi := RunTo(s, delim, lo);
             at' == (if hi < |s| then hi + 1 else hi) && StringAt(b, base + lo, s[lo..hi])
    ensures Yields(b, Some(base + SkipTo(s, delim, at)), base, s, delim, at, at')
  {
    FirstToken(s, delim, at);
  }

  /** The part of strtokr behind its first test: delimiters are skipped, then the piece is taken. */
  method FromStart(buf: array<Byte>, start: nat, delim: seq<Byte>, ghost base: nat, ghost s: seq<Byte>, ghost at: nat)
    returns (token: Option<nat>, save': Option<nat>, ghost at': nat)
    requires IsString(s) && Holds(buf[..], base, s, at) && start == base + at
    modifies buf
    ensures at <= at' <= |s| && Holds(buf[..], base, s, at') && SavedAt(save', base, s, at')
    ensures forall j :: 0 <= j < base + at ==> buf[j] == old(buf[j])
    ensures Yields(buf[..], token, base, s, delim, at, at')
  {
    var next := SkipDelims(buf, start, delim, base, s, at);
    if buf[next] == NUL {
      NothingYielded(buf[..], base, s, delim, at);
      return None, Some(next), |s|;
    }
    save', at' := TakeToken(buf, next, delim, base, s, at);
    PieceYielded(buf[..], base, s, delim, at, at');
    token := Some(next);
  }

  /**
   One call of strtokr: the next piece of the string, terminated in place. `s` is the whole string at
   `base`, `at` how far the scan has got, `at'` how far it gets.
   */
  method StrTokR(buf: array<Byte>, str: Option<nat>, delim: seq<Byte>, save: Option<nat>, ghost base: nat,
                 ghost s: seq<Byte>, ghost at: nat)
    returns (token: Option<nat>, save': Option<nat>, ghost at': nat)
    requires IsString(s) && Holds(buf[..], base, s, at)
    requires if str.Some? then str.value == base + at else SavedAt(save, base, s, at)
    modifies buf
    ensures at <= at' && Holds(buf[..], base, s, at') && SavedAt(save', base, s, at')
    ensures forall j :: 0 <= j < base + at ==> buf[j] == old(buf[j])
    ensures Yields(buf[..], token, base, s, delim, at, at')
  {
    var start := if str.Some? then str else save;
    if start.None? || buf[start.value] == NUL {
      return None, None, |s|;
    }
    token, save', at' := FromStart(buf, start.value, delim, base, s, at);
  }
}
