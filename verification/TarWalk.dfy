/**
 The block walk of tar_load (kernel/src/fs/tar/tar.c) over any blocks and with any way to load an entry.
 */
module TarWalk {
  import opened Base

  /** What the loader makes of a header: the type, the path, the data. */
  datatype Raw = Raw(flag: Byte, path: seq<Byte>, data: seq<Byte>)

  /** The block at an address: the end, no header, or an entry and how far behind this byte the next is. */
  datatype Block = End | Bad | Entry(raw: Raw, skip: nat)

  datatype Loaded<S> = Loaded(state: S, ok: bool)

  function Run<S>(at: nat -> Block, load: (S, Raw) -> Loaded<S>, addr: nat, end: nat, s: S): Loaded<S>
    decreases end - addr
  {
    if addr >= end then Loaded(s, true)
    else
      match at(addr)
      case End => Loaded(s, true)
      case Bad => Loaded(s, false)
      case Entry(raw, skip) =>
        var e := load(s, raw);
        if !e.ok then e else Run(at, load, addr + 1 + skip, end, e.state)
  }

  /** Entries in turn, up to the first that fails. */
  function LoadAll<S>(load: (S, Raw) -> Loaded<S>, raws: seq<Raw>, s: S): Loaded<S>
    decreases |raws|
  {
    if raws == [] then Loaded(s, true)
    else
      var e := load(s, raws[0]);
      if !e.ok then e else LoadAll(load, raws[1..], e.state)
  }

  /** The entries of the blocks from `addr` on, up to the end, unless a block is no header. */
  function Entries(at: nat -> Block, addr: nat, end: nat): Option<seq<Raw>>
    decreases end - addr
  {
    if addr >= end then Some([])
    else
      match at(addr)
      case End => Some([])
      case Bad => None
      case Entry(raw, skip) =>
        var rest := Entries(at, addr + 1 + skip, end);
        if rest.None? then None else Some([raw] + rest.value)
  }

  /** The walk loads those entries. */
  lemma {:induction false} RunIsLoadAll<S>(at: nat -> Block, load: (S, Raw) -> Loaded<S>, addr: nat, end: nat,
                                           raws: seq<Raw>, s: S)
    requires Entries(at, addr, end) == Some(raws)
    ensures Run(at, load, addr, end, s) == LoadAll(load, raws, s)
    decreases |raws|
  {
    if raws != [] {
      var e := load(s, raws[0]);
      assert Entries(at, addr + 1 + at(addr).skip, end) == Some(raws[1..]);
      if e.ok { RunIsLoadAll(at, load, addr + 1 + at(addr).skip, end, raws[1..], e.state); }
    }
  }
}
