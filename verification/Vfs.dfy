/**
 The virtual filesystem (kernel/src/fs/vfs/vfs.c) over ramfs nodes (kernel/src/fs/ramfs/ramfs.c): mounts,
 and the token loop behind lookup, create and mkdir_parents.
 */
module Vfs {
  import opened Base
  import opened VfsTree
  import opened Tokenizer

  const SLASH: Byte := 47
  const SEPARATORS: seq<Byte> := [SLASH]
  const PATH_MAX: nat := 256

  datatype Mount = Mount(path: seq<Byte>, root: nat)

  // ---------------------------------------------------------------------------------------------
  // Mounts

  /** strncmp over the length of the second string asks for a prefix. */
  lemma {:induction false} SameUpToIsPrefix(path: seq<Byte>, m: seq<Byte>)
    requires IsString(path) && IsString(m)
    ensures SameUpTo(path, m, |m|) <==> m <= path
    decreases |m|
  {
    if m != [] && path != [] {
      SameUpToIsPrefix(path[1..], m[1..]);
      assert m == [m[0]] + m[1..] && path == [path[0]] + path[1..];
    }
  }

  ghost predicate Matches(m: Mount, path: seq<Byte>) { m.path != [] && m.path <= path }

  /** Mount `k` is the longest that matches, and the newest of those. */
  ghost predicate IsBest(mounts: seq<Mount>, path: seq<Byte>, k: nat) {
    && k < |mounts| && Matches(mounts[k], path)
    && (forall j :: 0 <= j < k && Matches(mounts[j], path) ==> |mounts[j].path| < |mounts[k].path|)
    && (forall j :: k < j < |mounts| && Matches(mounts[j], path) ==> |mounts[j].path| <= |mounts[k].path|)
  }

  /** The loop of vfs_get_mountpoint as a function, newest mount first. */
  function Best(mounts: seq<Mount>, path: seq<Byte>, i: nat, best: Option<nat>): (r: Option<nat>)
    requires i <= |mounts| && (best.Some? ==> best.value < |mounts|)
    decreases |mounts| - i
  {
    if i == |mounts| then best
    else if mounts[i].path <= path && |mounts[i].path| > (if best.Some? then |mounts[best.value].path| else 0)
      then Best(mounts, path, i + 1, Some(i))
    else Best(mounts, path, i + 1, best)
  }

  ghost predicate IsBestOf(mounts: seq<Mount>, path: seq<Byte>, n: nat, best: Option<nat>)
    requires n <= |mounts|
  {
    if best.Some? then best.value < n && IsBest(mounts[..n], path, best.value)
    else forall j :: 0 <= j < n ==> !Matches(mounts[j], path)
  }

  lemma {:induction false} BestIsBest(mounts: seq<Mount>, path: seq<Byte>, i: nat, best: Option<nat>)
    requires i <= |mounts| && IsBestOf(mounts, path, i, best)
    ensures IsBestOf(mounts, path, |mounts|, Best(mounts, path, i, best))
    decreases |mounts| - i
  {
    if i < |mounts| {
      if best.Some? { assert mounts[..i][best.value] == mounts[best.value]; }
      forall j | 0 <= j < i ensures mounts[..i][j] == mounts[j] && mounts[..i + 1][j] == mounts[j] { }
      if mounts[i].path <= path && |mounts[i].path| > (if best.Some? then |mounts[best.value].path| else 0) {
        BestIsBest(mounts, path, i + 1, Some(i));
      } else {
        BestIsBest(mounts, path, i + 1, best);
      }
    }
  }

  /** The path after `at`, without leading separators. */
  function Rest(path: seq<Byte>, at: nat): seq<Byte>
    requires at <= |path|
  {
    path[SkipTo(path, SEPARATORS, at)..]
  }

  datatype Place = Place(root: nat, path: seq<Name>)

  /** Where a path leads: the root of a mount and the components below it. */
  function Locate(mounts: seq<Mount>, path: seq<Byte>): (r: Option<Place>) {
    var k := Best(mounts, path, 0, None);
    if |path| >= PATH_MAX || k.None? || !(k.value < |mounts| && mounts[k.value].path <= path) then None
    else Some(Place(mounts[k.value].root, Tokens(Rest(path, |mounts[k.value].path|), SEPARATORS, 0)))
  }

  /** The walk for a whole path. */
  function WalkPath(s: Fs, mounts: seq<Mount>, path: seq<Byte>, stop: bool, wish: Wish, grants: nat): Outcome {
    var p := Locate(mounts, path);
    if p.None? then Outcome(s, None, grants) else Descend(s, p.value.root, p.value.path, stop, wish, grants)
  }

  /** vfs_lookup. */
  function Find(s: Fs, mounts: seq<Mount>, path: seq<Byte>): Option<nat> {
    var p := Locate(mounts, path);
    if p.None? then None else Lookup(s, p.value.root, p.value.path)
  }

  /** With nothing to make, the walk is a lookup and changes nothing. */
  lemma {:induction false} WalkIsLookup(s: Fs, start: nat, path: seq<Name>, grants: nat)
    ensures Descend(s, start, path, false, Wish(false, false), grants) == Outcome(s, Lookup(s, start, path), grants)
    decreases |path|
  {
    if path != [] && IsDir(s, start) && Child(s, start, path[0]).Some? {
      WalkIsLookup(s, Child(s, start, path[0]).value, path[1..], grants);
    }
  }

  lemma FindKept(s: Fs, t: Fs, mounts: seq<Mount>, path: seq<Byte>)
    requires Sound(s) && Extends(s, t) && Find(s, mounts, path).Some?
    ensures Find(t, mounts, path) == Find(s, mounts, path)
  {
    var p := Locate(mounts, path).value;
    LookupKept(s, t, p.root, p.path);
  }

  lemma LocatedRoot(s: Fs, mounts: seq<Mount>, path: seq<Byte>)
    requires Locate(mounts, path).Some? && forall k :: 0 <= k < |mounts| ==> mounts[k].root in s.nodes
    ensures Locate(mounts, path).value.root in s.nodes
  {
  }

  /** Components are pieces between separators, so they are not empty and hold no separator. */
  lemma {:induction false} TokensAreNames(s: seq<Byte>, at: nat)
    requires at <= |s| && IsString(s)
    ensures forall i :: 0 <= i < |Tokens(s, SEPARATORS, at)| ==>
              var t := Tokens(s, SEPARATORS, at)[i]; t != [] && SLASH !in t && IsString(t)
    decreases |s| - at
  {
    var lo := SkipTo(s, SEPARATORS, at);
    if lo < |s| { TokensAreNames(s, RunTo(s, SEPARATORS, lo)); }
  }

  /** A token in the part of the buffer that is done with. */
  ghost predicate TokenAt(b: seq<Byte>, p: nat, w: seq<Byte>, s: seq<Byte>, at: nat) {
    StringAt(b, p, w) && IsString(w) && p + |w| <= at && (p + |w| == at ==> at == |s|)
  }

  /** The scan has a token in hand, if there is one, and stands behind it. */
  ghost predicate Scan(b: seq<Byte>, token: Option<nat>, save: Option<nat>, s: seq<Byte>, at: nat,
                       todo: seq<seq<Byte>>) {
    && IsString(s) && Holds(b, 0, s, at) && SavedAt(save, 0, s, at) && (token.Some? <==> todo != [])
    && (todo != [] ==> TokenAt(b, token.value, todo[0], s, at) && Tokens(s, SEPARATORS, at) == todo[1..])
  }

  lemma ScanStarts(b: seq<Byte>, token: Option<nat>, save: Option<nat>, s: seq<Byte>, at: nat)
    requires IsString(s) && Holds(b, 0, s, at) && SavedAt(save, 0, s, at)
    requires Tokens(s, SEPARATORS, 0) == [] ==> token == None
    requires Tokens(s, SEPARATORS, 0) != [] ==>
               && token.Some? && StringAt(b, token.value, Tokens(s, SEPARATORS, 0)[0])
               && token.value + |Tokens(s, SEPARATORS, 0)[0]| <= at
               && Tokens(s, SEPARATORS, at) == Tokens(s, SEPARATORS, 0)[1..]
               && (token.value + |Tokens(s, SEPARATORS, 0)[0]| == at ==> at == |s|)
    ensures Scan(b, token, save, s, at, Tokens(s, SEPARATORS, 0))
  {
    TokensAreNames(s, 0);
  }

  /** Gets the token after the one in hand, which stays where it is. */
  method NextToken(buf: array<Byte>, token: nat, save: Option<nat>, ghost s: seq<Byte>, ghost at: nat,
                   ghost todo: seq<seq<Byte>>)
    returns (next: Option<nat>, save': Option<nat>, ghost at': nat)
    requires Scan(buf[..], Some(token), save, s, at, todo)
    modifies buf
    ensures StringAt(buf[..], token, todo[0]) && Scan(buf[..], next, save', s, at', todo[1..])
  {
    TokensAreNames(s, at);
    ghost var w := todo[0];
    next, save', at' := StrTokR(buf, None, SEPARATORS, save, 0, s, at);
    assert buf[token..token + |w|] == old(buf[token..token + |w|]);
  }

  class FileSystem {
    var fs: Fs
    var mounts: seq<Mount>

    ghost predicate Valid()
      reads this
    {
      && Sound(fs) && (forall id :: id in fs.nodes ==> IsString(fs.nodes[id].name))
      && forall k :: 0 <= k < |mounts| ==> IsString(mounts[k].path) && mounts[k].root in fs.nodes
    }

    /** vfs_mount: the newest mount goes in front; `room` says whether the mount could be allocated. */
    method AddMount(path: seq<Byte>, root: nat, room: bool) returns (r: int)
      requires Valid() && IsString(path) && root in fs.nodes
      modifies this`mounts
      ensures Valid() && r == (if room then 0 else -1)
      ensures mounts == if room then [Mount(Truncated(path), root)] + old(mounts) else old(mounts)
    {
      if !room { return -1; }
      mounts := [Mount(Truncated(path), root)] + mounts;
      return 0;
    }

    /** vfs_get_mountpoint: the mount, and the path behind it. */
    method GetMountpoint(path: seq<Byte>) returns (root: Option<nat>, rest: seq<Byte>)
      requires Valid() && IsString(path)
      ensures root == None <==> Best(mounts, path, 0, None) == None
      ensures root.Some? ==>
                var k := Best(mounts, path, 0, None);
                k.Some? && IsBest(mounts, path, k.value) && root == Some(mounts[k.value].root) &&
                rest == Rest(path, |mounts[k.value].path|)
    {
      BestIsBest(mounts, path, 0, None);
      var best: Option<nat> := None;
      var bestLen, i := 0, 0;
      while i < |mounts|
        invariant 0 <= i <= |mounts| && (best.Some? ==> best.value < i && mounts[best.value].path <= path)
        invariant bestLen == (if best.Some? then |mounts[best.value].path| else 0)
        invariant Best(mounts, path, i, best) == Best(mounts, path, 0, None)
      {
        SameUpToIsPrefix(path, mounts[i].path);
        if SameUpTo(path, mounts[i].path, |mounts[i].path|) && |mounts[i].path| > bestLen {
          best, bestLen := Some(i), |mounts[i].path|;
        }
        i := i + 1;
      }
      if best.None? { return None, []; }
      assert mounts[..|mounts|] == mounts;
      var at := bestLen;
      while at < |path| && path[at] == SLASH
        invariant bestLen <= at <= |path| && SkipTo(path, SEPARATORS, at) == SkipTo(path, SEPARATORS, bestLen)
      {
        at := at + 1;
      }
      return Some(mounts[best.value].root), path[at..];
    }

    /** ramfs_ops_finddir. */
    method FindDir(dir: nat, name: seq<Byte>) returns (r: Option<nat>)
      requires Valid() && dir in fs.nodes && IsString(name)
      ensures r == Child(fs, dir, name)
    {
      var cs, i := fs.nodes[dir].children, 0;
      while i < |cs|
        invariant 0 <= i <= |cs| && Named(fs.nodes, cs[i..], name) == Named(fs.nodes, cs, name)
      {
        assert cs[i] in fs.nodes[dir].children;
        SameUpToIsEqual(fs.nodes[cs[i]].name, name, NAME_SIZE);
        if SameUpTo(fs.nodes[cs[i]].name, name, NAME_SIZE) { return Some(cs[i]); }
        assert cs[i..][1..] == cs[i + 1..];
        i := i + 1;
      }
      return None;
    }

    /** ramfs_ops_create; None stands for its error return. */
    method CreateNode(dir: nat, name: seq<Byte>, kind: Kind, grants: nat) returns (node: Option<nat>, left: nat)
      requires Valid() && dir in fs.nodes && IsString(name)
      modifies this`fs
      ensures Valid()
      ensures !old(IsDir(fs, dir)) || old(Child(fs, dir, name)).Some? ==>
                node == None && left == grants && fs == old(fs)
      ensures old(IsDir(fs, dir)) && old(Child(fs, dir, name)).None? ==>
                Outcome(fs, node, left) == Create(old(fs), dir, name, kind, grants)
    {
      if fs.nodes[dir].kind != Directory { return None, grants; }
      var c := FindDir(dir, name);
      if c.Some? { return None, grants; }
      if grants < 2 { return None, 0; }
      AddChildKeeps(fs, dir, name, kind);
      node, left := Some(fs.next), grants - 2;
      fs := AddChild(fs, dir, name, kind);
    }

    /** The middle of the token loop: the child, or a new one when the caller wants it made. */
    method StepNode(parent: nat, name: seq<Byte>, last: bool, wish: Wish, grants: nat)
      returns (target: Option<nat>, left: nat)
      requires Valid() && IsDir(fs, parent) && IsString(name)
      modifies this`fs
      ensures Valid() && Outcome(fs, target, left) == Step(old(fs), parent, name, last, wish, grants)
      ensures Extends(old(fs), fs) && (target.Some? ==> target.value in fs.nodes)
    {
      StepKeeps(fs, parent, name, last, wish, grants);
      left := grants;
      target := FindDir(parent, name);
      if target.None? {
        if last && wish.file {
          target, left := CreateNode(parent, name, Regular, grants);
        } else if wish.dir {
          target, left := CreateNode(parent, name, Directory, grants);
        }
      }
    }

    /** Its token loop, over a buffer that holds `rest`. */
    method WalkTokens(buf: array<Byte>, ghost rest: seq<Byte>, root: nat, stop: bool, wish: Wish, grants: nat)
      returns (node: Option<nat>, left: nat)
      requires Valid() && root in fs.nodes && IsString(rest) && Holds(buf[..], 0, rest, 0)
      modifies this`fs, buf
      ensures Valid() && Extends(old(fs), fs)
      ensures Outcome(fs, node, left) == Descend(old(fs), root, Tokens(rest, SEPARATORS, 0), stop, wish, grants)
    {
      ghost var todo, at := Tokens(rest, SEPARATORS, 0), 0;
      var token, save;
      token, save, at := StrTokR(buf, Some(0), SEPARATORS, None, 0, rest, 0);
      ScanStarts(buf[..], token, save, rest, at);
      var parent := root;
      left := grants;
      while token.Some?
        invariant Valid() && parent in fs.nodes && Extends(old(fs), fs)
        invariant Scan(buf[..], token, save, rest, at, todo)
        invariant Descend(fs, parent, todo, stop, wish, left) ==
                  Descend(old(fs), root, Tokens(rest, SEPARATORS, 0), stop, wish, grants)
        decreases |todo|
      {
        var next;
        next, save, at := NextToken(buf, token.value, save, rest, at, todo);
        var last := next.None?;
        if last && stop {
          if fs.nodes[parent].kind != Directory { return None, left; }
          break;
        }
        if fs.nodes[parent].kind != Directory { return None, left; }
        var name := Text(buf[..], token.value, todo[0]);
        var target;
        ghost var fs1 := fs;
        target, left := StepNode(parent, name, last, wish, left);
        ExtendsTwice(old(fs), fs1, fs);
        if target.None? { return None, left; }
        token, parent, todo := next, target.value, todo[1..];
      }
      return Some(parent), left;
    }

    /** vfs_inner_find_and_create. */
    method FindAndCreate(path: seq<Byte>, stop: bool, wish: Wish, grants: nat) returns (node: Option<nat>, left: nat)
      requires Valid() && IsString(path)
      modifies this`fs
      ensures Valid() && Outcome(fs, node, left) == WalkPath(old(fs), mounts, path, stop, wish, grants)
      ensures Extends(old(fs), fs)
    {
      if |path| >= PATH_MAX { return None, grants; }
      var root, rest := GetMountpoint(path);
      if root.None? { return None, grants; }
      var buf := new Byte[PATH_MAX];
      forall i | 0 <= i < |rest| { buf[i] := rest[i]; }
      buf[|rest|] := NUL;
      node, left := WalkTokens(buf, rest, root.value, stop, wish, grants);
    }

    /** vfs_lookup: the node the path leads to; nothing changes. */
    method LookupPath(path: seq<Byte>) returns (node: Option<nat>)
      requires Valid() && IsString(path)
      modifies this`fs
      ensures Valid() && fs == old(fs) && node == Find(fs, mounts, path)
    {
      ghost var p := Locate(mounts, path);
      if p.Some? { WalkIsLookup(fs, p.value.root, p.value.path, 0); }
      var left;
      node, left := FindAndCreate(path, false, Wish(false, false), 0);
    }

    /**
     vfs_create. What it returns is what a lookup then finds, exactly when every component fits a name
     field; and every path that led somewhere still leads there.
     */
    method CreatePath(path: seq<Byte>, wish: Wish, grants: nat) returns (node: Option<nat>, left: nat)
      requires Valid() && IsString(path)
      modifies this`fs
      ensures Valid() && Outcome(fs, node, left) == WalkPath(old(fs), mounts, path, false, wish, grants)
      ensures node.Some? ==> Locate(mounts, path).Some?
      ensures node.Some? ==> (Find(fs, mounts, path) == node <==> Short(Locate(mounts, path).value.path))
      ensures forall q :: Find(old(fs), mounts, q).Some? ==> Find(fs, mounts, q) == Find(old(fs), mounts, q)
    {
      ghost var s := fs;
      node, left := FindAndCreate(path, false, wish, grants);
      ghost var p := Locate(mounts, path);
      if node.Some? { CreateThenLookup(s, p.value.root, p.value.path, wish, grants); }
      forall q | Find(s, mounts, q).Some? ensures Find(fs, mounts, q) == Find(s, mounts, q) {
        FindKept(s, fs, mounts, q);
      }
    }

    /** vfs_mkdir_parents: the directory above the last component; the component itself is not made. */
    method MkdirParents(path: seq<Byte>, grants: nat) returns (node: Option<nat>, left: nat)
      requires Valid() && IsString(path)
      modifies this`fs
      ensures Valid() && Outcome(fs, node, left) == WalkPath(old(fs), mounts, path, true, Wish(false, true), grants)
      ensures Find(fs, mounts, path) == Find(old(fs), mounts, path)
      ensures node.Some? && Locate(mounts, path).value.path != [] ==>
                var p := Locate(mounts, path).value;
                && IsDir(fs, node.value)
                && (Short(p.path[..|p.path| - 1]) ==> Lookup(fs, p.root, p.path[..|p.path| - 1]) == node)
      ensures forall q :: Find(old(fs), mounts, q).Some? ==> Find(fs, mounts, q) == Find(old(fs), mounts, q)
    {
      ghost var s := fs;
      var wish := Wish(false, true);
      node, left := FindAndCreate(path, true, wish, grants);
      ghost var p := Locate(mounts, path);
      if p.Some? && p.value.path != [] {
        LocatedRoot(s, mounts, path);
        LeafIsNotMade(s, p.value.root, p.value.path, wish, grants);
        if node.Some? { ParentIsFound(s, p.value.root, p.value.path, wish, grants); }
      }
      forall q | Find(s, mounts, q).Some? ensures Find(fs, mounts, q) == Find(s, mounts, q) {
        FindKept(s, fs, mounts, q);
      }
    }
  }
}
