/**
 The node tree under the virtual filesystem as values (kernel/src/fs/vfs/vfs.c, kernel/src/fs/ramfs/ramfs.c):
 finding a child, adding one, and walking a path with or without making what is missing.
 */
module VfsTree {
  import opened Base
  import opened SparseFile

  const NAME_SIZE: nat := 128

  type Name = seq<Byte>

  datatype Kind = Regular | Directory

  /** A node; the children are named by their numbers, in sibling order. */
  datatype Inode = Inode(name: Name, kind: Kind, children: seq<nat>, file: File)

  /** All nodes, and the number the next one gets. */
  datatype Fs = Fs(nodes: map<nat, Inode>, next: nat)

  ghost predicate Sound(s: Fs) {
    && (forall id :: id in s.nodes ==> id < s.next && |s.nodes[id].name| < NAME_SIZE)
    && (forall id, c :: id in s.nodes && c in s.nodes[id].children ==> c in s.nodes)
  }

  /** snprintf into a name field. */
  function Truncated(name: Name): (r: Name)
    ensures |r| < NAME_SIZE && (|name| < NAME_SIZE ==> r == name)
  {
    if |name| < NAME_SIZE then name else name[..NAME_SIZE - 1]
  }

  // ---------------------------------------------------------------------------------------------
  // Names

  function CharAt(s: seq<Byte>): Byte { if s == [] then NUL else s[0] }

  /** strncmp(a, b, n) == 0 on NUL-terminated strings. */
  predicate SameUpTo(a: seq<Byte>, b: seq<Byte>, n: nat)
    decreases n
  {
    n == 0 || (CharAt(a) == CharAt(b) && (a == [] || b == [] || SameUpTo(a[1..], b[1..], n - 1)))
  }

  /** Against a name that fits its field, the comparison is equality. */
  lemma {:induction false} SameUpToIsEqual(a: seq<Byte>, b: seq<Byte>, n: nat)
    requires IsString(a) && IsString(b) && |a| < n
    ensures SameUpTo(a, b, n) <==> a == b
    decreases n
  {
    if a != [] && b != [] {
      SameUpToIsEqual(a[1..], b[1..], n - 1);
      assert a == [a[0]] + a[1..] && b == [b[0]] + b[1..];
    }
  }

  // ---------------------------------------------------------------------------------------------
  // Children

  /** The first of the nodes `cs` that has the name. */
  function Named(nodes: map<nat, Inode>, cs: seq<nat>, name: Name): (r: Option<nat>)
    ensures r.Some? ==> r.value in cs && r.value in nodes && nodes[r.value].name == name
    decreases |cs|
  {
    if cs == [] then None
    else if cs[0] in nodes && nodes[cs[0]].name == name then Some(cs[0])
    else Named(nodes, cs[1..], name)
  }

  function Child(s: Fs, dir: nat, name: Name): Option<nat> {
    if dir in s.nodes then Named(s.nodes, s.nodes[dir].children, name) else None
  }

  predicate IsDir(s: Fs, id: nat) { id in s.nodes && s.nodes[id].kind == Directory }

  /** Walking a path; None when a step finds nothing or is not below a directory. */
  function Lookup(s: Fs, start: nat, path: seq<Name>): (r: Option<nat>)
    decreases |path|
  {
    if path == [] then Some(start)
    else if !IsDir(s, start) then None
    else
      var c := Child(s, start, path[0]);
      if c.None? then None else Lookup(s, c.value, path[1..])
  }

  /** A new node at the end of a directory's children. */
  function AddChild(s: Fs, dir: nat, name: Name, kind: Kind): (r: Fs)
    requires dir in s.nodes
  {
    var d := s.nodes[dir];
    Fs(s.nodes[s.next := Inode(Truncated(name), kind, [], File([], 0))]
              [dir := Inode(d.name, d.kind, d.children + [s.next], d.file)], s.next + 1)
  }

  // ---------------------------------------------------------------------------------------------
  // Walking with creation

  /** What the walk is told to make: nothing, directories, or a file at the end. */
  datatype Wish = Wish(file: bool, dir: bool)

  datatype Outcome = Outcome(fs: Fs, node: Option<nat>, grants: nat)

  /** ramfs_ops_create for a name that is not there: two allocations. */
  function Create(s: Fs, dir: nat, name: Name, kind: Kind, grants: nat): Outcome
    requires dir in s.nodes
  {
    if grants < 2 then Outcome(s, None, 0) else Outcome(AddChild(s, dir, name, kind), Some(s.next), grants - 2)
  }

  /** The kind of node to make for a missing component, if any. */
  function Missing(last: bool, wish: Wish): Option<Kind> {
    if last && wish.file then Some(Regular) else if wish.dir then Some(Directory) else None
  }

  /** One step of the walk: the child, or a new one. */
  function Step(s: Fs, parent: nat, name: Name, last: bool, wish: Wish, grants: nat): Outcome
    requires parent in s.nodes
  {
    var c := Child(s, parent, name);
    if c.Some? then Outcome(s, c, grants)
    else
      var kind := Missing(last, wish);
      if kind.None? then Outcome(s, None, grants) else Create(s, parent, name, kind.value, grants)
  }

  /** The whole walk; with `stop` it ends at the parent of the last component. */
  function Descend(s: Fs, parent: nat, path: seq<Name>, stop: bool, wish: Wish, grants: nat): (r: Outcome)
    decreases |path|
  {
    if path == [] then Outcome(s, Some(parent), grants)
    else if !IsDir(s, parent) then Outcome(s, None, grants)
    else if stop && |path| == 1 then Outcome(s, Some(parent), grants)
    else
      var c := Step(s, parent, path[0], |path| == 1, wish, grants);
      if c.node.None? then c else Descend(c.fs, c.node.value, path[1..], stop, wish, c.grants)
  }

  // ---------------------------------------------------------------------------------------------
  // Nothing is lost

  ghost predicate Same(a: Inode, b: Inode) {
    a.name == b.name && a.kind == b.kind && a.file == b.file && a.children <= b.children
  }

  /** Nodes stay, and children are only added behind the others. */
  ghost predicate Extends(s: Fs, t: Fs) {
    s.next <= t.next && forall id :: id in s.nodes ==> id in t.nodes && Same(s.nodes[id], t.nodes[id])
  }

  lemma ExtendsTwice(s: Fs, t: Fs, u: Fs)
    requires Extends(s, t) && Extends(t, u)
    ensures Extends(s, u)
  {
    forall id | id in s.nodes ensures id in u.nodes && Same(s.nodes[id], u.nodes[id]) {
      assert Same(s.nodes[id], t.nodes[id]) && Same(t.nodes[id], u.nodes[id]);
    }
  }

  lemma {:induction false} NamedKept(s: Fs, t: Fs, cs: seq<nat>, ds: seq<nat>, name: Name)
    requires Sound(s) && Extends(s, t) && cs <= ds && (forall c :: c in cs ==> c in s.nodes)
    requires Named(s.nodes, cs, name).Some?
    ensures Named(t.nodes, ds, name) == Named(s.nodes, cs, name)
    decreases |cs|
  {
    assert Same(s.nodes[cs[0]], t.nodes[cs[0]]);
    if s.nodes[cs[0]].name != name { NamedKept(s, t, cs[1..], ds[1..], name); }
  }

  lemma ChildKept(s: Fs, t: Fs, dir: nat, name: Name)
    requires Sound(s) && Extends(s, t) && Child(s, dir, name).Some?
    ensures Child(t, dir, name) == Child(s, dir, name)
  {
    assert Same(s.nodes[dir], t.nodes[dir]);
    NamedKept(s, t, s.nodes[dir].children, t.nodes[dir].children, name);
  }

  /** A path that resolves goes on resolving to the same node. */
  lemma {:induction false} LookupKept(s: Fs, t: Fs, start: nat, path: seq<Name>)
    requires Sound(s) && Extends(s, t) && Lookup(s, start, path).Some?
    ensures Lookup(t, start, path) == Lookup(s, start, path)
    decreases |path|
  {
    if path != [] {
      ChildKept(s, t, start, path[0]);
      assert Same(s.nodes[start], t.nodes[start]);
      LookupKept(s, t, Child(s, start, path[0]).value, path[1..]);
    }
  }

  lemma AddChildKeeps(s: Fs, dir: nat, name: Name, kind: Kind)
    requires Sound(s) && dir in s.nodes
    ensures var t := AddChild(s, dir, name, kind);
            Sound(t) && Extends(s, t) && IsDir(t, dir) == IsDir(s, dir) && s.next !in s.nodes && s.next in t.nodes
  {
    var t := AddChild(s, dir, name, kind);
    forall id, c | id in t.nodes && c in t.nodes[id].children ensures c in t.nodes {
      if id == dir { assert c in s.nodes[dir].children || c == s.next; }
    }
  }

  lemma StepKeeps(s: Fs, parent: nat, name: Name, last: bool, wish: Wish, grants: nat)
    requires Sound(s) && parent in s.nodes
    ensures var c := Step(s, parent, name, last, wish, grants);
            Sound(c.fs) && Extends(s, c.fs) && (c.node.Some? ==> c.node.value in c.fs.nodes)
  {
    if Missing(last, wish).Some? { AddChildKeeps(s, parent, name, Missing(last, wish).value); }
  }

  /** Whatever a walk makes, no node is lost and no path resolves differently. */
  lemma {:induction false} DescendKeeps(s: Fs, parent: nat, path: seq<Name>, stop: bool, wish: Wish, grants: nat)
    requires Sound(s) && parent in s.nodes
    ensures var r := Descend(s, parent, path, stop, wish, grants);
            Sound(r.fs) && Extends(s, r.fs) && (r.node.Some? ==> r.node.value in r.fs.nodes)
    decreases |path|
  {
    if path != [] && IsDir(s, parent) && !(stop && |path| == 1) {
      StepKeeps(s, parent, path[0], |path| == 1, wish, grants);
      var c := Step(s, parent, path[0], |path| == 1, wish, grants);
      if c.node.Some? {
        DescendKeeps(c.fs, c.node.value, path[1..], stop, wish, c.grants);
        ExtendsTwice(s, c.fs, Descend(c.fs, c.node.value, path[1..], stop, wish, c.grants).fs);
      }
    }
  }

  // ---------------------------------------------------------------------------------------------
  // What a walk makes can be found

  /** Every component fits a name field. */
  ghost predicate Short(path: seq<Name>) { forall i :: 0 <= i < |path| ==> |path[i]| < NAME_SIZE }

  lemma {:induction false} LongNamesAreNotFound(nodes: map<nat, Inode>, cs: seq<nat>, name: Name)
    requires |name| >= NAME_SIZE && forall id :: id in nodes ==> |nodes[id].name| < NAME_SIZE
    ensures Named(nodes, cs, name).None?
    decreases |cs|
  {
    if cs != [] { LongNamesAreNotFound(nodes, cs[1..], name); }
  }

  lemma {:induction false} NamedLast(nodes: map<nat, Inode>, cs: seq<nat>, id: nat, name: Name)
    requires id in nodes && nodes[id].name == name && Named(nodes, cs, name).None?
    ensures Named(nodes, cs + [id], name) == Some(id)
    decreases |cs|
  {
    if cs != [] {
      assert (cs + [id])[1..] == cs[1..] + [id];
      NamedLast(nodes, cs[1..], id, name);
    }
  }

  /** Nodes that are not among the children do not matter. */
  lemma {:induction false} NamedElsewhere(nodes: map<nat, Inode>, nodes': map<nat, Inode>, cs: seq<nat>, name: Name)
    requires forall c :: c in cs ==> c in nodes && c in nodes' && nodes[c].name == nodes'[c].name
    ensures Named(nodes', cs, name) == Named(nodes, cs, name)
    decreases |cs|
  {
    if cs != [] { NamedElsewhere(nodes, nodes', cs[1..], name); }
  }

  /** A new child is found under its name when the name fits, and a name that does not is never found. */
  lemma NewChildIsFound(s: Fs, dir: nat, name: Name, kind: Kind)
    requires Sound(s) && dir in s.nodes && Child(s, dir, name).None?
    ensures Child(AddChild(s, dir, name, kind), dir, name) == if |name| < NAME_SIZE then Some(s.next) else None
  {
    var t := AddChild(s, dir, name, kind);
    AddChildKeeps(s, dir, name, kind);
    if |name| < NAME_SIZE {
      NamedElsewhere(s.nodes, t.nodes, s.nodes[dir].children, name);
      NamedLast(t.nodes, s.nodes[dir].children, s.next, name);
    } else {
      LongNamesAreNotFound(t.nodes, t.nodes[dir].children, name);
    }
  }

  /** A component that is found, or made under a name that fits, is found afterwards. */
  lemma StepIsFound(s: Fs, parent: nat, name: Name, last: bool, wish: Wish, grants: nat)
    requires Sound(s) && parent in s.nodes && Step(s, parent, name, last, wish, grants).node.Some?
    ensures var c := Step(s, parent, name, last, wish, grants);
            Child(c.fs, parent, name) == if |name| < NAME_SIZE then c.node else None
  {
    if Child(s, parent, name).Some? {
      StepKeeps(s, parent, name, last, wish, grants);
    } else {
      NewChildIsFound(s, parent, name, Missing(last, wish).value);
    }
  }

  /** A lookup after a walk takes the first step to the node the walk took it to. */
  lemma LookupAfterStep(s: Fs, parent: nat, path: seq<Name>, last: bool, wish: Wish, grants: nat, t: Fs)
    requires Sound(s) && path != [] && IsDir(s, parent) && Step(s, parent, path[0], last, wish, grants).node.Some?
    requires Sound(t) && Extends(Step(s, parent, path[0], last, wish, grants).fs, t)
    ensures Lookup(t, parent, path) ==
            if |path[0]| < NAME_SIZE then
              Lookup(t, Step(s, parent, path[0], last, wish, grants).node.value, path[1..])
            else None
  {
    var c := Step(s, parent, path[0], last, wish, grants);
    StepKeeps(s, parent, path[0], last, wish, grants);
    StepIsFound(s, parent, path[0], last, wish, grants);
    ExtendsTwice(s, c.fs, t);
    assert Same(s.nodes[parent], t.nodes[parent]);
    if |path[0]| < NAME_SIZE {
      ChildKept(c.fs, t, parent, path[0]);
    } else {
      LongNamesAreNotFound(t.nodes, t.nodes[parent].children, path[0]);
    }
  }

  lemma ShortTail(path: seq<Name>)
    requires path != []
    ensures Short(path) <==> |path[0]| < NAME_SIZE && Short(path[1..])
  {
    if |path[0]| < NAME_SIZE && Short(path[1..]) {
      forall i | 0 <= i < |path| ensures |path[i]| < NAME_SIZE { assert i > 0 ==> path[i] == path[1..][i - 1]; }
    }
  }

  /** Creating a path and looking it up gives the same node exactly when every component fits a name field. */
  lemma {:induction false} CreateThenLookup(s: Fs, parent: nat, path: seq<Name>, wish: Wish, grants: nat)
    requires Sound(s) && parent in s.nodes && Descend(s, parent, path, false, wish, grants).node.Some?
    ensures var r := Descend(s, parent, path, false, wish, grants);
            Lookup(r.fs, parent, path) == r.node <==> Short(path)
    decreases |path|
  {
    if path != [] {
      var c := Step(s, parent, path[0], |path| == 1, wish, grants);
      var r := Descend(s, parent, path, false, wish, grants);
      StepKeeps(s, parent, path[0], |path| == 1, wish, grants);
      DescendKeeps(c.fs, c.node.value, path[1..], false, wish, c.grants);
      LookupAfterStep(s, parent, path, |path| == 1, wish, grants, r.fs);
      CreateThenLookup(c.fs, c.node.value, path[1..], wish, c.grants);
      assert Short(path) <==> |path[0]| < NAME_SIZE && Short(path[1..]) by { ShortTail(path); }
    }
  }

  /** A file whose name does not fit is made in an empty directory, and cannot be found there. */
  lemma LongNameIsLost(name: Name)
    requires |name| >= NAME_SIZE
    ensures var s := Fs(map[0 := Inode([], Directory, [], File([], 0))], 1);
            var r := Descend(s, 0, [name], false, Wish(true, false), 2);
            r.node == Some(1) && Lookup(r.fs, 0, [name]) == None
  {
    var s := Fs(map[0 := Inode([], Directory, [], File([], 0))], 1);
    assert Child(s, 0, name) == None;
    assert [name][1..] == [];
    var t := AddChild(s, 0, name, Regular);
    assert Step(s, 0, name, true, Wish(true, false), 2) == Outcome(t, Some(1), 0);
    AddChildKeeps(s, 0, name, Regular);
    LongNamesAreNotFound(t.nodes, t.nodes[0].children, name);
  }

  lemma LongNames(s: Fs, dir: nat, name: Name)
    requires Sound(s) && Child(s, dir, name).Some?
    ensures |name| < NAME_SIZE
  {
  }

  /** Making the parents of a path does not make its leaf: the path resolves as it did before. */
  lemma {:induction false} LeafIsNotMade(s: Fs, parent: nat, path: seq<Name>, wish: Wish, grants: nat)
    requires Sound(s) && parent in s.nodes && path != [] && !wish.file
    ensures var r := Descend(s, parent, path, true, wish, grants);
            Lookup(r.fs, parent, path) == Lookup(s, parent, path)
    decreases |path|
  {
    if IsDir(s, parent) && |path| > 1 {
      var c := Step(s, parent, path[0], false, wish, grants);
      var r := Descend(s, parent, path, true, wish, grants);
      if c.node.Some? {
        StepKeeps(s, parent, path[0], false, wish, grants);
        DescendKeeps(c.fs, c.node.value, path[1..], true, wish, c.grants);
        LookupAfterStep(s, parent, path, false, wish, grants, r.fs);
        LeafIsNotMade(c.fs, c.node.value, path[1..], wish, c.grants);
        if Child(s, parent, path[0]).None? {
          assert Child(c.fs, s.next, path[1]).None?;
        } else {
          LongNames(s, parent, path[0]);
        }
      }
    }
  }

  /** The node made or found as the parent is a directory, and is what the path without its leaf resolves to. */
  lemma {:induction false} ParentIsFound(s: Fs, parent: nat, path: seq<Name>, wish: Wish, grants: nat)
    requires Sound(s) && parent in s.nodes && path != [] && Descend(s, parent, path, true, wish, grants).node.Some?
    requires !wish.file
    ensures var r := Descend(s, parent, path, true, wish, grants);
            && IsDir(r.fs, r.node.value)
            && (Short(path[..|path| - 1]) ==> Lookup(r.fs, parent, path[..|path| - 1]) == r.node)
    decreases |path|
  {
    if |path| > 1 {
      var up := path[..|path| - 1];
      var c := Step(s, parent, path[0], false, wish, grants);
      var r := Descend(s, parent, path, true, wish, grants);
      StepKeeps(s, parent, path[0], false, wish, grants);
      DescendKeeps(c.fs, c.node.value, path[1..], true, wish, c.grants);
      assert up[0] == path[0] && up[1..] == path[1..][..|path| - 2];
      LookupAfterStep(s, parent, up, false, wish, grants, r.fs);
      ParentIsFound(c.fs, c.node.value, path[1..], wish, c.grants);
      ShortTail(up);
    }
  }
}
