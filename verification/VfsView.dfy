/**
 The tree below one root as a map from paths to what is there: what each operation on nodes
 (kernel/src/fs/vfs/vfs.c, kernel/src/fs/ramfs/ramfs.c) does to that map.
 */
module VfsView {
  import opened Base
  import opened SparseFile
  import opened VfsTree

  datatype Item = Dir | Data(bytes: seq<Byte>)

  type Path = seq<Name>
  type View = map<Path, Item>

  ghost predicate ShowsNode(n: Inode, item: Item) {
    match item
    case Dir => n.kind == Directory
    case Data(bytes) => n.kind == Regular && Clean(n.file) && Content(n.file) == bytes
  }

  ghost predicate ShownAt(s: Fs, root: nat, q: Path, item: Item) {
    var n := Lookup(s, root, q);
    n.Some? && n.value in s.nodes && ShowsNode(s.nodes[n.value], item)
  }

  /** Exactly the paths of the view lead somewhere, each to a node of its own with the contents the view says. */
  ghost predicate Shows(s: Fs, root: nat, view: View) {
    && Sound(s) && root in s.nodes
    && (forall q: Path :: q in view <==> Lookup(s, root, q).Some?)
    && (forall q: Path :: q in view ==> ShownAt(s, root, q, view[q]))
    && (forall p: Path, q: Path :: p in view && q in view && p != q ==> Lookup(s, root, p) != Lookup(s, root, q))
  }

  lemma {:induction false} LookupAppend(s: Fs, start: nat, p: Path, name: Name)
    ensures var d := Lookup(s, start, p);
            Lookup(s, start, p + [name]) == if d.Some? && IsDir(s, d.value) then Child(s, d.value, name) else None
    decreases |p|
  {
    if p != [] {
      assert (p + [name])[1..] == p[1..] + [name];
      if IsDir(s, start) && Child(s, start, p[0]).Some? { LookupAppend(s, Child(s, start, p[0]).value, p[1..], name); }
    } else {
      assert (p + [name])[1..] == [];
    }
  }

  // ---------------------------------------------------------------------------------------------
  // A new child

  /** The path ends in `name` below the node `dir`. */
  ghost predicate EndsAt(s: Fs, start: nat, q: Path, dir: nat, name: Name) {
    q != [] && q[|q| - 1] == name && Lookup(s, start, q[..|q| - 1]) == Some(dir)
  }

  lemma EndsTail(s: Fs, start: nat, q: Path, dir: nat, name: Name)
    requires |q| > 1 && IsDir(s, start) && Child(s, start, q[0]).Some?
    ensures EndsAt(s, start, q, dir, name) <==> EndsAt(s, Child(s, start, q[0]).value, q[1..], dir, name)
  {
    var u := q[..|q| - 1];
    assert u[0] == q[0] && u[1..] == q[1..][..|q| - 2];
  }

  /** Nothing is below a node that was just made. */
  lemma NewIsEmpty(s: Fs, dir: nat, name: Name, kind: Kind, q: Path)
    requires Sound(s) && dir in s.nodes
    ensures Lookup(AddChild(s, dir, name, kind), s.next, q) == if q == [] then Some(s.next) else None
  {
    AddChildKeeps(s, dir, name, kind);
  }

  lemma {:induction false} NamedMore(nodes: map<nat, Inode>, cs: seq<nat>, id: nat, name: Name)
    requires id in nodes && nodes[id].name != name
    ensures Named(nodes, cs + [id], name) == Named(nodes, cs, name)
    decreases |cs|
  {
    if cs == [] {
      assert cs + [id] == [id];
      assert [id][1..] == [];
    } else {
      assert (cs + [id])[1..] == cs[1..] + [id];
      NamedMore(nodes, cs[1..], id, name);
    }
  }

  lemma ChildAfterAdd(s: Fs, dir: nat, name: Name, kind: Kind, start: nat, other: Name)
    requires Sound(s) && dir in s.nodes && start in s.nodes && Child(s, dir, name).None? && |name| < NAME_SIZE
    ensures Child(AddChild(s, dir, name, kind), start, other) ==
            if start == dir && other == name then Some(s.next) else Child(s, start, other)
  {
    var t := AddChild(s, dir, name, kind);
    AddChildKeeps(s, dir, name, kind);
    if start == dir && other == name {
      NewChildIsFound(s, dir, name, kind);
    } else {
      NamedElsewhere(s.nodes, t.nodes, s.nodes[start].children, other);
      if start == dir { NamedMore(t.nodes, s.nodes[dir].children, s.next, other); }
    }
  }

  /** Adding a child adds one path and changes no other. */
  lemma {:induction false} LookupAfterAdd(s: Fs, dir: nat, name: Name, kind: Kind, start: nat, q: Path)
    requires Sound(s) && IsDir(s, dir) && start in s.nodes && Child(s, dir, name).None? && |name| < NAME_SIZE
    ensures Lookup(AddChild(s, dir, name, kind), start, q) ==
            if EndsAt(s, start, q, dir, name) then Some(s.next) else Lookup(s, start, q)
    decreases |q|
  {
    var t := AddChild(s, dir, name, kind);
    AddChildKeeps(s, dir, name, kind);
    if q != [] {
      assert Same(s.nodes[start], t.nodes[start]);
      ChildAfterAdd(s, dir, name, kind, start, q[0]);
      var c := Child(s, start, q[0]);
      if IsDir(s, start) && c.Some? {
        if |q| > 1 { EndsTail(s, start, q, dir, name); }
        LookupAfterAdd(s, dir, name, kind, c.value, q[1..]);
      } else if start == dir && q[0] == name {
        NewIsEmpty(s, dir, name, kind, q[1..]);
      }
    }
  }

  function ItemOf(kind: Kind): Item { if kind == Directory then Dir else Data([]) }

  lemma OnlyEnd(s: Fs, root: nat, view: View, p: Path, name: Name, q: Path)
    requires Shows(s, root, view) && p in view && Lookup(s, root, p).Some?
    ensures EndsAt(s, root, q, Lookup(s, root, p).value, name) <==> q == p + [name]
  {
    if EndsAt(s, root, q, Lookup(s, root, p).value, name) {
      var u := q[..|q| - 1];
      assert u in view;
      assert q == u + [q[|q| - 1]];
    }
  }

  /** Every lookup after a child was added where the view has a directory. */
  lemma LookupsAfterAdd(s: Fs, root: nat, view: View, p: Path, name: Name, kind: Kind, dir: nat)
    requires Shows(s, root, view) && p in view && |name| < NAME_SIZE && Lookup(s, root, p) == Some(dir)
    requires IsDir(s, dir) && Child(s, dir, name).None?
    ensures forall q: Path :: Lookup(AddChild(s, dir, name, kind), root, q) ==
              if q == p + [name] then Some(s.next) else Lookup(s, root, q)
  {
    forall q: Path
      ensures Lookup(AddChild(s, dir, name, kind), root, q) ==
              if q == p + [name] then Some(s.next) else Lookup(s, root, q)
    {
      OnlyEnd(s, root, view, p, name, q);
      LookupAfterAdd(s, dir, name, kind, root, q);
    }
  }

  /** A tree with one more node, found at one more path, shows a view with one more item. */
  lemma ShowsMore(s: Fs, root: nat, view: View, t: Fs, p: Path, item: Item)
    requires Shows(s, root, view) && Sound(t) && root in t.nodes && p !in view
    requires s.next !in s.nodes && s.next in t.nodes
    requires forall n :: n in s.nodes ==> n in t.nodes && Same(s.nodes[n], t.nodes[n])
    requires forall q: Path :: Lookup(t, root, q) == if q == p then Some(s.next) else Lookup(s, root, q)
    requires ShowsNode(t.nodes[s.next], item)
    ensures Shows(t, root, view[p := item])
  {
    var v := view[p := item];
    forall q: Path | q in v ensures ShownAt(t, root, q, v[q]) {
      if q != p {
        assert ShownAt(s, root, q, view[q]);
        var n := Lookup(s, root, q).value;
        assert Same(s.nodes[n], t.nodes[n]);
      }
    }
    forall q: Path, u: Path | q in v && u in v && q != u ensures Lookup(t, root, q) != Lookup(t, root, u) {
      if q != p { assert ShownAt(s, root, q, view[q]); }
      if u != p { assert ShownAt(s, root, u, view[u]); }
    }
  }

  /** A directory of the view, and what it has under a name. */
  lemma DirShown(s: Fs, root: nat, view: View, p: Path, name: Name)
    requires Shows(s, root, view) && p in view && view[p] == Dir
    ensures Lookup(s, root, p).Some?
    ensures var dir := Lookup(s, root, p).value;
            IsDir(s, dir) && Child(s, dir, name) == Lookup(s, root, p + [name])
  {
    assert ShownAt(s, root, p, view[p]);
    LookupAppend(s, root, p, name);
  }

  /** In terms of the view: one more path, and nothing else. */
  lemma ShowsAfterAdd(s: Fs, root: nat, view: View, p: Path, name: Name, kind: Kind)
    requires Shows(s, root, view) && p in view && view[p] == Dir && p + [name] !in view && |name| < NAME_SIZE
    ensures var dir := Lookup(s, root, p).value;
            && IsDir(s, dir) && Child(s, dir, name).None?
            && Shows(AddChild(s, dir, name, kind), root, view[p + [name] := ItemOf(kind)])
            && Lookup(AddChild(s, dir, name, kind), root, p + [name]) == Some(s.next)
  {
    DirShown(s, root, view, p, name);
    var dir := Lookup(s, root, p).value;
    AddChildKeeps(s, dir, name, kind);
    LookupsAfterAdd(s, root, view, p, name, kind, dir);
    ShowsMore(s, root, view, AddChild(s, dir, name, kind), p + [name], ItemOf(kind));
  }

  // ---------------------------------------------------------------------------------------------
  // A walk that makes what is missing

  /** The view with the first `n` components of a path there: directories, and `leaf` at the end. */
  ghost predicate Filled(view: View, full: Path, n: nat, leaf: Item, v: View)
    requires n <= |full|
  {
    && (forall q: Path :: q in v <==> q in view || (q <= full && |q| <= n))
    && (forall q: Path :: q in v ==> v[q] == if q in view then view[q] else if q == full then leaf else Dir)
  }

  /** Nothing but directories on the way to a path. */
  ghost predicate Passable(view: View, full: Path) {
    forall q: Path :: q in view && q <= full && q != full ==> view[q] == Dir
  }

  lemma FilledStart(view: View, full: Path, leaf: Item)
    requires [] in view
    ensures Filled(view, full, 0, leaf, view)
  {
  }

  /** The next component is there, or it is the one path to add. */
  lemma FilledNext(view: View, full: Path, i: nat, leaf: Item, v: View)
    requires i < |full| && Filled(view, full, i, leaf, v)
    ensures full[..i] + [full[i]] == full[..i + 1]
    ensures var item := if i + 1 == |full| then leaf else Dir;
            Filled(view, full, i + 1, leaf, if full[..i + 1] in v then v else v[full[..i + 1] := item])
  {
    var p := full[..i + 1];
    forall q: Path ensures q <= full && |q| <= i + 1 <==> (q <= full && |q| <= i) || q == p {
      if q <= full && |q| == i + 1 { assert q == full[..|q|]; }
    }
    assert p == full <==> i + 1 == |full|;
  }

  function Leaf(wish: Wish): Item { if wish.file then Data([]) else Dir }

  /** A walk to `full` can succeed: only directories are in the way, and none are missing that it may not make. */
  ghost predicate Prepared(view: View, full: Path, stop: bool, wish: Wish) {
    && [] in view && Passable(view, full) && Short(full) && full != []
    && (wish.file || wish.dir) && (stop ==> !wish.file)
    && (!wish.dir ==> !stop && forall q: Path :: q <= full && q != full ==> q in view)
  }

  /** One step of the walk to a component that is there. */
  lemma StepFinds(s: Fs, root: nat, v: View, p: Path, name: Name, last: bool, wish: Wish, grants: nat)
    requires Shows(s, root, v) && p in v && v[p] == Dir && p + [name] in v
    ensures Lookup(s, root, p).Some? && IsDir(s, Lookup(s, root, p).value) && Lookup(s, root, p + [name]).Some?
    ensures Step(s, Lookup(s, root, p).value, name, last, wish, grants) ==
            Outcome(s, Lookup(s, root, p + [name]), grants)
  {
    DirShown(s, root, v, p, name);
  }

  /** One step of the walk to a component that is missing. */
  lemma StepMakes(s: Fs, root: nat, v: View, p: Path, name: Name, last: bool, wish: Wish, grants: nat)
    requires Shows(s, root, v) && p in v && v[p] == Dir && p + [name] !in v && |name| < NAME_SIZE
    requires grants >= 2 && Missing(last, wish).Some?
    ensures Lookup(s, root, p).Some? && IsDir(s, Lookup(s, root, p).value)
    ensures var c := Step(s, Lookup(s, root, p).value, name, last, wish, grants);
            && c.node.Some? && Lookup(c.fs, root, p + [name]) == c.node && c.grants >= grants - 2
            && Shows(c.fs, root, v[p + [name] := ItemOf(Missing(last, wish).value)])
  {
    DirShown(s, root, v, p, name);
    ShowsAfterAdd(s, root, v, p, name, Missing(last, wish).value);
  }

  /** The components before `i` are directories of the view; component `i`, if missing, may be made. */
  lemma StepAllowed(view: View, full: Path, i: nat, v: View, stop: bool, wish: Wish)
    requires i < |full| && Prepared(view, full, stop, wish) && Filled(view, full, i, Leaf(wish), v)
    requires !(stop && i + 1 == |full|)
    ensures full[..i] in v && v[full[..i]] == Dir && |full[i]| < NAME_SIZE
    ensures full[..i + 1] !in v ==> Missing(i + 1 == |full|, wish).Some?
    ensures full[..i + 1] !in v ==>
              ItemOf(Missing(i + 1 == |full|, wish).value) == if i + 1 == |full| then Leaf(wish) else Dir
  {
    var p := full[..i];
    assert p <= full && p != full;
    if full[..i + 1] !in v { assert i + 1 != |full| ==> full[..i + 1] <= full && full[..i + 1] != full; }
  }

  /** One step of the walk, in terms of the view. */
  lemma StepShows(s: Fs, root: nat, view: View, full: Path, i: nat, v: View, stop: bool, wish: Wish, grants: nat)
    returns (v': View)
    requires i < |full| && Prepared(view, full, stop, wish) && Filled(view, full, i, Leaf(wish), v) && Shows(s, root, v)
    requires grants >= 2 && !(stop && i + 1 == |full|)
    ensures Lookup(s, root, full[..i]).Some? && IsDir(s, Lookup(s, root, full[..i]).value)
    ensures Filled(view, full, i + 1, Leaf(wish), v')
    ensures var c := Step(s, Lookup(s, root, full[..i]).value, full[i], i + 1 == |full|, wish, grants);
            && c.node.Some? && Lookup(c.fs, root, full[..i + 1]) == c.node
            && Shows(c.fs, root, v') && c.grants >= grants - 2
  {
    StepAllowed(view, full, i, v, stop, wish);
    FilledNext(view, full, i, Leaf(wish), v);
    v' := if full[..i + 1] in v then v else v[full[..i + 1] := if i + 1 == |full| then Leaf(wish) else Dir];
    if full[..i + 1] in v {
      StepFinds(s, root, v, full[..i], full[i], i + 1 == |full|, wish, grants);
    } else {
      StepMakes(s, root, v, full[..i], full[i], i + 1 == |full|, wish, grants);
    }
  }

  ghost predicate At(s: Fs, root: nat, full: Path, i: nat, parent: nat)
    requires i <= |full|
  {
    Lookup(s, root, full[..i]) == Some(parent)
  }

  /** The walk finds or makes every component, and nothing else changes. */
  lemma {:induction false} DescendShows(s: Fs, root: nat, view: View, full: Path, i: nat, v: View, parent: nat,
                                        stop: bool, wish: Wish, grants: nat)
    returns (v': View)
    requires i <= |full| && (stop ==> i < |full|) && Prepared(view, full, stop, wish)
    requires Filled(view, full, i, Leaf(wish), v) && Shows(s, root, v)
    requires grants >= 2 * (|full| - i) && At(s, root, full, i, parent)
    ensures Filled(view, full, if stop then |full| - 1 else |full|, Leaf(wish), v')
    ensures var r := Descend(s, parent, full[i..], stop, wish, grants);
            && r.node.Some? && r.grants >= grants - 2 * (|full| - i) && Shows(r.fs, root, v')
            && (!stop ==> Lookup(r.fs, root, full) == r.node)
    decreases |full| - i
  {
    v' := v;
    if i == |full| {
      assert full[..i] == full && full[i..] == [];
    } else if stop && |full| - i == 1 {
      assert full[..i] <= full && full[..i] in v && v[full[..i]] == Dir;
      assert ShownAt(s, root, full[..i], v[full[..i]]);
    } else {
      v' := StepShows(s, root, view, full, i, v, stop, wish, grants);
      assert full[i..][0] == full[i] && full[i..][1..] == full[i + 1..];
      var c := Step(s, parent, full[i], i + 1 == |full|, wish, grants);
      v' := DescendShows(c.fs, root, view, full, i + 1, v', c.node.value, stop, wish, c.grants);
    }
  }

  // ---------------------------------------------------------------------------------------------
  // Writing a file

  function SetFile(s: Fs, id: nat, f: File): Fs
    requires id in s.nodes
  {
    Fs(s.nodes[id := Inode(s.nodes[id].name, s.nodes[id].kind, s.nodes[id].children, f)], s.next)
  }

  lemma SetFileKeeps(s: Fs, id: nat, f: File)
    requires Sound(s) && id in s.nodes
    ensures Sound(SetFile(s, id, f))
  {
    var t := SetFile(s, id, f);
    forall x, c | x in t.nodes && c in t.nodes[x].children ensures c in t.nodes { assert c in s.nodes[x].children; }
  }

  /** Contents have no part in finding a node. */
  lemma {:induction false} LookupAfterWrite(s: Fs, id: nat, f: File, start: nat, q: Path)
    requires Sound(s) && id in s.nodes && start in s.nodes
    ensures Lookup(SetFile(s, id, f), start, q) == Lookup(s, start, q)
    decreases |q|
  {
    var t := SetFile(s, id, f);
    if q != [] {
      NamedElsewhere(s.nodes, t.nodes, s.nodes[start].children, q[0]);
      var c := Child(s, start, q[0]);
      if IsDir(s, start) && c.Some? { LookupAfterWrite(s, id, f, c.value, q[1..]); }
    }
  }

  /** In terms of the view: the contents at one path, and nothing else. */
  lemma ShowsAfterWrite(s: Fs, root: nat, view: View, p: Path, f: File)
    requires Shows(s, root, view) && p in view && view[p].Data? && Clean(f)
    ensures Lookup(s, root, p).Some? && Lookup(s, root, p).value in s.nodes
    ensures Shows(SetFile(s, Lookup(s, root, p).value, f), root, view[p := Data(Content(f))])
  {
    assert ShownAt(s, root, p, view[p]);
    var id := Lookup(s, root, p).value;
    var t, v := SetFile(s, id, f), view[p := Data(Content(f))];
    SetFileKeeps(s, id, f);
    forall q: Path ensures Lookup(t, root, q) == Lookup(s, root, q) { LookupAfterWrite(s, id, f, root, q); }
    forall q: Path | q in v ensures ShownAt(t, root, q, v[q]) { assert ShownAt(s, root, q, view[q]); }
  }
}
