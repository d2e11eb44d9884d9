/** The file tree: path resolution over directories and mounts, and creation. */
module Vfs {
  import opened Bytes
  import CStrings
  import opened Options
  import Ramfs

  const SLASH: byte := 47

  /** struct dentry: a name, the inode under it and the inode mounted over that. */
  datatype Entry = Entry(name: seq<byte>, mounted: Option<nat>, inode: nat)
  {
    function Target(): nat { if mounted.Some? then mounted.value else inode }
  }

  /** struct inode; directories refer to others by index, the root being 0. */
  datatype Node =
    | Directory(entries: seq<Entry>)
    | Device
    | Regular(file: Ramfs.FileState)

  ghost predicate Valid(nodes: seq<Node>) {
    && |nodes| > 0 && nodes[0].Directory?
    && forall d, i :: 0 <= d < |nodes| && nodes[d].Directory? && 0 <= i < |nodes[d].entries| ==>
         nodes[d].entries[i].Target() < |nodes|
  }

  /** Every name is a C string. */
  ghost predicate CNames(nodes: seq<Node>) {
    forall d, i :: 0 <= d < |nodes| && nodes[d].Directory? && 0 <= i < |nodes[d].entries| ==>
      0 !in nodes[d].entries[i].name
  }

  /** struct vfs_lookup_result */
  datatype Lookup =
    | Exists(inode: nat, parent: nat)
    | Missing(directory: nat, name: seq<byte>)  // only the last fragment is missing
    | NoSuchDirectory
    | NotADirectory

  // ---- resolution as a walk over the components of the path

  /** Entry of a directory's list with the given name: the first one. */
  function Find(entries: seq<Entry>, name: seq<byte>): Option<Entry> {
    if entries == [] then None
    else if entries[0].name == name then Some(entries[0])
    else Find(entries[1..], name)
  }

  lemma {:induction false} FindIn(entries: seq<Entry>, name: seq<byte>)
    ensures var e := Find(entries, name);
            if e.Some? then e.value in entries && e.value.name == name
            else forall i :: 0 <= i < |entries| ==> entries[i].name != name
  {
    if entries != [] { FindIn(entries[1..], name); }
  }

  lemma {:induction false} FindAppend(entries: seq<Entry>, e: Entry, name: seq<byte>)
    ensures Find(entries + [e], name)
         == if Find(entries, name).Some? then Find(entries, name) else if e.name == name then Some(e) else None
  {
    if entries != [] {
      assert (entries + [e])[1..] == entries[1..] + [e];
      FindAppend(entries[1..], e, name);
    } else {
      assert [e][1..] == [];
    }
  }

  function Walk(nodes: seq<Node>, at: nat, parent: nat, names: seq<seq<byte>>, trailing: bool): Lookup
    requires Valid(nodes) && at < |nodes|
    decreases |names|
  {
    if names == [] then
      if trailing && !nodes[at].Directory? then NotADirectory else Exists(at, parent)
    else if !nodes[at].Directory? then NotADirectory
    else
      var e := Find(nodes[at].entries, names[0]);
      if e.None? then
        if |names| == 1 && !trailing then Missing(at, names[0]) else NoSuchDirectory
      else
        FindIn(nodes[at].entries, names[0]);
        Walk(nodes, e.value.Target(), at, names[1..], trailing)
  }

  // ---- paths

  function SkipSlashes(path: seq<byte>, i: nat): (j: nat)
    requires i <= |path|
    ensures i <= j <= |path| && (j < |path| ==> path[j] != SLASH) && forall k :: i <= k < j ==> path[k] == SLASH
    decreases |path| - i
  {
    if i < |path| && path[i] == SLASH then SkipSlashes(path, i + 1) else i
  }

  function NameEnd(path: seq<byte>, i: nat): (j: nat)
    requires i <= |path|
    ensures i <= j <= |path| && (j < |path| ==> path[j] == SLASH) && SLASH !in path[i..j]
    ensures i < |path| && path[i] != SLASH ==> i < j
    decreases |path| - i
  {
    if i < |path| && path[i] != SLASH then NameEnd(path, i + 1) else i
  }

  /** The names of a path from position i on; several slashes count as one. */
  function NamesFrom(path: seq<byte>, i: nat): seq<seq<byte>>
    requires i <= |path|
    decreases |path| - i
  {
    var j := SkipSlashes(path, i);
    if j == |path| then [] else [path[j..NameEnd(path, j)]] + NamesFrom(path, NameEnd(path, j))
  }

  function Names(path: seq<byte>): seq<seq<byte>> { NamesFrom(path, 0) }

  predicate Trailing(path: seq<byte>) { path != [] && path[|path| - 1] == SLASH }

  function Resolved(nodes: seq<Node>, path: seq<byte>): Lookup
    requires Valid(nodes)
  {
    Walk(nodes, 0, 0, Names(path), Trailing(path))
  }

  lemma {:induction false} OnlySlashes(path: seq<byte>, i: nat)
    requires i < |path| && SkipSlashes(path, i) == |path|
    ensures Trailing(path)
    decreases |path| - i
  {
    if i + 1 < |path| { OnlySlashes(path, i + 1); }
  }

  /** One name, and what follows it. */
  lemma OneName(path: seq<byte>, i: nat)
    requires i <= |path|
    ensures var (start, end) := (SkipSlashes(path, i), NameEnd(path, SkipSlashes(path, i)));
            && (start == |path| <==> NamesFrom(path, i) == [])
            && (start < |path| ==> NamesFrom(path, i) == [path[start..end]] + NamesFrom(path, end))
            && (start < end == |path| ==> !Trailing(path) && NamesFrom(path, end) == [])
            && (start < end < |path| && NamesFrom(path, end) == [] ==> Trailing(path))
  {
    var start, end := SkipSlashes(path, i), NameEnd(path, SkipSlashes(path, i));
    if start < end == |path| {
      assert path[start..end][end - start - 1] == path[|path| - 1];
    }
    if end < |path| && NamesFrom(path, end) == [] { OnlySlashes(path, end); }
  }

  class FileTree {
    var nodes: seq<Node>

    constructor ()
      ensures nodes == [Directory([])]
    {
      nodes := [Directory([])];
    }

    /** The search of one directory for the name path[from..to]. */
    method Search(directory: nat, path: seq<byte>, from: nat, to: nat) returns (entry: Option<Entry>)
      requires directory < |nodes| && nodes[directory].Directory? && from <= to <= |path|
      requires forall i :: 0 <= i < |nodes[directory].entries| ==> 0 !in nodes[directory].entries[i].name
      ensures entry == Find(nodes[directory].entries, path[from..to])
    {
      var entries, name := nodes[directory].entries, path[from..to];
      for i := 0 to |entries|
        invariant Find(entries, name) == Find(entries[i..], name)
      {
        CStrings.CStringIs(entries[i].name + [0], 0, entries[i].name);
        var order := CStrings.StrKLCmp(entries[i].name + [0], path[from..] + [0], to - from);
        assert (path[from..] + [0])[..to - from] == name;
        if order == 0 {
          return Some(entries[i]);
        }
      }
      return None;
    }

    /** The inner loops of vfs_resolve: over slashes, then over a name. */
    method NextName(path: seq<byte>, i: nat) returns (start: nat, end: nat)
      requires i <= |path|
      ensures start == SkipSlashes(path, i) && end == NameEnd(path, start)
    {
      start := i;
      while start < |path| && path[start] == SLASH
        invariant i <= start <= |path| && SkipSlashes(path, start) == SkipSlashes(path, i)
      {
        start := start + 1;
      }
      end := start;
      while end < |path| && path[end] != SLASH
        invariant start <= end <= |path| && NameEnd(path, end) == NameEnd(path, start)
      {
        end := end + 1;
      }
    }

    /** vfs_resolve, for a NUL-free path. */
    method Resolve(path: seq<byte>) returns (r: Lookup)
      requires Valid(nodes) && CNames(nodes)
      ensures r == Resolved(nodes, path)
    {
      var i := 0;
      while i < |path| && path[i] == SLASH
        invariant i <= |path| && NamesFrom(path, i) == Names(path)
        invariant forall k :: 0 <= k < i ==> path[k] == SLASH
      {
        i := i + 1;
      }
      var inode: nat, parent: nat := 0, 0;
      while i < |path|
        invariant i <= |path| && inode < |nodes|
        invariant i == |path| && Trailing(path) ==> nodes[inode].Directory?
        invariant Walk(nodes, inode, parent, NamesFrom(path, i), Trailing(path)) == Resolved(nodes, path)
        decreases |path| - i
      {
        if !nodes[inode].Directory? {
          if NamesFrom(path, i) == [] { OnlySlashes(path, i); }
          return NotADirectory;
        }
        ghost var before := i;
        var start, end := NextName(path, i);
        i := end;
        if i == start {
          break;
        }
        OneName(path, before);
        assert NamesFrom(path, before)[1..] == NamesFrom(path, i);
        var entry := Search(inode, path, start, i);
        if entry.None? {
          if i == |path| {
            return Missing(inode, path[start..i]);
          }
          return NoSuchDirectory;
        }
        FindIn(nodes[inode].entries, path[start..i]);
        parent := inode;
        inode := entry.value.Target();
      }
      return Exists(inode, parent);
    }

    /** vfs_create and vfs_mkdir in a ramfs directory: a new inode and an entry for it at the
        end of the directory's list. */
    method Create(parent: nat, name: seq<byte>) returns (inode: nat)
      requires Valid(nodes) && CNames(nodes) && parent < |nodes| && nodes[parent].Directory?
      requires |name| <= MAX_NAME && 0 !in name
      modifies this
      ensures inode == |old(nodes)| && nodes == Added(old(nodes), parent, name, Regular(Ramfs.FileState([], 0)))
      ensures Valid(nodes) && CNames(nodes)
    {
      inode := |nodes|;
      AddedValid(nodes, parent, name, Regular(Ramfs.FileState([], 0)));
      nodes := nodes + [Regular(Ramfs.FileState([], 0))];
      Link(parent, name, inode);
    }

    method MkDir(parent: nat, name: seq<byte>) returns (inode: nat)
      requires Valid(nodes) && CNames(nodes) && parent < |nodes| && nodes[parent].Directory?
      requires |name| <= MAX_NAME && 0 !in name
      modifies this
      ensures inode == |old(nodes)| && nodes == Added(old(nodes), parent, name, Directory([]))
      ensures Valid(nodes) && CNames(nodes)
    {
      inode := |nodes|;
      AddedValid(nodes, parent, name, Directory([]));
      nodes := nodes + [Directory([])];
      Link(parent, name, inode);
    }

    /** list_add_tail of a new directory entry. */
    method Link(parent: nat, name: seq<byte>, inode: nat)
      requires parent < |nodes| && nodes[parent].Directory?
      modifies this
      ensures nodes == old(nodes)[parent := Directory(old(nodes)[parent].entries + [Entry(name, None, inode)])]
    {
      nodes := nodes[parent := Directory(nodes[parent].entries + [Entry(name, None, inode)])];
    }

    /** vfs_write at offset 0 of a file just created. */
    method Fill(inode: nat, data: seq<byte>)
      requires inode < |nodes| && nodes[inode].Regular? && nodes[inode].file.Valid()
      modifies this
      ensures nodes == old(nodes)[inode := Regular(old(nodes)[inode].file.Write(0, data))]
    {
      nodes := nodes[inode := Regular(nodes[inode].file.Write(0, data))];
    }
  }

  const MAX_NAME: nat := 63 // DENTRY_MAX_NAME_LENGTH

  /** The tree with one more inode, named in directory d. */
  function Added(nodes: seq<Node>, d: nat, name: seq<byte>, node: Node): seq<Node>
    requires d < |nodes| && nodes[d].Directory?
  {
    nodes[d := Directory(nodes[d].entries + [Entry(name, None, |nodes|)])] + [node]
  }

  /** A node that has just been made refers to no other. */
  predicate Bare(node: Node) { node.Directory? ==> node.entries == [] }

  lemma AddedValid(nodes: seq<Node>, d: nat, name: seq<byte>, node: Node)
    requires Valid(nodes) && d < |nodes| && nodes[d].Directory? && Bare(node)
    ensures Valid(Added(nodes, d, name, node))
    ensures CNames(nodes) && 0 !in name ==> CNames(Added(nodes, d, name, node))
  {}

  // ---- creation and resolution

  /** The directory and the name at which a walk first fails to find an entry. */
  function MissesAt(nodes: seq<Node>, at: nat, names: seq<seq<byte>>): Option<(nat, seq<byte>)>
    requires Valid(nodes) && at < |nodes|
    decreases |names|
  {
    if names == [] || !nodes[at].Directory? then None
    else
      var e := Find(nodes[at].entries, names[0]);
      if e.None? then Some((at, names[0]))
      else
        FindIn(nodes[at].entries, names[0]);
        MissesAt(nodes, e.value.Target(), names[1..])
  }

  /** Creating an entry changes the resolution of exactly the paths that missed it: the path
      it was made for now finds it, and every walk that failed elsewhere, or succeeded, is
      as before. */
  lemma {:induction false} CreateThenWalk(nodes: seq<Node>, d: nat, name: seq<byte>, node: Node,
                                          at: nat, parent: nat, names: seq<seq<byte>>, trailing: bool)
    requires Valid(nodes) && d < |nodes| && nodes[d].Directory? && Bare(node)
    requires Valid(Added(nodes, d, name, node)) && at < |nodes|
    ensures var (before, after) := (Walk(nodes, at, parent, names, trailing),
                                    Walk(Added(nodes, d, name, node), at, parent, names, trailing));
            && (MissesAt(nodes, at, names) != Some((d, name)) ==> after == before)
            && (before == Missing(d, name) ==> after == Exists(|nodes|, d))
    decreases |names|
  {
    var nodes' := Added(nodes, d, name, node);
    if names != [] && nodes[at].Directory? {
      if at == d { FindAppend(nodes[d].entries, Entry(name, None, |nodes|), names[0]); }
      var e := Find(nodes[at].entries, names[0]);
      if e.Some? {
        FindIn(nodes[at].entries, names[0]);
        CreateThenWalk(nodes, d, name, node, e.value.Target(), at, names[1..], trailing);
      }
    }
  }

  lemma CreateThenResolve(nodes: seq<Node>, path: seq<byte>, node: Node, other: seq<byte>)
    requires Valid(nodes) && Resolved(nodes, path).Missing? && Bare(node)
    ensures var r := Resolved(nodes, path);
            && r.directory < |nodes| && nodes[r.directory].Directory?
            && var nodes' := Added(nodes, r.directory, r.name, node);
            && Valid(nodes')
            && Resolved(nodes', path) == Exists(|nodes|, r.directory)
            && (MissesAt(nodes, 0, Names(other)) != Some((r.directory, r.name))
                ==> Resolved(nodes', other) == Resolved(nodes, other))
  {
    var r := Resolved(nodes, path);
    MissingPlace(nodes, 0, 0, Names(path), Trailing(path));
    AddedValid(nodes, r.directory, r.name, node);
    CreateThenWalk(nodes, r.directory, r.name, node, 0, 0, Names(path), Trailing(path));
    CreateThenWalk(nodes, r.directory, r.name, node, 0, 0, Names(other), Trailing(other));
  }

  lemma {:induction false} MissingPlace(nodes: seq<Node>, at: nat, parent: nat, names: seq<seq<byte>>, trailing: bool)
    requires Valid(nodes) && at < |nodes| && Walk(nodes, at, parent, names, trailing).Missing?
    ensures var r := Walk(nodes, at, parent, names, trailing);
            && r.directory < |nodes| && nodes[r.directory].Directory?
            && names != [] && r.name == names[|names| - 1] && !trailing
            && Reach(nodes, at, names[..|names| - 1]) == Some(r.directory)
    decreases |names|
  {
    var e := Find(nodes[at].entries, names[0]);
    if e.Some? {
      FindIn(nodes[at].entries, names[0]);
      MissingPlace(nodes, e.value.Target(), at, names[1..], trailing);
      assert names[..|names| - 1][1..] == names[1..][..|names| - 2];
    }
  }

  // ---- the paths of a tree

  /** The inode at the end of a list of names, if all of them are there. */
  function Reach(nodes: seq<Node>, at: nat, names: seq<seq<byte>>): (r: Option<nat>)
    requires Valid(nodes) && at < |nodes|
    ensures r.Some? ==> r.value < |nodes|
    decreases |names|
  {
    if names == [] then Some(at)
    else if !nodes[at].Directory? then None
    else
      var e := Find(nodes[at].entries, names[0]);
      if e.None? then None
      else
        FindIn(nodes[at].entries, names[0]);
        Reach(nodes, e.value.Target(), names[1..])
  }

  /** The one entry of a directory. */
  function Child(nodes: seq<Node>, d: nat, name: seq<byte>): (r: Option<nat>)
    requires Valid(nodes) && d < |nodes|
    ensures r.Some? ==> r.value < |nodes|
  {
    if !nodes[d].Directory? then None
    else
      var e := Find(nodes[d].entries, name);
      FindIn(nodes[d].entries, name);
      if e.None? then None else Some(e.value.Target())
  }

  lemma {:induction false} ReachSnoc(nodes: seq<Node>, at: nat, names: seq<seq<byte>>, name: seq<byte>)
    requires Valid(nodes) && at < |nodes|
    ensures var d := Reach(nodes, at, names);
            Reach(nodes, at, names + [name]) == if d.None? then None else Child(nodes, d.value, name)
    decreases |names|
  {
    if names == [] {
      assert ([name])[1..] == [];
    } else if nodes[at].Directory? {
      assert (names + [name])[1..] == names[1..] + [name];
      var e := Find(nodes[at].entries, names[0]);
      if e.Some? {
        FindIn(nodes[at].entries, names[0]);
        ReachSnoc(nodes, e.value.Target(), names[1..], name);
      }
    }
  }

  /** Resolution succeeds exactly where all names are there. */
  lemma {:induction false} WalkIsReach(nodes: seq<Node>, at: nat, parent: nat, names: seq<seq<byte>>)
    requires Valid(nodes) && at < |nodes|
    ensures var (w, n) := (Walk(nodes, at, parent, names, false), Reach(nodes, at, names));
            if n.Some? then w.Exists? && w.inode == n.value else !w.Exists?
    decreases |names|
  {
    if names != [] && nodes[at].Directory? {
      var e := Find(nodes[at].entries, names[0]);
      if e.Some? {
        FindIn(nodes[at].entries, names[0]);
        WalkIsReach(nodes, e.value.Target(), at, names[1..]);
      }
    }
  }

  /** A name missing from a directory that is there. */
  lemma {:induction false} MissingWhen(nodes: seq<Node>, at: nat, parent: nat, names: seq<seq<byte>>, name: seq<byte>)
    requires Valid(nodes) && at < |nodes|
    requires Reach(nodes, at, names).Some? && nodes[Reach(nodes, at, names).value].Directory?
    requires Reach(nodes, at, names + [name]).None?
    ensures Walk(nodes, at, parent, names + [name], false) == Missing(Reach(nodes, at, names).value, name)
    decreases |names|
  {
    if names == [] {
      assert [name][1..] == [];
    } else {
      assert (names + [name])[1..] == names[1..] + [name];
      FindIn(nodes[at].entries, names[0]);
      MissingWhen(nodes, Find(nodes[at].entries, names[0]).value.Target(), at, names[1..], name);
    }
  }

  /** No inode is named twice, and the root not at all. */
  ghost predicate Unshared(nodes: seq<Node>) {
    && (forall a, i :: 0 <= a < |nodes| && nodes[a].Directory? && 0 <= i < |nodes[a].entries| ==>
          nodes[a].entries[i].Target() != 0)
    && (forall a, b, i, j ::
          (0 <= a < |nodes| && 0 <= b < |nodes| && nodes[a].Directory? && nodes[b].Directory?
           && 0 <= i < |nodes[a].entries| && 0 <= j < |nodes[b].entries|
           && nodes[a].entries[i].Target() == nodes[b].entries[j].Target()) ==> a == b && i == j)
  }

  lemma AddedUnshared(nodes: seq<Node>, d: nat, name: seq<byte>, node: Node)
    requires Valid(nodes) && Unshared(nodes) && d < |nodes| && nodes[d].Directory? && Bare(node)
    ensures Unshared(Added(nodes, d, name, node))
  {}

  lemma OneParent(nodes: seq<Node>, a: nat, x: seq<byte>, b: nat, y: seq<byte>)
    requires Valid(nodes) && Unshared(nodes) && a < |nodes| && b < |nodes|
    requires Child(nodes, a, x).Some? && Child(nodes, a, x) == Child(nodes, b, y)
    ensures a == b && x == y && Child(nodes, a, x) != Some(0)
  {
    FindIn(nodes[a].entries, x);
    FindIn(nodes[b].entries, y);
    var e, f := Find(nodes[a].entries, x).value, Find(nodes[b].entries, y).value;
    var i :| 0 <= i < |nodes[a].entries| && nodes[a].entries[i] == e;
    var j :| 0 <= j < |nodes[b].entries| && nodes[b].entries[j] == f;
  }

  /** In such a tree every inode has at most one list of names. */
  lemma {:induction false} OnePath(nodes: seq<Node>, p: seq<seq<byte>>, q: seq<seq<byte>>)
    requires Valid(nodes) && Unshared(nodes)
    requires Reach(nodes, 0, p).Some? && Reach(nodes, 0, p) == Reach(nodes, 0, q)
    ensures p == q
    decreases |p| + |q|
  {
    if p != [] { LastStep(nodes, p); }
    if q != [] { LastStep(nodes, q); }
    if p != [] && q != [] {
      var (a, b) := (Reach(nodes, 0, p[..|p| - 1]).value, Reach(nodes, 0, q[..|q| - 1]).value);
      OneParent(nodes, a, p[|p| - 1], b, q[|q| - 1]);
      OnePath(nodes, p[..|p| - 1], q[..|q| - 1]);
      assert p == p[..|p| - 1] + [p[|p| - 1]] && q == q[..|q| - 1] + [q[|q| - 1]];
    }
  }

  lemma LastStep(nodes: seq<Node>, p: seq<seq<byte>>)
    requires Valid(nodes) && Unshared(nodes) && p != [] && Reach(nodes, 0, p).Some?
    ensures var d := Reach(nodes, 0, p[..|p| - 1]);
            d.Some? && Reach(nodes, 0, p) == Child(nodes, d.value, p[|p| - 1]) && Reach(nodes, 0, p) != Some(0)
  {
    assert p == p[..|p| - 1] + [p[|p| - 1]];
    ReachSnoc(nodes, 0, p[..|p| - 1], p[|p| - 1]);
    var d := Reach(nodes, 0, p[..|p| - 1]).value;
    OneParent(nodes, d, p[|p| - 1], d, p[|p| - 1]);
  }

  /** Where names lead once an entry has been added. */
  lemma {:induction false} ReachAdded(nodes: seq<Node>, d: nat, name: seq<byte>, node: Node, at: nat, q: seq<seq<byte>>)
    requires Valid(nodes) && d < |nodes| && nodes[d].Directory? && Bare(node)
    requires Valid(Added(nodes, d, name, node)) && at < |nodes|
    ensures var (before, after) := (Reach(nodes, at, q), Reach(Added(nodes, d, name, node), at, q));
            if before.Some? then after == before
            else after == (if q != [] && q[|q| - 1] == name && Reach(nodes, at, q[..|q| - 1]) == Some(d)
                           then Some(|nodes|) else None)
    decreases |q|
  {
    if q != [] && nodes[at].Directory? {
      if at == d { FindAppend(nodes[d].entries, Entry(name, None, |nodes|), q[0]); }
      var e := Find(nodes[at].entries, q[0]);
      if e.Some? {
        FindIn(nodes[at].entries, q[0]);
        ReachAdded(nodes, d, name, node, e.value.Target(), q[1..]);
        if |q| > 1 { assert q[..|q| - 1][1..] == q[1..][..|q| - 2]; }
      }
    }
  }
}
