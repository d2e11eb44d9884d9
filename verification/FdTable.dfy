/** A process's open files: an intrusive list kept sorted by file descriptor. */
module FdTable {
  import opened Words
  import opened Options
  import opened List

  /** struct file as a value: what a descriptor stands for. */
  datatype Row = Row(fd: nat, inode: nat, offset: nat)

  ghost predicate Sorted(rows: seq<Row>) {
    && (forall i, j :: 0 <= i < j < |rows| ==> rows[i].fd < rows[j].fd)
    && (forall i :: 0 <= i < |rows| ==> rows[i].fd < B32)
  }

  function Lookup(rows: seq<Row>, fd: nat): Option<Row> {
    if rows == [] then None else if rows[0].fd == fd then Some(rows[0]) else Lookup(rows[1..], fd)
  }

  /** Number of rows with a smaller descriptor, at the front of a sorted table. */
  function Below(rows: seq<Row>, fd: nat): (k: nat)
    ensures k <= |rows| && (forall i :: 0 <= i < k ==> rows[i].fd < fd) && (k < |rows| ==> rows[k].fd >= fd)
  {
    if rows == [] || rows[0].fd >= fd then 0 else 1 + Below(rows[1..], fd)
  }

  /** close: the row of a descriptor goes. */
  function Without(rows: seq<Row>, fd: nat): seq<Row> {
    var k := Below(rows, fd);
    if k < |rows| && rows[k].fd == fd then Remove(rows, k) else rows
  }

  /** dup2: a row takes its place in the order, over any with its descriptor. */
  function With(rows: seq<Row>, row: Row): seq<Row> {
    Insert(Without(rows, row.fd), Below(rows, row.fd), row)
  }

  /** In a sorted table a descriptor is looked up at its place in the order. */
  lemma {:induction false} LookupSorted(rows: seq<Row>, fd: nat)
    requires Sorted(rows)
    ensures var k := Below(rows, fd);
            Lookup(rows, fd) == if k < |rows| && rows[k].fd == fd then Some(rows[k]) else None
    decreases |rows|
  {
    if rows != [] {
      LookupSorted(rows[1..], fd);
      if rows[0].fd >= fd && |rows| > 1 { assert rows[1..][0] == rows[1]; }
    }
  }

  lemma {:induction false} LookupIs(rows: seq<Row>, k: nat)
    requires Sorted(rows) && k < |rows|
    ensures Lookup(rows, rows[k].fd) == Some(rows[k]) && Below(rows, rows[k].fd) == k
    decreases k
  {
    if k > 0 {
      LookupIs(rows[1..], k - 1);
    }
  }

  lemma {:induction false} LookupNone(rows: seq<Row>, fd: nat)
    ensures Lookup(rows, fd).None? <==> forall i :: 0 <= i < |rows| ==> rows[i].fd != fd
    ensures Lookup(rows, fd).Some? ==> Lookup(rows, fd).value in rows && Lookup(rows, fd).value.fd == fd
    decreases |rows|
  {
    if rows != [] { LookupNone(rows[1..], fd); }
  }

  /** Two sorted tables with the same rows but one agree on every other descriptor. */
  lemma LookupAgrees(rows: seq<Row>, rows': seq<Row>, fd: nat)
    requires Sorted(rows) && Sorted(rows')
    requires forall r: Row :: r.fd == fd ==> (r in rows <==> r in rows')
    ensures Lookup(rows, fd) == Lookup(rows', fd)
  {
    LookupNone(rows, fd);
    LookupNone(rows', fd);
    if Lookup(rows, fd).Some? {
      var r := Lookup(rows, fd).value;
      var i :| 0 <= i < |rows'| && rows'[i] == r;
      LookupIs(rows', i);
    }
  }

  lemma {:induction false} BelowIs(rows: seq<Row>, fd: nat, k: nat)
    requires k <= |rows| && (forall i :: 0 <= i < k ==> rows[i].fd < fd) && (k < |rows| ==> rows[k].fd >= fd)
    ensures Below(rows, fd) == k
    decreases k
  {
    if k > 0 { BelowIs(rows[1..], fd, k - 1); }
  }

  lemma RemoveSorted(rows: seq<Row>, k: nat)
    requires Sorted(rows) && k < |rows|
    ensures Sorted(Remove(rows, k))
    ensures forall i :: 0 <= i < |rows| - 1 ==> Remove(rows, k)[i].fd != rows[k].fd
  {
    assert forall i :: 0 <= i < |rows| - 1 ==> Remove(rows, k)[i] == rows[if i < k then i else i + 1];
  }

  lemma WithoutSorted(rows: seq<Row>, fd: nat)
    requires Sorted(rows)
    ensures Sorted(Without(rows, fd))
    ensures forall i :: 0 <= i < |Without(rows, fd)| ==> Without(rows, fd)[i].fd != fd
    ensures Below(Without(rows, fd), fd) == Below(rows, fd) <= |Without(rows, fd)|
  {
    var k := Below(rows, fd);
    if k < |rows| && rows[k].fd == fd {
      RemoveSorted(rows, k);
    } else {
      LookupSorted(rows, fd);
      LookupNone(rows, fd);
    }
    BelowIs(Without(rows, fd), fd, k);
  }

  /** s is r with x at position k, between smaller and larger descriptors. */
  lemma SortedBetween(r: seq<Row>, k: nat, x: Row, s: seq<Row>)
    requires k <= |r| == |s| - 1 && Sorted(r) && x.fd < B32
    requires forall i :: 0 <= i < k ==> r[i].fd < x.fd
    requires forall i :: k <= i < |r| ==> r[i].fd > x.fd
    requires forall i {:trigger s[i]} :: 0 <= i < |s| ==> s[i] == if i < k then r[i] else if i == k then x else r[i - 1]
    ensures Sorted(s)
  {
    forall i, j | 0 <= i < j < |s|
      ensures s[i].fd < s[j].fd
    {
      var a, b := if i < k then i else i - 1, if j < k then j else j - 1;
      if i == k {
        assert s[j] == r[b];
      } else if j == k {
        assert s[i] == r[a];
      } else {
        assert r[a].fd < r[b].fd;
      }
    }
    forall i | 0 <= i < |s|
      ensures s[i].fd < B32
    {
      if i != k { assert s[i] == r[if i < k then i else i - 1]; }
    }
  }

  lemma AboveInsertion(rows: seq<Row>, fd: nat, i: nat)
    requires Sorted(rows) && Below(rows, fd) <= i < |rows| && rows[Below(rows, fd)].fd != fd
    ensures rows[i].fd > fd
  {}

  lemma InsertSorted(rows: seq<Row>, row: Row)
    requires Sorted(rows) && row.fd < B32 && forall i :: 0 <= i < |rows| ==> rows[i].fd != row.fd
    ensures Sorted(Insert(rows, Below(rows, row.fd), row))
  {
    var k := Below(rows, row.fd);
    forall i | k <= i < |rows|
      ensures rows[i].fd > row.fd
    {
      AboveInsertion(rows, row.fd, i);
    }
    SortedBetween(rows, k, row, Insert(rows, k, row));
  }

  lemma RemovedOne(rows: seq<Row>, k: nat, r: Row)
    requires k < |rows| && r != rows[k]
    ensures r in rows <==> r in Remove(rows, k)
  {
    if r in rows {
      var i :| 0 <= i < |rows| && rows[i] == r;
      assert r == Remove(rows, k)[if i < k then i else i - 1];
    }
  }

  lemma InsertedOne(rows: seq<Row>, k: nat, x: Row, r: Row)
    requires k <= |rows| && r != x
    ensures r in rows <==> r in Insert(rows, k, x)
  {
    RemovedOne(Insert(rows, k, x), k, r);
    InsertRemove(rows, k, x);
  }

  /** close removes one descriptor and touches no other. */
  lemma CloseOne(rows: seq<Row>, fd: nat, other: nat)
    requires Sorted(rows)
    ensures Sorted(Without(rows, fd)) && Lookup(Without(rows, fd), fd).None?
    ensures other != fd ==> Lookup(Without(rows, fd), other) == Lookup(rows, other)
  {
    WithoutSorted(rows, fd);
    LookupNone(Without(rows, fd), fd);
    if other != fd && Without(rows, fd) != rows {
      forall r: Row | r.fd == other
        ensures r in rows <==> r in Without(rows, fd)
      {
        RemovedOne(rows, Below(rows, fd), r);
      }
      LookupAgrees(rows, Without(rows, fd), other);
    }
  }

  /** dup2 makes the new descriptor stand for the old one's file and changes no other. */
  lemma Dup2One(rows: seq<Row>, row: Row, other: nat)
    requires Sorted(rows) && row.fd < B32
    ensures Sorted(With(rows, row)) && Lookup(With(rows, row), row.fd) == Some(row)
    ensures other != row.fd ==> Lookup(With(rows, row), other) == Lookup(rows, other)
  {
    var k, rest := Below(rows, row.fd), Without(rows, row.fd);
    WithoutSorted(rows, row.fd);
    InsertSorted(rest, row);
    LookupIs(With(rows, row), k);
    CloseOne(rows, row.fd, other);
    if other != row.fd {
      forall r: Row | r.fd == other
        ensures r in rest <==> r in With(rows, row)
      {
        InsertedOne(rest, k, row, r);
      }
      LookupAgrees(rest, With(rows, row), other);
    }
  }

  /** open's descriptor: one more than the last, in 32 bits. */
  function NextFd(rows: seq<Row>): nat {
    if rows == [] then 0 else U32(rows[|rows| - 1].fd + 1)
  }

  lemma NextFdIs(rows: seq<Row>)
    requires rows != [] && rows[|rows| - 1].fd < B32
    ensures NextFd(rows) == if rows[|rows| - 1].fd < B32 - 1 then rows[|rows| - 1].fd + 1 else 0
  {}

  /** Appending keeps the order exactly when the new descriptor is the largest. */
  lemma Appended(rows: seq<Row>, x: Row)
    requires Sorted(rows) && x.fd < B32
    ensures Sorted(rows + [x]) <==> rows == [] || rows[|rows| - 1].fd < x.fd
    ensures rows != [] && rows[|rows| - 1].fd < x.fd ==> Lookup(rows, x.fd).None?
  {
    var n, s := |rows|, rows + [x];
    assert s[n] == x && forall i :: 0 <= i < n ==> s[i] == rows[i];
    if n == 0 || rows[n - 1].fd < x.fd {
      assert forall i :: 0 <= i < n ==> rows[i].fd <= rows[n - 1].fd;
      SortedBetween(rows, n, x, s);
      LookupNone(rows, x.fd);
    } else {
      assert !(s[n - 1].fd < s[n].fd);
    }
  }

  /** The table stays sorted, and open returns a fresh descriptor, exactly when the last one
      is not the largest 32-bit number. */
  lemma OpenFresh(rows: seq<Row>, inode: nat)
    requires Sorted(rows)
    ensures Sorted(rows + [Row(NextFd(rows), inode, 0)]) <==> rows == [] || rows[|rows| - 1].fd < B32 - 1
    ensures rows != [] && rows[|rows| - 1].fd < B32 - 1 ==> Lookup(rows, NextFd(rows)).None?
  {
    if rows != [] { NextFdIs(rows); }
    Appended(rows, Row(NextFd(rows), inode, 0));
  }

  /** With descriptors 0 and 2^32 - 1 in use, open returns 0 again, and a search for it finds
      the older file. */
  lemma DescriptorReturns(a: nat, b: nat, inode: nat)
    ensures var rows := [Row(0, a, 0), Row(B32 - 1, b, 0)];
            Sorted(rows) && NextFd(rows) == 0 && Lookup(rows + [Row(0, inode, 0)], 0) == Some(Row(0, a, 0))
            && !Sorted(rows + [Row(NextFd(rows), inode, 0)])
  {
    var rows := [Row(0, a, 0), Row(B32 - 1, b, 0)];
    NextFdIs(rows);
    OpenFresh(rows, inode);
  }

  // ---- whole runs

  datatype Call = OpenCall(inode: nat) | CloseCall(arg: nat) | Dup2Call(oldArg: nat, newArg: nat)

  /** The table after a call, as the methods below leave it; descriptor arguments lose their
      high 32 bits. */
  function After(rows: seq<Row>, call: Call): seq<Row> {
    match call
    case OpenCall(inode) => rows + [Row(NextFd(rows), inode, 0)]
    case CloseCall(arg) => Without(rows, U32(arg))
    case Dup2Call(oldArg, newArg) =>
      var found := Lookup(rows, U32(oldArg));
      if found.None? then rows else With(rows, found.value.(fd := U32(newArg)))
  }

  /** open is not called when the largest descriptor is in use, nor dup2 onto the same one. */
  ghost predicate InRange(rows: seq<Row>, call: Call) {
    match call
    case OpenCall(_) => rows == [] || rows[|rows| - 1].fd < B32 - 1
    case CloseCall(_) => true
    case Dup2Call(oldArg, newArg) => U32(oldArg) != U32(newArg)
  }

  /** After dup2 the new descriptor stands for the old one's file at the same offset, and every
      other descriptor, the old one included, for what it did; from an unknown descriptor
      nothing changes. */
  lemma Dup2Effect(rows: seq<Row>, oldArg: nat, newArg: nat, fd: nat)
    requires Sorted(rows) && U32(oldArg) != U32(newArg)
    ensures var (before, found) := (Lookup(rows, fd), Lookup(rows, U32(oldArg)));
            Lookup(After(rows, Dup2Call(oldArg, newArg)), fd)
              == if found.Some? && fd == U32(newArg) then Some(Row(fd, found.value.inode, found.value.offset)) else before
  {
    var found := Lookup(rows, U32(oldArg));
    if found.Some? { Dup2One(rows, found.value.(fd := U32(newArg)), fd); }
  }

  /** After close the descriptor stands for nothing, and every other one for what it did. */
  lemma CloseEffect(rows: seq<Row>, arg: nat, fd: nat)
    requires Sorted(rows)
    ensures Lookup(After(rows, CloseCall(arg)), fd) == if fd == U32(arg) then None else Lookup(rows, fd)
  {
    CloseOne(rows, U32(arg), fd);
  }

  /** After open one descriptor more, the first or one above the last, stands for the start of
      the inode, and every other one for what it did. */
  lemma OpenEffect(rows: seq<Row>, inode: nat, fd: nat)
    requires Sorted(rows) && InRange(rows, OpenCall(inode))
    ensures var next: nat := if rows == [] then 0 else rows[|rows| - 1].fd + 1;
            Lookup(After(rows, OpenCall(inode)), fd) == if fd == next then Some(Row(next, inode, 0)) else Lookup(rows, fd)
  {
    var x := Row(NextFd(rows), inode, 0);
    var after := rows + [x];
    OpenFresh(rows, inode);
    if rows != [] { NextFdIs(rows); }
    if fd == x.fd {
      LookupIs(after, |rows|);
    } else {
      LookupAgrees(rows, after, fd);
    }
  }

  lemma ClosedTable(rows: seq<Row>, arg: nat)
    requires Sorted(rows)
    ensures forall fd :: Lookup(Without(rows, U32(arg)), fd) == if fd == U32(arg) then None else Lookup(rows, fd)
  {
    forall fd: nat
      ensures Lookup(Without(rows, U32(arg)), fd) == if fd == U32(arg) then None else Lookup(rows, fd)
    {
      CloseEffect(rows, arg, fd);
    }
  }

  lemma DuplicatedTable(rows: seq<Row>, oldArg: nat, newArg: nat)
    requires Sorted(rows) && U32(oldArg) != U32(newArg)
    ensures var (after, found) := (After(rows, Dup2Call(oldArg, newArg)), Lookup(rows, U32(oldArg)));
            && (forall fd :: fd != U32(newArg) ==> Lookup(after, fd) == Lookup(rows, fd))
            && Lookup(after, U32(newArg))
                 == if found.Some? then Some(Row(U32(newArg), found.value.inode, found.value.offset))
                    else Lookup(rows, U32(newArg))
  {
    forall fd: nat | fd != U32(newArg)
      ensures Lookup(After(rows, Dup2Call(oldArg, newArg)), fd) == Lookup(rows, fd)
    {
      Dup2Effect(rows, oldArg, newArg, fd);
    }
    Dup2Effect(rows, oldArg, newArg, U32(newArg));
  }

  lemma StepSorted(rows: seq<Row>, call: Call)
    requires Sorted(rows) && InRange(rows, call)
    ensures Sorted(After(rows, call))
  {
    match call
    case OpenCall(inode) => OpenFresh(rows, inode);
    case CloseCall(arg) => WithoutSorted(rows, U32(arg));
    case Dup2Call(oldArg, newArg) =>
      var found := Lookup(rows, U32(oldArg));
      if found.Some? { Dup2One(rows, found.value.(fd := U32(newArg)), U32(newArg)); }
  }

  /** What happens to the tables of all processes: one of them makes a call, or forks, its
      copy joining the others. */
  datatype Event = Calls(process: nat, call: Call) | Forks(process: nat)

  ghost predicate Possible(tables: seq<seq<Row>>, e: Event) {
    e.process < |tables| && (e.Calls? ==> InRange(tables[e.process], e.call))
  }

  function Happens(tables: seq<seq<Row>>, e: Event): seq<seq<Row>>
    requires e.process < |tables|
  {
    match e
    case Calls(p, call) => tables[p := After(tables[p], call)]
    case Forks(p) => tables + [tables[p]]
  }

  /** A fork gives one table more, equal to its parent's; a call changes its process's table as
      the call does; all others stay. */
  lemma EventEffect(tables: seq<seq<Row>>, e: Event, p: nat)
    requires e.process < |tables| && p < |tables|
    ensures var after := Happens(tables, e);
            if e.Forks? then |after| == |tables| + 1 && after[|tables|] == tables[e.process] && after[p] == tables[p]
            else |after| == |tables| && after[p] == if p == e.process then After(tables[p], e.call) else tables[p]
  {}

  ghost predicate CanRun(tables: seq<seq<Row>>, run: seq<Event>)
    decreases |run|
  {
    run == [] || (Possible(tables, run[0]) && CanRun(Happens(tables, run[0]), run[1..]))
  }

  function Run(tables: seq<seq<Row>>, run: seq<Event>): seq<seq<Row>>
    requires CanRun(tables, run)
    decreases |run|
  {
    if run == [] then tables else Run(Happens(tables, run[0]), run[1..])
  }

  function CallsOf(run: seq<Event>, p: nat): seq<Call>
    decreases |run|
  {
    if run == [] then []
    else (if run[0].Calls? && run[0].process == p then [run[0].call] else []) + CallsOf(run[1..], p)
  }

  function AfterAll(rows: seq<Row>, calls: seq<Call>): seq<Row>
    decreases |calls|
  {
    if calls == [] then rows else AfterAll(After(rows, calls[0]), calls[1..])
  }

  /** Through every run every process's table stays strictly sorted, so each descriptor has
      one file; and a table changes by its own process's calls only, whatever the others and
      the children it has forked do. */
  lemma {:induction false} RunSorted(tables: seq<seq<Row>>, run: seq<Event>)
    requires CanRun(tables, run) && forall p :: 0 <= p < |tables| ==> Sorted(tables[p])
    ensures |Run(tables, run)| >= |tables| && forall p :: 0 <= p < |Run(tables, run)| ==> Sorted(Run(tables, run)[p])
    ensures forall p :: 0 <= p < |tables| ==> Run(tables, run)[p] == AfterAll(tables[p], CallsOf(run, p))
    decreases |run|
  {
    if run != [] {
      var e := run[0];
      if e.Calls? { StepSorted(tables[e.process], e.call); }
      RunSorted(Happens(tables, e), run[1..]);
      forall p | 0 <= p < |tables|
        ensures Run(tables, run)[p] == AfterAll(tables[p], CallsOf(run, p))
      {
        if e.Calls? && e.process == p {
          assert CallsOf(run, p)[1..] == CallsOf(run[1..], p);
        } else {
          assert [] + CallsOf(run[1..], p) == CallsOf(run[1..], p);
        }
      }
    }
  }

  class File {
    var fd: nat
    var inode: nat
    var offset: nat

    constructor (fd: nat, inode: nat, offset: nat)
      ensures this.fd == fd && this.inode == inode && this.offset == offset
    {
      this.fd, this.inode, this.offset := fd, inode, offset;
    }

    ghost function Abs(): Row
      reads this
    {
      Row(fd, inode, offset)
    }
  }

  class Process {
    const head: Node<File?>
    ghost var ring: seq<Node<File?>>  // the list, head first
    ghost var files: seq<File>        // what its other nodes are embedded in
    ghost var rows: seq<Row>          // what those hold

    ghost predicate Linked()
      reads this, ring
    {
      && Ring(ring) && ring[0] == head && |ring| == |files| + 1
      && (forall i :: 0 <= i < |files| ==> ring[i + 1].item == files[i])
      && (forall i, j :: 0 <= i < j < |files| ==> files[i] != files[j])
    }

    ghost predicate Shown()
      reads this, files
    {
      |rows| == |files| && forall i :: 0 <= i < |rows| ==> rows[i] == files[i].Abs()
    }

    ghost predicate Valid()
      reads this, ring, files
    {
      Linked() && Shown() && Sorted(rows)
    }

    constructor ()
      ensures Valid() && rows == [] && fresh(ring)
    {
      head := new Node(null);
      new;
      InitList(head);
      ring, files, rows := [head], [], [];
    }

    /** filp_find, with the position of what it finds; its parameter has 32 bits. */
    method Find(arg: nat) returns (file: File?, node: Node<File?>, ghost k: nat)
      requires Valid()
      ensures file == null ==> Lookup(rows, U32(arg)).None?
      ensures file != null ==> k < |files| && file == files[k] && node == ring[k + 1] && k == Below(rows, U32(arg))
                               && rows[k] == file.Abs() && rows[k].fd == U32(arg) && Lookup(rows, U32(arg)) == Some(rows[k])
    {
      var fd := U32(arg);
      assert head.next == ring[if |ring| > 1 then 1 else 0];
      node := head.next;
      k := 0;
      while node != head
        invariant k <= |files| && node == ring[if k < |files| then k + 1 else 0]
        invariant forall i :: 0 <= i < k ==> rows[i].fd != fd
        decreases |files| - k
      {
        assert node.item == files[k] && rows[k] == files[k].Abs();
        if node.item.fd == fd {
          LookupIs(rows, k);
          return node.item, node, k;
        }
        assert node.next == ring[if k + 1 < |files| then k + 2 else 0];
        node := node.next;
        k := k + 1;
      }
      LookupNone(rows, fd);
      return null, head, k;
    }

    /** filp_insert_point_find: the node of the first larger descriptor, else the head. */
    method InsertPoint(fd: nat) returns (node: Node<File?>, ghost k: nat)
      requires Valid() && Lookup(rows, fd).None?
      ensures k == Below(rows, fd)
      ensures node == ring[if Below(rows, fd) < |files| then Below(rows, fd) + 1 else 0]
    {
      LookupNone(rows, fd);
      assert head.next == ring[if |ring| > 1 then 1 else 0];
      node := head.next;
      k := 0;
      while node != head
        invariant k <= |files| && node == ring[if k < |files| then k + 1 else 0]
        invariant forall i :: 0 <= i < k ==> rows[i].fd < fd
        decreases |files| - k
      {
        assert node.item == files[k] && rows[k] == files[k].Abs();
        if node.item.fd > fd {
          BelowIs(rows, fd, k);
          return;
        }
        assert node.next == ring[if k + 1 < |files| then k + 2 else 0];
        node := node.next;
        k := k + 1;
      }
      BelowIs(rows, fd, k);
    }

    /** A new file whose node goes before the given one; at the end, before the head. */
    method AddBefore(file: File, next: Node<File?>, ghost k: nat) returns (node: Node<File?>)
      requires Linked() && Shown() && k <= |files| && file !in files && next == ring[if k < |files| then k + 1 else 0]
      modifies this, ring
      ensures Linked() && Shown() && fresh(node)
      ensures ring == Insert(old(ring), k + 1, node) && files == Insert(old(files), k, file)
      ensures rows == Insert(old(rows), k, file.Abs())
    {
      node := new Node(file);
      ListAddTail(node, next, ring, if k < |files| then k + 1 else 0);
      assert Shown();
      Woven(ring, files, k, node, file);
      ShownWith(rows, files, k, file);
      Become(Insert(ring, k + 1, node), Insert(files, k, file), Insert(rows, k, file.Abs()));
    }

    /** The ghost state follows the list. */
    ghost method Become(r: seq<Node<File?>>, f: seq<File>, w: seq<Row>)
      requires Ring(r) && r[0] == head && |r| == |f| + 1 && |w| == |f|
      requires forall i :: 0 <= i < |f| ==> r[i + 1].item == f[i]
      requires forall i, j :: 0 <= i < j < |f| ==> f[i] != f[j]
      requires forall i :: 0 <= i < |w| ==> w[i] == f[i].Abs()
      modifies `ring, `files, `rows
      ensures Linked() && Shown() && ring == r && files == f && rows == w
    {
      ring, files, rows := r, f, w;
    }

    static lemma ShownWith(rows: seq<Row>, files: seq<File>, k: nat, file: File)
      requires |rows| == |files| && k <= |files| && forall i :: 0 <= i < |rows| ==> rows[i] == files[i].Abs()
      ensures forall i :: 0 <= i <= |rows| ==> Insert(rows, k, file.Abs())[i] == Insert(files, k, file)[i].Abs()
    {}

    static lemma Woven(ring: seq<Node<File?>>, files: seq<File>, k: nat, node: Node<File?>, file: File)
      requires |ring| == |files| + 1 && forall i :: 0 <= i < |files| ==> ring[i + 1].item == files[i]
      requires forall i, j :: 0 <= i < j < |files| ==> files[i] != files[j]
      requires k <= |files| && node.item == file && file !in files
      ensures var (r, f) := (Insert(ring, k + 1, node), Insert(files, k, file));
              && (forall i :: 0 <= i < |f| ==> r[i + 1].item == f[i])
              && (forall i, j :: 0 <= i < j < |f| ==> f[i] != f[j])
    {
      forall i | 0 <= i <= |files|
        ensures Insert(ring, k + 1, node)[i + 1].item == Insert(files, k, file)[i]
      {
        if i > k { assert ring[i].item == files[i - 1]; }
      }
    }

    /** list_del and file_free. */
    method Unlink(node: Node<File?>, ghost k: nat)
      requires Linked() && Shown() && k < |files| && node == ring[k + 1]
      modifies this, ring
      ensures Linked() && Shown()
      ensures ring == Remove(old(ring), k + 1) && files == Remove(old(files), k) && rows == Remove(old(rows), k)
    {
      ListDel(node, ring, k + 1);
      ring, files, rows := Remove(ring, k + 1), Remove(files, k), Remove(rows, k);
    }

    /** SYSCALL_OPEN once the inode is known. The list says afterwards what it should, but
        stays sorted only while descriptors do not wrap around. */
    method Open(inode: nat) returns (fd: nat)
      requires Valid()
      modifies this, ring
      ensures Linked() && Shown() && fd == NextFd(old(rows)) && rows == old(rows) + [Row(fd, inode, 0)]
      ensures Valid() <==> old(rows) == [] || old(rows)[|old(rows)| - 1].fd < B32 - 1
    {
      OpenFresh(rows, inode);
      var file := new File(0, inode, 0);
      var node := AddBefore(file, head, |files|);
      fd := Number(file, node, old(rows));
    }

    /** The last file gets one more than the descriptor before it. */
    method Number(file: File, node: Node<File?>, ghost before: seq<Row>) returns (fd: nat)
      requires Linked() && Shown() && |files| > 0 && file == files[|files| - 1] && node == ring[|files|]
      requires rows == before + [Row(0, file.inode, file.offset)]
      modifies this`rows, file`fd
      ensures Linked() && Shown() && fd == NextFd(before)
      ensures rows == before + [Row(fd, old(file.inode), old(file.offset))]
    {
      var previous := node.prev;
      assert previous == ring[|ring| - 2] && (previous == head <==> before == []);
      if previous == head {
        file.fd := 0;
      } else {
        assert previous.item == files[|files| - 2] && rows[|rows| - 2] == files[|files| - 2].Abs();
        file.fd := U32(previous.item.fd + 1);
      }
      fd := file.fd;
      rows := before + [Row(fd, file.inode, file.offset)];
    }

    /** SYSCALL_CLOSE */
    method Close(arg: nat) returns (ok: bool)
      requires Valid()
      modifies this, ring
      ensures Valid() && (ok <==> Lookup(old(rows), U32(arg)).Some?) && rows == Without(old(rows), U32(arg))
      ensures forall fd :: Lookup(rows, fd) == if fd == U32(arg) then None else Lookup(old(rows), fd)
      ensures forall i :: 0 <= i < |ring| ==> ring[i] in old(ring)
    {
      LookupSorted(rows, U32(arg));
      WithoutSorted(rows, U32(arg));
      ClosedTable(rows, arg);
      var file, node, k := Find(arg);
      if file == null {
        return false;
      }
      RemoveWithin(ring, k + 1);
      Unlink(node, k);
      ok := true;
    }

    /** SYSCALL_DUP2 for two different descriptors; None where it fails. */
    method Dup2(oldArg: nat, newArg: nat) returns (fd: Option<nat>)
      requires Valid() && U32(oldArg) != U32(newArg)
      modifies this, ring
      ensures Valid() && rows == After(old(rows), Dup2Call(oldArg, newArg))
      ensures fd == if Lookup(old(rows), U32(oldArg)).Some? then Some(U32(newArg)) else None
      ensures forall other :: other != U32(newArg) ==> Lookup(rows, other) == Lookup(old(rows), other)
      ensures var found := Lookup(old(rows), U32(oldArg));
              Lookup(rows, U32(newArg))
                == if found.Some? then Some(Row(U32(newArg), found.value.inode, found.value.offset))
                   else Lookup(old(rows), U32(newArg))
    {
      DuplicatedTable(rows, oldArg, newArg);
      var oldFile, oldNode, i := Find(oldArg);
      if oldFile == null {
        return None;
      }
      assert rows[i].(fd := U32(newArg)) == Row(U32(newArg), oldFile.inode, oldFile.offset);
      Replace(U32(newArg), oldFile.inode, oldFile.offset);
      fd := Some(U32(newArg));
    }

    /** The second half of dup2: whatever has the descriptor is closed, then it is reused. */
    method Replace(fd: nat, inode: nat, offset: nat)
      requires Valid() && fd < B32
      modifies this, ring
      ensures Valid() && rows == With(old(rows), Row(fd, inode, offset))
    {
      WithoutSorted(rows, fd);
      CloseOne(rows, fd, fd);
      assert U32(fd) == fd;
      var closed := Close(fd);
      Put(fd, inode, offset);
    }

    /** A file with a descriptor that is not in use, in its place in the list. */
    method Put(fd: nat, inode: nat, offset: nat)
      requires Valid() && Lookup(rows, fd).None? && fd < B32
      modifies this, ring
      ensures Valid() && rows == Insert(old(rows), Below(old(rows), fd), Row(fd, inode, offset))
    {
      LookupNone(rows, fd);
      InsertSorted(rows, Row(fd, inode, offset));
      var next, k := InsertPoint(fd);
      var file := new File(fd, inode, offset);
      var node := AddBefore(file, next, k);
    }

    /** A copy of another table's file joins the end. */
    method CopyIn(file: File) returns (copy: File, node: Node<File?>)
      requires Linked() && Shown()
      modifies this, ring
      ensures Linked() && Shown() && rows == old(rows) + [old(file.Abs())]
      ensures fresh(copy) && fresh(node) && ring == old(ring) + [node] && files == old(files) + [copy]
    {
      copy := new File(file.fd, file.inode, file.offset);
      node := AddBefore(copy, head, |files|);
    }

    /** SYSCALL_FORK's copy of the table: equal rows on files of their own. */
    method Fork() returns (child: Process)
      requires Valid()
      ensures fresh(child) && fresh(child.ring) && fresh(child.files)
      ensures child.Valid() && child.rows == rows
    {
      child := new Process();
      assert head.next == ring[if |ring| > 1 then 1 else 0];
      var node := head.next;
      ghost var k: nat := 0;
      while node != head
        invariant fresh(child) && fresh(child.ring) && fresh(child.files) && child.Linked() && child.Shown()
        invariant k <= |files| && node == ring[if k < |files| then k + 1 else 0]
        invariant child.rows == rows[..k]
        decreases |files| - k
      {
        assert node.item == files[k] && rows[k] == files[k].Abs();
        var copy, copyNode := child.CopyIn(node.item);
        assert node.next == ring[if k + 1 < |files| then k + 2 else 0];
        node := node.next;
        k := k + 1;
      }
      assert rows[..k] == rows;
    }
  }
}
