/** How many table pages a set of mapped paths needs: one for every proper prefix. */
module TableCount {
  import Kmem
  import opened Options
  import opened PageTables
  import Paging
  import Sets

  /** The table at the end of a path of entries, if all are there. */
  function TableAt(m: seq<nat>, t: nat, path: seq<nat>): Option<nat>
    decreases |path|
  {
    if path == [] then Some(t)
    else if Child(m, t, path[0]) == 0 then None
    else TableAt(m, Child(m, t, path[0]), path[1..])
  }

  /** Indices of a table below the root. */
  predicate TablePath(level: nat, path: seq<nat>) { |path| < level && ValidPath(level, path) }

  lemma {:induction false} TableOwned(m: seq<nat>, t: nat, level: nat, path: seq<nat>)
    requires TablePath(level, path) && TableAt(m, t, path).Some?
    ensures TableAt(m, t, path).value in Own(m, t, level, false)
    ensures path != [] ==> TableAt(m, t, path).value in OwnChild(m, t, level, path[0], false)
    decreases level
  {
    if path != [] {
      TailValid(level, path);
      TableOwned(m, Child(m, t, path[0]), level - 1, path[1..]);
      ChildOwned(m, t, level, path[0], false);
    }
  }

  /** In a tree different paths lead to different tables. */
  lemma {:induction false} TablesDiffer(m: seq<nat>, t: nat, level: nat, p: seq<nat>, q: seq<nat>)
    requires IsTree(m, t, level, false) && TablePath(level, p) && TablePath(level, q)
    requires TableAt(m, t, p).Some? && TableAt(m, t, p) == TableAt(m, t, q)
    ensures p == q
    decreases level
  {
    TableOwned(m, t, level, p);
    TableOwned(m, t, level, q);
    if p != [] { TailValid(level, p); }
    if q != [] { TailValid(level, q); }
    if p != [] && q != [] {
      if p[0] == q[0] {
        TablesDiffer(m, Child(m, t, p[0]), level - 1, p[1..], q[1..]);
        assert p == [p[0]] + p[1..] && q == [q[0]] + q[1..];
      } else {
        Unshared(m, t, level, false, p[0], q[0]);
      }
    }
  }

  ghost predicate AllTables(m: seq<nat>, root: nat, ps: set<seq<nat>>) {
    forall p :: p in ps ==> TablePath(4, p) && p != [] && TableAt(m, root, p).Some?
  }

  ghost function Tables(m: seq<nat>, root: nat, ps: set<seq<nat>>): set<nat>
    requires AllTables(m, root, ps)
  {
    set p | p in ps :: TableAt(m, root, p).value
  }

  lemma TablesInside(m: seq<nat>, root: nat, ps: set<seq<nat>>)
    requires IsTree(m, root, 4, false) && AllTables(m, root, ps)
    ensures Tables(m, root, ps) <= Own(m, root, 4, false) - {root}
  {
    forall p | p in ps
      ensures TableAt(m, root, p).value in Own(m, root, 4, false) - {root}
    {
      TableOwned(m, root, 4, p);
    }
  }

  lemma OneMoreTable(m: seq<nat>, root: nat, rest: set<seq<nat>>, p: seq<nat>)
    requires IsTree(m, root, 4, false) && AllTables(m, root, rest + {p}) && p !in rest
    ensures Tables(m, root, rest + {p}) == Tables(m, root, rest) + {TableAt(m, root, p).value}
    ensures TableAt(m, root, p).value !in Tables(m, root, rest)
  {
    var u := TableAt(m, root, p).value;
    if u in Tables(m, root, rest) {
      var q :| q in rest && TableAt(m, root, q).value == u;
      TablesDiffer(m, root, 4, p, q);
    }
  }

  lemma {:induction false} TablesCounted(m: seq<nat>, root: nat, ps: set<seq<nat>>)
    requires IsTree(m, root, 4, false) && AllTables(m, root, ps)
    ensures |Tables(m, root, ps)| == |ps|
    decreases |ps|
  {
    if ps != {} {
      var p :| p in ps;
      var rest := ps - {p};
      assert rest + {p} == ps;
      TablesCounted(m, root, rest);
      OneMoreTable(m, root, rest, p);
    }
  }

  /** The proper prefixes of a set of page paths. */
  ghost function Prefixes(paths: set<seq<nat>>): set<seq<nat>> {
    set p, j | p in paths && |p| == 4 && 1 <= j <= 3 :: p[..j]
  }

  ghost predicate PagePaths(paths: set<seq<nat>>) { forall p :: p in paths ==> |p| == 4 && ValidPath(4, p) }

  /** A mapped page has all its tables. */
  lemma {:induction false} MappedTables(m: seq<nat>, t: nat, level: nat, q: seq<nat>, j: nat)
    requires |q| == level && ValidPath(level, q) && IsTree(m, t, level, false)
    requires Translate(m, t, level, q).Mapped? && j < level
    ensures TableAt(m, t, q[..j]).Some?
    decreases level
  {
    if j > 0 {
      TailValid(level, q);
      assert GoodEntry(Entry(m, t, q[0]), level);
      assert q[..j][1..] == q[1..][..j - 1];
      MappedTables(m, Child(m, t, q[0]), level - 1, q[1..], j - 1);
    }
  }

  /** The tables of an address space are exactly those its mapped paths need. */
  ghost predicate Counted(m: seq<nat>, root: nat, mapped: set<seq<nat>>) {
    PagePaths(mapped) && |Own(m, root, 4, false)| == 1 + |Prefixes(mapped)|
  }

  ghost predicate AllMapped(m: seq<nat>, root: nat, mapped: set<seq<nat>>)
    requires PagePaths(mapped)
  {
    forall q :: q in mapped ==> Translate(m, root, 4, q).Mapped?
  }

  lemma PrefixTables(m: seq<nat>, root: nat, mapped: set<seq<nat>>)
    requires IsTree(m, root, 4, false) && PagePaths(mapped) && AllMapped(m, root, mapped)
    ensures AllTables(m, root, Prefixes(mapped))
  {
    forall p | p in Prefixes(mapped)
      ensures TablePath(4, p) && p != [] && TableAt(m, root, p).Some?
    {
      var q, j :| q in mapped && |q| == 4 && 1 <= j <= 3 && p == q[..j];
      MappedTables(m, root, 4, q, j);
    }
  }

  /** So a path has a table exactly when it is a prefix of a mapped one. */
  lemma TableIsPrefix(m: seq<nat>, root: nat, mapped: set<seq<nat>>, p: seq<nat>)
    requires IsTree(m, root, 4, false) && Counted(m, root, mapped) && AllMapped(m, root, mapped)
    requires TablePath(4, p) && p != []
    ensures TableAt(m, root, p).Some? <==> p in Prefixes(mapped)
  {
    var ps := Prefixes(mapped);
    PrefixTables(m, root, mapped);
    if TableAt(m, root, p).Some? && p !in ps {
      TablesCounted(m, root, ps + {p});
      TablesInside(m, root, ps + {p});
      Sets.SubsetSize(Tables(m, root, ps + {p}), Own(m, root, 4, false) - {root});
    }
  }

  /** How many of the first n proper prefixes of a path are not among the prefixes. */
  function NewPrefixes(ps: set<seq<nat>>, q: seq<nat>, n: nat): nat
    requires n <= |q|
  {
    if n == 0 then 0 else NewPrefixes(ps, q, n - 1) + (if q[..n] in ps then 0 else 1)
  }

  lemma {:induction false} PrefixesAdd(ps: set<seq<nat>>, q: seq<nat>, n: nat) returns (more: set<seq<nat>>)
    requires n <= |q|
    ensures more == set j | 1 <= j <= n :: q[..j]
    ensures |ps + more| == |ps| + NewPrefixes(ps, q, n)
  {
    if n == 0 {
      more := {};
      assert ps + more == ps;
    } else {
      var less := PrefixesAdd(ps, q, n - 1);
      more := less + {q[..n]};
      assert forall j :: 1 <= j <= n ==> |q[..j]| == j;
      assert q[..n] !in less;
      if q[..n] in ps { assert ps + more == ps + less; } else { assert ps + more == (ps + less) + {q[..n]}; }
    }
  }

  lemma PrefixCount(mapped: set<seq<nat>>, q: seq<nat>)
    requires |q| == 4
    ensures |Prefixes(mapped + {q})| == |Prefixes(mapped)| + NewPrefixes(Prefixes(mapped), q, 3)
  {
    var more := PrefixesAdd(Prefixes(mapped), q, 3);
    assert Prefixes(mapped + {q}) == Prefixes(mapped) + more;
  }

  /** Tables missing on the way are the prefixes without a table. */
  lemma MissingIs(m: seq<nat>, root: nat, q: seq<nat>)
    requires |q| == 4
    ensures Missing(m, root, 4, q) == if TableAt(m, root, q[..1]).None? then 3
                                      else if TableAt(m, root, q[..2]).None? then 2
                                      else if TableAt(m, root, q[..3]).None? then 1 else 0
    ensures TableAt(m, root, q[..1]).None? ==> TableAt(m, root, q[..2]).None?
    ensures TableAt(m, root, q[..2]).None? ==> TableAt(m, root, q[..3]).None?
  {
    var c1 := Child(m, root, q[0]);
    assert q[..1][1..] == [] && q[..2][1..] == q[1..][..1] && q[..3][1..] == q[1..][..2];
    assert q[1..][..1][1..] == [] && q[1..][..2][1..] == q[2..][..1] && q[2..][..1][1..] == [];
    assert q[1..][1..] == q[2..] && q[2..][1..] == q[3..];
    assert TableAt(m, root, q[..2]) == if c1 == 0 then None else TableAt(m, c1, q[1..][..1]);
    assert TableAt(m, root, q[..3]) == if c1 == 0 then None else TableAt(m, c1, q[1..][..2]);
    if c1 != 0 {
      var c2 := Child(m, c1, q[1]);
      assert TableAt(m, c1, q[1..][..1]) == if c2 == 0 then None else Some(c2);
      assert TableAt(m, c1, q[1..][..2]) == if c2 == 0 then None else TableAt(m, c2, q[2..][..1]);
      assert Missing(m, c1, 3, q[1..]) == if c2 == 0 then 2 else Missing(m, c2, 2, q[2..]);
      if c2 != 0 {
        var c3 := Child(m, c2, q[2]);
        assert TableAt(m, c2, q[2..][..1]) == if c3 == 0 then None else Some(c3);
        assert Missing(m, c2, 2, q[2..]) == if c3 == 0 then 1 else 0;
      }
    }
  }

  /** Mapping one more path makes exactly the tables of its new prefixes. */
  lemma MissingCount(m: seq<nat>, root: nat, mapped: set<seq<nat>>, q: seq<nat>)
    requires IsTree(m, root, 4, false) && Counted(m, root, mapped) && AllMapped(m, root, mapped)
    requires |q| == 4 && ValidPath(4, q)
    ensures Missing(m, root, 4, q) == |Prefixes(mapped + {q})| - |Prefixes(mapped)|
  {
    PrefixCount(mapped, q);
    MissingIs(m, root, q);
    TableIsPrefix(m, root, mapped, q[..1]);
    TableIsPrefix(m, root, mapped, q[..2]);
    TableIsPrefix(m, root, mapped, q[..3]);
    assert NewPrefixes(Prefixes(mapped), q, 3) == NewPrefixes(Prefixes(mapped), q, 2) + (if q[..3] in Prefixes(mapped) then 0 else 1);
    assert NewPrefixes(Prefixes(mapped), q, 1) == if q[..1] in Prefixes(mapped) then 0 else 1;
  }

  /** Taking free pages lowers the number of free ones by theirs. */
  lemma {:induction false} TakenFree(base: nat, st: seq<Kmem.Status>, st': seq<Kmem.Status>, s: set<nat>)
    requires Paging.Unused(base, st, s) && Paging.Taken(base, st, st', s)
    ensures Paging.FreeCount(st') == Paging.FreeCount(st) - |s|
    decreases |s|
  {
    if s == {} {
      assert st' == st;
    } else {
      var p :| p in s;
      Paging.FreeCountUpdate(st, p - base);
      TakenFree(base, st[p - base := Kmem.Used], st', s - {p});
    }
  }
}
