/** The table indices of an address, the walk through the tables and set_page_mapping on physical memory. */
module Paging {
  import opened Kmem
  import opened Options
  import opened PageTables
  import Words

  const DIRECTORY_ATTRIBUTES: nat := 0x27
  const TABLE_ATTRIBUTES: nat := 0xE7
  const MMIO_ATTRIBUTES: nat := 0xFF

  /** Table indices of a virtual address. */
  function PathOf(va: nat): (p: seq<nat>)
    ensures |p| == 4 && forall k :: 0 <= k < 4 ==> p[k] < 512
  {
    [va / 0x80_0000_0000 % 512, va / 0x4000_0000 % 512, va / 0x20_0000 % 512, va / 0x1000 % 512]
  }

  predicate LowerHalf(va: nat) { PathOf(va)[0] < 256 }

  /** Two canonical 48-bit addresses have one path exactly when they are on one page. */
  lemma PathIsPage(va: nat, vb: nat)
    requires va < 0x1_0000_0000_0000 && vb < 0x1_0000_0000_0000
    ensures PathOf(va) == PathOf(vb) <==> va / 4096 == vb / 4096
  {
    PathDigits(va);
    PathDigits(vb);
    var p, q := PathOf(va), PathOf(vb);
    if p == q {
      assert p[0] == q[0] && p[1] == q[1] && p[2] == q[2] && p[3] == q[3];
    }
  }

  function PagePath(page: nat): seq<nat> {
    [page / 512 / 512 / 512 % 512, page / 512 / 512 % 512, page / 512 % 512, page % 512]
  }

  lemma PathDigits(va: nat)
    requires va < 0x1_0000_0000_0000
    ensures PathOf(va) == PagePath(va / 4096)
    ensures var p := PathOf(va);
            va / 4096 == ((p[0] * 512 + p[1]) * 512 + p[2]) * 512 + p[3]
  {
    var page := va / 4096;
    assert va / 0x20_0000 == page / 512;
    assert va / 0x4000_0000 == page / 512 / 512;
    assert va / 0x80_0000_0000 == page / 512 / 512 / 512;
  }

  function FreeCount(st: seq<Status>): nat {
    if st == [] then 0 else FreeCount(st[..|st| - 1]) + (if st[|st| - 1] == Free then 1 else 0)
  }

  lemma {:induction false} FreeCountUpdate(st: seq<Status>, i: nat)
    requires i < |st| && st[i] == Free
    ensures FreeCount(st[i := Used]) == FreeCount(st) - 1 >= 0
  {
    var n := |st| - 1;
    if i < n {
      assert st[i := Used][..n] == st[..n][i := Used];
      FreeCountUpdate(st[..n], i);
    } else {
      assert st[i := Used][..n] == st[..n];
    }
  }

  lemma {:induction false} NoneFree(st: seq<Status>)
    ensures FreeCount(st) == 0 <==> forall i :: 0 <= i < |st| ==> st[i] != Free
  {
    if st != [] {
      NoneFree(st[..|st| - 1]);
      assert forall i :: 0 <= i < |st| - 1 ==> st[i] == st[..|st| - 1][i];
    }
  }

  /** Every page of s belongs to the allocator's region and is in use. */
  ghost predicate InUse(base: nat, st: seq<Status>, s: set<nat>) {
    forall p :: p in s ==> base <= p < base + |st| && st[p - base] == Used
  }

  /** Page f lies outside the region or is not free in it. */
  ghost predicate NotFree(base: nat, st: seq<Status>, f: nat) {
    base <= f < base + |st| ==> st[f - base] != Free
  }

  ghost predicate Unused(base: nat, st: seq<Status>, s: set<nat>) {
    forall p :: p in s ==> base <= p < base + |st| && st[p - base] == Free
  }

  /** st' is st with the pages of s taken. */
  ghost predicate Taken(base: nat, st: seq<Status>, st': seq<Status>, s: set<nat>) {
    |st'| == |st| && forall i :: 0 <= i < |st| ==> st'[i] == if base + i in s then Used else st[i]
  }

  /** The address space under root grew by the empty tables f, taken from free pages, and
      translates everything as before. */
  ghost predicate Grown(base: nat, root: nat, leafy: bool, m: seq<nat>, st: seq<Status>,
                        m': seq<nat>, st': seq<Status>, f: set<nat>) {
    && Unused(base, st, f) && Taken(base, st, st', f)
    && IsTree(m', root, 4, leafy) && IsTree(m', root, 4, false)
    && Own(m', root, 4, leafy) == Own(m, root, 4, leafy) + f
    && Own(m', root, 4, false) == Own(m, root, 4, false) + f
    && |m'| == |m|
    && (forall p, j :: p !in Own(m, root, 4, false) + f && 0 <= j < 512 ==> Entry(m', p, j) == Entry(m, p, j))
    && (forall q :: |q| == 4 && ValidPath(4, q) ==> Translate(m', root, 4, q) == Translate(m, root, 4, q))
    && (forall i :: 256 <= i < 512 ==> Entry(m', root, i) == Entry(m, root, i))
  }

  lemma GrownTwice(base: nat, root: nat, leafy: bool, m: seq<nat>, st: seq<Status>, m1: seq<nat>, st1: seq<Status>,
                   m2: seq<nat>, st2: seq<Status>, f: set<nat>, g: set<nat>)
    requires Grown(base, root, leafy, m, st, m1, st1, f) && Grown(base, root, leafy, m1, st1, m2, st2, g)
    ensures Grown(base, root, leafy, m, st, m2, st2, f + g) && f !! g
  {
    forall p | p in g
      ensures p !in f && base <= p < base + |st| && st[p - base] == Free
    {
      assert st1[p - base] == Free;
    }
    assert Own(m, root, 4, leafy) + f + g == Own(m, root, 4, leafy) + (f + g);
    assert Own(m, root, 4, false) + f + g == Own(m, root, 4, false) + (f + g);
  }

  /** address | attributes: a page-aligned address leaves the attribute bits free. */
  function MakeEntry(address: nat, attributes: nat): (e: nat)
    requires address % 4096 == 0 && attributes < 4096
    ensures Frame(e) == address / 4096 && e % 4096 == attributes
  {
    Words.Pow2Values();
    Words.OrDisjoint(address, attributes, 12);
    Words.Or(address, attributes)
  }

  /** Physical address of a page. */
  function PageAddress(page: nat): (a: nat)
    ensures a % 4096 == 0 && Frame(a) == page
  {
    page * 4096
  }

  /** Bit 4 of an entry turns caching off. */
  predicate CacheDisabled(e: nat) { e / 16 % 2 == 1 }

  /** Entries for tables and pages are present and allow user programs to write; tables are no
      large pages; and only device memory is not cached. */
  lemma AttributeBits(e: nat)
    ensures e % 4096 == DIRECTORY_ATTRIBUTES ==> Present(e) && UserWritable(e) && !Large(e, 2) && !Large(e, 3)
    ensures e % 4096 == TABLE_ATTRIBUTES ==> Present(e) && UserWritable(e) && !CacheDisabled(e)
    ensures e % 4096 == MMIO_ATTRIBUTES ==> Present(e) && UserWritable(e) && CacheDisabled(e)
  {
    LowBits(e, e / 4096, e % 4096);
  }

  lemma LowBits(e: nat, f: nat, low: nat)
    requires e == 4096 * f + low && low < 4096
    ensures e % 2 == low % 2 && e / 2 % 2 == low / 2 % 2 && e / 4 % 2 == low / 4 % 2
    ensures e / 16 % 2 == low / 16 % 2 && e / 128 % 2 == low / 128 % 2
  {
    LowBit(e, 1024 * f, low, 2);
    LowBit(e, 512 * f, low, 4);
    LowBit(e, 128 * f, low, 16);
    LowBit(e, 16 * f, low, 128);
  }

  lemma LowBit(e: nat, g: nat, low: nat, d: nat)
    requires d > 0 && e == 2 * g * d + low
    ensures e / d % 2 == low / d % 2
  {
    var q, r := low / d, low % d;
    Words.DivModFacts(low, d);
    assert (2 * g + q) * d == 2 * g * d + q * d;
    Words.DivModUnique(e, d, 2 * g + q, r);
  }

  /** Linking a fresh, zeroed table grows the address space by that table. */
  lemma GrowOne(base: nat, root: nat, leafy: bool, m: seq<nat>, st: seq<Status>, m': seq<nat>, st': seq<Status>,
                path: seq<nat>, u: nat, e: nat)
    requires 1 <= |path| <= 3 && ValidPath(4, path)
    requires IsTree(m, root, 4, leafy) && IsTree(m, root, 4, false)
    requires InUse(base, st, Own(m, root, 4, leafy)) && InUse(base, st, Own(m, root, 4, false))
    requires Reaches(m, root, path[..|path| - 1], u) && Child(m, u, path[|path| - 1]) == 0
    requires Linked(m, m', u, path[|path| - 1], e, 4 - |path|) && Frame(e) != 0
    requires Unused(base, st, {Frame(e)}) && Taken(base, st, st', {Frame(e)})
    ensures Grown(base, root, leafy, m, st, m', st', {Frame(e)}) && Reaches(m', root, path, Frame(e))
  {
    GrowTree(base, root, leafy, m, st, m', path, u, e);
    GrowTree(base, root, false, m, st, m', path, u, e);
    FrontValid(4, path);
    ReachOwned(m, root, 4, path[..|path| - 1], u);
    LinkTranslateAll(m, m', root, path, u, e);
    UpperEntriesKept(m, m', root, path, u, e);
  }

  lemma GrowTree(base: nat, root: nat, leafy: bool, m: seq<nat>, st: seq<Status>, m': seq<nat>, path: seq<nat>,
                 u: nat, e: nat)
    requires 1 <= |path| <= 3 && ValidPath(4, path) && IsTree(m, root, 4, leafy)
    requires InUse(base, st, Own(m, root, 4, leafy)) && InUse(base, st, Own(m, root, 4, false))
    requires Reaches(m, root, path[..|path| - 1], u) && Child(m, u, path[|path| - 1]) == 0
    requires Linked(m, m', u, path[|path| - 1], e, 4 - |path|) && Frame(e) != 0
    requires Unused(base, st, {Frame(e)})
    ensures Frame(e) !in Own(m, root, 4, leafy) && Frame(e) !in Own(m, root, 4, false)
    ensures IsTree(m', root, 4, leafy) && Reaches(m', root, path, Frame(e))
    ensures Own(m', root, 4, leafy) == Own(m, root, 4, leafy) + {Frame(e)}
  {
    LinkTree(m, m', root, 4, leafy, path, u, e);
  }

  lemma LinkTranslateAll(m: seq<nat>, m': seq<nat>, root: nat, path: seq<nat>, u: nat, e: nat)
    requires 1 <= |path| <= 4 && ValidPath(4, path) && IsTree(m, root, 4, false)
    requires Reaches(m, root, path[..|path| - 1], u)
    requires Child(m, u, path[|path| - 1]) == 0 || |path| == 4
    requires Linked(m, m', u, path[|path| - 1], e, 4 - |path|) && Frame(e) !in Own(m, root, 4, false)
    ensures forall q :: |q| == 4 && ValidPath(4, q) ==>
              Translate(m', root, 4, q) == if q == path then Mapped(1, e) else Translate(m, root, 4, q)
  {
    forall q | |q| == 4 && ValidPath(4, q)
      ensures Translate(m', root, 4, q) == if q == path then Mapped(1, e) else Translate(m, root, 4, q)
    {
      LinkTranslate(m, m', root, 4, path, u, e, q);
      assert |path| == 4 ==> (path <= q <==> path == q);
    }
  }

  lemma UpperEntriesKept(m: seq<nat>, m': seq<nat>, root: nat, path: seq<nat>, u: nat, e: nat)
    requires 1 <= |path| <= 4 && ValidPath(4, path) && IsTree(m, root, 4, false)
    requires Reaches(m, root, path[..|path| - 1], u)
    requires Linked(m, m', u, path[|path| - 1], e, 4 - |path|) && Frame(e) !in Own(m, root, 4, false)
    ensures forall i :: 256 <= i < 512 ==> Entry(m', root, i) == Entry(m, root, i)
  {
    if u == root { RootIndex(m, root, path, u); }
  }

  /** The root is reached by no step but none, so its written entry is a user one. */
  lemma RootIndex(m: seq<nat>, root: nat, path: seq<nat>, u: nat)
    requires 1 <= |path| <= 4 && ValidPath(4, path) && IsTree(m, root, 4, false)
    requires Reaches(m, root, path[..|path| - 1], u) && u == root
    ensures |path| == 1 && path[0] < 256
  {
    assert path[0] < Width(4 - 0);
    if |path| > 1 {
      var front := path[..|path| - 1];
      FrontValid(4, path);
      TailValid(4, front);
      ReachOwned(m, Child(m, root, path[0]), 3, front[1..], u);
      NotBelowRoot(m, root, path[0]);
    }
  }

  lemma NotBelowRoot(m: seq<nat>, root: nat, i: nat)
    requires IsTree(m, root, 4, false) && i < 256 && Child(m, root, i) != 0
    ensures root !in Own(m, Child(m, root, i), 3, false)
  {
    assert root !in OwnChild(m, root, 4, i, false);
  }

  lemma GrownNothing(base: nat, root: nat, leafy: bool, m: seq<nat>, st: seq<Status>)
    requires IsTree(m, root, 4, leafy) && IsTree(m, root, 4, false)
    ensures Grown(base, root, leafy, m, st, m, st, {})
  {
    assert Own(m, root, 4, leafy) + {} == Own(m, root, 4, leafy);
    assert Own(m, root, 4, false) + {} == Own(m, root, 4, false);
  }

  /** memset(page, 0, PAGE_SIZE) */
  method ZeroPage(mem: Memory, page: nat)
    requires mem.Valid() && page < mem.pages
    modifies mem.words
    ensures mem.Valid()
    ensures forall p, j :: p != page && 0 <= j < 512 ==> Entry(mem.words[..], p, j) == old(Entry(mem.words[..], p, j))
    ensures forall j :: 0 <= j < 512 ==> Entry(mem.words[..], page, j) == 0
  {
    ghost var m := mem.words[..];
    for j := 0 to 512
      invariant forall k :: 0 <= k < |m| ==> mem.words[k] == if 512 * page <= k < 512 * page + j then 0 else m[k]
    {
      mem.words[512 * page + j] := 0;
    }
  }

  /** Entry i of table t := e. */
  method WriteEntry(mem: Memory, t: nat, i: nat, e: nat)
    requires mem.Valid() && t < mem.pages && i < 512
    modifies mem.words
    ensures mem.Valid()
    ensures Entry(mem.words[..], t, i) == e
    ensures forall p, j :: 0 <= j < 512 && (p != t || j != i) ==> Entry(mem.words[..], p, j) == old(Entry(mem.words[..], p, j))
  {
    mem.words[512 * t + i] := e;
  }

  /** What the walk needs of the address space under root. */
  ghost predicate Walkable(mem: Memory, root: nat, leafy: bool)
    reads mem, mem.words, mem.status
  {
    mem.Valid() && TreeInUse(mem.base, root, leafy, mem.words[..], mem.status[..])
  }

  ghost predicate TreeInUse(base: nat, root: nat, leafy: bool, m: seq<nat>, st: seq<Status>) {
    && IsTree(m, root, 4, leafy) && IsTree(m, root, 4, false)
    && InUse(base, st, Own(m, root, 4, leafy)) && InUse(base, st, Own(m, root, 4, false))
  }

  /** One of the three identical steps of the walk: follow entry i of t, making the table
      it should name if there is none. path leads from root to that table. */
  method EnsureTable(mem: Memory, ghost root: nat, ghost leafy: bool, ghost path: seq<nat>, t: nat, i: nat)
    returns (child: Option<nat>, ghost made: set<nat>)
    requires Walkable(mem, root, leafy) && 1 <= |path| <= 3 && ValidPath(4, path) && path[|path| - 1] == i
    requires Reaches(mem.words[..], root, path[..|path| - 1], t)
    modifies mem`used, mem.words, mem.status
    ensures mem.Valid()
    ensures child.None? <==> Child(old(mem.words[..]), t, i) == 0 && FreeCount(old(mem.status[..])) == 0
    ensures child.Some? ==>
              && Grown(mem.base, root, leafy, old(mem.words[..]), old(mem.status[..]),
                       mem.words[..], mem.status[..], made)
              && Reaches(mem.words[..], root, path, child.value)
              && FreeCount(mem.status[..]) == FreeCount(old(mem.status[..])) - |made|
    ensures child.Some? && Child(old(mem.words[..]), t, i) != 0 ==>
              made == {} && child.value == Child(old(mem.words[..]), t, i) && mem.words[..] == old(mem.words[..])
    ensures child.Some? && Child(old(mem.words[..]), t, i) == 0 ==>
              made == {child.value} && forall j :: 0 <= j < 512 ==> Entry(mem.words[..], child.value, j) == 0
  {
    TableInMemory(mem, root, path[..|path| - 1], t) by { FrontValid(4, path); }
    var found := mem.words[512 * t + i] / 4096;
    assert found == Child(mem.words[..], t, i);
    made := {};
    if found != 0 {
      ReachOne(mem.words[..], root, path, t);
      GrownNothing(mem.base, root, leafy, mem.words[..], mem.status[..]);
      child := Some(found);
    } else {
      child := MakeTable(mem, root, leafy, path, t, i);
      if child.Some? { made := {child.value}; }
    }
  }

  method MakeTable(mem: Memory, ghost root: nat, ghost leafy: bool, ghost path: seq<nat>, t: nat, i: nat)
    returns (child: Option<nat>)
    requires Walkable(mem, root, leafy) && 1 <= |path| <= 3 && ValidPath(4, path) && path[|path| - 1] == i
    requires var m := mem.words[..];
             InMemory(m, t) && Reaches(m, root, path[..|path| - 1], t) && Child(m, t, i) == 0
    modifies mem`used, mem.words, mem.status
    ensures mem.Valid()
    ensures child.None? <==> FreeCount(old(mem.status[..])) == 0
    ensures child.Some? ==>
              && Grown(mem.base, root, leafy, old(mem.words[..]), old(mem.status[..]),
                       mem.words[..], mem.status[..], {child.value})
              && Reaches(mem.words[..], root, path, child.value)
              && FreeCount(mem.status[..]) == FreeCount(old(mem.status[..])) - 1
              && forall j :: 0 <= j < 512 ==> Entry(mem.words[..], child.value, j) == 0
  {
    ghost var m, st := mem.words[..], mem.status[..];
    child := AllocOne(mem);
    if child.Some? {
      var f := child.value;
      FrontValid(4, path);
      ReachOwned(m, root, 4, path[..|path| - 1], t);
      var e := LinkTable(mem, t, i, f, 4 - |path|);
      GrowOne(mem.base, root, leafy, m, st, mem.words[..], mem.status[..], path, t, e);
    }
  }

  /** kpage_alloc(1) */
  method AllocOne(mem: Memory) returns (page: Option<nat>)
    requires mem.Valid()
    modifies mem`used, mem.status
    ensures mem.Valid()
    ensures page.None? <==> FreeCount(old(mem.status[..])) == 0
    ensures page.None? ==> mem.status[..] == old(mem.status[..])
    ensures page.Some? ==>
              && Unused(mem.base, old(mem.status[..]), {page.value})
              && Taken(mem.base, old(mem.status[..]), mem.status[..], {page.value})
              && FreeCount(mem.status[..]) == FreeCount(old(mem.status[..])) - 1
  {
    ghost var st := mem.status[..];
    page := mem.KpageAlloc(1);
    NoneFree(st);
    if page.None? {
      forall k | 0 <= k < |st|
        ensures st[k] != Free
      {
        assert !FreeRun(st, k, 1);
      }
    } else {
      assert FreeRun(st, page.value - mem.base, 1);
      FreeCountUpdate(st, page.value - mem.base);
      assert mem.status[..] == st[page.value - mem.base := Used];
    }
  }

  /** Zero page f and make entry i of t name it as a table. */
  method LinkTable(mem: Memory, t: nat, i: nat, f: nat, ghost below: nat) returns (e: nat)
    requires mem.Valid() && 1 <= below <= 3 && t < mem.pages && i < 512 && 1 <= f < mem.pages && f != t
    modifies mem.words
    ensures mem.Valid() && Frame(e) == f
    ensures Linked(old(mem.words[..]), mem.words[..], t, i, e, below)
  {
    ghost var m := mem.words[..];
    ZeroPage(mem, f);
    e := MakeEntry(PageAddress(f), DIRECTORY_ATTRIBUTES);
    AttributeBits(e);
    WriteEntry(mem, t, i, e);
  }

  lemma TableInMemory(mem: Memory, root: nat, path: seq<nat>, t: nat)
    requires mem.Valid() && |path| < 4 && ValidPath(4, path)
    requires InUse(mem.base, mem.status[..], Own(mem.words[..], root, 4, false)) && Reaches(mem.words[..], root, path, t)
    ensures mem.base <= t < mem.base + mem.total && InMemory(mem.words[..], t)
  {
    ReachOwned(mem.words[..], root, 4, path, t);
  }

  lemma {:induction false} ReachOne(m: seq<nat>, root: nat, path: seq<nat>, t: nat)
    requires path != [] && Reaches(m, root, path[..|path| - 1], t) && Child(m, t, path[|path| - 1]) != 0
    ensures Reaches(m, root, path, Child(m, t, path[|path| - 1]))
    decreases |path|
  {
    if |path| == 1 {
      assert path[1..] == [];
    } else {
      assert path[..|path| - 1][1..] == path[1..][..|path| - 2];
      ReachOne(m, Child(m, root, path[0]), path[1..], t);
    }
  }

  /** Data page that the path maps to before it is mapped anew. */
  ghost function OldLeaf(m: seq<nat>, root: nat, path: seq<nat>): set<nat>
    requires |path| == 4
  {
    var x := Translate(m, root, 4, path);
    if x.Mapped? && Frame(x.entry) != 0 then {Frame(x.entry)} else {}
  }

  lemma {:induction false} LeafTable(m: seq<nat>, t: nat, level: nat, path: seq<nat>, u: nat)
    requires level > 0 && |path| == level && ValidPath(level, path) && IsTree(m, t, level, false)
    requires Reaches(m, t, path[..level - 1], u)
    ensures var e := Entry(m, u, path[level - 1]);
            Translate(m, t, level, path) == if Present(e) then Mapped(1, e) else Unmapped
    decreases level
  {
    if level > 1 {
      TailValid(level, path);
      assert path[..level - 1][1..] == path[1..][..level - 2];
      LeafTable(m, Child(m, t, path[0]), level - 1, path[1..], u);
    }
  }

  /** The owned pages lose the data page mapped before and gain the new one and the tables. */
  ghost predicate Remapped(m: seq<nat>, root: nat, m': seq<nat>, path: seq<nat>, e: nat, made: set<nat>)
    requires |path| == 4
  {
    && OldLeaf(m, root, path) <= Own(m, root, 4, true)
    && Own(m', root, 4, true) == Own(m, root, 4, true) - OldLeaf(m, root, path) + made + Gained(e, 0, true)
  }

  /** The address space under root with path mapped by entry e, after taking the tables made. */
  ghost predicate MappedIn(base: nat, root: nat, leafy: bool, m: seq<nat>, st: seq<Status>,
                           m': seq<nat>, st': seq<Status>, path: seq<nat>, e: nat, made: set<nat>)
    requires |path| == 4
  {
    && Unused(base, st, made) && Taken(base, st, st', made)
    && IsTree(m', root, 4, leafy) && IsTree(m', root, 4, false)
    && Own(m', root, 4, false) == Own(m, root, 4, false) + made
    && (leafy ==> Remapped(m, root, m', path, e, made))
    && |m'| == |m|
    && (forall p, j :: p !in Own(m, root, 4, false) + made && 0 <= j < 512 ==> Entry(m', p, j) == Entry(m, p, j))
    && (forall q :: |q| == 4 && ValidPath(4, q) ==>
          Translate(m', root, 4, q) == if q == path then Mapped(1, e) else Translate(m, root, 4, q))
    && (forall i :: 256 <= i < 512 ==> Entry(m', root, i) == Entry(m, root, i))
  }

  /** The last step of the walk: the entry of the page table itself. */
  lemma MapLeaf(base: nat, root: nat, leafy: bool, m: seq<nat>, st: seq<Status>, m1: seq<nat>, st1: seq<Status>,
                m': seq<nat>, path: seq<nat>, u: nat, e: nat, made: set<nat>)
    requires |path| == 4 && ValidPath(4, path)
    requires IsTree(m, root, 4, leafy) && IsTree(m, root, 4, false)
    requires Grown(base, root, leafy, m, st, m1, st1, made)
    requires Reaches(m1, root, path[..3], u) && Linked(m1, m', u, path[3], e, 0)
    requires Frame(e) !in Own(m1, root, 4, leafy) && Frame(e) !in Own(m1, root, 4, false)
    requires leafy ==> OldLeaf(m, root, path) !! made
    ensures MappedIn(base, root, leafy, m, st, m', st1, path, e, made)
  {
    LeafTree(m1, m', root, false, path, u, e);
    LeafTree(m1, m', root, leafy, path, u, e);
    LeafElsewhere(m1, m', root, path, u, e);
    GrownThenMapped(base, root, leafy, m, st, m1, st1, m', path, e, made);
  }

  /** Growing the tables and then writing the last entry is mapping the path. */
  lemma GrownThenMapped(base: nat, root: nat, leafy: bool, m: seq<nat>, st: seq<Status>, m1: seq<nat>, st1: seq<Status>,
                        m': seq<nat>, path: seq<nat>, e: nat, made: set<nat>)
    requires |path| == 4 && ValidPath(4, path) && Grown(base, root, leafy, m, st, m1, st1, made)
    requires IsTree(m', root, 4, leafy) && IsTree(m', root, 4, false) && |m'| == |m1|
    requires Own(m', root, 4, false) == Own(m1, root, 4, false)
    requires leafy ==> Remapped(m1, root, m', path, e, {}) && OldLeaf(m, root, path) !! made
    requires forall q :: |q| == 4 && ValidPath(4, q) ==>
               Translate(m', root, 4, q) == if q == path then Mapped(1, e) else Translate(m1, root, 4, q)
    requires forall i :: 256 <= i < 512 ==> Entry(m', root, i) == Entry(m1, root, i)
    requires forall p, j :: p !in Own(m1, root, 4, false) && 0 <= j < 512 ==> Entry(m', p, j) == Entry(m1, p, j)
    ensures MappedIn(base, root, leafy, m, st, m', st1, path, e, made)
  {
    assert OldLeaf(m1, root, path) == OldLeaf(m, root, path);
    if leafy { TakenAway(Own(m, root, 4, true), made, OldLeaf(m, root, path), Gained(e, 0, true)); }
  }

  lemma TakenAway(own: set<nat>, made: set<nat>, dropped: set<nat>, gained: set<nat>)
    requires dropped !! made && dropped <= own + made
    ensures dropped <= own && own + made - dropped + {} + gained == own - dropped + made + gained
  {}

  /** What writing the last entry of a path leaves alone. */
  lemma LeafElsewhere(m: seq<nat>, m': seq<nat>, root: nat, path: seq<nat>, u: nat, e: nat)
    requires |path| == 4 && ValidPath(4, path) && IsTree(m, root, 4, false)
    requires Reaches(m, root, path[..3], u) && Linked(m, m', u, path[3], e, 0) && Frame(e) !in Own(m, root, 4, false)
    ensures forall q :: |q| == 4 && ValidPath(4, q) ==>
              Translate(m', root, 4, q) == if q == path then Mapped(1, e) else Translate(m, root, 4, q)
    ensures forall i :: 256 <= i < 512 ==> Entry(m', root, i) == Entry(m, root, i)
    ensures forall p, j :: p !in Own(m, root, 4, false) && 0 <= j < 512 ==> Entry(m', p, j) == Entry(m, p, j)
  {
    assert path[..|path| - 1] == path[..3];
    LinkTranslateAll(m, m', root, path, u, e);
    UpperEntriesKept(m, m', root, path, u, e);
    FrontValid(4, path);
    ReachOwned(m, root, 4, path[..3], u);
  }

  lemma LeafTree(m: seq<nat>, m': seq<nat>, root: nat, leafy: bool, path: seq<nat>, u: nat, e: nat)
    requires |path| == 4 && ValidPath(4, path) && IsTree(m, root, 4, leafy) && IsTree(m, root, 4, false)
    requires Reaches(m, root, path[..3], u) && Linked(m, m', u, path[3], e, 0)
    requires Frame(e) !in Own(m, root, 4, leafy) && Frame(e) !in Own(m, root, 4, false)
    ensures IsTree(m', root, 4, leafy)
    ensures leafy ==> Remapped(m, root, m', path, e, {})
    ensures !leafy ==> Own(m', root, 4, false) == Own(m, root, 4, false)
  {
    assert path[..|path| - 1] == path[..3];
    LinkTree(m, m', root, 4, leafy, path, u, e);
    if leafy { LeafDropped(m, root, path, u); }
  }

  lemma LeafDropped(m: seq<nat>, root: nat, path: seq<nat>, u: nat)
    requires |path| == 4 && ValidPath(4, path) && IsTree(m, root, 4, false)
    requires Reaches(m, root, path[..3], u)
    ensures Dropped(m, u, path[3], 0, true) == OldLeaf(m, root, path)
  {
    LeafTable(m, root, 4, path, u);
    EntryPresent(m, root, 4, path, u);
  }

  lemma {:induction false} EntryPresent(m: seq<nat>, t: nat, level: nat, path: seq<nat>, u: nat)
    requires level > 0 && |path| == level && ValidPath(level, path) && IsTree(m, t, level, false)
    requires Reaches(m, t, path[..level - 1], u)
    ensures Entry(m, u, path[level - 1]) == 0 || Present(Entry(m, u, path[level - 1]))
    decreases level
  {
    if level > 1 {
      TailValid(level, path);
      assert path[..level - 1][1..] == path[1..][..level - 2];
      EntryPresent(m, Child(m, t, path[0]), level - 1, path[1..], u);
    }
  }

  /** What a walk step leaves missing, whichever of its two cases ran. */
  lemma MissingStep(m: seq<nat>, t: nat, level: nat, path: seq<nat>, m': seq<nat>, child: nat, made: set<nat>)
    requires 2 <= level <= 4 && |path| == level && ValidPath(level, path)
    requires Child(m, t, path[0]) != 0 ==> made == {} && child == Child(m, t, path[0]) && m' == m
    requires Child(m, t, path[0]) == 0 ==>
               made == {child} && forall j :: 0 <= j < 512 ==> Entry(m', child, j) == 0
    ensures Missing(m, t, level, path) == Missing(m', child, level - 1, path[1..]) + |made|
  {
    if Child(m, t, path[0]) == 0 && level > 2 {
      TailValid(level, path);
      assert Child(m', child, path[1..][0]) == 0;
    }
  }

  lemma MissingStepAt(m: seq<nat>, t: nat, k: nat, path: seq<nat>, m': seq<nat>, child: nat, made: set<nat>)
    requires |path| == 4 && k < 3 && ValidPath(4, path)
    requires Child(m, t, path[k]) != 0 ==> made == {} && child == Child(m, t, path[k]) && m' == m
    requires Child(m, t, path[k]) == 0 ==>
               made == {child} && forall j :: 0 <= j < 512 ==> Entry(m', child, j) == 0
    ensures Missing(m, t, 4 - k, path[k..]) == Missing(m', child, 4 - (k + 1), path[k + 1..]) + |made|
  {
    PrefixesValid(path);
    MissingStep(m, t, 4 - k, path[k..], m', child, made);
    assert path[k..][1..] == path[k + 1..];
  }

  /** After k table steps of the walk, made being the tables made so far. */
  ghost predicate Walked(base: nat, root: nat, leafy: bool, path: seq<nat>, k: nat, t: nat,
                         m: seq<nat>, st: seq<Status>, m': seq<nat>, st': seq<Status>, made: set<nat>)
    requires |path| == 4
  {
    && TreeInUse(base, root, leafy, m', st') && k <= 3
    && Grown(base, root, leafy, m, st, m', st', made)
    && Reaches(m', root, path[..k], t)
    && Missing(m, root, 4, path) == Missing(m', t, 4 - k, path[k..]) + |made|
    && FreeCount(st') == FreeCount(st) - |made|
  }

  ghost predicate Walking(mem: Memory, root: nat, leafy: bool, path: seq<nat>, k: nat, t: nat,
                          m: seq<nat>, st: seq<Status>, made: set<nat>)
    requires |path| == 4
    reads mem, mem.words, mem.status
  {
    mem.Valid() && Walked(mem.base, root, leafy, path, k, t, m, st, mem.words[..], mem.status[..], made)
  }

  lemma WalkAdvance(base: nat, root: nat, leafy: bool, path: seq<nat>, k: nat, t: nat, child: nat, m: seq<nat>, st: seq<Status>,
                    m1: seq<nat>, st1: seq<Status>, m2: seq<nat>, st2: seq<Status>, made: set<nat>, more: set<nat>)
    requires |path| == 4 && ValidPath(4, path) && k < 3 && Walked(base, root, leafy, path, k, t, m, st, m1, st1, made)
    requires Grown(base, root, leafy, m1, st1, m2, st2, more)
    requires Reaches(m2, root, path[..k + 1], child) && FreeCount(st2) == FreeCount(st1) - |more|
    requires Missing(m1, t, 4 - k, path[k..]) == Missing(m2, child, 4 - (k + 1), path[k + 1..]) + |more|
    ensures Walked(base, root, leafy, path, k + 1, child, m, st, m2, st2, made + more)
  {
    GrownTwice(base, root, leafy, m, st, m1, st1, m2, st2, made, more);
    GrownInUse(base, root, leafy, m1, st1, m2, st2, more);
  }

  lemma GrownInUse(base: nat, root: nat, leafy: bool, m: seq<nat>, st: seq<Status>, m': seq<nat>, st': seq<Status>, made: set<nat>)
    requires TreeInUse(base, root, leafy, m, st) && Grown(base, root, leafy, m, st, m', st', made)
    ensures TreeInUse(base, root, leafy, m', st')
  {}

  method WalkStep(mem: Memory, ghost root: nat, ghost leafy: bool, path: seq<nat>, k: nat, t: nat,
                  ghost m: seq<nat>, ghost st: seq<Status>, ghost made: set<nat>)
    returns (child: Option<nat>, ghost made': set<nat>)
    requires |path| == 4 && ValidPath(4, path) && k < 3 && Walking(mem, root, leafy, path, k, t, m, st, made)
    modifies mem`used, mem.words, mem.status
    ensures mem.Valid()
    ensures child.Some? ==> Walking(mem, root, leafy, path, k + 1, child.value, m, st, made')
    ensures child.None? ==> FreeCount(st) < Missing(m, root, 4, path)
  {
    ghost var m1, st1 := mem.words[..], mem.status[..];
    PrefixesValid(path);
    ghost var more;
    child, more := EnsureTable(mem, root, leafy, path[..k + 1], t, path[k]);
    if child.Some? {
      made' := made + more;
      MissingStepAt(m1, t, k, path, mem.words[..], child.value, more);
      WalkAdvance(mem.base, root, leafy, path, k, t, child.value, m, st, m1, st1, mem.words[..], mem.status[..], made, more);
    } else {
      assert path[k..][0] == path[k];
      made' := made;
    }
  }

  lemma WalkedAll(base: nat, root: nat, leafy: bool, path: seq<nat>, t: nat, m: seq<nat>, st: seq<Status>,
                  m': seq<nat>, st': seq<Status>, made: set<nat>)
    requires |path| == 4 && ValidPath(4, path) && Walked(base, root, leafy, path, 3, t, m, st, m', st', made)
    ensures |made| == Missing(m, root, 4, path) && FreeCount(st) >= |made|
  {
    assert Missing(m', t, 1, path[3..]) == 0;
  }

  /** The three table steps of the walk. */
  method WalkTables(mem: Memory, root: nat, path: seq<nat>, ghost leafy: bool)
    returns (table: Option<nat>, ghost made: set<nat>)
    requires Walkable(mem, root, leafy) && |path| == 4 && ValidPath(4, path)
    modifies mem`used, mem.words, mem.status
    ensures mem.Valid()
    ensures table.Some? <==> FreeCount(old(mem.status[..])) >= Missing(old(mem.words[..]), root, 4, path)
    ensures table.Some? ==>
      && Walking(mem, root, leafy, path, 3, table.value, old(mem.words[..]), old(mem.status[..]), made)
      && |made| == Missing(old(mem.words[..]), root, 4, path)
  {
    ghost var m, st := mem.words[..], mem.status[..];
    made := {};
    GrownNothing(mem.base, root, leafy, m, st);
    assert path[0..] == path && path[..0] == [];
    var t := root;
    for k := 0 to 3
      invariant Walking(mem, root, leafy, path, k, t, m, st, made)
    {
      var child;
      child, made := WalkStep(mem, root, leafy, path, k, t, m, st, made);
      if child.None? { return None, made; }
      t := child.value;
    }
    WalkedAll(mem.base, root, leafy, path, t, m, st, mem.words[..], mem.status[..], made);
    table := Some(t);
  }

  lemma PrefixesValid(path: seq<nat>)
    requires |path| == 4 && ValidPath(4, path)
    ensures forall k :: 0 <= k <= 4 ==> ValidPath(4, path[..k])
    ensures forall k :: 0 <= k < 4 ==> ValidPath(4 - k, path[k..]) && path[k..][0] == path[k]
    ensures forall k :: 0 <= k < 3 ==> path[..k + 1][..k] == path[..k] && path[k..][1..] == path[k + 1..]
  {
    TailValid(4, path);
    TailValid(3, path[1..]);
    TailValid(2, path[2..]);
  }

  /** set_page_mapping for a user address: false where the source panics, which is exactly
      when the address is unaligned or a table is missing and memory has run out. */
  method SetPageMapping(mem: Memory, root: nat, va: nat, pa: nat, mmio: bool, ghost leafy: bool)
    returns (ok: bool, ghost made: set<nat>)
    requires Walkable(mem, root, leafy) && LowerHalf(va)
    requires Frame(pa) !in Own(mem.words[..], root, 4, leafy) + Own(mem.words[..], root, 4, false)
    requires NotFree(mem.base, mem.status[..], Frame(pa))
    modifies mem`used, mem.words, mem.status
    ensures mem.Valid()
    ensures ok <==> pa % 4096 == 0 &&
                    FreeCount(old(mem.status[..])) >= Missing(old(mem.words[..]), root, 4, PathOf(va))
    ensures ok ==>
              && |made| == Missing(old(mem.words[..]), root, 4, PathOf(va)) <= 3
              && MappedIn(mem.base, root, leafy, old(mem.words[..]), old(mem.status[..]),
                          mem.words[..], mem.status[..], PathOf(va),
                          MakeEntry(pa, if mmio then MMIO_ATTRIBUTES else TABLE_ATTRIBUTES), made)
  {
    made := {};
    if pa % 4096 != 0 { return false, {}; }
    var path := PathOf(va);
    assert ValidPath(4, path);
    ghost var m, st := mem.words[..], mem.status[..];
    MissingAtMost(m, root, 4, path);
    assert TreeInUse(mem.base, root, leafy, m, st) && NotFree(mem.base, st, Frame(pa));
    var table;
    table, made := WalkTables(mem, root, path, leafy);
    if table.None? { return false, {}; }
    var e := MakeEntry(pa, if mmio then MMIO_ATTRIBUTES else TABLE_ATTRIBUTES);
    AttributeBits(e);
    FreshFrames(mem.base, root, leafy, m, st, path, Frame(pa), made);
    WriteLeaf(mem, root, leafy, path, table.value, e, m, st, made);
    ok := true;
  }

  /** The page table entry itself. */
  method WriteLeaf(mem: Memory, ghost root: nat, ghost leafy: bool, path: seq<nat>, table: nat, e: nat,
                   ghost m: seq<nat>, ghost st: seq<Status>, ghost made: set<nat>)
    requires |path| == 4 && ValidPath(4, path) && Walking(mem, root, leafy, path, 3, table, m, st, made)
    requires TreeInUse(mem.base, root, leafy, m, st) && e != 0 && GoodEntry(e, 1)
    requires Frame(e) !in Own(m, root, 4, leafy) + Own(m, root, 4, false) + made
    requires leafy ==> OldLeaf(m, root, path) !! made
    modifies mem.words
    ensures mem.Valid()
    ensures MappedIn(mem.base, root, leafy, m, st, mem.words[..], mem.status[..], path, e, made)
  {
    ghost var m1: seq<nat>, st1: seq<Status> := mem.words[..], mem.status[..];
    PrefixesValid(path);
    TableInMemory(mem, root, path[..3], table);
    WriteEntry(mem, table, path[3], e);
    ghost var m2: seq<nat> := mem.words[..];
    assert Linked(m1, m2, table, path[3], e, 0);
    MapLeaf(mem.base, root, leafy, m, st, m1, st1, m2, path, table, e, made);
  }

  lemma {:induction false} MissingAtMost(m: seq<nat>, t: nat, level: nat, path: seq<nat>)
    requires level > 0 && |path| == level
    ensures Missing(m, t, level, path) <= level - 1
    decreases level
  {
    if level > 1 { MissingAtMost(m, Child(m, t, path[0]), level - 1, path[1..]); }
  }

  /** New tables are pages that were free, so neither the mapped page nor old data. */
  lemma FreshFrames(base: nat, root: nat, leafy: bool, m: seq<nat>, st: seq<Status>, path: seq<nat>, f: nat, made: set<nat>)
    requires |path| == 4 && ValidPath(4, path) && TreeInUse(base, root, leafy, m, st) && Unused(base, st, made)
    requires NotFree(base, st, f)
    ensures f !in made && (leafy ==> OldLeaf(m, root, path) !! made)
  {
    if leafy {
      OldLeafOwned(m, root, 4, path);
      ChildOwned(m, root, 4, path[0], true);
    }
  }

  lemma {:induction false} OldLeafOwned(m: seq<nat>, t: nat, level: nat, path: seq<nat>)
    requires level > 0 && |path| == level && ValidPath(level, path) && IsTree(m, t, level, true)
    ensures var x := Translate(m, t, level, path);
            x.Mapped? && Frame(x.entry) != 0 ==> Frame(x.entry) in OwnChild(m, t, level, path[0], true)
    decreases level
  {
    TailValid(level, path);
    if level > 1 && Child(m, t, path[0]) != 0 {
      OldLeafOwned(m, Child(m, t, path[0]), level - 1, path[1..]);
      ChildOwned(m, Child(m, t, path[0]), level - 1, path[1], true);
    }
  }

  /** Translation through the upper half of the root is untouched: its tables are neither
      user tables nor free pages. */
  lemma UpperHalfKept(base: nat, root: nat, leafy: bool, m: seq<nat>, st: seq<Status>, m': seq<nat>, st': seq<Status>,
                      path: seq<nat>, e: nat, made: set<nat>, upper: set<nat>, q: seq<nat>)
    requires |path| == 4 && MappedIn(base, root, leafy, m, st, m', st', path, e, made)
    requires TablesIn(m, root, 4, 256, upper) && upper !! Own(m, root, 4, false)
    requires forall p :: p in upper ==> NotFree(base, st, p)
    requires |q| == 4 && (forall k :: 0 <= k < 4 ==> q[k] < 512) && 256 <= q[0]
    ensures Translate(m', root, 4, q) == Translate(m, root, 4, q)
    ensures TablesIn(m', root, 4, 256, upper) && upper !! Own(m', root, 4, false)
    ensures forall p :: p in upper ==> NotFree(base, st', p)
  {
    assert upper !! made by {
      forall p | p in upper
        ensures p !in made
      {
        assert NotFree(base, st, p);
      }
    }
    assert Agree(m, m', upper);
    TablesInFrame(m, m', root, 4, 256, upper, q);
    TablesInKept(m, m', root, 4, 256, upper);
    forall p | p in upper
      ensures NotFree(base, st', p)
    {
      assert NotFree(base, st, p);
    }
  }

  /** Data pages that are neither tables nor free before the call are not tables after it. */
  lemma DataStaysApart(base: nat, root: nat, leafy: bool, m: seq<nat>, st: seq<Status>, m': seq<nat>, st': seq<Status>,
                       path: seq<nat>, e: nat, made: set<nat>, q: seq<nat>)
    requires |path| == 4 && MappedIn(base, root, leafy, m, st, m', st', path, e, made)
    requires Frame(e) !in Own(m, root, 4, false) && NotFree(base, st, Frame(e))
    requires |q| == 4 && ValidPath(4, q)
    requires var x := Translate(m, root, 4, q);
             x.Mapped? ==> Frame(x.entry) !in Own(m, root, 4, false) && NotFree(base, st, Frame(x.entry))
    ensures var x := Translate(m', root, 4, q);
            x.Mapped? ==> Frame(x.entry) !in Own(m', root, 4, false)
  {
    var x := Translate(m, root, 4, q);
    NotATable(base, root, leafy, m, st, m', st', path, e, made, Frame(e));
    if q != path && x.Mapped? {
      NotATable(base, root, leafy, m, st, m', st', path, e, made, Frame(x.entry));
    }
  }

  lemma NotATable(base: nat, root: nat, leafy: bool, m: seq<nat>, st: seq<Status>, m': seq<nat>, st': seq<Status>,
                  path: seq<nat>, e: nat, made: set<nat>, f: nat)
    requires |path| == 4 && MappedIn(base, root, leafy, m, st, m', st', path, e, made)
    requires f !in Own(m, root, 4, false) && NotFree(base, st, f)
    ensures f !in Own(m', root, 4, false)
  {}
}
