/** The life of a user address space: pages mapped one by one, then all of it freed. */
module Userspace {
  import opened Kmem
  import opened Options
  import opened PageTables
  import opened Paging
  import opened TableCount
  import Sets

  /** st' is st with the pages of s returned. */
  ghost predicate Released(base: nat, st: seq<Status>, st': seq<Status>, s: set<nat>) {
    |st'| == |st| && forall i :: 0 <= i < |st| ==> st'[i] == if base + i in s then Free else st[i]
  }

  /** The state of freeing table t after its entries below i. */
  ghost predicate Freeing(base: nat, t: nat, level: nat, m: seq<nat>, st: seq<Status>,
                          m': seq<nat>, st': seq<Status>, i: nat)
    requires level > 0
  {
    && |m'| == |m| && i <= Width(level)
    && (forall p, j :: p !in Own(m, t, level, false) && 0 <= j < 512 ==> Entry(m', p, j) == Entry(m, p, j))
    && (forall j :: 0 <= j < i ==> Child(m', t, j) == 0 && (level > 1 ==> Entry(m', t, j) == 0))
    && (forall j :: i <= j < 512 ==> Entry(m', t, j) == Entry(m, t, j))
    && (forall k :: i <= k < Width(level) ==> Agree(m, m', OwnChild(m, t, level, k, false)))
    && Released(base, st, st', Below(m, t, level, i, true))
  }

  /** Skipping an empty entry. */
  lemma SkipEntry(base: nat, t: nat, level: nat, m: seq<nat>, st: seq<Status>, m': seq<nat>, st': seq<Status>, i: nat)
    requires level > 0 && i < Width(level) && IsTree(m, t, level, true)
    requires Freeing(base, t, level, m, st, m', st', i) && Child(m, t, i) == 0
    ensures Freeing(base, t, level, m, st, m', st', i + 1)
  {
    BelowNext(m, t, level, i);
  }

  lemma BelowNext(m: seq<nat>, t: nat, level: nat, i: nat)
    requires level > 0
    ensures Below(m, t, level, i + 1, true) == Below(m, t, level, i, true) + OwnChild(m, t, level, i, true)
  {}

  /** The subtree about to be freed is as it was at the start, and still in use. */
  lemma ChildIntact(base: nat, t: nat, level: nat, m: seq<nat>, st: seq<Status>, m': seq<nat>, st': seq<Status>, i: nat)
    requires level > 0 && i < Width(level) && IsTree(m, t, level, true)
    requires InUse(base, st, Own(m, t, level, true))
    requires Freeing(base, t, level, m, st, m', st', i) && Child(m, t, i) != 0
    ensures var c := Child(m, t, i);
            && Child(m', t, i) == c && IsTree(m', c, level - 1, true)
            && Own(m', c, level - 1, true) == OwnChild(m, t, level, i, true)
            && Own(m', c, level - 1, false) == OwnChild(m, t, level, i, false)
            && InUse(base, st', OwnChild(m, t, level, i, true))
  {
    var c := Child(m, t, i);
    assert Agree(m, m', OwnChild(m, t, level, i, false));
    TreeFrame(m, m', c, level - 1, true);
    TreeOfTables(m, c, level - 1);
    TreeFrame(m, m', c, level - 1, false);
    ChildOwned(m, t, level, i, true);
    forall p | p in OwnChild(m, t, level, i, true)
      ensures p !in Below(m, t, level, i, true)
    {
      if p in Below(m, t, level, i, true) {
        var j := OwnerEntry(m, t, level, i, true, p);
        assert false;
      }
    }
  }

  /** The subtree behind entry i has been freed, its root included, and the entry cleared. */
  lemma FreedEntry(base: nat, t: nat, level: nat, m: seq<nat>, st: seq<Status>, m1: seq<nat>, st1: seq<Status>,
                   m2: seq<nat>, st2: seq<Status>, i: nat)
    requires level > 0 && i < Width(level) && IsTree(m, t, level, true)
    requires Freeing(base, t, level, m, st, m1, st1, i) && Child(m, t, i) != 0
    requires Released(base, st1, st2, OwnChild(m, t, level, i, true))
    requires |m2| == |m1| && Entry(m2, t, i) == 0
    requires forall p, j :: p !in OwnChild(m, t, level, i, false) && 0 <= j < 512 && (p != t || j != i) ==>
                              Entry(m2, p, j) == Entry(m1, p, j)
    ensures Freeing(base, t, level, m, st, m2, st2, i + 1)
  {
    BelowNext(m, t, level, i);
    ChildOwned(m, t, level, i, false);
    Unshared(m, t, level, true, i, if i == 0 then 1 else 0);
    forall k | i + 1 <= k < Width(level)
      ensures Agree(m, m2, OwnChild(m, t, level, k, false))
    {
      Unshared(m, t, level, true, i, k);
      Unshared(m, t, level, true, k, i);
      assert t !in OwnChild(m, t, level, k, true);
    }
  }

  /** One of the nested loops of free_userspace_memory: entries of a table of the given
      level, freeing each page they name after what that page itself holds. */
  method FreeTables(mem: Memory, t: nat, level: nat)
    requires mem.Valid() && 1 <= level <= 4
    requires IsTree(mem.words[..], t, level, true)
    requires InUse(mem.base, mem.status[..], Own(mem.words[..], t, level, true))
    modifies mem`used, mem.words, mem.status
    ensures mem.Valid()
    ensures Freeing(mem.base, t, level, old(mem.words[..]), old(mem.status[..]),
                    mem.words[..], mem.status[..], Width(level))
    decreases level, 1
  {
    ghost var m, st := mem.words[..], mem.status[..];
    for i := 0 to Width(level)
      invariant mem.Valid()
      invariant Freeing(mem.base, t, level, m, st, mem.words[..], mem.status[..], i)
    {
      FreeEntry(mem, t, level, i, m, st);
    }
  }

  /** One turn of the loop. */
  method FreeEntry(mem: Memory, t: nat, level: nat, i: nat, ghost m: seq<nat>, ghost st: seq<Status>)
    requires mem.Valid() && 1 <= level <= 4 && i < Width(level)
    requires IsTree(m, t, level, true) && InUse(mem.base, st, Own(m, t, level, true))
    requires Freeing(mem.base, t, level, m, st, mem.words[..], mem.status[..], i)
    modifies mem`used, mem.words, mem.status
    ensures mem.Valid()
    ensures Freeing(mem.base, t, level, m, st, mem.words[..], mem.status[..], i + 1)
    decreases level, 0
  {
    ghost var m1, st1 := mem.words[..], mem.status[..];
    var page := mem.words[512 * t + i] / 4096;
    assert page == Child(m1, t, i) == Child(m, t, i);
    if page == 0 {
      SkipEntry(mem.base, t, level, m, st, m1, st1, i);
    } else {
      ChildIntact(mem.base, t, level, m, st, m1, st1, i);
      FreePage(mem, page, level - 1);
      WriteEntry(mem, t, i, 0);
      FreedEntry(mem.base, t, level, m, st, m1, st1, mem.words[..], mem.status[..], i);
    }
  }

  lemma OwnButRoot(m: seq<nat>, t: nat, level: nat)
    requires IsTree(m, t, level, true)
    ensures Own(m, t, level, true) - {t} == if level == 0 then {} else Below(m, t, level, Width(level), true)
  {
    if level > 0 && t in Below(m, t, level, Width(level), true) {
      var i := OwnerEntry(m, t, level, Width(level), true, t);
      assert false;
    }
  }

  /** Everything below a page has been returned, and now the page itself. */
  lemma RootLast(base: nat, st: seq<Status>, st': seq<Status>, own: set<nat>, page: nat)
    requires InUse(base, st, own) && page in own && Released(base, st, st', own - {page})
    ensures base <= page < base + |st'| && st'[page - base] == Used
    ensures Released(base, st, st'[page - base := Free], own)
  {}

  /** The page an entry names: what it holds if it is a table, then the page itself. */
  method FreePage(mem: Memory, page: nat, level: nat)
    requires mem.Valid() && level <= 3
    requires IsTree(mem.words[..], page, level, true)
    requires InUse(mem.base, mem.status[..], Own(mem.words[..], page, level, true))
    modifies mem`used, mem.words, mem.status
    ensures mem.Valid()
    ensures Released(mem.base, old(mem.status[..]), mem.status[..], Own(old(mem.words[..]), page, level, true))
    ensures forall p, j :: p !in Own(old(mem.words[..]), page, level, false) && 0 <= j < 512 ==>
              Entry(mem.words[..], p, j) == Entry(old(mem.words[..]), p, j)
    decreases level, 3
  {
    ghost var m: seq<nat>, st: seq<Status> := mem.words[..], mem.status[..];
    ghost var own: set<nat> := Own(m, page, level, true);
    RootHeld(mem.base, st, m, page, level);
    OwnButRoot(m, page, level);
    FreeContents(mem, page, level);
    RootLast(mem.base, st, mem.status[..], own, page);
    FreeOne(mem, page);
  }

  /** What a page holds, if it is a table. */
  method FreeContents(mem: Memory, page: nat, level: nat)
    requires mem.Valid() && level <= 3
    requires IsTree(mem.words[..], page, level, true)
    requires InUse(mem.base, mem.status[..], Own(mem.words[..], page, level, true))
    modifies mem`used, mem.words, mem.status
    ensures mem.Valid()
    ensures Released(mem.base, old(mem.status[..]), mem.status[..],
                     if level == 0 then {} else Below(old(mem.words[..]), page, level, Width(level), true))
    ensures forall p, j :: p !in Own(old(mem.words[..]), page, level, false) && 0 <= j < 512 ==>
              Entry(mem.words[..], p, j) == Entry(old(mem.words[..]), p, j)
    decreases level, 2
  {
    if level > 0 { FreeTables(mem, page, level); }
  }

  lemma RootHeld(base: nat, st: seq<Status>, m: seq<nat>, page: nat, level: nat)
    requires InUse(base, st, Own(m, page, level, true))
    ensures page in Own(m, page, level, true) && base <= page < base + |st| && st[page - base] == Used
  {
    assert page in Own(m, page, level, true);
  }

  /** kpage_free(1) of a page in use. */
  method FreeOne(mem: Memory, page: nat)
    requires mem.Valid() && mem.base <= page < mem.base + mem.total && mem.status[page - mem.base] == Used
    modifies mem`used, mem.status
    ensures mem.Valid() && mem.status[..] == old(mem.status[..])[page - mem.base := Free]
  {
    mem.KpageFree(page, 1);
  }

  /** Since the page statuses were st0, exactly the pages of own, but for the root, and the
      leaked ones were taken. */
  ghost predicate Holding(base: nat, root: nat, st0: seq<Status>, st: seq<Status>, own: set<nat>, leaked: set<nat>) {
    && own !! leaked && root in own
    && Unused(base, st0, own - {root} + leaked)
    && Taken(base, st0, st, own - {root} + leaked)
  }

  /** Exactly the paths of mapped translate, none of them to physical page 0. */
  ghost predicate MapsExactly(m: seq<nat>, root: nat, mapped: set<seq<nat>>) {
    forall q :: |q| == 4 && ValidPath(4, q) ==>
      && (q in mapped <==> Translate(m, root, 4, q).Mapped?)
      && (Translate(m, root, 4, q).Mapped? ==> Frame(Translate(m, root, 4, q).entry) != 0)
  }

  /** Bookkeeping of one address space since the page statuses were st0: it holds its tables
      and data pages, and leaked pages that were mapped and then mapped over. */
  ghost predicate Account(base: nat, root: nat, st0: seq<Status>, m: seq<nat>, st: seq<Status>,
                          mapped: set<seq<nat>>, leaked: set<nat>) {
    && TreeInUse(base, root, true, m, st)
    && Holding(base, root, st0, st, Own(m, root, 4, true), leaked)
    && MapsExactly(m, root, mapped)
  }

  /** A root table whose lower half is empty starts the account. */
  lemma EmptyAccount(base: nat, root: nat, st: seq<Status>, m: seq<nat>)
    requires InMemory(m, root) && InUse(base, st, {root})
    requires forall i :: 0 <= i < 256 ==> Entry(m, root, i) == 0
    ensures Account(base, root, st, m, st, {}, {}) && Own(m, root, 4, true) == {root}
  {
    assert forall i :: 0 <= i < 256 ==> Child(m, root, i) == 0;
    assert forall i, leafy :: 0 <= i < 256 ==> OwnChild(m, root, 4, i, leafy) == {};
    assert Below(m, root, 4, 256, true) == {} && Below(m, root, 4, 256, false) == {};
    forall q | |q| == 4 && ValidPath(4, q)
      ensures Translate(m, root, 4, q) == Unmapped
    {
      assert q[0] < Width(4 - 0);
      assert Entry(m, root, q[0]) == 0;
    }
  }

  /** kpage_alloc(1) and memset, while an address space is live. */
  method TakeZeroedPage(mem: Memory, ghost root: nat) returns (page: Option<nat>)
    requires Walkable(mem, root, true)
    modifies mem`used, mem.words, mem.status
    ensures mem.Valid()
    ensures page.None? <==> FreeCount(old(mem.status[..])) == 0
    ensures page.Some? ==>
      && Unused(mem.base, old(mem.status[..]), {page.value})
      && Taken(mem.base, old(mem.status[..]), mem.status[..], {page.value})
      && FreeCount(mem.status[..]) == FreeCount(old(mem.status[..])) - 1
      && Untouched(mem.base, root, old(mem.words[..]), mem.words[..], mem.status[..], page.value)
      && forall j :: 0 <= j < 512 ==> Entry(mem.words[..], page.value, j) == 0
  {
    ghost var m, st := mem.words[..], mem.status[..];
    page := AllocOne(mem);
    if page.Some? {
      ZeroPage(mem, page.value);
      FreshPage(mem.base, root, m, st, mem.words[..], mem.status[..], page.value);
    }
  }

  /** map_user_page: a zeroed page of its own for a user address; None where the source
      panics for want of memory. Mapping an address again leaks the page it had. */
  method MapUserPage(mem: Memory, root: nat, va: nat, ghost st0: seq<Status>, ghost mapped: set<seq<nat>>,
                     ghost leaked: set<nat>)
    returns (page: Option<nat>, ghost leaked': set<nat>)
    requires mem.Valid() && LowerHalf(va)
    requires Account(mem.base, root, st0, mem.words[..], mem.status[..], mapped, leaked)
    modifies mem`used, mem.words, mem.status
    ensures mem.Valid()
    ensures page.Some? <==>
      FreeCount(old(mem.status[..])) >= 1 + Missing(old(mem.words[..]), root, 4, PathOf(va))
    ensures page.Some? ==>
      && Account(mem.base, root, st0, mem.words[..], mem.status[..], mapped + {PathOf(va)}, leaked')
      && NewlyMapped(root, old(mem.words[..]), mem.words[..], PathOf(va), page.value)
      && leaked <= leaked' && |leaked'| == |leaked| + (if PathOf(va) in mapped then 1 else 0)
      && Grew(root, old(mem.words[..]), old(mem.status[..]), mem.words[..], mem.status[..], Missing(old(mem.words[..]), root, 4, PathOf(va)))
  {
    ghost var m, st, path := mem.words[..], mem.status[..], PathOf(va);
    leaked' := leaked;
    assert ValidPath(4, path);
    page := TakeZeroedPage(mem, root);
    if page.None? { return; }
    ghost var m1, st1 := mem.words[..], mem.status[..];
    var f := page.value;
    var ok;
    ghost var made;
    ok, made := SetPageMapping(mem, root, va, PageAddress(f), false, true);
    if !ok { return None, leaked; }
    leaked' := leaked + OldLeaf(m, root, path);
    MadeCount(mem.base, root, m1, st1, mem.words[..], mem.status[..], path,
              MakeEntry(PageAddress(f), TABLE_ATTRIBUTES), made);
    AfterMap(mem.base, root, st0, m, st, m1, st1, mem.words[..], mem.status[..], path, f,
             MakeEntry(PageAddress(f), TABLE_ATTRIBUTES), made, mapped, leaked);
  }

  /** Made tables and one data page came from the free pages; the tables joined the tree. */
  ghost predicate Grew(root: nat, m: seq<nat>, st: seq<Status>, m': seq<nat>, st': seq<Status>, made: nat) {
    && |Own(m', root, 4, false)| == |Own(m, root, 4, false)| + made
    && FreeCount(st') == FreeCount(st) - 1 - made
  }

  lemma MadeCount(base: nat, root: nat, m: seq<nat>, st: seq<Status>, m': seq<nat>, st': seq<Status>,
                  path: seq<nat>, e: nat, made: set<nat>)
    requires |path| == 4 && MappedIn(base, root, true, m, st, m', st', path, e, made)
    requires InUse(base, st, Own(m, root, 4, false))
    ensures |Own(m', root, 4, false)| == |Own(m, root, 4, false)| + |made|
    ensures FreeCount(st') == FreeCount(st) - |made|
  {
    TakenFree(base, st, st', made);
    assert Own(m, root, 4, false) !! made;
  }

  /** Only path is mapped anew, to a page still zeroed; the upper half of the root is kept. */
  ghost predicate NewlyMapped(root: nat, m: seq<nat>, m': seq<nat>, path: seq<nat>, page: nat)
    requires |path| == 4
  {
    && (forall q :: |q| == 4 && ValidPath(4, q) ==>
          Translate(m', root, 4, q) == if q == path then Mapped(1, MakeEntry(PageAddress(page), TABLE_ATTRIBUTES))
                                       else Translate(m, root, 4, q))
    && (forall i :: 256 <= i < 512 ==> Entry(m', root, i) == Entry(m, root, i))
    && (forall j :: 0 <= j < 512 ==> Entry(m', page, j) == 0)
  }

  lemma AfterMap(base: nat, root: nat, st0: seq<Status>, m: seq<nat>, st: seq<Status>, m1: seq<nat>, st1: seq<Status>,
                 m2: seq<nat>, st2: seq<Status>, path: seq<nat>, f: nat, e: nat, made: set<nat>,
                 mapped: set<seq<nat>>, leaked: set<nat>)
    requires |path| == 4 && ValidPath(4, path) && f != 0 && e == MakeEntry(PageAddress(f), TABLE_ATTRIBUTES)
    requires Account(base, root, st0, m, st, mapped, leaked)
    requires Unused(base, st, {f}) && Taken(base, st, st1, {f}) && Untouched(base, root, m, m1, st1, f)
    requires forall j :: 0 <= j < 512 ==> Entry(m1, f, j) == 0
    requires MappedIn(base, root, true, m1, st1, m2, st2, path, e, made)
    ensures Account(base, root, st0, m2, st2, mapped + {path}, leaked + OldLeaf(m, root, path))
    ensures NewlyMapped(root, m, m2, path, f)
    ensures |leaked + OldLeaf(m, root, path)| == |leaked| + (if path in mapped then 1 else 0)
  {
    HeldAfterMap(base, root, st0, m, st, st1, m1, m2, st2, path, f, e, made, leaked);
    MapsAfterMap(base, root, m, m1, st1, m2, st2, path, e, made, mapped);
    LeakCount(m, root, path, mapped, leaked);
    ZeroedStays(base, root, m, m1, st1, m2, st2, path, f, e, made);
  }

  lemma ZeroedStays(base: nat, root: nat, m: seq<nat>, m1: seq<nat>, st1: seq<Status>, m2: seq<nat>, st2: seq<Status>,
                    path: seq<nat>, f: nat, e: nat, made: set<nat>)
    requires |path| == 4 && MappedIn(base, root, true, m1, st1, m2, st2, path, e, made)
    requires Untouched(base, root, m, m1, st1, f) && e == MakeEntry(PageAddress(f), TABLE_ATTRIBUTES)
    requires forall j :: 0 <= j < 512 ==> Entry(m1, f, j) == 0
    requires base <= f < base + |st1| && st1[f - base] == Used
    ensures NewlyMapped(root, m, m2, path, f)
  {
    assert f !in made;
  }

  /** Page f was taken without disturbing the address space: all it owns and translates,
      and its root, is as before. */
  ghost predicate Untouched(base: nat, root: nat, m: seq<nat>, m': seq<nat>, st': seq<Status>, f: nat) {
    && TreeInUse(base, root, true, m', st') && NotFree(base, st', f)
    && Own(m', root, 4, true) == Own(m, root, 4, true) && Own(m', root, 4, false) == Own(m, root, 4, false)
    && f !in Own(m, root, 4, true) && f !in Own(m, root, 4, false)
    && (forall q :: |q| == 4 && ValidPath(4, q) ==> Translate(m', root, 4, q) == Translate(m, root, 4, q))
    && (forall q :: |q| == 4 && ValidPath(4, q) ==> Missing(m', root, 4, q) == Missing(m, root, 4, q))
    && (forall i :: 0 <= i < 512 ==> Entry(m', root, i) == Entry(m, root, i))
  }

  /** Taking and zeroing a free page disturbs nothing the address space owns. */
  lemma FreshPage(base: nat, root: nat, m: seq<nat>, st: seq<Status>, m1: seq<nat>, st1: seq<Status>, f: nat)
    requires TreeInUse(base, root, true, m, st) && Unused(base, st, {f}) && Taken(base, st, st1, {f})
    requires |m1| == |m| && forall p, j :: p != f && 0 <= j < 512 ==> Entry(m1, p, j) == Entry(m, p, j)
    ensures Untouched(base, root, m, m1, st1, f)
  {
    FreeIsForeign(base, st, Own(m, root, 4, true), f);
    FreeIsForeign(base, st, Own(m, root, 4, false), f);
    StillInUse(base, st, st1, Own(m, root, 4, true), f);
    StillInUse(base, st, st1, Own(m, root, 4, false), f);
    TreeFrame(m, m1, root, 4, true);
    TreeFrame(m, m1, root, 4, false);
    SameWalks(m, m1, root);
  }

  lemma FreeIsForeign(base: nat, st: seq<Status>, own: set<nat>, f: nat)
    requires InUse(base, st, own) && Unused(base, st, {f})
    ensures f !in own
  {
    assert f in {f};
  }

  lemma StillInUse(base: nat, st: seq<Status>, st1: seq<Status>, own: set<nat>, f: nat)
    requires InUse(base, st, own) && Taken(base, st, st1, {f})
    ensures InUse(base, st1, own) && NotFree(base, st1, f)
  {}

  /** Every walk sees the same where the tables of the tree agree. */
  lemma SameWalks(m: seq<nat>, m': seq<nat>, root: nat)
    requires IsTree(m, root, 4, false) && Agree(m, m', Own(m, root, 4, false))
    ensures forall q :: |q| == 4 && ValidPath(4, q) ==> Translate(m', root, 4, q) == Translate(m, root, 4, q)
    ensures forall q :: |q| == 4 && ValidPath(4, q) ==> Missing(m', root, 4, q) == Missing(m, root, 4, q)
  {
    forall q | |q| == 4 && ValidPath(4, q)
      ensures Translate(m', root, 4, q) == Translate(m, root, 4, q)
      ensures Missing(m', root, 4, q) == Missing(m, root, 4, q)
    {
      TranslateFrame(m, m', root, 4, q);
      MissingFrame(m, m', root, 4, q);
    }
  }

  lemma {:induction false} MissingFrame(m: seq<nat>, m': seq<nat>, t: nat, level: nat, path: seq<nat>)
    requires |path| == level && ValidPath(level, path)
    requires IsTree(m, t, level, false) && Agree(m, m', Own(m, t, level, false))
    ensures Missing(m', t, level, path) == Missing(m, t, level, path)
    decreases level
  {
    if level > 1 {
      ChildOwned(m, t, level, path[0], false);
      assert Entry(m', t, path[0]) == Entry(m, t, path[0]);
      if Child(m, t, path[0]) != 0 {
        TailValid(level, path);
        MissingFrame(m, m', Child(m, t, path[0]), level - 1, path[1..]);
      }
    }
  }

  lemma HeldAfterMap(base: nat, root: nat, st0: seq<Status>, m: seq<nat>, st: seq<Status>, st1: seq<Status>, m1: seq<nat>,
                     m2: seq<nat>, st2: seq<Status>, path: seq<nat>, f: nat, e: nat, made: set<nat>, leaked: set<nat>)
    requires |path| == 4 && ValidPath(4, path) && Frame(e) == f && f != 0
    requires TreeInUse(base, root, true, m, st) && Holding(base, root, st0, st, Own(m, root, 4, true), leaked)
    requires Unused(base, st, {f}) && Taken(base, st, st1, {f}) && Untouched(base, root, m, m1, st1, f)
    requires MappedIn(base, root, true, m1, st1, m2, st2, path, e, made)
    ensures TreeInUse(base, root, true, m2, st2)
    ensures Holding(base, root, st0, st2, Own(m2, root, 4, true), leaked + OldLeaf(m, root, path))
  {
    var own, gone := Own(m, root, 4, true), OldLeaf(m, root, path);
    OldLeafOwned(m, root, 4, path);
    assert root !in OwnChild(m, root, 4, path[0], true) by { assert path[0] < Width(4 - 0); }
    HoldMore(base, root, st0, st, st1, st2, own, gone, f, made, leaked);
    OwnTables(m2, root, 4);
  }

  lemma HoldMore(base: nat, root: nat, st0: seq<Status>, st: seq<Status>, st1: seq<Status>, st2: seq<Status>,
                 own: set<nat>, gone: set<nat>, f: nat, made: set<nat>, leaked: set<nat>)
    requires Holding(base, root, st0, st, own, leaked) && gone <= own - {root} && InUse(base, st, own)
    requires Unused(base, st, {f}) && Taken(base, st, st1, {f})
    requires Unused(base, st1, made) && Taken(base, st1, st2, made)
    ensures Holding(base, root, st0, st2, own - gone + made + {f}, leaked + gone)
    ensures InUse(base, st2, own - gone + made + {f})
  {
    var more := made + {f};
    forall p | p in more
      ensures p !in own && p !in leaked && base <= p < base + |st| && st[p - base] == Free
    {
      if p in made { assert st1[p - base] == Free; }
    }
    assert own - gone + made + {f} - {root} + (leaked + gone) == (own - {root} + leaked) + more;
  }

  lemma MapsAfterMap(base: nat, root: nat, m: seq<nat>, m1: seq<nat>, st1: seq<Status>, m2: seq<nat>, st2: seq<Status>,
                     path: seq<nat>, e: nat, made: set<nat>, mapped: set<seq<nat>>)
    requires |path| == 4 && ValidPath(4, path) && Frame(e) != 0 && MapsExactly(m, root, mapped)
    requires forall q :: |q| == 4 && ValidPath(4, q) ==> Translate(m1, root, 4, q) == Translate(m, root, 4, q)
    requires MappedIn(base, root, true, m1, st1, m2, st2, path, e, made)
    ensures MapsExactly(m2, root, mapped + {path})
  {}

  lemma LeakCount(m: seq<nat>, root: nat, path: seq<nat>, mapped: set<seq<nat>>, leaked: set<nat>)
    requires |path| == 4 && ValidPath(4, path) && MapsExactly(m, root, mapped)
    requires IsTree(m, root, 4, true) && Own(m, root, 4, true) !! leaked
    ensures |leaked + OldLeaf(m, root, path)| == |leaked| + (if path in mapped then 1 else 0)
  {
    OldLeafOwned(m, root, 4, path);
    ChildOwned(m, root, 4, path[0], true);
    if path !in mapped { assert leaked + {} == leaked; }
  }

  /** struct userspace_memory_range, in user space. */
  datatype Range = Range(start: nat, end: nat)

  predicate UserRange(r: Range) { r.end <= 0x8000_0000_0000 }

  /** Address of the page that an address is in. */
  function PageStart(address: nat): nat { address / 4096 * 4096 }

  /** Addresses of the pages from one to the end of a range, in mapping order. */
  function PagesFrom(page: nat, end: nat): seq<nat>
    decreases end - page
  {
    if page >= end then [] else [page] + PagesFrom(page + 4096, end)
  }

  function PagesOf(ranges: seq<Range>): seq<nat> {
    if ranges == [] then [] else PagesOf(ranges[..|ranges| - 1]) + PagesFrom(PageStart(ranges[|ranges| - 1].start), ranges[|ranges| - 1].end)
  }

  ghost function PathsOf(pages: seq<nat>): set<seq<nat>> {
    if pages == [] then {} else PathsOf(pages[..|pages| - 1]) + {PathOf(pages[|pages| - 1])}
  }

  lemma UserAddress(va: nat)
    requires va < 0x8000_0000_0000
    ensures LowerHalf(va)
  {}

  /** Pages that mapping these pages takes in all: a data page each, and a table for every
      proper prefix of their paths. */
  ghost function PagesNeeded(pages: seq<nat>): nat { |pages| + |Prefixes(PathsOf(pages))| }

  /** Mapping the pages already done, and how many of them were repeats. */
  ghost predicate Loaded(mem: Memory, root: nat, st0: seq<Status>, pages: seq<nat>, leaked: set<nat>)
    reads mem, mem.words, mem.status
  {
    mem.Valid() && LoadedIn(mem.base, root, st0, mem.words[..], mem.status[..], pages, leaked)
  }

  ghost predicate LoadedIn(base: nat, root: nat, st0: seq<Status>, m: seq<nat>, st: seq<Status>, pages: seq<nat>, leaked: set<nat>) {
    && Account(base, root, st0, m, st, PathsOf(pages), leaked)
    && |leaked| == |pages| - |PathsOf(pages)|
    && Counted(m, root, PathsOf(pages))
    && FreeCount(st) == FreeCount(st0) - PagesNeeded(pages)
  }

  /** What the next page needs, and the account of tables with it. */
  lemma NeededNext(m: seq<nat>, root: nat, mapped: set<seq<nat>>, path: seq<nat>)
    requires IsTree(m, root, 4, false) && MapsExactly(m, root, mapped) && Counted(m, root, mapped)
    requires |path| == 4 && ValidPath(4, path)
    ensures Missing(m, root, 4, path) == |Prefixes(mapped + {path})| - |Prefixes(mapped)|
    ensures PagePaths(mapped + {path})
  {
    MissingCount(m, root, mapped, path);
  }

  lemma {:induction false} NeededGrows(pages: seq<nat>, more: seq<nat>)
    ensures PagesNeeded(pages) <= PagesNeeded(pages + more)
    decreases |more|
  {
    if more == [] {
      assert pages + more == pages;
    } else {
      var n := |more| - 1;
      NeededGrows(pages, more[..n]);
      assert pages + more == (pages + more[..n]) + [more[n]];
      PathsOfNext(pages + more[..n], more[n]);
      Sets.SubsetSize(Prefixes(PathsOf(pages + more[..n])), Prefixes(PathsOf(pages + more)));
    }
  }

  lemma PathsOfNext(pages: seq<nat>, p: nat)
    ensures PathsOf(pages + [p]) == PathsOf(pages) + {PathOf(p)}
    ensures |PathsOf(pages + [p])| == |PathsOf(pages)| + (if PathOf(p) in PathsOf(pages) then 0 else 1)
  {
    var s, x := PathsOf(pages), PathOf(p);
    assert (pages + [p])[..|pages|] == pages;
    if x in s { assert s + {x} == s; }
  }

  ghost predicate UpperSame(m: seq<nat>, m': seq<nat>, root: nat) {
    forall i :: 256 <= i < 512 ==> Entry(m', root, i) == Entry(m, root, i)
  }

  /** One more page. */
  method MapNext(mem: Memory, root: nat, page: nat, ghost st0: seq<Status>, ghost pages: seq<nat>, ghost leaked: set<nat>,
                 ghost m0: seq<nat>)
    returns (ok: bool, ghost leaked': set<nat>)
    requires page < 0x8000_0000_0000 && Loaded(mem, root, st0, pages, leaked)
    requires UpperSame(m0, mem.words[..], root)
    modifies mem`used, mem.words, mem.status
    ensures mem.Valid() && (ok <==> FreeCount(st0) >= PagesNeeded(pages + [page]))
    ensures ok ==> Loaded(mem, root, st0, pages + [page], leaked')
    ensures ok ==> UpperSame(m0, mem.words[..], root)
  {
    UserAddress(page);
    NextNeeds(root, mem.words[..], pages, page, PathOf(page));
    var frame: Option<nat>;
    frame, leaked' := MapUserPage(mem, root, page, st0, PathsOf(pages), leaked);
    ok := frame.Some?;
  }

  /** What the next page takes, and whether there is as much. */
  lemma NextNeeds(root: nat, m: seq<nat>, pages: seq<nat>, page: nat, path: seq<nat>)
    requires IsTree(m, root, 4, false) && MapsExactly(m, root, PathsOf(pages)) && Counted(m, root, PathsOf(pages))
    requires path == PathOf(page) && |path| == 4 && ValidPath(4, path)
    ensures PagesNeeded(pages + [page]) == PagesNeeded(pages) + 1 + Missing(m, root, 4, path)
    ensures PagePaths(PathsOf(pages + [page])) && PathsOf(pages + [page]) == PathsOf(pages) + {path}
    ensures |PathsOf(pages + [page])| == |PathsOf(pages)| + (if path in PathsOf(pages) then 0 else 1)
  {
    PathsOfNext(pages, page);
    NeededNext(m, root, PathsOf(pages), path);
  }

  lemma NextPage(pages: seq<nat>, page: nat, end: nat, all: seq<nat>)
    requires pages + PagesFrom(page, end) == all
    ensures if page < end then
              (pages + [page]) + PagesFrom(page + 4096, end) == all && PagesNeeded(pages + [page]) <= PagesNeeded(all)
            else pages == all
  {
    if page < end {
      assert pages + ([page] + PagesFrom(page + 4096, end)) == (pages + [page]) + PagesFrom(page + 4096, end);
      NeededGrows(pages + [page], PagesFrom(page + 4096, end));
    } else {
      assert pages + [] == pages;
    }
  }

  lemma EnoughLoaded(mem: Memory, root: nat, st0: seq<Status>, pages: seq<nat>, leaked: set<nat>)
    requires Loaded(mem, root, st0, pages, leaked)
    ensures mem.Valid() && FreeCount(st0) >= PagesNeeded(pages)
  {}

  /** The pages of one range. */
  method MapRange(mem: Memory, root: nat, r: Range, ghost st0: seq<Status>, ghost done: seq<nat>, ghost leaked: set<nat>)
    returns (ok: bool, ghost leaked': set<nat>)
    requires UserRange(r) && Loaded(mem, root, st0, done, leaked)
    modifies mem`used, mem.words, mem.status
    ensures mem.Valid() && (ok <==> FreeCount(st0) >= PagesNeeded(done + PagesFrom(PageStart(r.start), r.end)))
    ensures ok ==> Loaded(mem, root, st0, done + PagesFrom(PageStart(r.start), r.end), leaked')
    ensures ok ==> UpperSame(old(mem.words[..]), mem.words[..], root)
  {
    leaked', ok := leaked, true;
    var page: nat := PageStart(r.start);
    ghost var m0: seq<nat>, pages: seq<nat>, all: seq<nat> := mem.words[..], done, done + PagesFrom(page, r.end);
    while ok && page < r.end
      invariant mem.Valid()
      invariant ok ==> Loaded(mem, root, st0, pages, leaked') && UpperSame(m0, mem.words[..], root)
      invariant ok ==> pages + PagesFrom(page, r.end) == all
      invariant !ok ==> FreeCount(st0) < PagesNeeded(all)
      decreases ok, r.end - page
    {
      NextPage(pages, page, r.end, all);
      ok, leaked' := MapNext(mem, root, page, st0, pages, leaked', m0);
      pages, page := pages + [page], page + 4096;
    }
    if ok {
      NextPage(pages, page, r.end, all);
      EnoughLoaded(mem, root, st0, pages, leaked');
    }
  }

  /** setup_userspace_memory: every page of every range, in order. */
  method SetupUserspaceMemory(mem: Memory, root: nat, ranges: seq<Range>, ghost st0: seq<Status>)
    returns (ok: bool, ghost leaked: set<nat>)
    requires forall r :: r in ranges ==> UserRange(r)
    requires Loaded(mem, root, st0, [], {})
    modifies mem`used, mem.words, mem.status
    ensures mem.Valid() && (ok <==> FreeCount(st0) >= PagesNeeded(PagesOf(ranges)))
    ensures ok ==> Loaded(mem, root, st0, PagesOf(ranges), leaked)
    ensures ok ==> UpperSame(old(mem.words[..]), mem.words[..], root)
  {
    leaked := {};
    ghost var m0 := mem.words[..];
    for k := 0 to |ranges|
      invariant Loaded(mem, root, st0, PagesOf(ranges[..k]), leaked)
      invariant UpperSame(m0, mem.words[..], root)
    {
      PagesOfNext(ranges, k);
      PagesOfGrows(ranges, k + 1);
      ok, leaked := MapRange(mem, root, ranges[k], st0, PagesOf(ranges[..k]), leaked);
      if !ok { return; }
    }
    assert ranges[..|ranges|] == ranges;
    ok := true;
  }

  lemma PagesOfNext(ranges: seq<Range>, k: nat)
    requires k < |ranges|
    ensures PagesOf(ranges[..k + 1]) == PagesOf(ranges[..k]) + PagesFrom(PageStart(ranges[k].start), ranges[k].end)
  {
    assert ranges[..k + 1][..k] == ranges[..k];
  }

  lemma {:induction false} PagesOfGrows(ranges: seq<Range>, k: nat)
    requires k <= |ranges|
    ensures PagesNeeded(PagesOf(ranges[..k])) <= PagesNeeded(PagesOf(ranges))
    decreases |ranges| - k
  {
    if k == |ranges| {
      assert ranges[..k] == ranges;
    } else {
      PagesOfNext(ranges, k);
      NeededGrows(PagesOf(ranges[..k]), PagesFrom(PageStart(ranges[k].start), ranges[k].end));
      PagesOfGrows(ranges, k + 1);
    }
  }

  /** free_userspace_memory: every page the address space holds goes back, once; only
      pages leaked earlier stay taken. No user page translates afterwards, the root's
      upper half and every page that was not a user table keep their contents. */
  method FreeUserspaceMemory(mem: Memory, root: nat, ghost st0: seq<Status>, ghost mapped: set<seq<nat>>, ghost leaked: set<nat>)
    requires mem.Valid() && Account(mem.base, root, st0, mem.words[..], mem.status[..], mapped, leaked)
    modifies mem`used, mem.words, mem.status
    ensures mem.Valid()
    ensures Taken(mem.base, st0, mem.status[..], leaked)
    ensures forall q :: |q| == 4 && ValidPath(4, q) ==> Translate(mem.words[..], root, 4, q) == Unmapped
    ensures UpperSame(old(mem.words[..]), mem.words[..], root)
    ensures forall p, j :: p !in old(Own(mem.words[..], root, 4, false)) && 0 <= j < 512 ==>
              Entry(mem.words[..], p, j) == old(Entry(mem.words[..], p, j))
  {
    ghost var m, st := mem.words[..], mem.status[..];
    FreeTables(mem, root, 4);
    AllReturned(mem.base, root, st0, m, st, mem.status[..], leaked);
    forall q | |q| == 4 && ValidPath(4, q)
      ensures Translate(mem.words[..], root, 4, q) == Unmapped
    {
      assert q[0] < Width(4 - 0);
      assert Entry(mem.words[..], root, q[0]) == 0;
    }
  }

  lemma AllReturned(base: nat, root: nat, st0: seq<Status>, m: seq<nat>, st: seq<Status>, st': seq<Status>, leaked: set<nat>)
    requires IsTree(m, root, 4, true) && Holding(base, root, st0, st, Own(m, root, 4, true), leaked)
    requires Released(base, st, st', Below(m, root, 4, 256, true))
    ensures Taken(base, st0, st', leaked)
  {
    OwnButRoot(m, root, 4);
    forall i | 0 <= i < |st0|
      ensures st'[i] == if base + i in leaked then Used else st0[i]
    {
      if base + i in Below(m, root, 4, 256, true) { assert st0[i] == Free; }
    }
  }

  /** An empty lower half has no table but the root. */
  lemma OnlyRoot(m: seq<nat>, root: nat)
    requires forall i :: 0 <= i < 256 ==> Entry(m, root, i) == 0
    ensures Own(m, root, 4, false) == {root}
  {
    assert forall i :: 0 <= i < 256 ==> OwnChild(m, root, 4, i, false) == {};
    assert Below(m, root, 4, 256, false) == {};
  }

  /** One page listed twice: two data pages, one path, three tables. */
  lemma TwiceNeeded(p: nat)
    ensures |PathsOf([p, p])| == 1 && PagesNeeded([p, p]) == 5
  {
    var none: set<seq<nat>>, q := {}, PathOf(p);
    PathsOfNext([], p);
    PathsOfNext([p], p);
    assert [] + [p] == [p] && [p] + [p] == [p, p];
    assert PathsOf([]) == none && none + {q} == {q} && {q} + {q} == {q};
    assert Prefixes(none) == none;
    PrefixCount(none, q);
    assert NewPrefixes(none, q, 1) == 1 && NewPrefixes(none, q, 2) == 2;
  }

  lemma TwoRanges(r: Range)
    ensures PagesOf([r, r]) == PagesFrom(PageStart(r.start), r.end) + PagesFrom(PageStart(r.start), r.end)
  {
    var ranges := [r, r];
    PagesOfNext(ranges, 0);
    PagesOfNext(ranges, 1);
    assert ranges[..0] == [] && ranges[..2] == ranges;
    assert PagesOf([]) == [];
  }

  /** A range of one page listed twice: with five free pages such a load succeeds, by
      LoadAndFree, and leaves one page taken after it is freed. */
  lemma RepeatedPage(r: Range)
    requires r.start < r.end <= PageStart(r.start) + 4096
    ensures |PagesOf([r, r])| == 2 && |PathsOf(PagesOf([r, r]))| == 1 && PagesNeeded(PagesOf([r, r])) == 5
  {
    TwoPages(r, PageStart(r.start));
    TwiceNeeded(PageStart(r.start));
  }

  lemma OnePage(page: nat, end: nat)
    requires page < end <= page + 4096
    ensures PagesFrom(page, end) == [page]
  {
    assert PagesFrom(page + 4096, end) == [];
  }

  lemma TwoPages(r: Range, page: nat)
    requires page == PageStart(r.start) && page < r.end <= page + 4096
    ensures PagesOf([r, r]) == [page, page]
  {
    OnePage(page, r.end);
    TwoRanges(r);
  }

  /** Exact reclamation: loading any list of ranges into an empty address space and freeing
      it leaves taken exactly one page for every repeated mapping, so the page statuses and
      the used counter are back where they were if and only if no page was mapped twice. */
  method LoadAndFree(mem: Memory, root: nat, ranges: seq<Range>) returns (ok: bool)
    requires mem.Valid() && mem.base <= root < mem.base + mem.total && mem.status[root - mem.base] == Used
    requires forall i :: 0 <= i < 256 ==> Entry(mem.words[..], root, i) == 0
    requires forall r :: r in ranges ==> UserRange(r)
    modifies mem`used, mem.words, mem.status
    ensures mem.Valid() && (ok <==> FreeCount(old(mem.status[..])) >= PagesNeeded(PagesOf(ranges)))
    ensures ok ==> mem.used == old(mem.used) + |PagesOf(ranges)| - |PathsOf(PagesOf(ranges))|
    ensures ok ==> (mem.status[..] == old(mem.status[..]) <==> |PagesOf(ranges)| == |PathsOf(PagesOf(ranges))|)
    ensures ok ==> forall q :: |q| == 4 && ValidPath(4, q) ==> Translate(mem.words[..], root, 4, q) == Unmapped
    ensures ok ==> UpperSame(old(mem.words[..]), mem.words[..], root)
  {
    ghost var st0 := mem.status[..];
    assert InUse(mem.base, st0, {root});
    EmptyAccount(mem.base, root, st0, mem.words[..]);
    assert PathsOf([]) == {} && Prefixes({}) == {};
    OnlyRoot(mem.words[..], root);
    ghost var leaked;
    ok, leaked := SetupUserspaceMemory(mem, root, ranges, st0);
    if ok {
      assert Unused(mem.base, st0, leaked);
      FreeUserspaceMemory(mem, root, st0, PathsOf(PagesOf(ranges)), leaked);
      TakenCount(mem.base, st0, mem.status[..], leaked);
    }
  }

  /** Taking free pages raises the used count by their number. */
  lemma {:induction false} TakenCount(base: nat, st: seq<Status>, st': seq<Status>, s: set<nat>)
    requires Unused(base, st, s) && Taken(base, st, st', s)
    ensures UsedCount(st') == UsedCount(st) + |s|
    ensures st' == st <==> |s| == 0
    decreases |s|
  {
    if s == {} {
      assert st' == st;
    } else {
      var p :| p in s;
      var st1 := st[p - base := Used];
      UsedCountUpdate(st, p - base, Used);
      TakenCount(base, st1, st', s - {p});
      assert st'[p - base] != st[p - base];
    }
  }

  // ---- which addresses a program gets

  /** An address lies in a page that some part of the range is in. */
  predicate Touches(r: Range, va: nat) { r.start / 4096 <= va / 4096 && va / 4096 * 4096 < r.end }

  ghost predicate Touched(ranges: seq<Range>, va: nat) { exists k :: 0 <= k < |ranges| && Touches(ranges[k], va) }

  /** Page addresses of user space. */
  ghost predicate UserPages(pages: seq<nat>) {
    forall i :: 0 <= i < |pages| ==> pages[i] % 4096 == 0 && pages[i] < 0x8000_0000_0000
  }

  lemma {:induction false} PagesFromHas(page: nat, end: nat, x: nat)
    requires page % 4096 == 0 && x % 4096 == 0 && end <= 0x8000_0000_0000
    ensures UserPages(PagesFrom(page, end)) && (x in PagesFrom(page, end) <==> page <= x < end)
    decreases end - page
  {
    if page < end { PagesFromHas(page + 4096, end, x); }
  }

  lemma TouchedSnoc(ranges: seq<Range>, n: nat, va: nat)
    requires |ranges| == n + 1
    ensures Touched(ranges, va) <==> Touched(ranges[..n], va) || Touches(ranges[n], va)
  {
    if Touched(ranges[..n], va) {
      var k :| 0 <= k < n && Touches(ranges[..n][k], va);
      assert Touches(ranges[k], va);
    }
    if Touched(ranges, va) && !Touches(ranges[n], va) {
      var k :| 0 <= k < |ranges| && Touches(ranges[k], va);
      assert Touches(ranges[..n][k], va);
    }
  }

  /** The pages mapped for a list of ranges. */
  lemma {:induction false} PagesOfHas(ranges: seq<Range>, va: nat)
    requires forall k :: 0 <= k < |ranges| ==> UserRange(ranges[k])
    ensures UserPages(PagesOf(ranges)) && (va / 4096 * 4096 in PagesOf(ranges) <==> Touched(ranges, va))
    decreases |ranges|
  {
    if ranges != [] {
      var n := |ranges| - 1;
      TouchedSnoc(ranges, n, va);
      PagesOfHas(ranges[..n], va);
      PagesFromHas(PageStart(ranges[n].start), ranges[n].end, va / 4096 * 4096);
    }
  }

  lemma {:induction false} PathsOfHas(pages: seq<nat>, va: nat)
    requires va < 0x8000_0000_0000 && UserPages(pages)
    ensures PathOf(va) in PathsOf(pages) <==> va / 4096 * 4096 in pages
    decreases |pages|
  {
    if pages != [] {
      var n := |pages| - 1;
      PathsOfHas(pages[..n], va);
      SamePage(va, pages[n]);
      assert pages == pages[..n] + [pages[n]];
    }
  }

  lemma SamePage(va: nat, page: nat)
    requires va < 0x8000_0000_0000 && page < 0x8000_0000_0000 && page % 4096 == 0
    ensures PathOf(va) == PathOf(page) <==> va / 4096 * 4096 == page
  {
    PathIsPage(va, page);
  }

  lemma Mapping(m: seq<nat>, root: nat, mapped: set<seq<nat>>, q: seq<nat>)
    requires MapsExactly(m, root, mapped) && IsTree(m, root, 4, true) && |q| == 4 && ValidPath(4, q)
    ensures Translate(m, root, 4, q).Mapped? <==> q in mapped
    ensures q in mapped ==> Permits(m, root, 4, q)
  {
    if q in mapped { MappedPermits(m, root, 4, true, q); }
  }

  /** Once the ranges of a program are loaded, a user address translates exactly when it lies
      in a page that some range touches; and the program may write to it. */
  lemma AddressesLoaded(base: nat, root: nat, st0: seq<Status>, m: seq<nat>, st: seq<Status>, ranges: seq<Range>,
                        leaked: set<nat>, va: nat)
    requires forall k :: 0 <= k < |ranges| ==> UserRange(ranges[k])
    requires LoadedIn(base, root, st0, m, st, PagesOf(ranges), leaked) && va < 0x8000_0000_0000
    ensures Translate(m, root, 4, PathOf(va)).Mapped? <==> Touched(ranges, va)
    ensures Touched(ranges, va) ==> Permits(m, root, 4, PathOf(va))
  {
    PagesOfHas(ranges, va);
    PathsOfHas(PagesOf(ranges), va);
    UserAddress(va);
    Mapping(m, root, PathsOf(PagesOf(ranges)), PathOf(va));
  }
}
