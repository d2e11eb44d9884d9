/** Four-level page tables as a tree inside physical memory. Memory is its sequence m of
    64-bit words, 512 a page; a page is named by its physical page number. */
module PageTables {
  /** (e & PAGE_ADDRESS_MASK) >> 12 */
  function Frame(e: nat): nat { e / 4096 }

  /** Present, and the large-page bit of the middle levels (Intel SDM Vol. 3A, 4.5). */
  predicate Present(e: nat) { e % 2 == 1 }
  predicate Large(e: nat, level: nat) { (level == 2 || level == 3) && e / 128 % 2 == 1 }

  /** Write and user access, which the hardware demands at every level (4.6.1 there). */
  predicate UserWritable(e: nat) { e / 2 % 2 == 1 && e / 4 % 2 == 1 }

  predicate InMemory(m: seq<nat>, t: nat) { 512 * t + 512 <= |m| }

  function Entry(m: seq<nat>, t: nat, i: nat): nat {
    if InMemory(m, t) && i < 512 then m[512 * t + i] else 0
  }

  function Child(m: seq<nat>, t: nat, i: nat): nat { Frame(Entry(m, t, i)) }

  /** User space is the lower half of the root table and the whole of every other. */
  function Width(level: nat): nat { if level == 4 then 256 else 512 }

  /** Pages owned through entry i of table t: the tables and, if leafy, the data pages. */
  ghost function OwnChild(m: seq<nat>, t: nat, level: nat, i: nat, leafy: bool): set<nat>
    requires level > 0
    decreases level, 0
  {
    if Child(m, t, i) == 0 then {} else Own(m, Child(m, t, i), level - 1, leafy)
  }

  /** Pages owned through the entries of t below limit. */
  ghost function Below(m: seq<nat>, t: nat, level: nat, limit: nat, leafy: bool): set<nat>
    requires level > 0
    decreases level, 1
  {
    set i, p | 0 <= i < limit && p in OwnChild(m, t, level, i, leafy) :: p
  }

  ghost function Own(m: seq<nat>, t: nat, level: nat, leafy: bool): set<nat>
    decreases level, 2
  {
    if level == 0 then if leafy then {t} else {}
    else {t} + Below(m, t, level, Width(level), leafy)
  }

  /** An entry is empty or names a table or data page in the way the hardware follows for a
      user program's writes;
      page 0 can be data but not a table. */
  predicate GoodEntry(e: nat, level: nat) {
    e == 0 || (Present(e) && UserWritable(e) && !Large(e, level) && (level > 1 ==> Frame(e) != 0))
  }

  /** The tables under t form an unshared tree; if leafy, data pages are unshared too. */
  ghost predicate IsTree(m: seq<nat>, t: nat, level: nat, leafy: bool)
    decreases level
  {
    level > 0 ==>
      && InMemory(m, t)
      && (forall i :: 0 <= i < Width(level) ==> GoodEntry(Entry(m, t, i), level))
      && (forall i :: 0 <= i < Width(level) && Child(m, t, i) != 0 ==> IsTree(m, Child(m, t, i), level - 1, leafy))
      && (forall i :: 0 <= i < Width(level) ==> t !in OwnChild(m, t, level, i, leafy))
      && (forall i, j :: 0 <= i < j < Width(level) ==>
            OwnChild(m, t, level, i, leafy) !! OwnChild(m, t, level, j, leafy))
  }

  /** What the hardware finds for a path of table indices: the last entry read and its level. */
  datatype Mapping = Unmapped | Mapped(level: nat, entry: nat)

  function Translate(m: seq<nat>, t: nat, level: nat, path: seq<nat>): Mapping
    requires |path| == level
    decreases level
  {
    if level == 0 then Unmapped
    else
      var e := Entry(m, t, path[0]);
      if !Present(e) then Unmapped
      else if level == 1 || Large(e, level) then Mapped(level, e)
      else Translate(m, Frame(e), level - 1, path[1..])
  }

  /** Every entry read on a path allows a user program to write. */
  predicate Permits(m: seq<nat>, t: nat, level: nat, path: seq<nat>)
    requires |path| == level
    decreases level
  {
    level > 0 ==>
      var e := Entry(m, t, path[0]);
      UserWritable(e) && (level > 1 && !Large(e, level) ==> Permits(m, Frame(e), level - 1, path[1..]))
  }

  lemma UnderEntry(m: seq<nat>, t: nat, level: nat, leafy: bool, i: nat)
    requires IsTree(m, t, level, leafy) && level > 0 && i < Width(level)
    ensures GoodEntry(Entry(m, t, i), level)
    ensures Entry(m, t, i) != 0 && level > 1 ==> IsTree(m, Frame(Entry(m, t, i)), level - 1, leafy)
  {
    assert GoodEntry(Entry(m, t, i), level);
    assert Child(m, t, i) == Frame(Entry(m, t, i));
  }

  /** What a tree maps, user programs may write to. */
  lemma {:induction false} MappedPermits(m: seq<nat>, t: nat, level: nat, leafy: bool, path: seq<nat>)
    requires IsTree(m, t, level, leafy) && |path| == level && ValidPath(level, path)
    requires Translate(m, t, level, path).Mapped?
    ensures Permits(m, t, level, path)
    decreases level
  {
    if level > 0 {
      TailValid(level, path);
      var e := Entry(m, t, path[0]);
      UnderEntry(m, t, level, leafy, path[0]);
      if level > 1 { MappedPermits(m, Frame(e), level - 1, leafy, path[1..]); }
    }
  }

  /** Indices that stay inside the tree. */
  predicate ValidPath(level: nat, path: seq<nat>) {
    |path| <= level && forall k :: 0 <= k < |path| ==> path[k] < Width(level - k)
  }

  /** Table u is reached from t along path. */
  predicate Reaches(m: seq<nat>, t: nat, path: seq<nat>, u: nat)
    decreases |path|
  {
    if path == [] then t == u
    else Child(m, t, path[0]) != 0 && Reaches(m, Child(m, t, path[0]), path[1..], u)
  }

  /** Two memories agree on every page of s. */
  ghost predicate Agree(m: seq<nat>, m': seq<nat>, s: set<nat>) {
    |m| == |m'| && forall p, i :: p in s && 0 <= i < 512 ==> Entry(m', p, i) == Entry(m, p, i)
  }

  lemma OwnerEntry(m: seq<nat>, t: nat, level: nat, limit: nat, leafy: bool, p: nat) returns (i: nat)
    requires level > 0 && p in Below(m, t, level, limit, leafy)
    ensures i < limit && p in OwnChild(m, t, level, i, leafy)
  {
    i :| 0 <= i < limit && p in OwnChild(m, t, level, i, leafy);
  }

  lemma {:induction false} OwnTables(m: seq<nat>, t: nat, level: nat)
    ensures Own(m, t, level, false) <= Own(m, t, level, true)
    decreases level
  {
    if level > 0 {
      forall i | 0 <= i < Width(level)
        ensures OwnChild(m, t, level, i, false) <= OwnChild(m, t, level, i, true)
      {
        if Child(m, t, i) != 0 { OwnTables(m, Child(m, t, i), level - 1); }
      }
      forall p | p in Below(m, t, level, Width(level), false)
        ensures p in Below(m, t, level, Width(level), true)
      {
        var i := OwnerEntry(m, t, level, Width(level), false, p);
        assert p in OwnChild(m, t, level, i, true);
      }
    }
  }

  lemma ChildOwned(m: seq<nat>, t: nat, level: nat, i: nat, leafy: bool)
    requires level > 0 && i < Width(level)
    ensures OwnChild(m, t, level, i, leafy) <= Own(m, t, level, leafy) && t in Own(m, t, level, leafy)
  {}

  /** A tree depends on its own tables only. */
  lemma {:induction false} TreeFrame(m: seq<nat>, m': seq<nat>, t: nat, level: nat, leafy: bool)
    requires IsTree(m, t, level, leafy) && Agree(m, m', Own(m, t, level, false))
    ensures IsTree(m', t, level, leafy) && Own(m', t, level, leafy) == Own(m, t, level, leafy)
    decreases level
  {
    if level > 0 {
      forall i | 0 <= i < Width(level)
        ensures Child(m', t, i) == Child(m, t, i) && GoodEntry(Entry(m', t, i), level)
        ensures OwnChild(m', t, level, i, leafy) == OwnChild(m, t, level, i, leafy)
        ensures Child(m, t, i) != 0 ==> IsTree(m', Child(m, t, i), level - 1, leafy)
      {
        ChildOwned(m, t, level, i, false);
        assert Entry(m', t, i) == Entry(m, t, i);
        if Child(m, t, i) != 0 { TreeFrame(m, m', Child(m, t, i), level - 1, leafy); }
      }
      SameBelow(m, m', t, level, Width(level), leafy);
    }
  }

  lemma SameBelow(m: seq<nat>, m': seq<nat>, t: nat, level: nat, limit: nat, leafy: bool)
    requires level > 0
    requires forall i :: 0 <= i < limit ==> OwnChild(m', t, level, i, leafy) == OwnChild(m, t, level, i, leafy)
    ensures Below(m', t, level, limit, leafy) == Below(m, t, level, limit, leafy)
  {
    forall p
      ensures p in Below(m', t, level, limit, leafy) <==> p in Below(m, t, level, limit, leafy)
    {
      if p in Below(m, t, level, limit, leafy) {
        var i := OwnerEntry(m, t, level, limit, leafy, p);
        assert p in OwnChild(m', t, level, i, leafy);
      }
    }
  }

  lemma {:induction false} TranslateFrame(m: seq<nat>, m': seq<nat>, t: nat, level: nat, path: seq<nat>)
    requires |path| == level && ValidPath(level, path)
    requires IsTree(m, t, level, false) && Agree(m, m', Own(m, t, level, false))
    ensures Translate(m', t, level, path) == Translate(m, t, level, path)
    decreases level
  {
    if level > 0 {
      ChildOwned(m, t, level, path[0], false);
      assert Entry(m', t, path[0]) == Entry(m, t, path[0]);
      if Child(m, t, path[0]) != 0 {
        TailValid(level, path);
        TranslateFrame(m, m', Child(m, t, path[0]), level - 1, path[1..]);
      }
    }
  }

  lemma TailValid(level: nat, path: seq<nat>)
    requires path != [] && ValidPath(level, path)
    ensures path[0] < Width(level) && ValidPath(level - 1, path[1..])
  {
    assert forall k :: 0 <= k < |path| - 1 ==> path[1..][k] == path[k + 1] && level - 1 - k == level - (k + 1);
  }

  /** A zeroed page is a table that owns itself and maps nothing. */
  lemma EmptyTable(m: seq<nat>, t: nat, level: nat, leafy: bool)
    requires level > 0 && InMemory(m, t) && forall i :: 0 <= i < 512 ==> Entry(m, t, i) == 0
    ensures IsTree(m, t, level, leafy) && Own(m, t, level, leafy) == {t}
  {
    assert forall i :: 0 <= i < Width(level) ==> Child(m, t, i) == 0;
    assert forall i :: 0 <= i < Width(level) ==> OwnChild(m, t, level, i, leafy) == {};
    assert Below(m, t, level, Width(level), leafy) == {};
  }

  /** m' is m with entry i of table u set to e, which names either a data page (below = 0)
      or a freshly zeroed table. */
  ghost predicate Linked(m: seq<nat>, m': seq<nat>, u: nat, i: nat, e: nat, below: nat) {
    && |m'| == |m| && InMemory(m, u) && i < 512 && e != 0 && GoodEntry(e, below + 1)
    && Entry(m', u, i) == e
    && (forall j :: 0 <= j < 512 && j != i ==> Entry(m', u, j) == Entry(m, u, j))
    && (forall p, j :: p != u && (below == 0 || p != Frame(e)) && 0 <= j < 512 ==> Entry(m', p, j) == Entry(m, p, j))
    && (below > 0 ==> Frame(e) != u && InMemory(m, Frame(e)) && forall j :: 0 <= j < 512 ==> Entry(m', Frame(e), j) == 0)
  }

  /** Data page that entry i of u stops mapping, and page that it starts owning. */
  ghost function Dropped(m: seq<nat>, u: nat, i: nat, below: nat, leafy: bool): set<nat> {
    if below == 0 && leafy && Child(m, u, i) != 0 then {Child(m, u, i)} else {}
  }

  ghost function Gained(e: nat, below: nat, leafy: bool): set<nat> {
    if Frame(e) != 0 && (below > 0 || leafy) then {Frame(e)} else {}
  }

  lemma {:induction false} ReachOwned(m: seq<nat>, t: nat, level: nat, path: seq<nat>, u: nat)
    requires |path| < level && ValidPath(level, path) && Reaches(m, t, path, u)
    ensures u in Own(m, t, level, false)
    decreases level
  {
    if path != [] {
      TailValid(level, path);
      ReachOwned(m, Child(m, t, path[0]), level - 1, path[1..], u);
      ChildOwned(m, t, level, path[0], false);
    }
  }

  /** Replacing what one entry owns replaces it in the union. */
  lemma BelowReplaced(m: seq<nat>, m': seq<nat>, t: nat, level: nat, k: nat, leafy: bool, gone: set<nat>, got: set<nat>)
    requires level > 0 && k < Width(level) && IsTree(m, t, level, leafy)
    requires forall i :: 0 <= i < Width(level) && i != k ==> OwnChild(m', t, level, i, leafy) == OwnChild(m, t, level, i, leafy)
    requires OwnChild(m', t, level, k, leafy) == OwnChild(m, t, level, k, leafy) - gone + got
    requires gone <= OwnChild(m, t, level, k, leafy)
    ensures Own(m', t, level, leafy) == Own(m, t, level, leafy) - gone + got
  {
    var w := Width(level);
    forall p | p in Own(m', t, level, leafy)
      ensures p in Own(m, t, level, leafy) - gone + got
    {
      if p != t {
        var i := OwnerEntry(m', t, level, w, leafy, p);
        ChildOwned(m, t, level, i, leafy);
        if i < k { assert OwnChild(m, t, level, i, leafy) !! OwnChild(m, t, level, k, leafy); }
        if k < i { assert OwnChild(m, t, level, k, leafy) !! OwnChild(m, t, level, i, leafy); }
      }
    }
    forall p | p in Own(m, t, level, leafy) - gone + got
      ensures p in Own(m', t, level, leafy)
    {
      ChildOwned(m', t, level, k, leafy);
      if p !in got && p != t {
        var i := OwnerEntry(m, t, level, w, leafy, p);
        ChildOwned(m', t, level, i, leafy);
      }
    }
  }

  /** Two entries of one tree share no page, tables or data. */
  lemma Unshared(m: seq<nat>, t: nat, level: nat, leafy: bool, i: nat, j: nat)
    requires level > 0 && IsTree(m, t, level, leafy) && i < Width(level) && j < Width(level) && i != j
    ensures OwnChild(m, t, level, i, false) !! OwnChild(m, t, level, j, leafy)
    ensures OwnChild(m, t, level, i, false) <= OwnChild(m, t, level, i, leafy)
  {
    if i < j { assert OwnChild(m, t, level, i, leafy) !! OwnChild(m, t, level, j, leafy); }
    else { assert OwnChild(m, t, level, j, leafy) !! OwnChild(m, t, level, i, leafy); }
    if Child(m, t, i) != 0 { OwnTables(m, Child(m, t, i), level - 1); }
  }

  /** An entry off the written path keeps its subtree. */
  lemma Bystander(m: seq<nat>, m': seq<nat>, t: nat, level: nat, leafy: bool, i: nat, u: nat, f: nat)
    requires level > 0 && i < Width(level) && IsTree(m, t, level, leafy)
    requires |m'| == |m| && Child(m', t, i) == Child(m, t, i)
    requires forall p, j :: p != u && p != f && 0 <= j < 512 ==> Entry(m', p, j) == Entry(m, p, j)
    requires u !in OwnChild(m, t, level, i, false) && f !in OwnChild(m, t, level, i, false)
    ensures OwnChild(m', t, level, i, leafy) == OwnChild(m, t, level, i, leafy)
    ensures Child(m, t, i) != 0 ==> IsTree(m', Child(m, t, i), level - 1, leafy)
  {
    if Child(m, t, i) != 0 { TreeFrame(m, m', Child(m, t, i), level - 1, leafy); }
  }

  /** A tree whose entry k alone changed, to an unshared subtree of fresh or old pages. */
  lemma Assemble(m: seq<nat>, m': seq<nat>, t: nat, level: nat, k: nat, leafy: bool, gone: set<nat>, got: set<nat>)
    requires level > 0 && k < Width(level) && IsTree(m, t, level, leafy) && InMemory(m', t)
    requires forall i :: 0 <= i < Width(level) ==> GoodEntry(Entry(m', t, i), level)
    requires forall i :: 0 <= i < Width(level) && Child(m', t, i) != 0 ==> IsTree(m', Child(m', t, i), level - 1, leafy)
    requires forall i :: 0 <= i < Width(level) && i != k ==> OwnChild(m', t, level, i, leafy) == OwnChild(m, t, level, i, leafy)
    requires OwnChild(m', t, level, k, leafy) == OwnChild(m, t, level, k, leafy) - gone + got
    requires gone <= OwnChild(m, t, level, k, leafy) && got !! Own(m, t, level, leafy)
    ensures IsTree(m', t, level, leafy) && Own(m', t, level, leafy) == Own(m, t, level, leafy) - gone + got
  {
    BelowReplaced(m, m', t, level, k, leafy, gone, got);
    forall i | 0 <= i < Width(level)
      ensures t !in OwnChild(m', t, level, i, leafy)
    {
      assert t !in OwnChild(m, t, level, i, leafy);
    }
    forall i, j | 0 <= i < j < Width(level)
      ensures OwnChild(m', t, level, i, leafy) !! OwnChild(m', t, level, j, leafy)
    {
      assert OwnChild(m, t, level, i, leafy) !! OwnChild(m, t, level, j, leafy);
      ChildOwned(m, t, level, i, leafy);
      ChildOwned(m, t, level, j, leafy);
    }
  }

  lemma FrontValid(level: nat, path: seq<nat>)
    requires path != [] && ValidPath(level, path)
    ensures ValidPath(level, path[..|path| - 1])
  {}

  /** The written entry is in this table. */
  lemma LinkHere(m: seq<nat>, m': seq<nat>, t: nat, level: nat, leafy: bool, k: nat, e: nat)
    requires level > 0 && k < Width(level) && IsTree(m, t, level, leafy)
    requires Linked(m, m', t, k, e, level - 1) && (Child(m, t, k) == 0 || level == 1)
    requires Frame(e) !in Own(m, t, level, leafy) && Frame(e) !in Own(m, t, level, false)
    ensures IsTree(m', t, level, leafy)
    ensures var gone := Dropped(m, t, k, level - 1, leafy);
            && gone <= Own(m, t, level, leafy)
            && Own(m', t, level, leafy) == Own(m, t, level, leafy) - gone + Gained(e, level - 1, leafy)
  {
    var f := Frame(e);
    var gone, got := Dropped(m, t, k, level - 1, leafy), Gained(e, level - 1, leafy);
    forall i | 0 <= i < Width(level) && i != k
      ensures OwnChild(m', t, level, i, leafy) == OwnChild(m, t, level, i, leafy)
      ensures Child(m', t, i) != 0 ==> IsTree(m', Child(m', t, i), level - 1, leafy)
    {
      Unshared(m, t, level, leafy, i, k);
      ChildOwned(m, t, level, i, false);
      Bystander(m, m', t, level, leafy, i, t, f);
    }
    if level > 1 { EmptyTable(m', f, level - 1, leafy); }
    assert OwnChild(m', t, level, k, leafy) == got;
    ChildOwned(m, t, level, k, leafy);
    Assemble(m, m', t, level, k, leafy, gone, got);
  }

  /** The written entry is in a table u below entry k, whose subtree is already repaired. */
  lemma LinkBelow(m: seq<nat>, m': seq<nat>, t: nat, level: nat, leafy: bool, k: nat, u: nat, f: nat,
                  gone: set<nat>, got: set<nat>)
    requires level > 0 && k < Width(level) && IsTree(m, t, level, leafy) && |m'| == |m| && Child(m, t, k) != 0
    requires u in OwnChild(m, t, level, k, false)
    requires forall p, j :: p != u && p != f && 0 <= j < 512 ==> Entry(m', p, j) == Entry(m, p, j)
    requires f !in Own(m, t, level, leafy) && f !in Own(m, t, level, false)
    requires IsTree(m', Child(m, t, k), level - 1, leafy)
    requires gone <= OwnChild(m, t, level, k, leafy) && got <= {f}
    requires Own(m', Child(m, t, k), level - 1, leafy) == OwnChild(m, t, level, k, leafy) - gone + got
    ensures IsTree(m', t, level, leafy) && Child(m', t, k) == Child(m, t, k)
    ensures gone <= Own(m, t, level, leafy) && Own(m', t, level, leafy) == Own(m, t, level, leafy) - gone + got
  {
    ChildOwned(m, t, level, k, leafy);
    Unshared(m, t, level, leafy, k, if k == 0 then 1 else 0);
    assert t != u && t != f;
    forall i | 0 <= i < Width(level) && i != k
      ensures OwnChild(m', t, level, i, leafy) == OwnChild(m, t, level, i, leafy)
      ensures Child(m', t, i) != 0 ==> IsTree(m', Child(m', t, i), level - 1, leafy)
    {
      Unshared(m, t, level, leafy, k, i);
      Unshared(m, t, level, leafy, i, k);
      ChildOwned(m, t, level, i, false);
      Bystander(m, m', t, level, leafy, i, u, f);
    }
    Assemble(m, m', t, level, k, leafy, gone, got);
  }

  /** Writing one entry, as set_page_mapping does, keeps the tree unshared and changes
      what it owns by exactly the page named. */
  lemma {:induction false} LinkTree(m: seq<nat>, m': seq<nat>, t: nat, level: nat, leafy: bool, path: seq<nat>, u: nat, e: nat)
    requires path != [] && ValidPath(level, path) && IsTree(m, t, level, leafy)
    requires var last := path[|path| - 1];
             && Reaches(m, t, path[..|path| - 1], u)
             && Linked(m, m', u, last, e, level - |path|)
             && (Child(m, u, last) == 0 || |path| == level)
    requires Frame(e) !in Own(m, t, level, leafy) && Frame(e) !in Own(m, t, level, false)
    ensures IsTree(m', t, level, leafy) && (|path| < level ==> Reaches(m', t, path, Frame(e)))
    ensures var gone := Dropped(m, u, path[|path| - 1], level - |path|, leafy);
            && gone <= Own(m, t, level, leafy)
            && Own(m', t, level, leafy) == Own(m, t, level, leafy) - gone + Gained(e, level - |path|, leafy)
    decreases level
  {
    var k, rest := path[0], path[1..];
    TailValid(level, path);
    if |path| == 1 {
      LinkHere(m, m', t, level, leafy, k, e);
      assert rest == [];
    } else {
      var c := Child(m, t, k);
      assert path[..|path| - 1][1..] == rest[..|rest| - 1];
      FrontValid(level - 1, rest);
      ReachOwned(m, c, level - 1, rest[..|rest| - 1], u);
      ChildOwned(m, t, level, k, false);
      ChildOwned(m, t, level, k, leafy);
      LinkTree(m, m', c, level - 1, leafy, rest, u, e);
      LinkBelow(m, m', t, level, leafy, k, u, Frame(e),
                Dropped(m, u, path[|path| - 1], level - |path|, leafy), Gained(e, level - |path|, leafy));
    }
  }

  /** Writing an entry of the table at hand. */
  lemma LinkHereTranslate(m: seq<nat>, m': seq<nat>, t: nat, level: nat, k: nat, e: nat, q: seq<nat>)
    requires |q| == level > 0 && ValidPath(level, q) && IsTree(m, t, level, false)
    requires Linked(m, m', t, k, e, level - 1) && (Child(m, t, k) == 0 || level == 1)
    requires Frame(e) !in Own(m, t, level, false)
    ensures q[0] != k ==> Translate(m', t, level, q) == Translate(m, t, level, q)
    ensures q[0] == k && level == 1 ==> Translate(m', t, level, q) == Mapped(1, e)
    ensures q[0] == k && level > 1 ==> Translate(m, t, level, q) == Unmapped && Translate(m', t, level, q) == Unmapped
  {
    TailValid(level, q);
    ChildOwned(m, t, level, q[0], false);
    if q[0] != k && Child(m, t, q[0]) != 0 {
      TranslateFrame(m, m', Child(m, t, q[0]), level - 1, q[1..]);
    }
  }

  /** Writing one entry changes only the paths through it. */
  lemma {:induction false} LinkTranslate(m: seq<nat>, m': seq<nat>, t: nat, level: nat, path: seq<nat>, u: nat, e: nat, q: seq<nat>)
    requires path != [] && ValidPath(level, path) && |q| == level && ValidPath(level, q)
    requires IsTree(m, t, level, false)
    requires Reaches(m, t, path[..|path| - 1], u)
    requires Linked(m, m', u, path[|path| - 1], e, level - |path|)
    requires Child(m, u, path[|path| - 1]) == 0 || |path| == level
    requires Frame(e) !in Own(m, t, level, false)
    ensures !(path <= q) ==> Translate(m', t, level, q) == Translate(m, t, level, q)
    ensures path <= q && |path| == level ==> Translate(m', t, level, q) == Mapped(1, e)
    ensures path <= q && |path| < level ==>
              Translate(m, t, level, q) == Unmapped && Translate(m', t, level, q) == Unmapped
    decreases level
  {
    var k, rest := path[0], path[1..];
    TailValid(level, path);
    TailValid(level, q);
    ChildOwned(m, t, level, q[0], false);
    if |path| == 1 {
      LinkHereTranslate(m, m', t, level, k, e, q);
      assert path <= q <==> q[0] == k;
    } else {
      var c := Child(m, t, k);
      assert path[..|path| - 1][1..] == rest[..|rest| - 1];
      FrontValid(level - 1, rest);
      ReachOwned(m, c, level - 1, rest[..|rest| - 1], u);
      ChildOwned(m, t, level, k, false);
      assert t != u;
      assert Entry(m', t, q[0]) == Entry(m, t, q[0]);
      if q[0] == k {
        LinkTranslate(m, m', c, level - 1, rest, u, e, q[1..]);
        assert path <= q <==> rest <= q[1..] by { PrefixTail(path, q); }
      } else {
        ElsewhereTranslate(m, m', t, level, k, u, Frame(e), q);
      }
    }
  }

  /** Through another entry of t nothing leads to the table written. */
  lemma ElsewhereTranslate(m: seq<nat>, m': seq<nat>, t: nat, level: nat, k: nat, u: nat, f: nat, q: seq<nat>)
    requires level > 0 && |q| == level && ValidPath(level, q) && IsTree(m, t, level, false)
    requires k < Width(level) && q[0] != k && u in OwnChild(m, t, level, k, false)
    requires |m'| == |m| && Entry(m', t, q[0]) == Entry(m, t, q[0]) && f !in Own(m, t, level, false)
    requires forall p, j :: p != u && p != f && 0 <= j < 512 ==> Entry(m', p, j) == Entry(m, p, j)
    ensures Translate(m', t, level, q) == Translate(m, t, level, q)
  {
    TailValid(level, q);
    Unshared(m, t, level, false, k, q[0]);
    ChildOwned(m, t, level, q[0], false);
    if Child(m, t, q[0]) != 0 {
      TranslateFrame(m, m', Child(m, t, q[0]), level - 1, q[1..]);
    }
  }

  lemma PrefixTail(p: seq<nat>, q: seq<nat>)
    requires p != [] && q != [] && p[0] == q[0]
    ensures p <= q <==> p[1..] <= q[1..]
  {
    if p[1..] <= q[1..] {
      assert forall i :: 0 < i < |p| ==> p[i] == p[1..][i - 1] && q[i] == q[1..][i - 1];
    }
  }

  /** Every table that entries lo and up of t lead to lies in s. */
  ghost predicate TablesIn(m: seq<nat>, t: nat, level: nat, lo: nat, s: set<nat>)
    decreases level
  {
    forall i :: lo <= i < 512 && level > 1 && Present(Entry(m, t, i)) && !Large(Entry(m, t, i), level) ==>
      Child(m, t, i) in s && TablesIn(m, Child(m, t, i), level - 1, 0, s)
  }

  /** Translation through those entries depends on s and the entries only. */
  lemma {:induction false} TablesInFrame(m: seq<nat>, m': seq<nat>, t: nat, level: nat, lo: nat, s: set<nat>, q: seq<nat>)
    requires TablesIn(m, t, level, lo, s) && Agree(m, m', s)
    requires forall i :: lo <= i < 512 ==> Entry(m', t, i) == Entry(m, t, i)
    requires |q| == level && (forall k :: 0 <= k < level ==> q[k] < 512) && (level > 0 ==> lo <= q[0])
    ensures Translate(m', t, level, q) == Translate(m, t, level, q)
    decreases level
  {
    if level > 1 {
      var e := Entry(m, t, q[0]);
      if Present(e) && !Large(e, level) {
        TablesInFrame(m, m', Frame(e), level - 1, 0, s, q[1..]);
      }
    }
  }

  /** Tables missing on the way down a path. */
  function Missing(m: seq<nat>, t: nat, level: nat, path: seq<nat>): nat
    requires |path| == level
    decreases level
  {
    if level <= 1 then 0
    else if Child(m, t, path[0]) == 0 then level - 1
    else Missing(m, Child(m, t, path[0]), level - 1, path[1..])
  }

  lemma {:induction false} TablesInKept(m: seq<nat>, m': seq<nat>, t: nat, level: nat, lo: nat, s: set<nat>)
    requires TablesIn(m, t, level, lo, s) && Agree(m, m', s)
    requires forall i :: lo <= i < 512 ==> Entry(m', t, i) == Entry(m, t, i)
    ensures TablesIn(m', t, level, lo, s)
    decreases level
  {
    forall i | lo <= i < 512 && level > 1 && Present(Entry(m, t, i)) && !Large(Entry(m, t, i), level)
      ensures TablesIn(m', Child(m', t, i), level - 1, 0, s)
    {
      TablesInKept(m, m', Child(m, t, i), level - 1, 0, s);
    }
  }

  /** Forgetting the data pages leaves a tree of tables. */
  lemma {:induction false} TreeOfTables(m: seq<nat>, t: nat, level: nat)
    requires IsTree(m, t, level, true)
    ensures IsTree(m, t, level, false)
    decreases level
  {
    if level > 0 {
      forall i | 0 <= i < Width(level)
        ensures OwnChild(m, t, level, i, false) <= OwnChild(m, t, level, i, true)
        ensures Child(m, t, i) != 0 ==> IsTree(m, Child(m, t, i), level - 1, false)
      {
        if Child(m, t, i) != 0 {
          OwnTables(m, Child(m, t, i), level - 1);
          TreeOfTables(m, Child(m, t, i), level - 1);
        }
      }
      forall i, j | 0 <= i < j < Width(level)
        ensures OwnChild(m, t, level, i, false) !! OwnChild(m, t, level, j, false)
      {
        assert OwnChild(m, t, level, i, true) !! OwnChild(m, t, level, j, true);
      }
    }
  }
}
