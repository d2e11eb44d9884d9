/** What paths mean: names behind slashes, and how a lookup's outcome depends on where they lead. */
module PathNames {
  import opened Bytes
  import opened Options
  import opened Vfs

  /** Names, each behind a number of slashes, and slashes at the end. */
  function Slashed(names: seq<seq<byte>>, slashes: seq<nat>, last: nat): seq<byte>
    requires |slashes| == |names|
  {
    if names == [] then Repeat(47, last)
    else Repeat(47, slashes[0]) + (names[0] + Slashed(names[1..], slashes[1..], last))
  }

  ghost predicate Proper(names: seq<seq<byte>>) {
    forall k :: 0 <= k < |names| ==> names[k] != [] && 47 !in names[k]
  }

  lemma {:induction false} EndIs(path: seq<byte>, i: nat, end: nat)
    requires i <= end <= |path| && forall k :: i <= k < end ==> path[k] != 47
    requires end < |path| ==> path[end] == 47
    ensures NameEnd(path, i) == end
    decreases end - i
  {
    if i < end { EndIs(path, i + 1, end); }
  }

  lemma NameAt(path: seq<byte>, i: nat, start: nat, end: nat)
    requires i <= start < end <= |path| && 47 !in path[start..end]
    requires forall k :: i <= k < start ==> path[k] == 47
    requires end < |path| ==> path[end] == 47
    ensures SkipSlashes(path, i) == start && NameEnd(path, start) == end
  {
    forall k | start <= k < end
      ensures path[k] != 47
    {
      assert path[k] == path[start..end][k - start];
    }
    EndIs(path, start, end);
  }

  lemma Parts(path: seq<byte>, i: nat, a: seq<byte>, b: seq<byte>, c: seq<byte>)
    requires i <= |path| && path[i..] == a + (b + c)
    ensures i + |a| + |b| <= |path|
    ensures path[i + |a|..i + |a| + |b|] == b && path[i + |a| + |b|..] == c
    ensures forall k :: i <= k < i + |a| ==> path[k] == a[k - i]
    ensures c != [] ==> i + |a| + |b| < |path| && path[i + |a| + |b|] == c[0]
  {
    var t := path[i..];
    assert t[|a|..|a| + |b|] == b && t[|a| + |b|..] == c;
    forall k | i <= k < i + |a|
      ensures path[k] == a[k - i]
    {
      assert path[k] == t[k - i];
    }
  }

  /** The first name of such a path, and what follows it. */
  lemma FirstName(path: seq<byte>, i: nat, start: nat, end: nat, name: seq<byte>)
    requires i <= start < end <= |path| && path[start..end] == name && 47 !in name
    requires forall k :: i <= k < start ==> path[k] == 47
    requires end < |path| ==> path[end] == 47
    ensures NamesFrom(path, i) == [name] + NamesFrom(path, end)
  {
    NameAt(path, i, start, end);
    OneName(path, i);
  }

  lemma {:induction false} NamesBehind(path: seq<byte>, i: nat, names: seq<seq<byte>>, slashes: seq<nat>, last: nat)
    requires i <= |path| && Proper(names) && |slashes| == |names|
    requires forall k :: 0 < k < |names| ==> slashes[k] > 0
    requires path[i..] == Slashed(names, slashes, last)
    ensures NamesFrom(path, i) == names
    decreases |names|
  {
    if names == [] {
      OnlySlashesLeft(path, i, last);
    } else {
      var rest: seq<byte> := Slashed(names[1..], slashes[1..], last);
      StartsWithSlash(names[1..], slashes[1..], last);
      var start: nat, end: nat := i + slashes[0], i + slashes[0] + |names[0]|;
      Parts(path, i, Repeat(47, slashes[0]), names[0], rest);
      FirstName(path, i, start, end, names[0]);
      NamesBehind(path, end, names[1..], slashes[1..], last);
    }
  }

  lemma OnlySlashesLeft(path: seq<byte>, i: nat, last: nat)
    requires i <= |path| && path[i..] == Repeat(47, last)
    ensures NamesFrom(path, i) == []
  {
    assert forall k :: i <= k < |path| ==> path[k] == path[i..][k - i];
    assert SkipSlashes(path, i) == |path|;
  }

  lemma StartsWithSlash(names: seq<seq<byte>>, slashes: seq<nat>, last: nat)
    requires |slashes| == |names| && (names != [] ==> slashes[0] > 0)
    ensures var s := Slashed(names, slashes, last); s != [] ==> s[0] == 47
  {}

  lemma {:induction false} SlashedEnd(names: seq<seq<byte>>, slashes: seq<nat>, last: nat)
    requires Proper(names) && |slashes| == |names| && names != []
    ensures var p := Slashed(names, slashes, last); p != [] && (p[|p| - 1] == 47 <==> last > 0)
  {
    var rest: seq<byte> := Slashed(names[1..], slashes[1..], last);
    if |names| > 1 {
      SlashedEnd(names[1..], slashes[1..], last);
    } else {
      assert rest == Repeat(47, last);
      assert names[0][|names[0]| - 1] in names[0];
    }
    LastOf(Repeat(47, slashes[0]), names[0], rest);
  }

  lemma LastOf(a: seq<byte>, b: seq<byte>, c: seq<byte>)
    requires b != []
    ensures var p := a + (b + c); p[|p| - 1] == if c != [] then c[|c| - 1] else b[|b| - 1]
  {}

  /** Names behind any number of slashes, at least one from the second name on, are the path's
      names; slashes at its end are noticed and change none of them. */
  lemma NamesOfPath(names: seq<seq<byte>>, slashes: seq<nat>, last: nat)
    requires Proper(names) && names != [] && |slashes| == |names|
    requires forall k :: 0 < k < |names| ==> slashes[k] > 0
    ensures var path := Slashed(names, slashes, last);
            Names(path) == names && (Trailing(path) <==> last > 0)
  {
    var path := Slashed(names, slashes, last);
    assert path[0..] == path;
    NamesBehind(path, 0, names, slashes, last);
    SlashedEnd(names, slashes, last);
  }

  /** Every path has such a list of names. */
  lemma {:induction false} NamesAreProper(path: seq<byte>, i: nat)
    requires i <= |path|
    ensures Proper(NamesFrom(path, i))
    decreases |path| - i
  {
    var start := SkipSlashes(path, i);
    if start < |path| { NamesAreProper(path, NameEnd(path, start)); }
  }

  // ---- where names lead

  /** One name leads to what its first entry stands for: the inode mounted there, if any, else
      the entry's own. */
  lemma {:induction false} EntryLeads(entries: seq<Entry>, i: nat)
    requires i < |entries| && forall j :: 0 <= j < i ==> entries[j].name != entries[i].name
    ensures Find(entries, entries[i].name) == Some(entries[i])
    ensures entries[i].Target() == match entries[i].mounted case Some(root) => root case None => entries[i].inode
  {
    if i > 0 { EntryLeads(entries[1..], i - 1); }
  }

  /** A list of names leads to an inode whose being a directory is as given. */
  ghost predicate Leads(nodes: seq<Node>, names: seq<seq<byte>>, directory: bool)
    requires Valid(nodes)
  {
    var r := Reach(nodes, 0, names);
    r.Some? && nodes[r.value].Directory? == directory
  }

  lemma {:induction false} ReachPrefix(nodes: seq<Node>, at: nat, names: seq<seq<byte>>, k: nat)
    requires Valid(nodes) && at < |nodes| && k <= |names|
    ensures var d := Reach(nodes, at, names[..k]);
            Reach(nodes, at, names) == if d.None? then None else Reach(nodes, d.value, names[k..])
    decreases k
  {
    if k > 0 && nodes[at].Directory? {
      var e := Find(nodes[at].entries, names[0]);
      assert names[..k][0] == names[0] && names[..k][1..] == names[1..][..k - 1] && names[1..][k - 1..] == names[k..];
      if e.Some? {
        FindIn(nodes[at].entries, names[0]);
        ReachPrefix(nodes, e.value.Target(), names[1..], k - 1);
      }
    } else if k == 0 {
      assert names[..0] == [] && names[0..] == names;
    }
  }

  /** The place where a walk stops: the first k names lead to a directory without the next. */
  ghost predicate StopsAt(nodes: seq<Node>, names: seq<seq<byte>>, k: nat)
    requires Valid(nodes)
  {
    k < |names| && Leads(nodes, names[..k], true) && Reach(nodes, 0, names[..k + 1]).None?
  }

  /** The outcome of a lookup, in terms of where the path's names lead:
      an inode, when they lead there and a slash at the end follows a directory;
      a missing last name, when only that is missing and no slash follows;
      no such directory, when another name is missing, or the last one before a slash;
      not a directory, when a name, or a slash at the end, follows something else. */
  ghost predicate Outcome(nodes: seq<Node>, names: seq<seq<byte>>, slash: bool, r: Lookup)
    requires Valid(nodes)
  {
    match r
    case Exists(inode, parent) =>
      && Reach(nodes, 0, names) == Some(inode) && (slash ==> Leads(nodes, names, true))
      && (if names == [] then parent == 0 else Reach(nodes, 0, names[..|names| - 1]) == Some(parent))
    case Missing(d, name) =>
      && names != [] && !slash && StopsAt(nodes, names, |names| - 1)
      && Reach(nodes, 0, names[..|names| - 1]) == Some(d) && name == names[|names| - 1]
    case NoSuchDirectory => exists k: nat :: StopsAt(nodes, names, k) && (k + 1 < |names| || slash)
    case NotADirectory => (exists k: nat :: FollowsOther(nodes, names, k)) || (slash && Leads(nodes, names, false))
  }

  ghost predicate FollowsOther(nodes: seq<Node>, names: seq<seq<byte>>, k: nat)
    requires Valid(nodes)
  {
    k < |names| && Leads(nodes, names[..k], false)
  }

  /** Every lookup has the outcome it should. */
  lemma ResolvedOutcome(nodes: seq<Node>, path: seq<byte>)
    requires Valid(nodes)
    ensures Outcome(nodes, Names(path), Trailing(path), Resolved(nodes, path))
  {
    var names := Names(path);
    assert names[0..] == names && names[..0] == [];
    WalkOutcome(nodes, names, 0, 0, 0, Trailing(path));
  }

  lemma Unreached(nodes: seq<Node>, names: seq<seq<byte>>, k: nat, j: nat)
    requires Valid(nodes) && k <= j <= |names| && Reach(nodes, 0, names[..k]).None?
    ensures Reach(nodes, 0, names[..j]).None?
  {
    assert names[..j][..k] == names[..k];
    ReachPrefix(nodes, 0, names[..j], k);
  }

  /** A list of names breaks off behind something that is no directory. */
  lemma OtherBreaks(nodes: seq<Node>, names: seq<seq<byte>>, k: nat, j: nat)
    requires Valid(nodes) && FollowsOther(nodes, names, k) && k < j <= |names|
    ensures Reach(nodes, 0, names[..j]).None?
  {
    assert names[..k + 1] == names[..k] + [names[k]];
    ReachSnoc(nodes, 0, names[..k], names[k]);
    Unreached(nodes, names, k + 1, j);
  }

  /** Only one outcome fits, so the lookup has it exactly when it fits. */
  lemma OneOutcome(nodes: seq<Node>, names: seq<seq<byte>>, slash: bool, r: Lookup, t: Lookup)
    requires Valid(nodes) && Outcome(nodes, names, slash, r) && Outcome(nodes, names, slash, t)
    ensures r == t
  {
    var n := |names|;
    assert names[..n] == names;
    if exists k: nat :: FollowsOther(nodes, names, k) {
      var k: nat :| FollowsOther(nodes, names, k);
      OtherBreaks(nodes, names, k, n);
      NotStopped(nodes, names, k);
      assert forall j: nat :: !StopsAt(nodes, names, j);
    }
    if exists j: nat :: StopsAt(nodes, names, j) {
      var j: nat :| StopsAt(nodes, names, j);
      Unreached(nodes, names, j + 1, n);
      forall k: nat | StopsAt(nodes, names, k)
        ensures k == j
      {
        StopsOnce(nodes, names, j, k);
        StopsOnce(nodes, names, k, j);
      }
    }
  }

  lemma StopsOnce(nodes: seq<Node>, names: seq<seq<byte>>, j: nat, k: nat)
    requires Valid(nodes) && StopsAt(nodes, names, j) && StopsAt(nodes, names, k)
    ensures j >= k
  {
    if j < k { Unreached(nodes, names, j + 1, k); }
  }

  lemma NotStopped(nodes: seq<Node>, names: seq<seq<byte>>, k: nat)
    requires Valid(nodes) && FollowsOther(nodes, names, k)
    ensures forall j: nat :: !StopsAt(nodes, names, j)
  {
    forall j: nat
      ensures !StopsAt(nodes, names, j)
    {
      if StopsAt(nodes, names, j) {
        if j < k { Unreached(nodes, names, j + 1, k); } else if k < j { OtherBreaks(nodes, names, k, j); }
      }
    }
  }

  /** The walk from the place that the first k names lead to. */
  lemma {:induction false} WalkOutcome(nodes: seq<Node>, names: seq<seq<byte>>, k: nat, at: nat, parent: nat, slash: bool)
    requires Valid(nodes) && k <= |names| && at < |nodes| && Reach(nodes, 0, names[..k]) == Some(at)
    requires if k == 0 then parent == 0 else Reach(nodes, 0, names[..k - 1]) == Some(parent)
    ensures Outcome(nodes, names, slash, Walk(nodes, at, parent, names[k..], slash))
    decreases |names| - k
  {
    assert names[..|names|] == names;
    if k == |names| {
    } else if !nodes[at].Directory? {
      assert FollowsOther(nodes, names, k);
    } else {
      assert names[k..][0] == names[k] && names[k..][1..] == names[k + 1..] && names[..k + 1] == names[..k] + [names[k]];
      ReachSnoc(nodes, 0, names[..k], names[k]);
      FindIn(nodes[at].entries, names[k]);
      var e := Find(nodes[at].entries, names[k]);
      if e.None? {
        assert StopsAt(nodes, names, k);
      } else {
        WalkOutcome(nodes, names, k + 1, e.value.Target(), at, slash);
      }
    }
  }
}
