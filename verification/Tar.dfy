/** Extraction of a tar archive (section 10.1.1 of POSIX.1-1990) into the file tree. */
module Tar {
  import opened Bytes
  import CStrings
  import opened Options
  import opened Vfs
  import Ramfs
  import Words

  const BLOCK: nat := 512
  const DIRECTORY_FLAG: byte := 53 // '5'

  datatype Member = Member(name: seq<byte>, isDirectory: bool, data: seq<byte>)

  /** Blocks that a member takes: its header and its data, rounded up. */
  function Blocks(size: nat): nat { 1 + size / BLOCK + (if size % BLOCK != 0 then 1 else 0) }

  /** A header block for m: its name with a NUL after it, its size in eleven octal digits
      and its type flag; the other fields may hold anything. */
  ghost predicate HeaderOf(archive: seq<byte>, at: nat, m: Member) {
    && at + BLOCK <= |archive| && 0 < |m.name| < 100 && 0 !in m.name
    && archive[at..at + |m.name|] == m.name && archive[at + |m.name|] == 0
    && CStrings.AllOctal(archive[at + 124..at + 135])
    && CStrings.Octal(archive[at + 124..at + 135]) == |m.data| < Words.B64 && !CStrings.IsOctal(archive[at + 135])
    && (archive[at + 156] == DIRECTORY_FLAG <==> m.isDirectory)
  }

  predicate AllZero(field: seq<byte>) { forall i :: 0 <= i < |field| ==> field[i] == 0 }

  ghost predicate EndOfArchive(archive: seq<byte>, at: nat) {
    at + 136 <= |archive| && AllZero(archive[at + 124..at + 136])
  }

  /** The members follow one another from a position on; after the last, a size field of
      zeros ends the archive. */
  ghost predicate Holds(archive: seq<byte>, at: nat, ms: seq<Member>)
    decreases |ms|
  {
    if ms == [] then EndOfArchive(archive, at)
    else
      && HeaderOf(archive, at, ms[0])
      && at + BLOCK + |ms[0].data| <= |archive|
      && archive[at + BLOCK..at + BLOCK + |ms[0].data|] == ms[0].data
      && Holds(archive, at + BLOCK * Blocks(|ms[0].data|), ms[1..])
  }

  // ---- what extraction should do

  /** The path without one trailing slash. */
  function Strip(name: seq<byte>): seq<byte> {
    if name != [] && name[|name| - 1] == SLASH then name[..|name| - 1] else name
  }

  /** A name as tar writes a directory's, with one slash behind it, stands for what is before
      the slash; every other name for itself. */
  lemma StripOne(name: seq<byte>)
    ensures Strip(name + ['/' as byte]) == name
    ensures name == [] || name[|name| - 1] != '/' as byte ==> Strip(name) == name
  {
    assert (name + ['/' as byte])[..|name|] == name;
  }

  function NodeOf(m: Member): Node {
    if m.isDirectory then Directory([]) else Regular(Ramfs.FileState([], 0).Write(0, m.data))
  }

  function ExtractOne(nodes: seq<Node>, m: Member): (r: Option<seq<Node>>)
    requires Valid(nodes)
    ensures r.Some? ==> Valid(r.value)
  {
    var place := Resolved(nodes, Strip(m.name));
    if !place.Missing? then None
    else
      MissingPlace(nodes, 0, 0, Names(Strip(m.name)), Trailing(Strip(m.name)));
      AddedValid(nodes, place.directory, place.name, NodeOf(m));
      Some(Added(nodes, place.directory, place.name, NodeOf(m)))
  }

  /** None where the kernel panics. */
  function ExtractAll(nodes: seq<Node>, ms: seq<Member>): Option<seq<Node>>
    requires Valid(nodes)
    decreases |ms|
  {
    if ms == [] then Some(nodes)
    else
      var next := ExtractOne(nodes, ms[0]);
      if next.None? then None else ExtractAll(next.value, ms[1..])
  }

  // ---- the extraction loop

  lemma {:induction false} NamesAreParts(path: seq<byte>, i: nat)
    requires i <= |path|
    ensures forall k, b :: 0 <= k < |NamesFrom(path, i)| && b in NamesFrom(path, i)[k] ==> b in path
    decreases |path| - i
  {
    var j := SkipSlashes(path, i);
    if j < |path| { NamesAreParts(path, NameEnd(path, j)); }
  }

  /** The last name of every path fits a directory entry. */
  ghost predicate NamesFit(ms: seq<Member>) {
    forall m :: m in ms ==>
      var names := Names(Strip(m.name));
      names != [] ==> |names[|names| - 1]| <= MAX_NAME
  }

  /** Steps of one header: the member's name, size and flag as the code reads them. */
  method ReadHeader(archive: seq<byte>, at: nat, ghost m: Member) returns (name: seq<byte>, size: nat, isDirectory: bool)
    requires HeaderOf(archive, at, m)
    ensures name == Strip(m.name) && size == |m.data| && isDirectory == m.isDirectory
  {
    var field := archive[at + 124..];
    assert field[..11] == archive[at + 124..at + 135] && field[11] == archive[at + 135];
    var digits, value := CStrings.ParseOct(field);
    CStrings.OneEnd(field, digits, 11);
    size := value;
    assert archive[at..][..|m.name|] == m.name && archive[at..][|m.name|] == 0;
    var length := CStrings.StrLen(archive[at..]);
    CStrings.OneEnd(archive[at..], length, |m.name|);
    name := archive[at..][..length];
    if name[length - 1] == SLASH {
      name := name[..length - 1];
    }
    isDirectory := archive[at + 156] == DIRECTORY_FLAG;
  }

  lemma PlaceFits(nodes: seq<Node>, m: Member)
    requires Valid(nodes) && NamesFit([m]) && 0 !in m.name && Resolved(nodes, Strip(m.name)).Missing?
    ensures var place := Resolved(nodes, Strip(m.name));
            && place.directory < |nodes| && nodes[place.directory].Directory?
            && |place.name| <= MAX_NAME && 0 !in place.name
  {
    var name := Strip(m.name);
    MissingPlace(nodes, 0, 0, Names(name), Trailing(name));
    NamesAreParts(name, 0);
    assert m in [m];
    assert forall b :: b in name ==> b in m.name;
  }

  /** What the loop knows of its position. */
  ghost predicate Position(archive: seq<byte>, at: nat, ms: seq<Member>) {
    && Holds(archive, at, ms) && NamesFit(ms)
    && at + 136 <= |archive| && (ms == [] <==> AllZero(archive[at + 124..at + 136]))
  }

  lemma AtPosition(archive: seq<byte>, at: nat, ms: seq<Member>)
    requires Holds(archive, at, ms) && NamesFit(ms)
    ensures Position(archive, at, ms)
  {
    if ms != [] {
      assert archive[at + 124..at + 136][0] == archive[at + 124..at + 135][0];
    }
  }

  /** One turn of the loop; false where the kernel panics. */
  method ExtractMember(tree: FileTree, archive: seq<byte>, at: nat, ghost ms: seq<Member>) returns (ok: bool, next: nat)
    requires Valid(tree.nodes) && CNames(tree.nodes) && Position(archive, at, ms) && ms != []
    modifies tree
    ensures Valid(tree.nodes) && CNames(tree.nodes) && Position(archive, next, ms[1..])
    ensures ok <==> ExtractOne(old(tree.nodes), ms[0]).Some?
    ensures ok ==> tree.nodes == ExtractOne(old(tree.nodes), ms[0]).value
  {
    ghost var m := ms[0];
    var name, size, isDirectory := ReadHeader(archive, at, m);
    next := at + BLOCK * Blocks(size);
    AtPosition(archive, next, ms[1..]);
    var place := tree.Resolve(name);
    if !place.Missing? {
      return false, next;
    }
    assert NamesFit([m]) by { assert m in ms; }
    PlaceFits(tree.nodes, m);
    AddMember(tree, place.directory, place.name, isDirectory, archive[at + BLOCK..at + BLOCK + size], m);
    ok := true;
  }

  /** The directory or file itself. */
  method AddMember(tree: FileTree, directory: nat, name: seq<byte>, isDirectory: bool, data: seq<byte>, ghost m: Member)
    requires Valid(tree.nodes) && CNames(tree.nodes) && directory < |tree.nodes| && tree.nodes[directory].Directory?
    requires |name| <= MAX_NAME && 0 !in name && isDirectory == m.isDirectory && data == m.data
    modifies tree
    ensures tree.nodes == Added(old(tree.nodes), directory, name, NodeOf(m))
    ensures Valid(tree.nodes) && CNames(tree.nodes)
  {
    AddedValid(tree.nodes, directory, name, NodeOf(m));
    if isDirectory {
      var inode := tree.MkDir(directory, name);
    } else {
      var inode := tree.Create(directory, name);
      tree.Fill(inode, data);
    }
  }

  /** extract_tar_files; false where the kernel panics. */
  method Extract(tree: FileTree, archive: seq<byte>, ghost ms: seq<Member>) returns (ok: bool)
    requires Valid(tree.nodes) && CNames(tree.nodes) && Holds(archive, 0, ms) && NamesFit(ms)
    modifies tree
    ensures ok <==> ExtractAll(old(tree.nodes), ms).Some?
    ensures ok ==> tree.nodes == ExtractAll(old(tree.nodes), ms).value
  {
    var at: nat := 0;
    ghost var rest := ms;
    AtPosition(archive, at, rest);
    while !AllZero(archive[at + 124..at + 136])
      invariant Position(archive, at, rest)
      invariant Valid(tree.nodes) && CNames(tree.nodes)
      invariant ExtractAll(tree.nodes, rest) == ExtractAll(old(tree.nodes), ms)
      decreases |rest|
    {
      var done, next := ExtractMember(tree, archive, at, rest);
      if !done {
        return false;
      }
      at := next;
      rest := rest[1..];
    }
    ok := true;
  }

  // ---- extraction creates exactly the archive's members

  function PathOf(m: Member): seq<seq<byte>> { Names(Strip(m.name)) }

  ghost predicate IsDirectoryAt(nodes: seq<Node>, q: seq<seq<byte>>)
    requires Valid(nodes)
  {
    Reach(nodes, 0, q).Some? && nodes[Reach(nodes, 0, q).value].Directory?
  }

  /** Member i is new, and its directory is there or is an earlier member. */
  ghost predicate Placeable(nodes: seq<Node>, ms: seq<Member>, i: nat)
    requires Valid(nodes) && i < |ms|
  {
    var q := PathOf(ms[i]);
    && q != [] && !Trailing(Strip(ms[i].name)) && Reach(nodes, 0, q).None?
    && (forall j :: 0 <= j < i ==> PathOf(ms[j]) != q)
    && (IsDirectoryAt(nodes, q[..|q| - 1])
        || exists j :: 0 <= j < i && ms[j].isDirectory && PathOf(ms[j]) == q[..|q| - 1])
  }

  /** Paths are distinct and new, and parents come first. */
  ghost predicate WellFormed(nodes: seq<Node>, ms: seq<Member>)
    requires Valid(nodes)
  {
    forall i :: 0 <= i < |ms| ==> Placeable(nodes, ms, i)
  }

  predicate Matches(node: Node, m: Member) {
    if m.isDirectory then node.Directory?
    else node.Regular? && node.file.size == |m.data| <= |node.file.backing| && node.file.backing[..|m.data|] == m.data
  }

  predicate SameKind(a: Node, b: Node) {
    if a.Directory? then b.Directory? else a == b
  }

  /** Everything that was there is there still, and beside it exactly the members. */
  ghost predicate ExactlyAdds(nodes: seq<Node>, ms: seq<Member>, final: seq<Node>)
    requires Valid(nodes) && Valid(final)
  {
    && |nodes| <= |final|
    && (forall n :: 0 <= n < |nodes| ==> SameKind(nodes[n], final[n]))
    && (forall q :: Reach(nodes, 0, q).Some? ==> Reach(final, 0, q) == Reach(nodes, 0, q))
    && (forall q :: Reach(final, 0, q).Some? ==> Reach(nodes, 0, q).Some? || IsMember(ms, q))
    && (forall i :: 0 <= i < |ms| ==> Found(final, ms[i]))
  }

  ghost predicate IsMember(ms: seq<Member>, q: seq<seq<byte>>) {
    exists i :: 0 <= i < |ms| && PathOf(ms[i]) == q
  }

  ghost predicate Found(nodes: seq<Node>, m: Member)
    requires Valid(nodes)
  {
    Reach(nodes, 0, PathOf(m)).Some? && Matches(nodes[Reach(nodes, 0, PathOf(m)).value], m)
  }

  lemma NodeMatches(m: Member)
    ensures Matches(NodeOf(m), m) && Bare(NodeOf(m))
  {}

  /** One member of a well-formed list. */
  lemma ExtractFirst(nodes: seq<Node>, ms: seq<Member>)
    requires Valid(nodes) && Unshared(nodes) && ms != [] && Placeable(nodes, ms, 0)
    ensures ExtractOne(nodes, ms[0]).Some?
    ensures var next := ExtractOne(nodes, ms[0]).value;
            Unshared(next) && ExactlyAdds(nodes, [ms[0]], next)
  {
    var m := ms[0];
    var q := PathOf(m);
    var p, name := q[..|q| - 1], q[|q| - 1];
    assert q == p + [name];
    MissingWhen(nodes, 0, 0, p, name);
    var d := Reach(nodes, 0, p).value;
    NodeMatches(m);
    AddedValid(nodes, d, name, NodeOf(m));
    AddedUnshared(nodes, d, name, NodeOf(m));
    var next := Added(nodes, d, name, NodeOf(m));
    assert ExtractOne(nodes, m) == Some(next);
    forall r
      ensures Reach(nodes, 0, r).Some? ==> Reach(next, 0, r) == Reach(nodes, 0, r)
      ensures Reach(next, 0, r).Some? ==> Reach(nodes, 0, r).Some? || r == q
    {
      ReachAdded(nodes, d, name, NodeOf(m), 0, r);
      if Reach(nodes, 0, r).None? && Reach(next, 0, r).Some? {
        OnePath(nodes, r[..|r| - 1], p);
        assert r == r[..|r| - 1] + [r[|r| - 1]];
      }
    }
    ReachAdded(nodes, d, name, NodeOf(m), 0, q);
    assert Found(next, m);
    assert [m][0] == m;
    assert IsMember([m], q);
  }

  lemma OneMember(m: Member, q: seq<seq<byte>>)
    ensures IsMember([m], q) <==> PathOf(m) == q
  {
    assert PathOf([m][0]) == PathOf(m);
  }

  /** After the first member the rest of the list is well formed for the new tree. */
  lemma RestWellFormed(nodes: seq<Node>, ms: seq<Member>, next: seq<Node>)
    requires Valid(nodes) && Valid(next) && ms != [] && WellFormed(nodes, ms) && ExactlyAdds(nodes, [ms[0]], next)
    ensures WellFormed(next, ms[1..])
  {
    forall i | 0 <= i < |ms| - 1
      ensures Placeable(next, ms[1..], i)
    {
      RestPlaceable(nodes, ms, next, i);
    }
  }

  lemma RestPlaceable(nodes: seq<Node>, ms: seq<Member>, next: seq<Node>, i: nat)
    requires Valid(nodes) && Valid(next) && i + 1 < |ms| && Placeable(nodes, ms, i + 1) && ExactlyAdds(nodes, [ms[0]], next)
    ensures Placeable(next, ms[1..], i)
  {
    var q := PathOf(ms[i + 1]);
    var p := q[..|q| - 1];
    assert ms[1..][i] == ms[i + 1];
    forall j | 0 <= j < i
      ensures PathOf(ms[1..][j]) != q
    {
      assert ms[1..][j] == ms[j + 1];
    }
    OneMember(ms[0], q);
    if !IsDirectoryAt(nodes, p) {
      var j :| 0 <= j < i + 1 && ms[j].isDirectory && PathOf(ms[j]) == p;
      if j == 0 {
        assert [ms[0]][0] == ms[0] && Found(next, ms[0]);
      } else {
        assert ms[1..][j - 1] == ms[j];
      }
    }
  }

  /** A well-formed archive extracts without a panic, and creates exactly its directories
      and its files, with their contents. */
  lemma {:induction false} ExtractsExactly(nodes: seq<Node>, ms: seq<Member>)
    requires Valid(nodes) && Unshared(nodes) && WellFormed(nodes, ms)
    ensures ExtractAll(nodes, ms).Some?
    ensures var final := ExtractAll(nodes, ms).value;
            Valid(final) && Unshared(final) && ExactlyAdds(nodes, ms, final)
    decreases |ms|
  {
    if ms != [] {
      assert Placeable(nodes, ms, 0);
      ExtractFirst(nodes, ms);
      var next := ExtractOne(nodes, ms[0]).value;
      RestWellFormed(nodes, ms, next);
      ExtractsExactly(next, ms[1..]);
      Together(nodes, ms, next, ExtractAll(nodes, ms).value);
    }
  }

  lemma Together(nodes: seq<Node>, ms: seq<Member>, next: seq<Node>, final: seq<Node>)
    requires Valid(nodes) && Valid(next) && Valid(final) && ms != []
    requires ExactlyAdds(nodes, [ms[0]], next) && ExactlyAdds(next, ms[1..], final)
    ensures ExactlyAdds(nodes, ms, final)
  {
    forall q | Reach(final, 0, q).Some?
      ensures Reach(nodes, 0, q).Some? || IsMember(ms, q)
    {
      if Reach(next, 0, q).None? {
        var i :| 0 <= i < |ms[1..]| && PathOf(ms[1..][i]) == q;
        assert PathOf(ms[i + 1]) == q;
      } else if Reach(nodes, 0, q).None? {
        assert IsMember([ms[0]], q);
        assert PathOf(ms[0]) == q;
      }
    }
    forall i | 0 <= i < |ms|
      ensures Found(final, ms[i])
    {
      if i == 0 {
        assert [ms[0]][0] == ms[0] && Found(next, ms[0]);
      } else {
        assert ms[1..][i - 1] == ms[i];
      }
    }
  }

  /** From the bytes of an archive to the tree: well-formed archives extract exactly. */
  method ExtractArchive(tree: FileTree, archive: seq<byte>, ghost ms: seq<Member>) returns (ok: bool)
    requires Valid(tree.nodes) && CNames(tree.nodes) && Unshared(tree.nodes)
    requires Holds(archive, 0, ms) && NamesFit(ms) && WellFormed(tree.nodes, ms)
    modifies tree
    ensures ok && Valid(tree.nodes) && Unshared(tree.nodes) && ExactlyAdds(old(tree.nodes), ms, tree.nodes)
  {
    ExtractsExactly(tree.nodes, ms);
    ok := Extract(tree, archive, ms);
  }

  // ---- an archive for every list of members

  /** v in n octal digits. */
  function OctalDigits(v: nat, n: nat): (d: seq<byte>)
    ensures |d| == n && CStrings.AllOctal(d)
  {
    if n == 0 then [] else OctalDigits(v / 8, n - 1) + [(48 + v % 8) as byte]
  }

  lemma {:induction false} OctalOfDigits(v: nat, n: nat)
    requires v < Words.Pow2(3 * n)
    ensures CStrings.Octal(OctalDigits(v, n)) == v
  {
    if n > 0 {
      Words.Pow2Add(3, 3 * (n - 1));
      assert Words.Pow2(3) == 8;
      OctalOfDigits(v / 8, n - 1);
      assert OctalDigits(v, n)[..n - 1] == OctalDigits(v / 8, n - 1);
    }
  }

  lemma DivideByEight(v: nat, p: nat)
    requires p > 0
    ensures v / 8 / p == v / (8 * p)
  {
    Words.DivModDouble(v, 4 * p);
    Words.DivModDouble(v / 2, 2 * p);
    Words.DivModDouble(v / 4, p);
    assert v / 2 / 2 == v / 4 && v / 4 / 2 == v / 8;
  }

  /** The k-th of n octal digits, the first being the highest. */
  lemma {:induction false} OctalDigitAt(v: nat, n: nat, k: nat)
    requires k < n
    ensures OctalDigits(v, n)[k] as nat == 48 + v / Words.Pow2(3 * (n - 1 - k)) % 8
    decreases n
  {
    if k < n - 1 {
      var j := n - 2 - k;
      OctalDigitAt(v / 8, n - 1, k);
      Words.Pow2Add(3, 3 * j);
      assert Words.Pow2(3) == 8 && 3 + 3 * j == 3 * (n - 1 - k);
      DivideByEight(v, Words.Pow2(3 * j));
    } else {
      assert 3 * (n - 1 - k) == 0;
    }
  }

  /** What a header can hold: a C string of at most 99 bytes and a size of eleven digits. */
  ghost predicate Storable(m: Member) {
    0 < |m.name| < 100 && 0 !in m.name && |m.data| < Words.Pow2(33)
  }

  function Header(m: Member): (h: seq<byte>)
    requires Storable(m)
    ensures |h| == BLOCK
  {
    m.name + Repeat(0, 124 - |m.name|) + OctalDigits(|m.data|, 11) + Repeat(0, 21)
      + [if m.isDirectory then DIRECTORY_FLAG else 48] + Repeat(0, 355)
  }

  /** A member's blocks: header, data, and zeros to the end of the last block. */
  function BlocksOf(m: Member): (b: seq<byte>)
    requires Storable(m)
    ensures |b| == BLOCK * Blocks(|m.data|)
  {
    Header(m) + m.data + Repeat(0, BLOCK * Blocks(|m.data|) - BLOCK - |m.data|)
  }

  /** The blocks of each member, and two zero blocks. */
  function Serialise(ms: seq<Member>): seq<byte>
    requires forall m :: m in ms ==> Storable(m)
  {
    if ms == [] then Repeat(0, 2 * BLOCK) else BlocksOf(ms[0]) + Serialise(ms[1..])
  }

  /** A member's blocks byte by byte: the name padded with zeros to 100, the size in octal at
      124 to 134, the type at 156, the data from 512 on, and zeros to the next multiple of 512. */
  lemma BlockBytes(m: Member, i: nat)
    requires Storable(m) && i < |BlocksOf(m)|
    ensures |BlocksOf(m)| % 512 == 0 && 512 + |m.data| <= |BlocksOf(m)| < 512 + |m.data| + 512
    ensures i < 100 ==> BlocksOf(m)[i] == if i < |m.name| then m.name[i] else 0
    ensures 124 <= i < 135 ==> BlocksOf(m)[i] as nat == 48 + |m.data| / Words.Pow2(3 * (134 - i)) % 8
    ensures i == 156 ==> BlocksOf(m)[i] == if m.isDirectory then '5' as byte else '0' as byte
    ensures i >= 512 ==> BlocksOf(m)[i] == if i - 512 < |m.data| then m.data[i - 512] else 0
  {
    WholeBlocks(|m.data|);
    if i < 512 {
      assert BlocksOf(m)[i] == Header(m)[i];
      HeaderByte(m, i);
    } else {
      AfterHeader(Header(m), m.data, BLOCK * Blocks(|m.data|) - BLOCK - |m.data|, i - 512);
    }
  }

  lemma WholeBlocks(n: nat)
    ensures BLOCK * Blocks(n) % 512 == 0 && 512 + n <= BLOCK * Blocks(n) < 512 + n + 512
  {}

  lemma HeaderByte(m: Member, i: nat)
    requires Storable(m) && i < 512
    ensures i < 100 ==> Header(m)[i] == if i < |m.name| then m.name[i] else 0
    ensures 124 <= i < 135 ==> Header(m)[i] as nat == 48 + |m.data| / Words.Pow2(3 * (134 - i)) % 8
    ensures i == 156 ==> Header(m)[i] == if m.isDirectory then '5' as byte else '0' as byte
  {
    if 124 <= i < 135 {
      OctalDigitAt(|m.data|, 11, i - 124);
      assert Header(m)[i] == OctalDigits(|m.data|, 11)[i - 124];
    }
  }

  lemma AfterHeader(header: seq<byte>, data: seq<byte>, n: nat, k: nat)
    requires k < |data| + n
    ensures (header + data + Repeat(0, n))[|header| + k] == if k < |data| then data[k] else 0
  {}

  lemma HeaderHolds(archive: seq<byte>, at: nat, m: Member)
    requires Storable(m) && at + BLOCK <= |archive| && archive[at..at + BLOCK] == Header(m)
    ensures HeaderOf(archive, at, m)
  {
    var h := Header(m);
    HeaderFields(m, h);
    SliceOfSlice(archive, at, at + BLOCK, at, at + |m.name|);
    SliceOfSlice(archive, at, at + BLOCK, at + 124, at + 135);
    assert archive[at + |m.name|] == h[|m.name|] && archive[at + 135] == h[135] && archive[at + 156] == h[156];
  }

  lemma HeaderFields(m: Member, h: seq<byte>)
    requires Storable(m) && h == Header(m)
    ensures h[0..|m.name|] == m.name && h[|m.name|] == 0
    ensures h[124..135] == OctalDigits(|m.data|, 11) && CStrings.Octal(h[124..135]) == |m.data| < Words.B64
    ensures h[135] == 0 && (h[156] == DIRECTORY_FLAG <==> m.isDirectory)
  {
    assert h[124..135] == OctalDigits(|m.data|, 11);
    assert 3 * 11 == 33;
    OctalOfDigits(|m.data|, 11);
    Words.Pow2Mono(33, 64);
    Words.Pow2Values();
  }

  lemma BlocksHold(archive: seq<byte>, front: seq<byte>, m: Member, rest: seq<byte>)
    requires Storable(m) && archive == front + BlocksOf(m) + rest
    ensures var at := |front|;
            && HeaderOf(archive, at, m) && at + BLOCK + |m.data| <= |archive|
            && archive[at + BLOCK..at + BLOCK + |m.data|] == m.data
  {
    var at, blocks := |front|, BlocksOf(m);
    assert archive[at..at + |blocks|] == blocks;
    assert archive[at..at + BLOCK] == blocks[..BLOCK] == Header(m);
    assert archive[at + BLOCK..at + BLOCK + |m.data|] == blocks[BLOCK..BLOCK + |m.data|] == m.data;
    HeaderHolds(archive, at, m);
  }

  lemma EndHolds(front: seq<byte>)
    ensures EndOfArchive(front + Repeat(0, 2 * BLOCK), |front|)
  {
    var (archive, at) := (front + Repeat(0 as byte, 2 * BLOCK), |front|);
    assert forall i :: at <= i < |archive| ==> archive[i] == 0;
  }

  /** The serialisation of any storable members is an archive of them. */
  lemma {:induction false} SerialisedHolds(archive: seq<byte>, front: seq<byte>, ms: seq<Member>)
    requires (forall m :: m in ms ==> Storable(m)) && archive == front + Serialise(ms)
    ensures Holds(archive, |front|, ms)
    decreases |ms|
  {
    if ms == [] {
      EndHolds(front);
    } else {
      var next, rest := front + BlocksOf(ms[0]), Serialise(ms[1..]);
      Regroup(front, BlocksOf(ms[0]), rest);
      BlocksHold(archive, front, ms[0], rest);
      SerialisedHolds(archive, next, ms[1..]);
      assert |next| == |front| + BLOCK * Blocks(|ms[0].data|);
    }
  }

  lemma Regroup(a: seq<byte>, b: seq<byte>, c: seq<byte>)
    ensures a + (b + c) == a + b + c
  {}

  /** Serialising a well-formed list and extracting it creates exactly that list. */
  method ExtractSerialised(tree: FileTree, ghost ms: seq<Member>, archive: seq<byte>) returns (ok: bool)
    requires Valid(tree.nodes) && CNames(tree.nodes) && Unshared(tree.nodes)
    requires (forall m :: m in ms ==> Storable(m)) && NamesFit(ms) && WellFormed(tree.nodes, ms)
    requires archive == Serialise(ms)
    modifies tree
    ensures ok && Valid(tree.nodes) && ExactlyAdds(old(tree.nodes), ms, tree.nodes)
  {
    assert archive == [] + Serialise(ms);
    SerialisedHolds(archive, [], ms);
    ok := ExtractArchive(tree, archive, ms);
  }
}
