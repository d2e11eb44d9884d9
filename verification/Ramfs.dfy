/** ramfs files: a list of 128-byte clusters that refines a flat byte string. */
module Ramfs {
  import opened Bytes
  import opened Words

  const CLUSTER: nat := 128

  /** Clusters a file of the given size has after a resize: at least one. */
  function Needed(size: nat): nat {
    if size == 0 then 1 else (size + CLUSTER - 1) / CLUSTER
  }

  /** A file as its clusters' bytes, end to end, and its size. */
  datatype FileState = FileState(backing: seq<byte>, size: nat)
  {
    /** A file that was never resized has no clusters. */
    ghost predicate Valid() {
      |backing| == CLUSTER * Needed(size) || (backing == [] && size == 0)
    }

    function Content(): seq<byte>
      requires Valid()
    {
      backing[..size]
    }

    /** ramfs_set_size: whole clusters come and go; new ones are zero, kept ones keep all
        their bytes, even those past the new size. */
    function Resize(newSize: nat): (f: FileState)
      requires Valid()
      ensures f.Valid() && f.size == newSize
    {
      var bytes := CLUSTER * Needed(newSize);
      FileState(if bytes <= |backing| then backing[..bytes] else backing + Repeat(0, bytes - |backing|), newSize)
    }

    /** ramfs_write at an offset. */
    function Write(offset: nat, data: seq<byte>): (f: FileState)
      requires Valid()
      ensures f.Valid()
    {
      if data == [] then this
      else
        var end := offset + |data|;
        var grown := if end > size then Resize(end) else this;
        FileState(Overlay(grown.backing, offset, data), grown.size)
    }

    /** vfs_write of each chunk in turn, the offset advancing by what was written. */
    function WriteAll(offset: nat, chunks: seq<seq<byte>>): (f: FileState)
      requires Valid()
      ensures f.Valid()
      decreases |chunks|
    {
      if chunks == [] then this
      else Write(offset, chunks[0]).WriteAll(offset + |chunks[0]|, chunks[1..])
    }
  }

  function Concat(chunks: seq<seq<byte>>): seq<byte> {
    if chunks == [] then [] else chunks[0] + Concat(chunks[1..])
  }

  /** g is f with the data written: each byte is the data's, else the old one, else zero. */
  ghost predicate Written(f: FileState, offset: nat, data: seq<byte>, g: FileState) {
    var end := offset + |data|;
    && g.size == Max(f.size, end)
    && |g.backing| == Max(|f.backing|, CLUSTER * Needed(end))
    && forall i :: 0 <= i < |g.backing| ==>
         g.backing[i] == if offset <= i < end then data[i - offset]
                         else if i < |f.backing| then f.backing[i] else 0
  }

  lemma WriteBytes(f: FileState, offset: nat, data: seq<byte>)
    requires f.Valid() && data != []
    ensures Written(f, offset, data, f.Write(offset, data))
  {}

  lemma NeededGrows(a: nat, b: nat)
    requires a <= b
    ensures CLUSTER * Needed(a) <= CLUSTER * Needed(b)
    ensures a <= CLUSTER * Needed(a)
  {}

  lemma WrittenTwice(f: FileState, offset: nat, a: seq<byte>, b: seq<byte>, g: FileState, h: FileState, k: FileState)
    requires Written(f, offset, a, g) && Written(g, offset + |a|, b, h) && Written(f, offset, a + b, k)
    ensures h == k
  {
    NeededGrows(offset + |a|, offset + |a| + |b|);
    forall i | 0 <= i < |h.backing|
      ensures h.backing[i] == k.backing[i]
    {
      if offset <= i < offset + |a| {
        assert (a + b)[i - offset] == a[i - offset];
      }
    }
  }

  /** Overlaying one more piece of the data. */
  lemma NextPiece(s: seq<byte>, offset: nat, data: seq<byte>, done: nat, n: nat, now: seq<byte>, at: nat, piece: seq<byte>)
    requires done + n <= |data| && offset + |data| <= |s|
    requires now == Overlay(s, offset, data[..done]) && at == offset + done && piece == data[done..done + n]
    ensures Overlay(now, at, piece) == Overlay(s, offset, data[..done + n])
  {
    OverlayTwice(s, offset, data[..done], data[done..done + n]);
    assert data[..done] + data[done..done + n] == data[..done + n];
  }

  lemma TwoWrites(f: FileState, offset: nat, a: seq<byte>, b: seq<byte>)
    requires f.Valid()
    ensures f.Write(offset, a).Write(offset + |a|, b) == f.Write(offset, a + b)
  {
    if a == [] {
      assert a + b == b;
    } else if b == [] {
      assert a + b == a;
    } else {
      var g := f.Write(offset, a);
      WriteBytes(f, offset, a);
      WriteBytes(g, offset + |a|, b);
      WriteBytes(f, offset, a + b);
      WrittenTwice(f, offset, a, b, g, g.Write(offset + |a|, b), f.Write(offset, a + b));
    }
  }

  lemma WriteNothing(f: FileState, offset: nat)
    requires f.Valid()
    ensures f.Write(offset, []) == f
  {}

  lemma FirstChunk(f: FileState, offset: nat, chunks: seq<seq<byte>>, g: FileState, rest: seq<byte>)
    requires f.Valid() && chunks != [] && g == f.Write(offset, chunks[0]) && rest == Concat(chunks[1..])
    ensures f.WriteAll(offset, chunks) == g.WriteAll(offset + |chunks[0]|, chunks[1..]) && Concat(chunks) == chunks[0] + rest
  {}

  /** However a sequential write is cut into chunks, the file is the same. */
  lemma {:induction false} ChunkingIrrelevant(f: FileState, offset: nat, chunks: seq<seq<byte>>)
    requires f.Valid()
    ensures f.WriteAll(offset, chunks) == f.Write(offset, Concat(chunks))
    decreases |chunks|
  {
    if chunks == [] {
      WriteNothing(f, offset);
    } else {
      var g := f.Write(offset, chunks[0]);
      ChunkingIrrelevant(g, offset + |chunks[0]|, chunks[1..]);
      FirstChunk(f, offset, chunks, g, Concat(chunks[1..]));
      TwoWrites(f, offset, chunks[0], Concat(chunks[1..]));
    }
  }

  /** Reading back what was written, and the rest of the old content around it. */
  lemma WriteThenRead(f: FileState, offset: nat, data: seq<byte>)
    requires f.Valid() && offset <= f.size && data != []
    ensures var g := f.Write(offset, data);
            && g.size == Max(f.size, offset + |data|)
            && g.Content()[offset..offset + |data|] == data
            && g.Content()[..offset] == f.Content()[..offset]
            && (offset + |data| <= f.size ==> g.Content()[offset + |data|..] == f.Content()[offset + |data|..])
  {
    var g := f.Write(offset, data);
    WriteBytes(f, offset, data);
    assert g.Content()[offset..offset + |data|] == data;
    assert g.Content()[..offset] == f.Content()[..offset];
  }

  // ---- zeros past the end

  /** All bytes past the end are zero: growing the file would show zeros. */
  ghost predicate ZeroTail(f: FileState) {
    f.Valid() && forall i :: f.size <= i < |f.backing| ==> f.backing[i] == 0
  }

  /** The bytes that shrinking to a drops but keeps in the last cluster are zero. */
  ghost predicate ShrinksClean(f: FileState, a: nat)
    requires f.Valid()
  {
    forall i :: a <= i < Min(f.size, CLUSTER * Needed(a)) ==> f.Content()[i] == 0
  }

  /** What a resize keeps and adds: the file gets its size and as few whole clusters as hold
      it, at least one; bytes in clusters that stay are kept, those in new ones zero. */
  lemma ResizeBytes(f: FileState, n: nat)
    requires f.Valid()
    ensures var g := f.Resize(n);
            && |g.backing| == CLUSTER * Needed(n) && g.size == n && |g.backing| % 128 == 0 && Max(n, 1) <= |g.backing| < Max(n, 1) + 128
            && (forall i :: 0 <= i < |g.backing| ==> g.backing[i] == if i < |f.backing| then f.backing[i] else 0)
            && (forall i :: 0 <= i < Min(n, f.size) ==> g.Content()[i] == f.Content()[i])
  {}

  /** No clusters, whole files and writes keep the zeros past the end; so does growing. */
  lemma ZeroTailKept(f: FileState, offset: nat, data: seq<byte>, newSize: nat)
    requires ZeroTail(f)
    ensures ZeroTail(FileState([], 0)) && ZeroTail(f.Write(offset, data))
    ensures newSize >= f.size ==> ZeroTail(f.Resize(newSize))
  {
    if data != [] { WriteBytes(f, offset, data); }
    ResizeBytes(f, newSize);
  }

  /** Shrinking keeps them exactly when what it leaves behind in the last cluster is zero. */
  lemma ShrinkKeepsZeroTail(f: FileState, a: nat)
    requires ZeroTail(f) && a <= f.size
    ensures ZeroTail(f.Resize(a)) <==> ShrinksClean(f, a)
  {
    ResizeBytes(f, a);
    NeededGrows(a, f.size);
    var g := f.Resize(a);
    if ZeroTail(g) {
      forall i | a <= i < Min(f.size, CLUSTER * Needed(a))
        ensures f.Content()[i] == 0
      {
        assert g.backing[i] == f.backing[i];
      }
    } else {
      var i :| g.size <= i < |g.backing| && g.backing[i] != 0;
      assert f.Content()[i] != 0;
    }
  }

  /** Truncating to a and growing to b shows zeros from a on exactly when the bytes of the
      file before, from a up to the end of a's cluster, were zero as far as b reaches. */
  lemma RegrowthIsZero(f: FileState, a: nat, b: nat)
    requires ZeroTail(f) && a <= f.size && a <= b
    ensures (forall i :: a <= i < b ==> f.Resize(a).Resize(b).Content()[i] == 0)
       <==> (forall i :: a <= i < Min(b, Min(f.size, CLUSTER * Needed(a))) ==> f.Content()[i] == 0)
  {
    var g := f.Resize(a);
    var h := g.Resize(b);
    ResizeBytes(f, a);
    ResizeBytes(g, b);
    NeededGrows(a, f.size);
    forall i | a <= i < b
      ensures h.Content()[i] == if i < Min(f.size, CLUSTER * Needed(a)) then f.Content()[i] else 0
    {}
    if forall i :: a <= i < b ==> h.Content()[i] == 0 {
      forall i | a <= i < Min(b, Min(f.size, CLUSTER * Needed(a)))
        ensures f.Content()[i] == 0
      {
        assert h.Content()[i] == 0;
      }
    }
  }

  /** Truncating and growing again brings an old byte back. */
  lemma StaleByteReturns()
    ensures var f := FileState([], 0).Write(0, [7, 7]);
            ZeroTail(f) && f.Resize(1).Resize(2).Content() == [7, 7]
  {
    var f := FileState([], 0).Write(0, [7, 7]);
    assert f.backing[..CLUSTER] == f.backing;
    assert f.Resize(1).Resize(2).backing == f.backing;
  }

  // ---- the flat file that runs refine

  datatype Op = WriteOp(offset: nat, data: seq<byte>) | ResizeOp(newSize: nat)

  /** What an operation should do to a flat byte string. */
  function Flat(c: seq<byte>, op: Op): seq<byte> {
    match op
    case ResizeOp(n) => if n <= |c| then c[..n] else c + Repeat(0, n - |c|)
    case WriteOp(offset, data) =>
      if data == [] then c
      else Overlay(c + Repeat(0, Max(0, offset + |data| - |c|)), offset, data)
  }

  function FlatRun(c: seq<byte>, ops: seq<Op>): seq<byte>
    decreases |ops|
  {
    if ops == [] then c else FlatRun(Flat(c, ops[0]), ops[1..])
  }

  function After(f: FileState, op: Op): (g: FileState)
    requires f.Valid()
    ensures g.Valid()
  {
    match op
    case ResizeOp(n) => f.Resize(n)
    case WriteOp(offset, data) => f.Write(offset, data)
  }

  function Run(f: FileState, ops: seq<Op>): (g: FileState)
    requires f.Valid()
    ensures g.Valid()
    decreases |ops|
  {
    if ops == [] then f else Run(After(f, ops[0]), ops[1..])
  }

  /** Every operation but a shrink is clean; a shrink is if it leaves only zeros behind. */
  ghost predicate Clean(f: FileState, op: Op)
    requires f.Valid()
  {
    op.ResizeOp? && op.newSize < f.size ==> ShrinksClean(f, op.newSize)
  }

  ghost predicate CleanRun(f: FileState, ops: seq<Op>)
    requires f.Valid()
    decreases |ops|
  {
    ops == [] || (Clean(f, ops[0]) && CleanRun(After(f, ops[0]), ops[1..]))
  }

  lemma ResizeIsFlat(f: FileState, n: nat)
    requires ZeroTail(f)
    ensures f.Resize(n).Content() == Flat(f.Content(), ResizeOp(n))
  {
    var g, c := f.Resize(n), Flat(f.Content(), ResizeOp(n));
    ResizeBytes(f, n);
    assert |g.Content()| == |c|;
    assert forall i :: 0 <= i < |c| ==> g.Content()[i] == c[i];
  }

  lemma WriteIsFlat(f: FileState, offset: nat, data: seq<byte>)
    requires ZeroTail(f)
    ensures f.Write(offset, data).Content() == Flat(f.Content(), WriteOp(offset, data))
  {
    if data != [] {
      var g, c := f.Write(offset, data), Flat(f.Content(), WriteOp(offset, data));
      WriteBytes(f, offset, data);
      assert |g.Content()| == |c|;
      assert forall i :: 0 <= i < |c| ==> g.Content()[i] == c[i];
    }
  }

  lemma StepIsFlat(f: FileState, op: Op)
    requires ZeroTail(f)
    ensures After(f, op).Content() == Flat(f.Content(), op)
    ensures ZeroTail(After(f, op)) <==> Clean(f, op)
  {
    match op
    case ResizeOp(n) =>
      ResizeIsFlat(f, n);
      ZeroTailKept(f, 0, [], n);
      if n <= f.size { ShrinkKeepsZeroTail(f, n); }
    case WriteOp(offset, data) =>
      WriteIsFlat(f, offset, data);
      ZeroTailKept(f, offset, data, f.size);
  }

  /** While no truncation leaves nonzero bytes behind, a file is a flat byte string through
      every run; RegrowthIsZero shows that the next resize can tell after one that does. */
  lemma {:induction false} RunIsFlat(f: FileState, ops: seq<Op>)
    requires ZeroTail(f) && CleanRun(f, ops)
    ensures ZeroTail(Run(f, ops)) && Run(f, ops).Content() == FlatRun(f.Content(), ops)
    decreases |ops|
  {
    if ops != [] {
      StepIsFlat(f, ops[0]);
      RunIsFlat(After(f, ops[0]), ops[1..]);
    }
  }

  // ---- ranges in 64-bit arithmetic

  function RoundUp(n: nat): nat { CLUSTER * ((n + CLUSTER - 1) / CLUSTER) }

  /** No cluster that the loop to end visits overlaps the range from offset to end with a
      negative length. */
  predicate CopiesRange(offset: nat, end: nat) { offset <= end || offset >= RoundUp(end) }

  /** Where ramfs_read stops: the sum is taken modulo 2^64. */
  function ReadEnd(size: nat, offset: nat, length: nat): nat {
    var sum := U64(offset + length);
    if sum < size then sum else size
  }

  /** A read whose end is a 64-bit number must start at or before the end of the file, or in a
      later cluster; one that wraps around must start past the end and past the last cluster
      that the wrapped end reaches. */
  predicate Readable(size: nat, offset: nat, length: nat) {
    if offset + length < B64 then offset <= size || offset >= RoundUp(size)
    else offset >= size && offset >= RoundUp(Min(offset + length - B64, size))
  }

  /** Those are exactly the reads that copy a proper range of the right length. */
  lemma ReadExactlyWhen(size: nat, offset: nat, length: nat)
    requires size < B64 && offset < B64 && length < B64
    ensures var end := ReadEnd(size, offset, length);
            (CopiesRange(offset, end) && Max(end - offset, 0) == Clipped(size, offset, length))
            <==> Readable(size, offset, length)
  {
    if offset + length >= B64 {
      assert U64(offset + length) == offset + length - B64;
    }
  }

  /** One byte asked for behind the end of a file but inside its last cluster: the range to
      copy has a negative length. */
  lemma ReadBehindEnd()
    ensures Clipped(9, 10, 1) == 0 && ReadEnd(9, 10, 1) == 9 && !CopiesRange(10, 9)
  {
    ReadExactlyWhen(9, 10, 1);
  }

  /** A read of all but one of 2^64 bytes delivers none of those that are there. */
  lemma LongReadLost()
    ensures ReadEnd(9, 1, B64 - 1) == 0 && Clipped(9, 1, B64 - 1) == 8
  {
    assert U64(1 + (B64 - 1)) == 0;
  }

  /** What ramfs_write leaves: when the sum wraps around, at most the size of the file. */
  function Stored(f: FileState, offset: nat, data: seq<byte>): (g: FileState)
    requires f.Valid()
    ensures g.Valid()
  {
    var end := U64(offset + |data|);
    if data == [] || offset + |data| < B64 then f.Write(offset, data)
    else if end > f.size then f.Resize(end)
    else f
  }

  /** That is the write asked for exactly when its end is a 64-bit number. */
  lemma WriteExactlyWhen(f: FileState, offset: nat, data: seq<byte>)
    requires f.Valid() && f.size < B64 && offset < B64 && |data| < B64
    ensures Stored(f, offset, data) == f.Write(offset, data) <==> data == [] || offset + |data| < B64
    ensures Stored(f, offset, data).size < B64
  {
    if data != [] { WriteBytes(f, offset, data); }
  }

  /** Two bytes written at the last offset leave one zero. */
  lemma WriteLost()
    ensures Stored(FileState([], 0), B64 - 1, [7, 7]).Content() == [0]
  {
    var f := FileState([], 0);
    assert U64((B64 - 1) + 2) == 1;
    assert f.Resize(1).Content() == [0];
  }

  lemma EndOfWrite(offset: nat, length: nat)
    requires offset < B64 && 0 < length < B64
    ensures U64(offset + length) == if offset + length < B64 then offset + length else offset + length - B64
    ensures offset + length >= B64 ==> U64(offset + length) < offset
  {}

  /** A write first grows the file to its end, then lays the data over it. */
  lemma StoredParts(f: FileState, offset: nat, data: seq<byte>, end: nat)
    requires f.Valid() && offset < B64 && 0 < |data| < B64 && end == U64(offset + |data|)
    ensures var g := if end > f.size then f.Resize(end) else f;
            && (offset <= end ==> |data| == end - offset && end <= |g.backing|)
            && Stored(f, offset, data) == g.(backing := if offset <= end then Overlay(g.backing, offset, data) else g.backing)
  {
    EndOfWrite(offset, |data|);
  }

  /** struct ramfs_inode */
  class Inode {
    var clusters: seq<array<byte>>
    var size: nat
    ghost var backing: seq<byte>  // the clusters' bytes, end to end

    /** The clusters hold the backing bytes and are pairwise distinct. */
    ghost predicate Linked()
      reads this, clusters
    {
      && (forall c :: c in clusters ==> c.Length == CLUSTER)
      && (forall i, j :: 0 <= i < j < |clusters| ==> clusters[i] != clusters[j])
      && |backing| == CLUSTER * |clusters|
      && (forall i, k :: 0 <= i < |clusters| && 0 <= k < CLUSTER ==> clusters[i][k] == backing[CLUSTER * i + k])
    }

    ghost predicate Valid()
      reads this, clusters
    {
      Linked() && Abs().Valid()
    }

    ghost function Abs(): FileState
      reads this
    {
      FileState(backing, size)
    }

    /** ramfs_create_file_inode: an empty list; the size is the allocator's zero. */
    constructor ()
      ensures Valid() && Abs() == FileState([], 0) && clusters == []
    {
      clusters, size, backing := [], 0, [];
    }

    /** ramfs_set_size */
    method SetSize(newSize: nat)
      requires Valid()
      modifies this
      ensures Valid() && Abs() == old(Abs()).Resize(newSize)
      ensures forall k :: 0 <= k < |clusters| ==> clusters[k] in old(clusters) || fresh(clusters[k])
    {
      var needed := CreateClusters(newSize);
      DropClusters(needed);
      size := newSize;
    }

    /** The do-while loop that walks the needed clusters and creates the missing ones. */
    method CreateClusters(newSize: nat) returns (i: nat)
      requires Linked()
      modifies this
      ensures Linked() && size == old(size) && i == Needed(newSize) <= |clusters|
      ensures |backing| == Max(|old(backing)|, CLUSTER * i)
      ensures backing == old(backing) + Repeat(0, |backing| - |old(backing)|)
      ensures forall k :: 0 <= k < |clusters| ==> clusters[k] in old(clusters) || fresh(clusters[k])
    {
      var start: nat := 0;
      i := 0;
      ghost var b := backing;
      var more := true;
      while more
        invariant start == CLUSTER * i && i <= |clusters| && (more <==> i == 0 || start < newSize)
        invariant start <= newSize + CLUSTER && (i > 1 ==> start < newSize + CLUSTER)
        invariant Linked() && size == old(size) && |clusters| == Max(|old(clusters)|, i)
        invariant |b| <= |backing| && backing == b + Repeat(0, |backing| - |b|)
        invariant forall k :: 0 <= k < |clusters| ==> clusters[k] in old(clusters) || fresh(clusters[k])
        decreases newSize + CLUSTER - start
      {
        if i == |clusters| {
          AddCluster(b);
        }
        i := i + 1;
        start := start + CLUSTER;
        more := start < newSize;
      }
    }

    /** A zeroed cluster at the end. */
    method AddCluster(ghost b: seq<byte>)
      requires Linked() && |b| <= |backing| && backing == b + Repeat(0, |backing| - |b|)
      modifies this`clusters, this`backing
      ensures Linked() && |clusters| == |old(clusters)| + 1 && fresh(clusters[|old(clusters)|])
      ensures forall k :: 0 <= k < |old(clusters)| ==> clusters[k] == old(clusters)[k]
      ensures |b| <= |backing| && backing == b + Repeat(0, |backing| - |b|)
    {
      var cluster := new byte[CLUSTER](_ => 0);
      clusters := clusters + [cluster];
      backing := backing + Repeat(0, CLUSTER);
    }

    /** The loop that drops every cluster from the i-th on. */
    method DropClusters(i: nat)
      requires Linked() && i <= |clusters|
      modifies this
      ensures Linked() && size == old(size) && clusters == old(clusters)[..i]
      ensures backing == old(backing)[..CLUSTER * i]
    {
      while i < |clusters|
        invariant i <= |clusters| && Linked() && size == old(size)
        invariant clusters[..i] == old(clusters)[..i] && backing[..CLUSTER * i] == old(backing)[..CLUSTER * i]
      {
        DropCluster(i);
      }
    }

    /** ramfs_drop_cluster: the i-th cluster leaves the list. */
    method DropCluster(i: nat)
      requires Linked() && i < |clusters|
      modifies this
      ensures Linked() && size == old(size) && |clusters| == |old(clusters)| - 1
      ensures clusters == old(clusters)[..i] + old(clusters)[i + 1..]
      ensures backing == old(backing)[..CLUSTER * i] + old(backing)[CLUSTER * (i + 1)..]
    {
      backing := backing[..CLUSTER * i] + backing[CLUSTER * (i + 1)..];
      clusters := clusters[..i] + clusters[i + 1..];
    }

    /** ramfs_write of the first length bytes of a buffer. */
    method Write(buffer: array<byte>, offset: nat, length: nat)
      requires Valid() && buffer !in clusters && length <= buffer.Length && size < B64 && offset < B64 && length < B64
      requires length == 0 || CopiesRange(offset, U64(offset + length))
      modifies this, clusters
      ensures Valid() && size < B64 && Abs() == Stored(old(Abs()), offset, old(buffer[..length]))
      ensures buffer[..] == old(buffer[..])
      ensures forall k :: 0 <= k < |clusters| ==> clusters[k] in old(clusters) || fresh(clusters[k])
    {
      WriteExactlyWhen(Abs(), offset, buffer[..length]);
      if length == 0 {
        assert buffer[..length] == [];
        return;
      }
      var end := U64(offset + length);
      EndOfWrite(offset, length);
      StoredParts(Abs(), offset, buffer[..length], end);
      if end > size {
        SetSize(end);
      }
      WriteClusters(buffer, offset, end);
    }

    /** The loop over the clusters, once there are enough of them. */
    method WriteClusters(buffer: array<byte>, offset: nat, end: nat)
      requires Linked() && buffer !in clusters && end <= offset + buffer.Length && end <= |backing|
      requires CopiesRange(offset, end)
      modifies this`backing, clusters
      ensures Linked() && buffer[..] == old(buffer[..])
      ensures backing == if offset <= end then Overlay(old(backing), offset, old(buffer[..end - offset])) else old(backing)
    {
      var i, start, done: nat := 0, 0, 0;
      ghost var data: seq<byte> := if offset <= end then buffer[..end - offset] else [];
      while start < end
        invariant start == CLUSTER * i && start < end + CLUSTER
        invariant done == Min(Max(start - offset, 0), Max(end - offset, 0))
        invariant Linked() && |backing| == |old(backing)|
        invariant buffer[..] == old(buffer[..])
        invariant backing == if offset <= end then Overlay(old(backing), offset, data[..done]) else old(backing)
      {
        if offset < start + CLUSTER {
          var n := WriteCluster(i, start, buffer, offset, end, old(backing), data, done);
          done := done + n;
        }
        i := i + 1;
        start := start + CLUSTER;
      }
      assert offset <= end ==> data[..done] == data;
    }

    /** The part of a write that falls into one cluster. */
    method WriteCluster(i: nat, start: nat, buffer: array<byte>, offset: nat, end: nat, ghost grown: seq<byte>,
                        ghost data: seq<byte>, ghost done: nat)
      returns (n: nat)
      requires Linked() && i < |clusters| && start == CLUSTER * i && buffer !in clusters
      requires start < end <= |grown| && offset < start + CLUSTER && offset <= end <= offset + buffer.Length
      requires done == Max(start - offset, 0) && done <= end - offset
      requires data == buffer[..end - offset] && backing == Overlay(grown, offset, data[..done])
      modifies this`backing, clusters[i]
      ensures Linked() && n == Min(end, start + CLUSTER) - Max(offset, start) <= end - offset - done
      ensures backing == Overlay(grown, offset, data[..done + n])
    {
      var clusterEnd := start + CLUSTER;
      var from: nat := if offset > start then offset else start;
      var to: nat := if end < clusterEnd then end else clusterEnd;
      n := to - from;
      ghost var piece := buffer[from - offset..to - offset];
      SliceOfSlice(buffer[..], 0, end - offset, from - offset, to - offset);
      NextPiece(grown, offset, data, done, n, backing, from, piece);
      CopyIn(i, start, from, to, buffer, from - offset);
    }

    /** memcpy into one cluster. */
    method CopyIn(i: nat, start: nat, from: nat, to: nat, buffer: array<byte>, at: nat)
      requires Linked() && i < |clusters| && buffer !in clusters && start == CLUSTER * i
      requires start <= from <= to <= start + CLUSTER && at + (to - from) <= buffer.Length
      modifies this`backing, clusters[i]
      ensures Linked() && to <= |backing| && backing == Overlay(old(backing), from, buffer[at..at + (to - from)])
    {
      var cluster := clusters[i];
      MemCpy(cluster, from - start, buffer, at, to - from);
      backing := Overlay(backing, from, buffer[at..at + (to - from)]);
      forall j, k | 0 <= j < |clusters| && 0 <= k < CLUSTER
        ensures clusters[j][k] == backing[CLUSTER * j + k]
      {
        if j == i {
          assert clusters[j][..][k] == clusters[j][k];
        }
      }
    }
  }

  /** now is b with the first n bytes of the data laid over its start. */
  ghost predicate Filled(now: seq<byte>, b: seq<byte>, data: seq<byte>, n: nat) {
    n <= |data| <= |b| && now == Overlay(b, 0, data[..n])
  }

  lemma FillMore(now: seq<byte>, b: seq<byte>, s: seq<byte>, begin: nat, end: nat, from: nat, to: nat)
    requires begin <= from <= to <= end <= |s| && Filled(now, b, s[begin..end], from - begin)
    ensures Filled(Overlay(now, from - begin, s[from..to]), b, s[begin..end], to - begin)
  {
    SliceOfSlice(s, begin, end, from, to);
    NextPiece(b, 0, s[begin..end], from - begin, to - from, now, from - begin, s[from..to]);
  }

  lemma FilledUp(now: seq<byte>, b: seq<byte>, s: seq<byte>, size: nat, begin: nat, end: nat)
    requires begin <= end <= size <= |s| && Filled(now, b, s[begin..end], end - begin)
    ensures now == Overlay(b, 0, s[..size][begin..end])
  {
    SliceOfSlice(s, 0, size, begin, end);
    assert s[begin..end][..end - begin] == s[begin..end];
  }

  /** struct file on a regular ramfs file */
  class File {
    const inode: Inode
    var offset: nat

    constructor (inode: Inode)
      ensures this.inode == inode && offset == 0
    {
      this.inode, offset := inode, 0;
    }

    /** vfs_write: the offset advances by what ramfs_write reports, unless that reads as -1. */
    method Write(buffer: array<byte>, length: nat) returns (n: nat)
      requires inode.Valid() && buffer !in inode.clusters && length <= buffer.Length
      requires inode.size < B64 && offset < B64 && length < B64
      requires length == 0 || CopiesRange(offset, U64(offset + length))
      modifies this, inode, inode.clusters
      ensures inode.Valid() && inode.size < B64 && inode.Abs() == Stored(old(inode.Abs()), old(offset), old(buffer[..length]))
      ensures n == length && buffer[..] == old(buffer[..])
      ensures offset == if length == B64 - 1 then old(offset) else U64(old(offset) + length)
      ensures forall i :: 0 <= i < |inode.clusters| ==> inode.clusters[i] in old(inode.clusters) || fresh(inode.clusters[i])
    {
      inode.Write(buffer, offset, length);
      n := length;
      if ToSigned64(n) != -1 {
        offset := U64(offset + n);
      }
    }

    /** ramfs_read, for the reads that ReadExactlyWhen singles out. */
    method Read(buffer: array<byte>, length: nat) returns (n: nat)
      requires inode.Valid() && buffer !in inode.clusters && inode.size < B64 && offset < B64 && length < B64
      requires Readable(inode.size, offset, length) && Clipped(inode.size, offset, length) <= buffer.Length
      modifies this, buffer
      ensures n == Clipped(inode.size, old(offset), length) && offset == old(offset) + n
      ensures inode.Valid() && inode.Abs() == old(inode.Abs())
      ensures if n == 0 then buffer[..] == old(buffer[..])
              else buffer[..] == Overlay(old(buffer[..]), 0, inode.Abs().Content()[old(offset)..old(offset) + n])
    {
      var begin := offset;
      var sum := U64(offset + length);
      var end := if sum < inode.size then sum else inode.size;
      ReadExactlyWhen(inode.size, offset, length);
      n := 0;
      if end == begin {
        return;
      }
      n := ReadClusters(buffer, begin, end);
      offset := offset + n;
    }

    /** The loop over the clusters. */
    method ReadClusters(buffer: array<byte>, begin: nat, end: nat) returns (n: nat)
      requires inode.Valid() && buffer !in inode.clusters && end <= inode.size && CopiesRange(begin, end)
      requires end <= begin + buffer.Length
      modifies buffer
      ensures n == Max(end - begin, 0)
      ensures if n == 0 then buffer[..] == old(buffer[..])
              else buffer[..] == Overlay(old(buffer[..]), 0, inode.Abs().Content()[begin..begin + n])
    {
      n := 0;
      var i, start: nat := 0, 0;
      ghost var b := buffer[..];
      while start < end
        invariant start == CLUSTER * i && start < end + CLUSTER
        invariant n == Min(Max(start - begin, 0), Max(end - begin, 0))
        invariant if begin > end then buffer[..] == b else Filled(buffer[..], b, inode.backing[begin..end], n)
      {
        if i == |inode.clusters| {
          break;
        }
        if begin < start + CLUSTER {
          var copied := ReadCluster(i, start, buffer, begin, end, b, n);
          n := n + copied;
        }
        i := i + 1;
        start := start + CLUSTER;
      }
      if begin <= end {
        FilledUp(buffer[..], b, inode.backing, inode.size, begin, end);
      }
    }

    /** The part of a read that lies in one cluster. */
    method ReadCluster(i: nat, start: nat, buffer: array<byte>, begin: nat, end: nat, ghost b: seq<byte>, ghost done: nat)
      returns (n: nat)
      requires inode.Linked() && i < |inode.clusters| && start == CLUSTER * i && buffer !in inode.clusters
      requires start < end <= |inode.backing| && begin < start + CLUSTER && begin <= end <= begin + buffer.Length
      requires done == Max(start - begin, 0) && done <= end - begin
      requires Filled(buffer[..], b, inode.backing[begin..end], done)
      modifies buffer
      ensures n == Min(end, start + CLUSTER) - Max(begin, start) <= end - begin - done
      ensures Filled(buffer[..], b, inode.backing[begin..end], done + n)
    {
      var clusterEnd := start + CLUSTER;
      var from: nat := if begin > start then begin else start;
      var to: nat := if end < clusterEnd then end else clusterEnd;
      n := to - from;
      FillMore(buffer[..], b, inode.backing, begin, end, from, to);
      CopyOut(i, start, from, to, buffer, from - begin);
    }

    /** memcpy out of one cluster. */
    method CopyOut(i: nat, start: nat, from: nat, to: nat, buffer: array<byte>, at: nat)
      requires inode.Linked() && i < |inode.clusters| && buffer !in inode.clusters && start == CLUSTER * i
      requires start <= from <= to <= start + CLUSTER && at + (to - from) <= buffer.Length
      modifies buffer
      ensures to <= |inode.backing| && buffer[..] == Overlay(old(buffer[..]), at, inode.backing[from..to])
    {
      var cluster := inode.clusters[i];
      assert forall k :: 0 <= k < CLUSTER ==> cluster[k] == inode.backing[start + k];
      assert cluster[from - start..to - start] == inode.backing[from..to];
      MemCpy(buffer, at, cluster, from - start, to - from);
    }
  }
}
