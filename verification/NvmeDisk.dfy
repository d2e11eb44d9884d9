/** nvme_read and nvme_write: page-sized transfers made to look like a flat byte array,
    and nvmepart, which shows a range of it as a device of its own. */
module NvmeDisk {
  import opened Words
  import opened Bytes

  /** Length after the clipping code of nvme_write: the room is computed in 64 bits and
      read as signed; the comparison with the length is unsigned. */
  function WriteLength(size: nat, offset: nat, length: nat): nat {
    var room := Max(ToSigned64(U64(size - offset)), 0);
    if length > room then room else length
  }

  /** In nvme_read the comparison is signed as well. */
  function ReadLength(size: nat, offset: nat, length: nat): nat
    requires length < B64
  {
    var room := Max(ToSigned64(U64(size - offset)), 0);
    if ToSigned64(length) > room then room else length
  }

  /** Offsets for which the signed room is not negative by accident. */
  predicate InReach(size: nat, offset: nat) { offset <= size + B63 }

  lemma WriteClipping(size: nat, offset: nat, length: nat)
    requires size < B63 && offset < B64 && length < B64
    ensures WriteLength(size, offset, length) == Clipped(size, offset, length) <==> InReach(size, offset) || length == 0
  {}

  lemma ReadClipping(size: nat, offset: nat, length: nat)
    requires size < B63 && offset < B64 && length < B64
    ensures ReadLength(size, offset, length) == Clipped(size, offset, length)
       <==> length < B63 && (InReach(size, offset) || length == 0)
  {}

  /** One byte asked for 2^63 + 1 bytes past the end is moved, where none should be. */
  lemma FarOffsetMoves(size: nat)
    requires size + B63 + 1 < B64
    ensures Clipped(size, size + B63 + 1, 1) == 0
    ensures WriteLength(size, size + B63 + 1, 1) == 1 && ReadLength(size, size + B63 + 1, 1) == 1
  {
    assert U64(size - (size + B63 + 1)) == B63 - 1;
  }

  /** A read of 2^63 bytes is not clipped at all. */
  lemma LongReadUnclipped(size: nat, offset: nat)
    requires size < B63 && offset < B64
    ensures ReadLength(size, offset, B63) == B63 && Clipped(size, offset, B63) < B63
  {}

  const PAGE: nat := 4096

  class Disk {
    const data: array<byte>
    const lbads: nat

    constructor (data: array<byte>, lbads: nat)
      ensures this.data == data && this.lbads == lbads
    {
      this.data, this.lbads := data, lbads;
    }

    ghost predicate Valid() {
      && lbads <= 12 && data.Length % PAGE == 0
      && data.Length <= Pow2(lbads) * B32 && data.Length < B63
    }

    /** (uint32_t)(offset >> 12 << (12 - lbads_exponent)) */
    function LbaOf(offset: nat): nat
      requires lbads <= 12
    {
      U32(offset / PAGE * Pow2(12 - lbads))
    }

    lemma LbaOfPage(offset: nat)
      requires Valid() && offset < data.Length
      ensures LbaOf(offset) * Pow2(lbads) == offset / PAGE * PAGE
      ensures offset / PAGE * PAGE + PAGE <= data.Length
    {
      Pow2Add(12 - lbads, lbads);
      Pow2Values();
      ScaledLba(offset / PAGE, Pow2(12 - lbads), Pow2(lbads));
      LastPage(offset, data.Length);
    }

    /** nvme_readpage and nvme_writepage, once their command has completed. */
    method ReadPage(lba: nat, page: array<byte>)
      requires Valid() && page != data && page.Length == PAGE && lba * Pow2(lbads) + PAGE <= data.Length
      modifies page
      ensures page[..] == data[lba * Pow2(lbads)..lba * Pow2(lbads) + PAGE]
    {
      MemCpy(page, 0, data, lba * Pow2(lbads), PAGE);
    }

    method WritePage(lba: nat, page: array<byte>)
      requires Valid() && page != data && page.Length == PAGE && lba * Pow2(lbads) + PAGE <= data.Length
      modifies data
      ensures data[..] == Overlay(old(data[..]), lba * Pow2(lbads), page[..])
    {
      MemCpy(data, lba * Pow2(lbads), page, 0, PAGE);
    }

    /** The page that an offset is in. */
    method LoadPage(offset: nat, page: array<byte>) returns (ghost base: nat)
      requires Valid() && page != data && page.Length == PAGE && offset < data.Length
      modifies page
      ensures base + offset % PAGE == offset && base + PAGE <= data.Length
      ensures page[..] == data[base..base + PAGE]
    {
      LbaOfPage(offset);
      base := offset / PAGE * PAGE;
      ReadPage(LbaOf(offset), page);
    }

    method StorePage(offset: nat, page: array<byte>, ghost base: nat)
      requires Valid() && page != data && page.Length == PAGE && offset < data.Length && base + offset % PAGE == offset
      modifies data
      ensures base + PAGE <= data.Length && data[..] == Overlay(old(data[..]), base, page[..])
    {
      LbaOfPage(offset);
      WritePage(LbaOf(offset), page);
    }

    /** nvme_read refines reading a slice of the flat array. */
    method Read(buffer: array<byte>, start: nat, length: nat) returns (n: nat)
      requires Valid() && buffer != data && start < B64 && length < B63
      requires InReach(data.Length, start) && Clipped(data.Length, start, length) <= buffer.Length
      modifies buffer
      ensures n == Clipped(data.Length, start, length)
      ensures n > 0 ==> buffer[..] == Overlay(old(buffer[..]), 0, data[start..start + n])
      ensures n == 0 ==> buffer[..] == old(buffer[..])
    {
      var page := new byte[PAGE];
      ReadClipping(data.Length, start, length);
      var count := ReadLength(data.Length, start, length);
      var offset := start;
      n := 0;
      ghost var b := buffer[..];
      while n < count
        invariant n <= count && offset == start + n
        invariant count > 0 ==> start + count <= data.Length
        invariant if n == 0 then buffer[..] == b else buffer[..] == Overlay(b, 0, data[start..start + n])
      {
        var chunk := ReadChunk(buffer, n, page, offset, count - n);
        NextChunk(b, data[..], start, n, chunk);
        offset := offset + chunk;
        n := n + chunk;
      }
    }

    /** One page of the read loop. */
    method ReadChunk(buffer: array<byte>, at: nat, page: array<byte>, offset: nat, remaining: nat) returns (chunk: nat)
      requires Valid() && buffer != data && page != data && page != buffer && page.Length == PAGE
      requires remaining > 0 && offset + remaining <= data.Length && at + remaining <= buffer.Length
      modifies buffer, page
      ensures 0 < chunk <= remaining
      ensures buffer[..] == Overlay(old(buffer[..]), at, data[offset..offset + chunk])
    {
      ghost var base := LoadPage(offset, page);
      var pageOffset := offset % PAGE;
      chunk := PAGE - pageOffset;
      if chunk > remaining { chunk := remaining; }
      SliceOfSlice(data[..], base, base + PAGE, offset, offset + chunk);
      assert page[pageOffset..pageOffset + chunk] == page[..][pageOffset..pageOffset + chunk];
      MemCpy(buffer, at, page, pageOffset, chunk);
    }

    /** One page of the write loop: read, modify, write back. */
    method WriteChunk(buffer: array<byte>, from: nat, page: array<byte>, offset: nat, remaining: nat) returns (chunk: nat)
      requires Valid() && buffer != data && page != data && page != buffer && page.Length == PAGE
      requires remaining > 0 && offset + remaining <= data.Length && from + remaining <= buffer.Length
      modifies data, page
      ensures 0 < chunk <= remaining
      ensures data[..] == Overlay(old(data[..]), offset, buffer[from..from + chunk])
    {
      ghost var d := data[..];
      ghost var base := LoadPage(offset, page);
      var pageOffset := offset % PAGE;
      chunk := PAGE - pageOffset;
      if chunk > remaining { chunk := remaining; }
      ghost var p := page[..];
      MemCpy(page, pageOffset, buffer, from, chunk);
      StorePage(offset, page, base);
      ReadModifyWrite(d, base, pageOffset, buffer[from..from + chunk], p, page[..], data[..]);
    }

    /** nvme_write refines overlaying the buffer on the flat array. */
    method Write(buffer: array<byte>, start: nat, length: nat) returns (n: nat)
      requires Valid() && buffer != data && start < B64 && length < B64
      requires InReach(data.Length, start) && Clipped(data.Length, start, length) <= buffer.Length
      modifies data
      ensures n == Clipped(data.Length, start, length)
      ensures n > 0 ==> data[..] == Overlay(old(data[..]), start, buffer[..n])
      ensures n == 0 ==> data[..] == old(data[..])
    {
      var page := new byte[PAGE];
      WriteClipping(data.Length, start, length);
      var count := WriteLength(data.Length, start, length);
      var offset := start;
      n := 0;
      ghost var d := data[..];
      while n < count
        invariant n <= count && offset == start + n
        invariant count > 0 ==> start + count <= data.Length
        invariant data[..] == if n == 0 then d else Overlay(d, start, buffer[..n])
      {
        var chunk := WriteMore(d, buffer, start, n, page, offset, count - n);
        offset := offset + chunk;
        n := n + chunk;
      }
    }

    /** One turn of the write loop. */
    method WriteMore(ghost d: seq<byte>, buffer: array<byte>, start: nat, n: nat, page: array<byte>, offset: nat, remaining: nat)
      returns (chunk: nat)
      requires Valid() && buffer != data && page != data && page != buffer && page.Length == PAGE
      requires remaining > 0 && offset == start + n && offset + remaining <= data.Length == |d| && n + remaining <= buffer.Length
      requires data[..] == if n == 0 then d else Overlay(d, start, buffer[..n])
      modifies data, page
      ensures 0 < chunk <= remaining
      ensures data[..] == Overlay(d, start, buffer[..n + chunk])
    {
      chunk := WriteChunk(buffer, n, page, offset, remaining);
      NextWritten(d, buffer[..], start, n, chunk);
      assert buffer[..n] == buffer[..][..n] && buffer[n..n + chunk] == buffer[..][n..n + chunk];
      assert buffer[..n + chunk] == buffer[..][..n + chunk];
    }
  }

  lemma LastPage(offset: nat, size: nat)
    requires size % PAGE == 0 && offset < size
    ensures offset / PAGE * PAGE + PAGE <= size
  {}

  lemma ScaledLba(page: nat, per: nat, w: nat)
    requires w > 0 && per * w == PAGE
    ensures page * PAGE < w * B32 ==> U32(page * per) * w == page * PAGE
  {
    var lba: nat := page * per;
    assert lba * w == page * (per * w);
    if page * PAGE < w * B32 && lba >= B32 { ProductMono(B32, lba, w); }
  }

  /** The bytes read so far and the next chunk. */
  lemma NextChunk(b: seq<byte>, d: seq<byte>, start: nat, n: nat, chunk: nat)
    requires start + n + chunk <= |d| && n + chunk <= |b|
    ensures Overlay(Overlay(b, 0, d[start..start + n]), n, d[start + n..start + n + chunk])
         == Overlay(b, 0, d[start..start + n + chunk])
  {
    OverlayTwice(b, 0, d[start..start + n], d[start + n..start + n + chunk]);
    assert d[start..start + n] + d[start + n..start + n + chunk] == d[start..start + n + chunk];
  }

  /** The bytes written so far and the next chunk. */
  lemma NextWritten(d: seq<byte>, src: seq<byte>, start: nat, n: nat, chunk: nat)
    requires start + n + chunk <= |d| && n + chunk <= |src|
    ensures Overlay(if n == 0 then d else Overlay(d, start, src[..n]), start + n, src[n..n + chunk])
         == Overlay(d, start, src[..n + chunk])
  {
    if n > 0 { OverlayTwice(d, start, src[..n], src[n..n + chunk]); }
    assert src[..n] + src[n..n + chunk] == src[..n + chunk];
  }

  /** Changing part of a page and writing the page back changes just that part. */
  lemma ReadModifyWrite(d: seq<byte>, base: nat, at: nat, chunk: seq<byte>, page: seq<byte>, page': seq<byte>, d': seq<byte>)
    requires |page| == PAGE && base + PAGE <= |d| && at + |chunk| <= PAGE && page == d[base..base + PAGE]
    requires page' == Overlay(page, at, chunk) && d' == Overlay(d, base, page')
    ensures d' == Overlay(d, base + at, chunk)
  {}

  /** What nvmepart_read and nvmepart_write pass on, in wrapping 64-bit arithmetic. */
  function DeviceOffset(start: nat, offset: nat): nat { U64(offset + start) }

  function PassedLength(start: nat, end: nat, offset: nat, length: nat): nat {
    var room := U64(end - DeviceOffset(start, offset));
    if length > room then room else length
  }

  /** struct nvmepart_device: LBAs firstLba to lastLba, inclusive, of a disk. */
  class Partition {
    const disk: Disk
    const firstLba: nat
    const lastLba: nat

    constructor (disk: Disk, firstLba: nat, lastLba: nat)
      ensures this.disk == disk && this.firstLba == firstLba && this.lastLba == lastLba
    {
      this.disk, this.firstLba, this.lastLba := disk, firstLba, lastLba;
    }

    ghost predicate Valid()
    {
      && disk.Valid() && firstLba <= lastLba < B32
      && (lastLba + 1) * Pow2(disk.lbads) <= disk.data.Length
      && firstLba * Pow2(disk.lbads) <= (lastLba + 1) * Pow2(disk.lbads)
    }

    function Start(): nat { firstLba * Pow2(disk.lbads) }
    function End(): nat { (lastLba + 1) * Pow2(disk.lbads) }

    /** nvmepart_write inside the partition: an overlay of the partition's own bytes,
        clipped at its end, and no other byte of the disk changes. */
    method Write(buffer: array<byte>, offset: nat, length: nat) returns (n: nat)
      requires Valid() && buffer != disk.data && length < B64
      requires offset <= End() - Start() && Min(length, End() - Start() - offset) <= buffer.Length
      modifies disk.data
      ensures n == Min(length, (lastLba + 1) * Pow2(disk.lbads) - firstLba * Pow2(disk.lbads) - offset)
      ensures disk.data[..] == Overlay(old(disk.data[..]), firstLba * Pow2(disk.lbads) + offset, buffer[..n])
      ensures disk.data[Start()..End()] == Overlay(old(disk.data[Start()..End()]), offset, buffer[..n])
      ensures forall i :: 0 <= i < disk.data.Length
                          && !(firstLba * Pow2(disk.lbads) <= i < (lastLba + 1) * Pow2(disk.lbads)) ==>
        disk.data[i] == old(disk.data[i])
    {
      PassedInside(disk.data.Length, Start(), End(), offset, length);
      n := disk.Write(buffer, DeviceOffset(Start(), offset), PassedLength(Start(), End(), offset, length));
      assert n == 0 ==> disk.data[..] == Overlay(old(disk.data[..]), Start() + offset, []);
      assert disk.data[Start()..End()] == Overlay(old(disk.data[Start()..End()]), offset, buffer[..n]);
    }

    /** nvmepart_read inside the partition. */
    method Read(buffer: array<byte>, offset: nat, length: nat) returns (n: nat)
      requires Valid() && buffer != disk.data && length < B64
      requires offset <= End() - Start() && Min(length, End() - Start() - offset) <= buffer.Length
      modifies buffer
      ensures n == Min(length, (lastLba + 1) * Pow2(disk.lbads) - firstLba * Pow2(disk.lbads) - offset)
      ensures buffer[..] == Overlay(old(buffer[..]), 0, disk.data[Start()..End()][offset..offset + n])
      ensures buffer[..n] == disk.data[firstLba * Pow2(disk.lbads) + offset..firstLba * Pow2(disk.lbads) + offset + n]
    {
      PassedInside(disk.data.Length, Start(), End(), offset, length);
      n := disk.Read(buffer, DeviceOffset(Start(), offset), PassedLength(Start(), End(), offset, length));
      assert disk.data[Start()..End()][offset..offset + n] == disk.data[Start() + offset..Start() + offset + n];
      assert n == 0 ==> buffer[..] == Overlay(old(buffer[..]), 0, []);
    }
  }

  /** Partitions with disjoint LBAs have disjoint bytes: what changes in one of them only leaves
      every slice of the other as it was. */
  lemma NeighbourKept(p: Partition, q: Partition, before: seq<byte>, after: seq<byte>, from: nat, n: nat)
    requires p.Valid() && q.Valid() && p.disk == q.disk && (p.lastLba < q.firstLba || q.lastLba < p.firstLba)
    requires |before| == |after| == p.disk.data.Length
    requires forall i :: 0 <= i < |before| && !(p.firstLba * Pow2(p.disk.lbads) <= i < (p.lastLba + 1) * Pow2(p.disk.lbads)) ==>
               after[i] == before[i]
    requires q.firstLba * Pow2(q.disk.lbads) <= from && from + n <= (q.lastLba + 1) * Pow2(q.disk.lbads)
    ensures after[from..from + n] == before[from..from + n]
  {
    var w := Pow2(p.disk.lbads);
    if p.lastLba < q.firstLba {
      ProductMono(p.lastLba + 1, q.firstLba, w);
    } else {
      ProductMono(q.lastLba + 1, p.firstLba, w);
    }
    assert forall i :: from <= i < from + n ==> after[i] == before[i];
  }

  /** Between two reads from one partition, a write to another with other LBAs makes no
      difference: the second read returns the same bytes as the first. */
  method ReadAroundWrite(p: Partition, q: Partition, source: array<byte>, at: nat, amount: nat,
                         first: array<byte>, second: array<byte>, offset: nat, length: nat)
    returns (m: nat, n: nat)
    requires p.Valid() && q.Valid() && p.disk == q.disk && (p.lastLba < q.firstLba || q.lastLba < p.firstLba)
    requires first != second && p.disk.data !in {source, first, second} && source !in {first, second}
    requires at <= p.End() - p.Start() && amount < B64 && Min(amount, p.End() - p.Start() - at) <= source.Length
    requires offset <= q.End() - q.Start() && length < B64
    requires Min(length, q.End() - q.Start() - offset) <= Min(first.Length, second.Length)
    modifies p.disk.data, first, second
    ensures m == n <= Min(first.Length, second.Length) && first[..m] == second[..n]
  {
    m := q.Read(first, offset, length);
    ghost var d: seq<byte>, from: nat := p.disk.data[..], q.firstLba * Pow2(q.disk.lbads) + offset;
    ghost var got: seq<byte> := first[..m];
    assert got == d[from..from + m];
    ghost var written: nat := p.Write(source, at, amount);
    ghost var after: seq<byte> := p.disk.data[..];
    NeighbourKept(p, q, d, after, from, m);
    assert first[..m] == got == after[from..from + m];
    n := q.Read(second, offset, length);
    assert second[..n] == after[from..from + n];
    assert first[..m] == got;
  }

  lemma PassedInside(size: nat, start: nat, end: nat, offset: nat, length: nat)
    requires start <= end <= size < B63 && offset <= end - start && length < B64
    ensures DeviceOffset(start, offset) == start + offset && InReach(size, start + offset)
    ensures PassedLength(start, end, offset, length) == Min(length, end - start - offset)
    ensures Clipped(size, start + offset, Min(length, end - start - offset)) == Min(length, end - start - offset)
  {}

  /** n bytes at a position lie in the partition, or there are none. */
  predicate Within(start: nat, end: nat, at: nat, n: nat) { n == 0 || (start <= at && at + n <= end) }

  /** What nvmepart_write moves lies in the partition. */
  predicate WriteConfined(size: nat, start: nat, end: nat, offset: nat, length: nat) {
    var at := DeviceOffset(start, offset);
    Within(start, end, at, WriteLength(size, at, PassedLength(start, end, offset, length)))
  }

  /** What nvmepart_read moves lies in the partition. */
  predicate ReadConfined(size: nat, start: nat, end: nat, offset: nat, length: nat)
    requires length < B64
  {
    var at := DeviceOffset(start, offset);
    Within(start, end, at, ReadLength(size, at, PassedLength(start, end, offset, length)))
  }

  /** The wrapped arithmetic, case by case. */
  lemma Passed(start: nat, end: nat, offset: nat, length: nat)
    requires start < end < B63 && offset < B64 && length < B64
    ensures var (at, n) := (DeviceOffset(start, offset), PassedLength(start, end, offset, length));
            && at == (if offset + start < B64 then offset + start else offset + start - B64)
            && n == Min(length, if at <= end then end - at else B64 + end - at)
  {}

  /** For any offset a write keeps to the partition exactly when the offset is inside it, or
      nothing is asked for, or the offset is past the whole disk but in signed reach. */
  lemma WriteConfinement(size: nat, start: nat, end: nat, offset: nat, length: nat)
    requires start < end <= size < B63 && offset < B64 && length < B64
    ensures WriteConfined(size, start, end, offset, length)
       <==> (offset <= end - start || length == 0 || (size <= offset + start < B64 && InReach(size, offset + start)))
  {
    Passed(start, end, offset, length);
    WriteClipping(size, DeviceOffset(start, offset), PassedLength(start, end, offset, length));
  }

  /** A read past the whole disk needs moreover that the length it passes on is below 2^63:
      either the length asked for is, or the wrapped room behind the partition. */
  lemma ReadConfinement(size: nat, start: nat, end: nat, offset: nat, length: nat)
    requires start < end <= size < B63 && offset < B64 && length < B64
    ensures ReadConfined(size, start, end, offset, length)
       <==> (offset <= end - start || length == 0
             || (size <= offset + start < B64 && InReach(size, offset + start) && (length < B63 || offset + start > end + B63)))
  {
    Passed(start, end, offset, length);
    ReadClipping(size, DeviceOffset(start, offset), PassedLength(start, end, offset, length));
  }

  /** One byte past its end, a partition of 4096 bytes is read and written next door. */
  lemma NeighbourReached()
    ensures DeviceOffset(4096, 4097) >= 8192
    ensures !WriteConfined(0x10_0000, 4096, 8192, 4097, 512) && !ReadConfined(0x10_0000, 4096, 8192, 4097, 512)
  {
    WriteConfinement(0x10_0000, 4096, 8192, 4097, 512);
    ReadConfinement(0x10_0000, 4096, 8192, 4097, 512);
  }

  /** Past the disk a long write moves nothing, but a read of 2^63 bytes moves all of them. */
  lemma LongReadEscapes()
    ensures WriteConfined(0x10_0000, 4096, 8192, 0x10_0000, B63)
    ensures ReadLength(0x10_0000, DeviceOffset(4096, 0x10_0000), PassedLength(4096, 8192, 0x10_0000, B63)) == B63
    ensures !ReadConfined(0x10_0000, 4096, 8192, 0x10_0000, B63)
  {
    WriteConfinement(0x10_0000, 4096, 8192, 0x10_0000, B63);
    ReadConfinement(0x10_0000, 4096, 8192, 0x10_0000, B63);
  }
}
