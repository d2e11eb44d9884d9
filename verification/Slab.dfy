/** The slab allocator: fixed-size objects cut from pages, a free bit per slot. */
module Slab {
  import opened Words
  import opened Kmem
  import opened Options

  const HEADER: nat := 48      // four bitmap words and the list links
  const AVAILABLE: nat := 4048 // SLAB_AVAILABLE_PAGESIZE
  const SLOTS: nat := 256      // bits in a header

  predicate Bit(w: nat, k: nat) { Shr(w, k) % 2 == 1 }

  lemma BitStep(w: nat, k: nat)
    ensures Bit(w, 0) == (w % 2 == 1)
    ensures k > 0 ==> Bit(w, k) == Bit(w / 2, k - 1)
  {
    if k > 0 {
      assert Pow2(k) == 2 * Pow2(k - 1);
      HalfThenShift(w, Pow2(k - 1));
    }
  }

  lemma HalfThenShift(w: nat, p: nat)
    requires p > 0
    ensures w / (2 * p) == (w / 2) / p
  {
    var q, r := w / (2 * p), w % (2 * p);
    assert w == q * (2 * p) + r;
    assert w / 2 == q * p + r / 2 by { assert q * (2 * p) == 2 * (q * p); }
    DivModUnique(w / 2, p, q, r / 2);
  }

  lemma {:induction false} ZeroBits(k: nat)
    ensures !Bit(0, k)
  {
    BitStep(0, k);
    if k > 0 { ZeroBits(k - 1); }
  }

  /** w | 1 << j sets bit j and keeps every other. */
  lemma {:induction false} OrBit(w: nat, j: nat, k: nat)
    ensures Bit(Or(w, Pow2(j)), k) == (k == j || Bit(w, k))
  {
    var p := Pow2(j);
    BitStep(w, k);
    BitStep(Or(w, p), k);
    assert j > 0 ==> p / 2 == Pow2(j - 1) && p % 2 == 0;
    if w == 0 {
      BitStep(p, k);
      ZeroBits(k);
      if j > 0 && k > 0 { OrBit(0, j - 1, k - 1); }
      else if k > 0 { ZeroBits(k - 1); }
    } else if k > 0 {
      if j > 0 { OrBit(w / 2, j - 1, k - 1); }
      assert Or(w, p) / 2 == Or(w / 2, p / 2);
    }
  }

  /** w ^ 1 << j flips bit j and keeps every other. */
  lemma {:induction false} XorBit(w: nat, j: nat, k: nat)
    ensures Bit(Xor(w, Pow2(j)), k) == (Bit(w, k) != (k == j))
  {
    var p := Pow2(j);
    BitStep(w, k);
    BitStep(Xor(w, p), k);
    assert j > 0 ==> p / 2 == Pow2(j - 1) && p % 2 == 0;
    if w == 0 {
      BitStep(p, k);
      ZeroBits(k);
      if j > 0 && k > 0 { XorBit(0, j - 1, k - 1); }
      else if k > 0 { ZeroBits(k - 1); }
    } else if k > 0 {
      if j > 0 { XorBit(w / 2, j - 1, k - 1); }
      assert Xor(w, p) / 2 == Xor(w / 2, p / 2);
    }
  }

  function Slots(size: nat): nat
    requires size > 0
  {
    var perPage := AVAILABLE / size;
    if perPage < SLOTS then perPage else SLOTS
  }

  datatype Slot = Slot(page: nat, index: nat)

  function Address(slot: Slot, size: nat): nat {
    4096 * slot.page + HEADER + slot.index * size
  }

  /** An object lies in its page, after the header, and slab_free's division recovers it. */
  lemma SlotInverse(slot: Slot, size: nat)
    requires size > 0 && slot.index < Slots(size)
    ensures var a := Address(slot, size);
            && 4096 * slot.page + HEADER <= a && a + size <= 4096 * (slot.page + 1)
            && a / 4096 == slot.page
            && (a % 4096 - HEADER) / size == slot.index && (a % 4096 - HEADER) % size == 0
  {
    DivModFacts(AVAILABLE, size);
    var perPage := AVAILABLE / size;
    ProductMono(slot.index + 1, perPage, size);
    assert (slot.index + 1) * size == slot.index * size + size;
    DivModUnique(slot.index * size, size, slot.index, 0);
  }

  /** A page has as many slots as fit into its 4096 bytes behind the header's 48, but no more
      than the header's 256 bits. */
  lemma SlotsLargest(size: nat, n: nat)
    requires size > 0
    ensures n <= Slots(size) <==> n <= 256 && 48 + n * size <= 4096
  {
    Quotient(4048, size, n);
  }

  lemma Quotient(x: nat, d: nat, n: nat)
    requires d > 0
    ensures n <= x / d <==> n * d <= x
  {
    DivModFacts(x, d);
    var q := x / d;
    if n <= q { ProductMono(n, q, d); } else { ProductMono(q + 1, n, d); }
    assert (q + 1) * d == q * d + d;
  }

  /** The slots follow the header, and one another, without gaps. */
  lemma SlotsInLine(page: nat, i: nat, size: nat)
    ensures Address(Slot(page, 0), size) == 4096 * page + 48
    ensures Address(Slot(page, i + 1), size) == Address(Slot(page, i), size) + size
  {
    assert (i + 1) * size == i * size + size;
  }

  /** The four bitmap words of a page's header. */
  function Bitmap(words: seq<nat>, page: nat): seq<nat>
    requires 512 * page + 4 <= |words|
  {
    words[512 * page..512 * page + 4]
  }

  predicate FreeIn(bitmap: seq<nat>, s: nat)
    requires |bitmap| == 4 && s < SLOTS
  {
    Bit(bitmap[s / 64], s % 64)
  }

  lemma Flip(bitmap: seq<nat>, s: nat, t: nat)
    requires |bitmap| == 4 && s < SLOTS && t < SLOTS
    ensures var w := bitmap[s / 64];
            && FreeIn(bitmap[s / 64 := Xor(w, Pow2(s % 64))], t) == (FreeIn(bitmap, t) != (s == t))
            && FreeIn(bitmap[s / 64 := Or(w, Pow2(s % 64))], t) == (FreeIn(bitmap, t) || s == t)
  {
    XorBit(bitmap[s / 64], s % 64, t % 64);
    OrBit(bitmap[s / 64], s % 64, t % 64);
  }

  /** An allocator as a value: its pages in list order and the slots it has handed out. */
  datatype Cache = Cache(size: nat, pages: seq<nat>, live: set<Slot>)

  /** The allocator's pages are its own used pages, and the free bits of their headers are
      exactly the complement of the live slots. */
  ghost predicate CacheOk(words: seq<nat>, st: seq<Status>, base: nat, c: Cache) {
    && c.size > 0 && 512 * (base + |st|) <= |words|
    && (forall i :: 0 <= i < |c.pages| ==> UsedPage(st, base, c.pages[i]))
    && (forall i, j :: 0 <= i < j < |c.pages| ==> c.pages[i] != c.pages[j])
    && (forall s :: s in c.live ==> s.page in c.pages && s.index < Slots(c.size))
    && (forall i, s :: 0 <= i < |c.pages| && 0 <= s < SLOTS ==>
          (FreeIn(Bitmap(words, c.pages[i]), s) <==> s < Slots(c.size) && Slot(c.pages[i], s) !in c.live))
  }

  predicate UsedPage(st: seq<Status>, base: nat, page: nat) {
    base <= page < base + |st| && st[page - base] == Used
  }

  /** The slot slab_try_alloc takes: the lowest free one of the first page that has any. */
  ghost predicate FirstFree(c: Cache, slot: Slot)
    requires c.size > 0
  {
    exists i :: 0 <= i < |c.pages| && c.pages[i] == slot.page && FirstFreeAt(c, i, slot)
  }

  ghost predicate FirstFreeAt(c: Cache, i: nat, slot: Slot)
    requires c.size > 0 && i < |c.pages|
  {
    && slot.index < Slots(c.size) && slot !in c.live
    && AllLive(c, i)
    && (forall s :: 0 <= s < slot.index ==> Slot(slot.page, s) in c.live)
  }

  /** The first n pages have no free slot. */
  ghost predicate AllLive(c: Cache, n: nat)
    requires c.size > 0 && n <= |c.pages|
  {
    forall i, s :: 0 <= i < n && 0 <= s < Slots(c.size) ==> Slot(c.pages[i], s) in c.live
  }

  ghost predicate Full(c: Cache)
    requires c.size > 0
  {
    AllLive(c, |c.pages|)
  }

  ghost predicate HasFree(st: seq<Status>) { exists j :: 0 <= j < |st| && st[j] == Status.Free }

  /** page is the lowest free one. */
  ghost predicate LowestFreePage(st: seq<Status>, base: nat, page: nat) {
    && base <= page < base + |st| && st[page - base] == Status.Free
    && forall j :: 0 <= j < page - base ==> st[j] != Status.Free
  }

  /** What the scan of the i-th header says of the slots. */
  lemma ScanFound(words: seq<nat>, st: seq<Status>, base: nat, c: Cache, i: nat, s: nat)
    requires CacheOk(words, st, base, c) && i < |c.pages| && AllLive(c, i) && s < SLOTS
    requires FreeIn(Bitmap(words, c.pages[i]), s)
    requires forall t :: 0 <= t < s ==> !FreeIn(Bitmap(words, c.pages[i]), t)
    ensures FirstFree(c, Slot(c.pages[i], s)) && !Full(c)
    ensures s < Slots(c.size) && Slot(c.pages[i], s) !in c.live
  {
    assert FirstFreeAt(c, i, Slot(c.pages[i], s));
  }

  lemma ScanFailed(words: seq<nat>, st: seq<Status>, base: nat, c: Cache, i: nat)
    requires CacheOk(words, st, base, c) && i < |c.pages| && AllLive(c, i)
    requires forall t :: 0 <= t < SLOTS ==> !FreeIn(Bitmap(words, c.pages[i]), t)
    ensures AllLive(c, i + 1)
  {}

  /** No word changed outside the range. */
  ghost predicate OnlyWithin(words: seq<nat>, words': seq<nat>, from: nat, to: nat) {
    |words'| == |words| && forall k :: 0 <= k < |words| && !(from <= k < to) ==> words'[k] == words[k]
  }

  /** What slab_alloc leaves when it fails: all as it was, or, for objects that do not fit a
      page, a page more in the list, and no live slot more or less. */
  ghost predicate GaveUp(words: seq<nat>, st: seq<Status>, base: nat, c: Cache,
                         words': seq<nat>, st': seq<Status>, c': Cache)
    requires c.size > 0
  {
    if HasFree(st) then
      && Slots(c.size) == 0 && c'.pages != [] && c' == c.(pages := [c'.pages[0]] + c.pages)
      && LowestFreePage(st, base, c'.pages[0]) && st' == st[c'.pages[0] - base := Used]
      && OnlyWithin(words, words', 512 * c'.pages[0], 512 * c'.pages[0] + 512)
    else words' == words && st' == st && c' == c
  }

  /** What slab_alloc does: take the first free slot, or when there is none slot 0 of the
      lowest free page, which becomes the first of the list. */
  ghost predicate Allocated(words: seq<nat>, st: seq<Status>, base: nat, c: Cache,
                            words': seq<nat>, st': seq<Status>, c': Cache, slot: Slot)
    requires c.size > 0
  {
    && slot.index < Slots(c.size) && slot !in c.live
    && c'.size == c.size && c'.live == c.live + {slot}
    && if Full(c) then
         && slot.index == 0 && c'.pages == [slot.page] + c.pages
         && LowestFreePage(st, base, slot.page)
         && st' == st[slot.page - base := Used]
         && OnlyWithin(words, words', 512 * slot.page, 512 * slot.page + 512)
       else
         && FirstFree(c, slot) && c'.pages == c.pages && st' == st
         && OnlyWithin(words, words', 512 * slot.page, 512 * slot.page + 4)
  }

  /** Only the headers and the status of an allocator's own pages matter to it. */
  lemma Frame(words: seq<nat>, st: seq<Status>, base: nat, c: Cache, words': seq<nat>, st': seq<Status>)
    requires CacheOk(words, st, base, c) && |words'| == |words| && |st'| == |st|
    requires forall p :: p in c.pages ==> UsedPage(st', base, p)
    requires forall p, k :: p in c.pages && 512 * p <= k < 512 * p + 4 ==> words'[k] == words[k]
    ensures CacheOk(words', st', base, c)
  {
    forall i | 0 <= i < |c.pages|
      ensures Bitmap(words', c.pages[i]) == Bitmap(words, c.pages[i])
    {
      assert c.pages[i] in c.pages;
    }
  }

  /** A page with a fresh header joins the list. */
  lemma PageAdded(words: seq<nat>, st: seq<Status>, base: nat, c: Cache, page: nat, words': seq<nat>)
    requires CacheOk(words, st, base, c) && page !in c.pages && UsedPage(st, base, page)
    requires OnlyWithin(words, words', 512 * page, 512 * page + 512)
    requires forall t :: 0 <= t < SLOTS ==> (FreeIn(Bitmap(words', page), t) <==> t < Slots(c.size))
    ensures CacheOk(words', st, base, c.(pages := [page] + c.pages))
  {
    forall p, k | p in c.pages && 512 * p <= k < 512 * p + 4
      ensures words'[k] == words[k]
    {
      assert p != page;
    }
    Frame(words, st, base, c, words', st);
    Prepended(words', st, base, c, page);
  }

  lemma Prepended(words: seq<nat>, st: seq<Status>, base: nat, c: Cache, page: nat)
    requires CacheOk(words, st, base, c) && page !in c.pages && UsedPage(st, base, page)
    requires forall t :: 0 <= t < SLOTS ==> (FreeIn(Bitmap(words, page), t) <==> t < Slots(c.size))
    ensures CacheOk(words, st, base, c.(pages := [page] + c.pages))
  {}

  /** A header bit of a live or free slot changed, and nothing else. */
  lemma BitChanged(words: seq<nat>, st: seq<Status>, base: nat, c: Cache, c': Cache, slot: Slot, w: nat)
    requires CacheOk(words, st, base, c)
    requires slot.page in c.pages && slot.index < Slots(c.size)
    requires c' == c.(live := c'.live)
    requires
      || (slot !in c.live && c'.live == c.live + {slot}
          && w == Xor(words[512 * slot.page + slot.index / 64], Pow2(slot.index % 64)))
      || (c'.live == c.live - {slot}
          && w == Or(words[512 * slot.page + slot.index / 64], Pow2(slot.index % 64)))
    ensures CacheOk(words[512 * slot.page + slot.index / 64 := w], st, base, c')
  {
    var words' := words[512 * slot.page + slot.index / 64 := w];
    forall i, s | 0 <= i < |c.pages| && 0 <= s < SLOTS
      ensures FreeIn(Bitmap(words', c.pages[i]), s) <==> s < Slots(c.size) && Slot(c.pages[i], s) !in c'.live
    {
      var bitmap := Bitmap(words, c.pages[i]);
      if c.pages[i] == slot.page {
        assert Bitmap(words', slot.page) == bitmap[slot.index / 64 := w];
        Flip(bitmap, slot.index, s);
      } else {
        assert Bitmap(words', c.pages[i]) == bitmap;
      }
    }
  }

  class Allocator {
    const memory: Memory
    const objectSize: nat
    const objectsPerPage: nat
    var pages: seq<nat>
    ghost var live: set<Slot>

    ghost function Abs(): Cache
      reads this
    {
      Cache(objectSize, pages, live)
    }

    ghost predicate Valid()
      reads this, memory, memory.words, memory.status
    {
      && memory.Valid() && objectSize > 0 && objectsPerPage == AVAILABLE / objectSize
      && CacheOk(memory.words[..], memory.status[..], memory.base, Abs())
    }

    /** SLAB_OF and slab_allocator_init */
    constructor (memory: Memory, objectSize: nat)
      requires memory.Valid() && objectSize > 0
      ensures Valid() && this.memory == memory && Abs() == Cache(objectSize, [], {})
    {
      this.memory, this.objectSize := memory, objectSize;
      objectsPerPage := AVAILABLE / objectSize;
      pages, live := [], {};
    }

    /** The scan of one page's bitmaps: the lowest free slot, if any. */
    method LowestFree(page: nat) returns (s: Option<nat>)
      requires 512 * page + 4 <= memory.words.Length
      ensures s.None? ==> forall t :: 0 <= t < SLOTS ==> !FreeIn(Bitmap(memory.words[..], page), t)
      ensures s.Some? ==> s.value < SLOTS && FreeIn(Bitmap(memory.words[..], page), s.value)
                          && forall t :: 0 <= t < s.value ==> !FreeIn(Bitmap(memory.words[..], page), t)
    {
      ghost var bitmap := Bitmap(memory.words[..], page);
      var header := 512 * page;
      if memory.words[header] == 0 && memory.words[header + 1] == 0
         && memory.words[header + 2] == 0 && memory.words[header + 3] == 0
      {
        forall t | 0 <= t < SLOTS
          ensures !FreeIn(bitmap, t)
        {
          assert bitmap[t / 64] == 0;
          ZeroBits(t % 64);
        }
        return None;
      }
      for i := 0 to 4
        invariant forall t :: 0 <= t < 64 * i ==> !FreeIn(bitmap, t)
      {
        for j := 0 to 64
          invariant forall t :: 0 <= t < 64 * i + j ==> !FreeIn(bitmap, t)
        {
          var slotNumber := 64 * i + j;
          assert slotNumber / 64 == i && slotNumber % 64 == j && bitmap[i] == memory.words[header + i];
          if Shr(memory.words[header + i], j) % 2 == 1 {
            return Some(slotNumber);
          }
        }
      }
      return None;
    }

    /** free_bitmaps[i] ^= 1 << j: the header bit of a free slot flips; the address is that of
        the slot. */
    method Take(page: nat, index: nat, ghost slot: Slot) returns (address: nat)
      requires slot == Slot(page, index)
      requires Valid() && slot.page in pages && slot.index < Slots(objectSize) && slot !in live
      modifies this`live, memory.words
      ensures Valid() && live == old(live) + {slot} && address == Address(slot, objectSize)
      ensures OnlyWithin(old(memory.words[..]), memory.words[..], 512 * slot.page, 512 * slot.page + 4)
    {
      FlipFree(page, index, slot);
      address := 4096 * page + HEADER + index * objectSize;
    }

    method FlipFree(page: nat, index: nat, ghost slot: Slot)
      requires slot == Slot(page, index)
      requires Valid() && slot.page in pages && slot.index < Slots(objectSize) && slot !in live
      modifies this`live, memory.words
      ensures Valid() && live == old(live) + {slot}
      ensures OnlyWithin(old(memory.words[..]), memory.words[..], 512 * slot.page, 512 * slot.page + 4)
    {
      var at := 512 * page + index / 64;
      var w := Xor(memory.words[at], Pow2(index % 64));
      ghost var c, words := Abs(), memory.words[..];
      BitChanged(words, memory.status[..], memory.base, c, c.(live := live + {slot}), slot, w);
      memory.words[at] := w;
      assert memory.words[..] == words[at := w];
      live := live + {slot};
    }

    /** slab_try_alloc */
    method TryAlloc() returns (address: Option<nat>, ghost slot: Slot)
      requires Valid()
      modifies this`live, memory.words
      ensures Valid() && (address.None? <==> Full(old(Abs())))
      ensures address.None? ==> live == old(live) && memory.words[..] == old(memory.words[..])
      ensures address.Some? ==>
        && FirstFree(old(Abs()), slot) && slot.index < Slots(objectSize) && slot !in old(live)
        && live == old(live) + {slot} && address.value == Address(slot, objectSize)
        && OnlyWithin(old(memory.words[..]), memory.words[..], 512 * slot.page, 512 * slot.page + 4)
    {
      slot := Slot(0, 0);
      ghost var c := Abs();
      for i := 0 to |pages|
        invariant live == old(live) && memory.words[..] == old(memory.words[..])
        invariant c == Abs() && AllLive(c, i)
      {
        var s := LowestFree(pages[i]);
        if s.None? {
          ScanFailed(memory.words[..], memory.status[..], memory.base, c, i);
        } else {
          slot := Slot(pages[i], s.value);
          ScanFound(memory.words[..], memory.status[..], memory.base, c, i, s.value);
          var a := Take(pages[i], s.value, slot);
          return Some(a), slot;
        }
      }
      return None, slot;
    }

    /** memset and the loop that marks the page's slots free. */
    method InitHeader(page: nat)
      requires objectSize > 0 && objectsPerPage == AVAILABLE / objectSize && 512 * page + 512 <= memory.words.Length
      modifies memory.words
      ensures OnlyWithin(old(memory.words[..]), memory.words[..], 512 * page, 512 * page + 512)
      ensures forall t :: 0 <= t < SLOTS ==> (FreeIn(Bitmap(memory.words[..], page), t) <==> t < Slots(objectSize))
    {
      ghost var words := memory.words[..];
      for k := 512 * page to 512 * page + 512
        invariant OnlyWithin(words, memory.words[..], 512 * page, 512 * page + 512)
        invariant forall j :: 512 * page <= j < k ==> memory.words[j] == 0
      {
        memory.words[k] := 0;
      }
      forall t | 0 <= t < SLOTS
        ensures !FreeIn(Bitmap(memory.words[..], page), t)
      {
        ZeroBits(t % 64);
      }
      label fill:
      for i := 0 to 4
        invariant 64 * i <= objectsPerPage
        invariant OnlyWithin(words, memory.words[..], 512 * page, 512 * page + 512)
        invariant forall t :: 0 <= t < SLOTS ==> (FreeIn(Bitmap(memory.words[..], page), t) <==> t < 64 * i)
      {
        for j := 0 to 64
          invariant 64 * i + j <= objectsPerPage
          invariant OnlyWithin(words, memory.words[..], 512 * page, 512 * page + 512)
          invariant forall t :: 0 <= t < SLOTS ==> (FreeIn(Bitmap(memory.words[..], page), t) <==> t < 64 * i + j)
        {
          var slotNumber := 64 * i + j;
          if slotNumber >= objectsPerPage {
            break fill;
          }
          MarkFree(page, slotNumber);
        }
      }
    }

    /** kpage_alloc of one page, which joins the head of the list. */
    method NewPage() returns (page: Option<nat>)
      requires Valid()
      modifies this`pages, memory`used, memory.words, memory.status
      ensures Valid() && (page.None? <==> !HasFree(old(memory.status[..])))
      ensures page.None? ==>
        pages == old(pages) && memory.words[..] == old(memory.words[..]) && memory.status[..] == old(memory.status[..])
      ensures page.Some? ==>
        && LowestFreePage(old(memory.status[..]), memory.base, page.value)
        && pages == [page.value] + old(pages)
        && memory.status[..] == old(memory.status[..])[page.value - memory.base := Used]
        && OnlyWithin(old(memory.words[..]), memory.words[..], 512 * page.value, 512 * page.value + 512)
    {
      ghost var st, words := memory.status[..], memory.words[..];
      page := memory.KpageAlloc(1);
      assert forall j :: 0 <= j < |st| && st[j] == Status.Free ==> FreeRun(st, j, 1);
      if page.None? {
        return;
      }
      assert FreeRun(st, page.value - memory.base, 1);
      Frame(words, st, memory.base, Abs(), words, memory.status[..]);
      InitHeader(page.value);
      PageAdded(words, memory.status[..], memory.base, Abs(), page.value, memory.words[..]);
      pages := [page.value] + pages;
    }

    /** free_bitmaps[i] |= 1 << j */
    method MarkFree(page: nat, s: nat)
      requires 512 * page + 4 <= memory.words.Length && s < SLOTS
      modifies memory.words
      ensures OnlyWithin(old(memory.words[..]), memory.words[..], 512 * page, 512 * page + 4)
      ensures memory.words[..] == old(memory.words[..])[512 * page + s / 64 :=
                Or(old(memory.words[512 * page + s / 64]), Pow2(s % 64))]
      ensures forall t :: 0 <= t < SLOTS ==>
        (FreeIn(Bitmap(memory.words[..], page), t) <==> t == s || FreeIn(Bitmap(old(memory.words[..]), page), t))
    {
      ghost var words := memory.words[..];
      var at := 512 * page + s / 64;
      memory.words[at] := Or(memory.words[at], Pow2(s % 64));
      assert memory.words[..] == words[at := memory.words[at]];
      assert Bitmap(memory.words[..], page) == Bitmap(words, page)[s / 64 := memory.words[at]];
      forall t | 0 <= t < SLOTS
        ensures FreeIn(Bitmap(memory.words[..], page), t) <==> t == s || FreeIn(Bitmap(words, page), t)
      {
        Flip(Bitmap(words, page), s, t);
      }
    }

    /** slab_alloc: None where the source panics, which is exactly when every slot is taken
        and no page can be had or the object does not fit one. */
    method Alloc() returns (address: Option<nat>, ghost slot: Slot)
      requires Valid()
      modifies this`pages, this`live, memory`used, memory.words, memory.status
      ensures Valid()
      ensures address.None? <==>
        Full(old(Abs())) && (objectsPerPage == 0 || !HasFree(old(memory.status[..])))
      ensures address.Some? ==>
        && address.value == Address(slot, objectSize)
        && Allocated(old(memory.words[..]), old(memory.status[..]), memory.base, old(Abs()),
                     memory.words[..], memory.status[..], Abs(), slot)
      ensures address.None? ==>
        GaveUp(old(memory.words[..]), old(memory.status[..]), memory.base, old(Abs()), memory.words[..], memory.status[..], Abs())
    {
      address, slot := TryAlloc();
      if address.Some? {
        return;
      }
      var page := NewPage();
      if page.None? {
        return;
      }
      assert pages[0] == page.value && page.value !in old(pages);
      assert Slots(objectSize) > 0 ==> Slot(pages[0], 0) !in live;
      address, slot := TryAlloc();
    }

    /** The bit of a slot set. */
    method Release(slot: Slot)
      requires Valid() && slot.page in pages && slot.index < Slots(objectSize)
      modifies this`live, memory.words
      ensures Valid() && live == old(live) - {slot}
      ensures OnlyWithin(old(memory.words[..]), memory.words[..], 512 * slot.page, 512 * slot.page + 4)
    {
      ghost var c, words := Abs(), memory.words[..];
      MarkFree(slot.page, slot.index);
      BitChanged(words, memory.status[..], memory.base, c, c.(live := live - {slot}), slot,
                 Or(words[512 * slot.page + slot.index / 64], Pow2(slot.index % 64)));
      live := live - {slot};
    }

    /** slab_free of an address in one of the allocator's slots; false where the source
        panics. */
    method Free(address: nat) returns (ok: bool)
      requires Valid() && address / 4096 in pages && address % 4096 >= HEADER
      requires (address % 4096 - HEADER) / objectSize < Slots(objectSize)
      modifies this`live, memory.words
      ensures Valid() && (ok <==> (address % 4096 - HEADER) % objectSize == 0)
      ensures ok ==>
        && var slot := Slot(address / 4096, (address % 4096 - HEADER) / objectSize);
        && live == old(live) - {slot}
        && OnlyWithin(old(memory.words[..]), memory.words[..], 512 * slot.page, 512 * slot.page + 4)
      ensures !ok ==> live == old(live) && memory.words[..] == old(memory.words[..])
    {
      var page := address / 4096;
      var pageOffset := address % 4096 - HEADER;
      var slotNumber := pageOffset / objectSize;
      if pageOffset % objectSize != 0 {
        return false;
      }
      Release(Slot(page, slotNumber));
      ok := true;
    }
  }

  /** Physical memory shared by several allocators and everybody else. */
  datatype Heap = Heap(words: seq<nat>, status: seq<Status>, base: nat, caches: seq<Cache>)

  datatype Action =
    | SlabAlloc(i: nat, slot: Slot)
    | SlabFail(i: nat)
    | SlabFree(i: nat, slot: Slot)
    | Others  // owners write their objects; other subsystems take and return pages of their own

  ghost predicate HeapOk(h: Heap) {
    && (forall i :: 0 <= i < |h.caches| ==> CacheOk(h.words, h.status, h.base, h.caches[i]))
    && (forall i, j :: 0 <= i < j < |h.caches| ==> Apart(h.caches[i], h.caches[j]))
  }

  ghost predicate Apart(c: Cache, d: Cache) {
    forall p :: p in c.pages ==> p !in d.pages
  }

  /** What the methods of Allocator ensure of one step, allocator i being the one called. */
  ghost predicate Step(h: Heap, a: Action, h': Heap)
    requires HeapOk(h)
  {
    && h'.base == h.base && |h'.words| == |h.words| && |h'.status| == |h.status| && |h'.caches| == |h.caches|
    && match a
       case Others =>
         && h'.caches == h.caches
         && (forall c, p :: c in h.caches && p in c.pages ==> UsedPage(h'.status, h.base, p))
         && (forall c, p, k :: c in h.caches && p in c.pages && 512 * p <= k < 512 * p + 6 ==> h'.words[k] == h.words[k])
       case SlabAlloc(i, slot) =>
         && i < |h.caches| && h'.caches == h.caches[i := h'.caches[i]]
         && Allocated(h.words, h.status, h.base, h.caches[i], h'.words, h'.status, h'.caches[i], slot)
         && CacheOk(h'.words, h'.status, h.base, h'.caches[i])
       case SlabFail(i) =>
         && i < |h.caches| && h'.caches == h.caches[i := h'.caches[i]]
         && GaveUp(h.words, h.status, h.base, h.caches[i], h'.words, h'.status, h'.caches[i])
         && CacheOk(h'.words, h'.status, h.base, h'.caches[i])
       case SlabFree(i, slot) =>
         && i < |h.caches| && h'.caches == h.caches[i := h'.caches[i]]
         && slot in h.caches[i].live && h'.status == h.status
         && h'.caches[i] == h.caches[i].(live := h.caches[i].live - {slot})
         && OnlyWithin(h.words, h'.words, 512 * slot.page, 512 * slot.page + 4)
         && CacheOk(h'.words, h'.status, h.base, h'.caches[i])
  }

  lemma StepKeeps(h: Heap, a: Action, h': Heap)
    requires HeapOk(h) && Step(h, a, h')
    ensures HeapOk(h')
  {
    forall i | 0 <= i < |h.caches|
      ensures CacheOk(h'.words, h'.status, h.base, h'.caches[i])
    {
      var c := h.caches[i];
      if a.Others? || a.i != i {
        forall p | p in c.pages
          ensures UsedPage(h'.status, h.base, p)
          ensures forall k :: 512 * p <= k < 512 * p + 4 ==> h'.words[k] == h.words[k]
        {
          assert c in h.caches;
          if !a.Others? { PageKept(h, a, h', i, p); }
        }
        Frame(h.words, h.status, h.base, c, h'.words, h'.status);
      }
    }
    forall i, j | 0 <= i < j < |h.caches|
      ensures Apart(h'.caches[i], h'.caches[j])
    {
      assert Apart(h.caches[i], h.caches[j]);
    }
  }

  /** Another allocator's page is neither taken nor written by a step. */
  lemma PageKept(h: Heap, a: Action, h': Heap, j: nat, p: nat)
    requires HeapOk(h) && Step(h, a, h') && !a.Others? && j < |h.caches| && j != a.i && p in h.caches[j].pages
    ensures UsedPage(h'.status, h.base, p) && p !in h'.caches[a.i].pages
    ensures forall k :: 512 * p <= k < 512 * p + 4 ==> h'.words[k] == h.words[k]
  {
    assert CacheOk(h.words, h.status, h.base, h.caches[j]);
    assert Apart(h.caches[if j < a.i then j else a.i], h.caches[if j < a.i then a.i else j]);
    assert UsedPage(h.status, h.base, p);
  }

  /** Every run keeps the allocators well formed and apart. */
  lemma {:induction false} RunKeeps(states: seq<Heap>, actions: seq<Action>)
    requires |states| == |actions| + 1 && HeapOk(states[0])
    requires forall k :: 0 <= k < |actions| ==> HeapOk(states[k]) ==> Step(states[k], actions[k], states[k + 1])
    ensures forall k :: 0 <= k < |states| ==> HeapOk(states[k])
    decreases |actions|
  {
    if actions != [] {
      var n := |actions| - 1;
      RunKeeps(states[..n + 1], actions[..n]);
      assert HeapOk(states[..n + 1][n]);
      StepKeeps(states[n], actions[n], states[n + 1]);
    }
  }

  /** Two different live objects never share a byte, whichever allocators they come from,
      and each lies in a used page behind that page's header. */
  lemma LiveObjectsApart(h: Heap, i: nat, s: Slot, j: nat, t: Slot)
    requires HeapOk(h) && i < |h.caches| && j < |h.caches| && (i != j || s != t)
    requires s in h.caches[i].live && t in h.caches[j].live
    ensures var (a, m, b, n) := (Address(s, h.caches[i].size), h.caches[i].size, Address(t, h.caches[j].size), h.caches[j].size);
            && UsedPage(h.status, h.base, a / 4096)
            && 4096 * (a / 4096) + HEADER <= a && a + m <= 4096 * (a / 4096 + 1)
            && (a + m <= b || b + n <= a)
  {
    var c, d := h.caches[i], h.caches[j];
    assert CacheOk(h.words, h.status, h.base, c) && CacheOk(h.words, h.status, h.base, d);
    SlotInverse(s, c.size);
    SlotInverse(t, d.size);
    if i != j {
      assert Apart(h.caches[if i < j then i else j], h.caches[if i < j then j else i]);
      assert s.page != t.page;
    } else if s.page == t.page {
      IndexGap(s.index, t.index, c.size);
      IndexGap(t.index, s.index, c.size);
    }
  }

  lemma IndexGap(a: nat, b: nat, size: nat)
    ensures a < b ==> a * size + size <= b * size
  {
    if a < b { ProductMono(a + 1, b, size); }
    assert (a + 1) * size == a * size + size;
  }

  // ---- the methods take these steps

  ghost function CachesOf(a: seq<Allocator>): (c: seq<Cache>)
    reads a
    ensures |c| == |a| && forall i :: 0 <= i < |a| ==> c[i] == a[i].Abs()
  {
    if a == [] then [] else CachesOf(a[..|a| - 1]) + [a[|a| - 1].Abs()]
  }

  ghost function HeapOf(m: Memory, a: seq<Allocator>): Heap
    reads m.words, m.status, a
  {
    Heap(m.words[..], m.status[..], m.base, CachesOf(a))
  }

  /** Different allocators of one memory, well formed and apart. */
  ghost predicate Sharing(m: Memory, a: seq<Allocator>)
    reads m, m.words, m.status, a
  {
    && m.Valid() && HeapOk(HeapOf(m, a))
    && (forall i :: 0 <= i < |a| ==>
          a[i].memory == m && a[i].objectSize > 0 && a[i].objectsPerPage == AVAILABLE / a[i].objectSize)
    && (forall i, j :: 0 <= i < j < |a| ==> a[i] != a[j])
  }

  /** slab_alloc by the i-th of several allocators. */
  method AllocFrom(o: Allocator, ghost a: seq<Allocator>, ghost i: nat) returns (address: Option<nat>, ghost slot: Slot)
    requires i < |a| && a[i] == o && Sharing(o.memory, a)
    modifies o`pages, o`live, o.memory`used, o.memory.words, o.memory.status
    ensures address.None? <==> Full(old(o.Abs())) && (o.objectsPerPage == 0 || !HasFree(old(o.memory.status[..])))
    ensures address.Some? ==> address.value == Address(slot, o.objectSize)
    ensures address.None? ==> forall k :: 0 <= k < |a| ==> a[k].live == old(a[k].live)
    ensures address.None? && o.objectsPerPage > 0 ==> HeapOf(o.memory, a) == old(HeapOf(o.memory, a))
    ensures Sharing(o.memory, a) && HeapOk(old(HeapOf(o.memory, a)))
    ensures Step(old(HeapOf(o.memory, a)), if address.Some? then SlabAlloc(i, slot) else SlabFail(i), HeapOf(o.memory, a))
  {
    ghost var h := HeapOf(o.memory, a);
    assert CacheOk(h.words, h.status, h.base, h.caches[i]);
    address, slot := o.Alloc();
    OthersSame(h, a, i);
    StepKeeps(h, if address.Some? then SlabAlloc(i, slot) else SlabFail(i), HeapOf(o.memory, a));
  }

  /** slab_free, by the i-th of several allocators, of an object of its own. */
  method FreeTo(o: Allocator, ghost a: seq<Allocator>, ghost i: nat, address: nat, ghost slot: Slot) returns (ok: bool)
    requires i < |a| && a[i] == o && Sharing(o.memory, a)
    requires slot in o.live && address == Address(slot, o.objectSize)
    modifies o`live, o.memory.words
    ensures ok && Sharing(o.memory, a)
    ensures HeapOk(old(HeapOf(o.memory, a))) && Step(old(HeapOf(o.memory, a)), SlabFree(i, slot), HeapOf(o.memory, a))
  {
    ghost var h := HeapOf(o.memory, a);
    assert CacheOk(h.words, h.status, h.base, h.caches[i]);
    SlotInverse(slot, o.objectSize);
    ok := o.Free(address);
    OthersSame(h, a, i);
    StepKeeps(h, SlabFree(i, slot), HeapOf(o.memory, a));
  }

  /** Nobody but the i-th allocator changed. */
  lemma OthersSame(h: Heap, a: seq<Allocator>, i: nat)
    requires i < |a| && |h.caches| == |a| && forall j :: 0 <= j < |a| && j != i ==> a[j].Abs() == h.caches[j]
    ensures CachesOf(a) == h.caches[i := a[i].Abs()]
  {}
}
