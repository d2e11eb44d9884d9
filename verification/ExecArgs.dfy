/** The argument block that exec builds on the new user stack, and how _start reads it. */
module ExecArgs {
  import opened Words
  import opened Bytes
  import CStrings

  const PAGE: nat := 4096

  // ---- pointers in memory

  /** Value of little-endian bytes. */
  function Decode(b: seq<byte>): nat {
    if b == [] then 0 else b[0] as nat + 256 * Decode(b[1..])
  }

  function Encode(v: nat, n: nat): (b: seq<byte>)
    ensures |b| == n
  {
    if n == 0 then [] else [(v % 256) as byte] + Encode(v / 256, n - 1)
  }

  lemma {:induction false} DecodeEncode(v: nat, n: nat)
    requires v < Pow2(8 * n)
    ensures Decode(Encode(v, n)) == v
  {
    if n > 0 {
      Pow2Add(8, 8 * (n - 1));
      assert Pow2(8) == 256 by { assert Pow2(4) == 16; Pow2Add(4, 4); }
      assert v / 256 < Pow2(8 * (n - 1));
      DecodeEncode(v / 256, n - 1);
    }
  }

  function PointerBytes(v: nat): (b: seq<byte>)
    ensures |b| == 8
  {
    Encode(v, 8)
  }

  function Pointer(m: seq<byte>, at: nat): nat
    requires at + 8 <= |m|
  {
    Decode(m[at..at + 8])
  }

  /** The lowest byte comes first. */
  lemma PointerPlaces(m: seq<byte>, at: nat)
    requires at + 8 <= |m|
    ensures Pointer(m, at)
         == m[at] as nat + 0x100 * m[at + 1] as nat + 0x1_0000 * m[at + 2] as nat + 0x100_0000 * m[at + 3] as nat
            + 0x1_0000_0000 * (m[at + 4] as nat + 0x100 * m[at + 5] as nat + 0x1_0000 * m[at + 6] as nat + 0x100_0000 * m[at + 7] as nat)
  {
    var b := m[at..at + 8];
    FourBytes(b);
    FourBytes(b[4..]);
    assert b[4..][4..] == [];
  }

  lemma FourBytes(b: seq<byte>)
    requires |b| >= 4
    ensures Decode(b) == b[0] as nat + 0x100 * b[1] as nat + 0x1_0000 * b[2] as nat + 0x100_0000 * b[3] as nat
                         + 0x1_0000_0000 * Decode(b[4..])
  {
    assert b[1..][1..] == b[2..] && b[2..][1..] == b[3..] && b[3..][1..] == b[4..];
    assert Decode(b[3..]) == b[3] as nat + 256 * Decode(b[4..]);
    assert Decode(b[2..]) == b[2] as nat + 256 * Decode(b[3..]);
    assert Decode(b[1..]) == b[1] as nat + 256 * Decode(b[2..]);
  }

  lemma StoredPointer(m: seq<byte>, at: nat, v: nat)
    requires at + 8 <= |m| && v < B64
    ensures Pointer(Overlay(m, at, PointerBytes(v)), at) == v
  {
    Pow2Values();
    assert 8 * 8 == 64;
    DecodeEncode(v, 8);
    assert Overlay(m, at, PointerBytes(v))[at..at + 8] == PointerBytes(v);
  }

  /** Bytes away from an overlay stay. */
  lemma OverlayApart(m: seq<byte>, at: nat, d: seq<byte>, from: nat, to: nat)
    requires at + |d| <= |m| && from <= to <= |m| && (to <= at || at + |d| <= from)
    ensures Overlay(m, at, d)[from..to] == m[from..to]
  {}

  // ---- the layout

  /** Where the pointer array starts. */
  function Pointers(argv: seq<seq<byte>>): int { PAGE - 8 * (|argv| + 1) }

  /** The lowest byte in use once i strings are placed. */
  function Top(argv: seq<seq<byte>>, i: nat): int
    requires i <= |argv|
  {
    if i == 0 then Pointers(argv) else Top(argv, i - 1) - |argv[i - 1]| - 1
  }

  /** The block fits one page, with room for the pointer to the pointer array. */
  ghost predicate Fits(argv: seq<seq<byte>>) {
    Top(argv, |argv|) >= 8 && forall i :: 0 <= i < |argv| ==> 0 !in argv[i]
  }

  function AlignDown(x: nat): (r: nat)
    ensures r <= x < r + 8 && r % 8 == 0
  {
    x / 8 * 8
  }

  /** Where the stack pointer ends up, from the start of the page. */
  function Start(argv: seq<seq<byte>>): nat
    requires Fits(argv)
  {
    AlignDown((Top(argv, |argv|) - 8) as nat)
  }

  lemma {:induction false} TopOrder(argv: seq<seq<byte>>, i: nat, j: nat)
    requires i <= j <= |argv|
    ensures Top(argv, j) <= Top(argv, i) <= Pointers(argv)
    ensures i < j ==> Top(argv, j) <= Top(argv, i) - |argv[i]| - 1
    decreases j
  {
    if j > 0 {
      if i < j { TopOrder(argv, i, j - 1); } else { TopOrder(argv, j - 1, j - 1); }
    }
  }

  /** For every argv: the aligned pointer lies below what is in use, as near as it can, all
      strings lie between it and the pointer array, and the array with its null pointer ends
      the page. */
  lemma BlockInPage(argv: seq<seq<byte>>)
    requires Fits(argv)
    ensures Start(argv) % 8 == 0 && Start(argv) + 8 <= Top(argv, |argv|) <= Pointers(argv) == Top(argv, 0)
    ensures Top(argv, |argv|) < Start(argv) + 16 && Pointers(argv) + 8 * (|argv| + 1) == 4096
  {
    TopOrder(argv, 0, |argv|);
  }

  /** Each string, with its NUL, lies between the aligned pointer and the pointer array. */
  lemma StringInPage(argv: seq<seq<byte>>, i: nat)
    requires Fits(argv) && i < |argv|
    ensures Start(argv) + 8 <= Top(argv, i + 1) && Top(argv, i + 1) + |argv[i]| + 1 == Top(argv, i) <= Pointers(argv)
  {
    TopOrder(argv, i + 1, |argv|);
    TopOrder(argv, 0, i);
  }

  /** Two strings are disjoint, the later one below. */
  lemma StringsApart(argv: seq<seq<byte>>, i: nat, j: nat)
    requires Fits(argv) && i < j < |argv|
    ensures Top(argv, j + 1) + |argv[j]| + 1 <= Top(argv, i + 1)
  {
    TopOrder(argv, i + 1, j);
  }

  /** The first n strings are in place, each with its NUL, and shift added to where they are
      gives the first n pointers. */
  ghost predicate Placed(m: seq<byte>, argv: seq<seq<byte>>, n: nat, shift: int)
    requires Fits(argv) && n <= |argv|
  {
    |m| == PAGE && forall i :: 0 <= i < n ==> PlacedAt(m, argv, i, shift)
  }

  ghost predicate PlacedAt(m: seq<byte>, argv: seq<seq<byte>>, i: nat, shift: int)
    requires Fits(argv) && i < |argv| && |m| == PAGE
  {
    StringAt(m, argv, i) && SlotAt(m, argv, i) == Top(argv, i + 1) + shift
  }

  ghost predicate StringAt(m: seq<byte>, argv: seq<seq<byte>>, i: nat)
    requires Fits(argv) && i < |argv| && |m| == PAGE
  {
    TopOrder(argv, i, |argv|);
    TopOrder(argv, i + 1, |argv|);
    m[Top(argv, i + 1)..Top(argv, i)] == argv[i] + [0]
  }

  /** The i-th entry of the pointer array. */
  function SlotAt(m: seq<byte>, argv: seq<seq<byte>>, i: nat): nat
    requires Fits(argv) && i <= |argv| && |m| == PAGE
  {
    TopOrder(argv, 0, |argv|);
    Pointer(m, Pointers(argv) + 8 * i)
  }

  /** A write outside string i and its pointer. */
  lemma PlacedKept(m: seq<byte>, argv: seq<seq<byte>>, i: nat, shift: int, at: nat, d: seq<byte>)
    requires Fits(argv) && i < |argv| && |m| == PAGE && PlacedAt(m, argv, i, shift) && at + |d| <= PAGE
    requires at + |d| <= Top(argv, i + 1) || Top(argv, i) <= at
    requires var p := Pointers(argv) + 8 * i; at + |d| <= p || p + 8 <= at
    ensures PlacedAt(Overlay(m, at, d), argv, i, shift)
  {
    TopOrder(argv, 0, |argv|);
    TopOrder(argv, i, |argv|);
    TopOrder(argv, i + 1, |argv|);
    OverlayApart(m, at, d, Top(argv, i + 1), Top(argv, i));
    OverlayApart(m, at, d, Pointers(argv) + 8 * i, Pointers(argv) + 8 * i + 8);
  }

  /** The next string and its pointer. */
  lemma PlaceOne(m: seq<byte>, m1: seq<byte>, m2: seq<byte>, argv: seq<seq<byte>>, i: nat, base: nat)
    requires Fits(argv) && i < |argv| && Placed(m, argv, i, base) && base + PAGE < B64
    requires Top(argv, i + 1) >= 0 && 8 <= Top(argv, i) <= Pointers(argv)
    requires m1 == Overlay(m, Top(argv, i + 1), argv[i] + [0])
    requires m2 == Overlay(m1, Pointers(argv) + 8 * i, PointerBytes(base + Top(argv, i + 1)))
    ensures Placed(m2, argv, i + 1, base)
  {
    BlockInPage(argv);
    StringInPage(argv, i);
    PlacedHere(m, m1, m2, argv, i, base);
    forall j | 0 <= j < i
      ensures PlacedAt(m2, argv, j, base)
    {
      assert PlacedAt(m, argv, j, base);
      StringInPage(argv, j);
      StringsApart(argv, j, i);
      PlacedKept(m, argv, j, base, Top(argv, i + 1), argv[i] + [0]);
      PlacedKept(m1, argv, j, base, Pointers(argv) + 8 * i, PointerBytes(base + Top(argv, i + 1)));
    }
  }

  lemma PlacedHere(m: seq<byte>, m1: seq<byte>, m2: seq<byte>, argv: seq<seq<byte>>, i: nat, base: nat)
    requires Fits(argv) && i < |argv| && |m| == PAGE && base + PAGE < B64
    requires Top(argv, i + 1) >= 0 && 8 <= Top(argv, i) <= Pointers(argv)
    requires m1 == Overlay(m, Top(argv, i + 1), argv[i] + [0])
    requires m2 == Overlay(m1, Pointers(argv) + 8 * i, PointerBytes(base + Top(argv, i + 1)))
    ensures PlacedAt(m2, argv, i, base)
  {
    StringInPage(argv, i);
    var (at, slot) := (Top(argv, i + 1), Pointers(argv) + 8 * i);
    StoredPointer(m1, slot, base + at);
    assert m1[at..Top(argv, i)] == argv[i] + [0];
    OverlayApart(m1, slot, PointerBytes(base + at), at, Top(argv, i));
  }

  /** The whole block, with the pointers meaning positions plus shift. */
  ghost predicate Block(m: seq<byte>, argv: seq<seq<byte>>, shift: int)
    requires Fits(argv)
  {
    && Placed(m, argv, |argv|, shift) && SlotAt(m, argv, |argv|) == 0
    && Start(argv) + 8 <= PAGE && Pointer(m, Start(argv)) == Pointers(argv) + shift
  }

  /** The two last stores: the null pointer, and the pointer to the array. */
  lemma FinishBlock(m: seq<byte>, m1: seq<byte>, m2: seq<byte>, argv: seq<seq<byte>>, base: nat)
    requires Fits(argv) && Placed(m, argv, |argv|, base) && base + PAGE < B64
    requires Pointers(argv) >= 8 && Start(argv) + 8 <= Pointers(argv)
    requires m1 == Overlay(m, Pointers(argv) + 8 * |argv|, PointerBytes(0))
    requires m2 == Overlay(m1, Start(argv), PointerBytes(base + Pointers(argv)))
    ensures Block(m2, argv, base)
  {
    var slot := Pointers(argv) + 8 * |argv|;
    StoredPointer(m, slot, 0);
    StoredPointer(m1, Start(argv), base + Pointers(argv));
    OverlayApart(m1, Start(argv), PointerBytes(base + Pointers(argv)), slot, slot + 8);
    forall j | 0 <= j < |argv|
      ensures PlacedAt(m2, argv, j, base)
    {
      FinishKeeps(m, m1, m2, argv, base, j);
    }
  }

  lemma FinishKeeps(m: seq<byte>, m1: seq<byte>, m2: seq<byte>, argv: seq<seq<byte>>, base: nat, j: nat)
    requires Fits(argv) && Placed(m, argv, |argv|, base) && base + PAGE < B64 && j < |argv|
    requires Pointers(argv) >= 8 && Start(argv) + 8 <= Pointers(argv)
    requires m1 == Overlay(m, Pointers(argv) + 8 * |argv|, PointerBytes(0))
    requires m2 == Overlay(m1, Start(argv), PointerBytes(base + Pointers(argv)))
    ensures PlacedAt(m2, argv, j, base)
  {
    assert PlacedAt(m, argv, j, base);
    TopOrder(argv, j + 1, |argv|);
    TopOrder(argv, 0, j);
    PlacedKept(m, argv, j, base, Pointers(argv) + 8 * |argv|, PointerBytes(0));
    PlacedKept(m1, argv, j, base, Start(argv), PointerBytes(base + Pointers(argv)));
  }

  /** memcpy of known bytes. */
  method Store(m: array<byte>, at: nat, d: seq<byte>)
    requires at + |d| <= m.Length
    modifies m
    ensures m[..] == Overlay(old(m[..]), at, d)
  {
    ghost var before := m[..];
    for i := 0 to |d|
      invariant forall k :: 0 <= k < m.Length ==> m[k] == if at <= k < at + i then d[k - at] else before[k]
    {
      m[at + i] := d[i];
    }
  }

  lemma AlignInPage(base: nat, x: nat)
    requires base % PAGE == 0
    ensures AlignDown(base + x) == base + AlignDown(x)
  {
    var q := base / PAGE;
    assert base == 8 * (512 * q);
    assert (base + x) / 8 == 512 * q + x / 8;
  }

  /** The address base + top - 8 with its low three bits cleared, from the start of the page. */
  method AlignTop(base: nat, top: nat) returns (at: nat)
    requires base % PAGE == 0 && top >= 8
    ensures at == AlignDown(top - 8)
  {
    AlignInPage(base, top - 8);
    at := AlignDown(base + top - 8) - base;
  }

  /** Building the block in a kernel page at address base. */
  method Layout(argv: seq<seq<byte>>, base: nat) returns (m: array<byte>, stackTop: nat)
    requires Fits(argv) && base % PAGE == 0 && base + PAGE < B64
    ensures fresh(m) && stackTop == Start(argv) && Block(m[..], argv, base)
  {
    m := new byte[PAGE](_ => 0);
    TopOrder(argv, 0, |argv|);
    var pointers: nat := PAGE - (|argv| + 1) * 8;
    var top: nat := pointers;
    for i := 0 to |argv|
      invariant m.Length == PAGE && top == Top(argv, i) && Placed(m[..], argv, i, base)
    {
      top := PlaceArgument(m, argv, base, pointers, i, top);
    }
    stackTop := AlignTop(base, top);
    Finish(m, argv, base, pointers, stackTop);
  }

  /** One argument: its bytes below what is in use, and its pointer. */
  method PlaceArgument(m: array<byte>, argv: seq<seq<byte>>, base: nat, pointers: nat, i: nat, top: nat) returns (at: nat)
    requires Fits(argv) && base + PAGE < B64 && i < |argv| && pointers == Pointers(argv) && top == Top(argv, i)
    requires m.Length == PAGE && Placed(m[..], argv, i, base)
    modifies m
    ensures at == Top(argv, i + 1) && Placed(m[..], argv, i + 1, base)
  {
    BlockInPage(argv);
    StringInPage(argv, i);
    ghost var m0 := m[..];
    at := top - |argv[i]| - 1;
    Store(m, at, argv[i] + [0]);
    ghost var m1 := m[..];
    Store(m, pointers + 8 * i, PointerBytes(base + at));
    PlaceOne(m0, m1, m[..], argv, i, base);
  }

  /** The null pointer at the end of the array, and the aligned pointer to the array. */
  method Finish(m: array<byte>, argv: seq<seq<byte>>, base: nat, pointers: nat, stackTop: nat)
    requires Fits(argv) && base + PAGE < B64 && pointers == Pointers(argv) && stackTop == Start(argv)
    requires m.Length == PAGE && Placed(m[..], argv, |argv|, base)
    modifies m
    ensures Block(m[..], argv, base)
  {
    BlockInPage(argv);
    ghost var m0 := m[..];
    Store(m, pointers + 8 * |argv|, PointerBytes(0));
    ghost var m1 := m[..];
    Store(m, stackTop, PointerBytes(base + pointers));
    FinishBlock(m0, m1, m[..], argv, base);
  }

  // ---- relocation to the user stack

  /** Pointers below i are relocated, the others not yet. */
  ghost predicate Relocated(m: seq<byte>, argv: seq<seq<byte>>, i: nat, base: int, user: int)
    requires Fits(argv)
  {
    && |m| == PAGE && SlotAt(m, argv, |argv|) == 0
    && Start(argv) + 8 <= PAGE && Pointer(m, Start(argv)) == Pointers(argv) + base
    && forall j :: 0 <= j < |argv| ==> HalfRelocated(m, argv, j, i, base, user)
  }

  ghost predicate HalfRelocated(m: seq<byte>, argv: seq<seq<byte>>, j: nat, i: nat, base: int, user: int)
    requires Fits(argv) && j < |argv| && |m| == PAGE
  {
    PlacedAt(m, argv, j, if j < i then user - PAGE else base)
  }

  lemma WrapShift(x: nat, base: nat, user: nat)
    requires x <= PAGE && base + PAGE < B64 && PAGE <= user < B64
    ensures U64(base + x + U64(user - (base + PAGE))) == x + user - PAGE
  {}

  lemma RelocateOne(m: seq<byte>, m1: seq<byte>, argv: seq<seq<byte>>, i: nat, base: nat, user: nat)
    requires Fits(argv) && i < |argv| && Relocated(m, argv, i, base, user) && PAGE <= user < B64
    requires Pointers(argv) >= 8 && 0 <= Top(argv, i + 1) <= PAGE && Pointers(argv) + 8 * i + 8 <= PAGE
    requires m1 == Overlay(m, Pointers(argv) + 8 * i, PointerBytes(Top(argv, i + 1) + user - PAGE))
    ensures Relocated(m1, argv, i + 1, base, user)
  {
    BlockInPage(argv);
    var (slot, d) := (Pointers(argv) + 8 * i, PointerBytes(Top(argv, i + 1) + user - PAGE));
    assert HalfRelocated(m, argv, i, i, base, user);
    RelocatedSelf(m, argv, i, base, user);
    OverlayApart(m, slot, d, Pointers(argv) + 8 * |argv|, Pointers(argv) + 8 * |argv| + 8);
    OverlayApart(m, slot, d, Start(argv), Start(argv) + 8);
    var next := i + 1;
    forall j | 0 <= j < |argv|
      ensures HalfRelocated(m1, argv, j, next, base, user)
    {
      assert HalfRelocated(m, argv, j, i, base, user);
      if j != i { RelocatedOther(m, argv, j, i, base, user, d); }
    }
  }

  lemma RelocatedSelf(m: seq<byte>, argv: seq<seq<byte>>, i: nat, base: nat, user: nat)
    requires Fits(argv) && i < |argv| && |m| == PAGE && HalfRelocated(m, argv, i, i, base, user) && PAGE <= user < B64
    ensures Pointers(argv) >= 8 && 0 <= Top(argv, i + 1) <= PAGE
    ensures HalfRelocated(Overlay(m, Pointers(argv) + 8 * i, PointerBytes(Top(argv, i + 1) + user - PAGE)), argv, i, i + 1, base, user)
  {
    BlockInPage(argv);
    StringInPage(argv, i);
    var (slot, d) := (Pointers(argv) + 8 * i, PointerBytes(Top(argv, i + 1) + user - PAGE));
    StoredPointer(m, slot, Top(argv, i + 1) + user - PAGE);
    OverlayApart(m, slot, d, Top(argv, i + 1), Top(argv, i));
  }

  lemma RelocatedOther(m: seq<byte>, argv: seq<seq<byte>>, j: nat, i: nat, base: nat, user: nat, d: seq<byte>)
    requires Fits(argv) && i < |argv| && j < |argv| && i != j && |m| == PAGE && HalfRelocated(m, argv, j, i, base, user)
    requires |d| == 8
    ensures Pointers(argv) >= 8 && Pointers(argv) + 8 * i + 8 <= PAGE
    ensures HalfRelocated(Overlay(m, Pointers(argv) + 8 * i, d), argv, j, i + 1, base, user)
  {
    BlockInPage(argv);
    StringInPage(argv, j);
    PlacedKept(m, argv, j, if j < i then user - PAGE else base, Pointers(argv) + 8 * i, d);
  }

  lemma RelocateLast(m: seq<byte>, argv: seq<seq<byte>>, base: nat, user: nat)
    requires Fits(argv) && Relocated(m, argv, |argv|, base, user) && PAGE <= user < B64
    ensures Pointers(argv) >= 8 && Start(argv) + 8 <= PAGE
    ensures Block(Overlay(m, Start(argv), PointerBytes(Pointers(argv) + user - PAGE)), argv, user - PAGE)
  {
    TopOrder(argv, 0, |argv|);
    var d := PointerBytes(Pointers(argv) + user - PAGE);
    StoredPointer(m, Start(argv), Pointers(argv) + user - PAGE);
    OverlayApart(m, Start(argv), d, Pointers(argv) + 8 * |argv|, Pointers(argv) + 8 * |argv| + 8);
    var (m1, shift) := (Overlay(m, Start(argv), d), user - PAGE);
    forall j | 0 <= j < |argv|
      ensures PlacedAt(m1, argv, j, shift)
    {
      assert HalfRelocated(m, argv, j, |argv|, base, user);
      TopOrder(argv, j + 1, |argv|);
      TopOrder(argv, 0, j);
      PlacedKept(m, argv, j, user - PAGE, Start(argv), d);
    }
  }

  lemma StartRelocating(m: seq<byte>, argv: seq<seq<byte>>, base: nat, user: nat)
    requires Fits(argv) && Block(m, argv, base)
    ensures Relocated(m, argv, 0, base, user)
  {
    forall j | 0 <= j < |argv|
      ensures HalfRelocated(m, argv, j, 0, base, user)
    {
      assert PlacedAt(m, argv, j, base);
    }
  }

  /** Adding the distance to the user stack, modulo 2^64, to every pointer but the null one. */
  method Relocate(m: array<byte>, argv: seq<seq<byte>>, base: nat, user: nat)
    requires Fits(argv) && base + PAGE < B64 && PAGE <= user < B64 && Block(m[..], argv, base)
    modifies m
    ensures Block(m[..], argv, user - PAGE)
  {
    var delta := U64(user - (base + PAGE));
    StartRelocating(m[..], argv, base, user);
    for i := 0 to |argv|
      invariant Relocated(m[..], argv, i, base, user)
    {
      RelocateSlot(m, argv, i, base, user, delta);
    }
    RelocateTop(m, argv, base, user, delta);
  }

  method RelocateTop(m: array<byte>, argv: seq<seq<byte>>, base: nat, user: nat, delta: nat)
    requires Fits(argv) && base + PAGE < B64 && PAGE <= user < B64 && delta == U64(user - (base + PAGE))
    requires Relocated(m[..], argv, |argv|, base, user)
    modifies m
    ensures Block(m[..], argv, user - PAGE)
  {
    RelocateLast(m[..], argv, base, user);
    WrapShift(Pointers(argv), base, user);
    var at := Start(argv);
    var pointer := U64(Pointer(m[..], at) + delta);
    assert pointer == Pointers(argv) + user - PAGE;
    Store(m, at, PointerBytes(pointer));
  }

  method RelocateSlot(m: array<byte>, argv: seq<seq<byte>>, i: nat, base: nat, user: nat, delta: nat)
    requires Fits(argv) && base + PAGE < B64 && PAGE <= user < B64 && delta == U64(user - (base + PAGE))
    requires i < |argv| && Relocated(m[..], argv, i, base, user)
    modifies m
    ensures Relocated(m[..], argv, i + 1, base, user)
  {
    BlockInPage(argv);
    StringInPage(argv, i);
    assert HalfRelocated(m[..], argv, i, i, base, user);
    WrapShift(Top(argv, i + 1), base, user);
    ghost var m0 := m[..];
    var slot: nat := PAGE - (|argv| + 1) * 8 + 8 * i;
    var pointer := U64(Pointer(m[..], slot) + delta);
    assert pointer == Top(argv, i + 1) + user - PAGE;
    Store(m, slot, PointerBytes(pointer));
    RelocateOne(m0, m[..], argv, i, base, user);
  }

  // ---- _start

  /** Memory seen from position s up. */
  lemma PointerInWindow(m: seq<byte>, s: nat, at: nat)
    requires s <= at && at + 8 <= |m|
    ensures Pointer(m[s..], at - s) == Pointer(m, at)
  {
    assert m[s..][at - s..at - s + 8] == m[at..at + 8];
  }

  lemma StringInWindow(m: seq<byte>, s: nat, from: nat, to: nat, text: seq<byte>)
    requires s <= from <= to <= |m| && m[from..to] == text + [0] && 0 !in text
    ensures CStrings.CString(m[s..], from - s) == text
  {
    var stack, n := m[s..], |text|;
    assert to == from + n + 1;
    assert m[from..to][..n] == text && m[from..to][n] == 0;
    assert forall k :: 0 <= k <= n ==> stack[from - s + k] == m[from..to][k];
    assert forall k :: 0 <= k < n ==> stack[from - s..from - s + n][k] == text[k];
    CStrings.CStringIs(stack, from - s, text);
  }

  /** What _start finds at slot i, and the string behind it. */
  lemma ReadsBack(m: seq<byte>, argv: seq<seq<byte>>, shift: int, i: nat)
    requires Fits(argv) && Block(m, argv, shift) && i <= |argv|
    ensures var (s, p) := (Start(argv), Pointers(argv));
            && s + 8 <= p && Pointer(m[s..], 0) == p + shift
            && Pointer(m[s..], p - s + 8 * i) == (if i < |argv| then Top(argv, i + 1) + shift else 0)
            && (i < |argv| ==> s < Top(argv, i + 1))
  {
    TopOrder(argv, 0, |argv|);
    PointerInWindow(m, Start(argv), Start(argv));
    PointerInWindow(m, Start(argv), Pointers(argv) + 8 * i);
    if i < |argv| {
      TopOrder(argv, i + 1, |argv|);
      assert PlacedAt(m, argv, i, shift);
    }
  }

  lemma StringReadsBack(m: seq<byte>, argv: seq<seq<byte>>, shift: int, i: nat)
    requires Fits(argv) && Block(m, argv, shift) && i < |argv|
    ensures var s := Start(argv);
            s < Top(argv, i + 1) <= PAGE && CStrings.CString(m[s..], Top(argv, i + 1) - s) == argv[i]
  {
    StringInPage(argv, i);
    assert PlacedAt(m, argv, i, shift);
    StringInWindow(m, Start(argv), Top(argv, i + 1), Top(argv, i), argv[i]);
  }

  /** _start on the stack bytes from rsp up: argc by counting to the null pointer, then each
      argument as the C string its pointer leads to. */
  method StartProgram(stack: seq<byte>, rsp: nat, ghost m: seq<byte>, ghost argv: seq<seq<byte>>) returns (args: seq<seq<byte>>)
    requires Fits(argv) && Block(m, argv, rsp - Start(argv)) && rsp > Start(argv) && stack == m[Start(argv)..]
    ensures args == argv
  {
    ghost var shift := rsp - Start(argv);
    TopOrder(argv, 0, |argv|);
    ReadsBack(m, argv, shift, 0);
    var rsi := Pointer(stack, 0) - rsp;
    var argc := 0;
    while Pointer(stack, rsi + 8 * argc) != 0
      invariant argc <= |argv| && rsi == Pointers(argv) - Start(argv)
      invariant Pointer(stack, rsi + 8 * argc) != 0 <==> argc < |argv|
      decreases |argv| - argc
    {
      argc := argc + 1;
      ReadsBack(m, argv, shift, argc);
    }
    args := [];
    for i := 0 to argc
      invariant args == argv[..i]
    {
      var arg := ReadArgument(stack, rsp, rsi, i, m, argv);
      args := args + [arg];
    }
    assert argv[..argc] == argv;
  }

  /** The string that the i-th pointer leads to. */
  method ReadArgument(stack: seq<byte>, rsp: nat, rsi: nat, i: nat, ghost m: seq<byte>, ghost argv: seq<seq<byte>>)
    returns (arg: seq<byte>)
    requires Fits(argv) && Block(m, argv, rsp - Start(argv)) && rsp > Start(argv) && stack == m[Start(argv)..]
    requires i < |argv| && rsi == Pointers(argv) - Start(argv) && rsi + 8 * i + 8 <= |stack|
    ensures arg == argv[i]
  {
    ReadsBack(m, argv, rsp - Start(argv), i);
    StringReadsBack(m, argv, rsp - Start(argv), i);
    arg := CStrings.CString(stack, Pointer(stack, rsi + 8 * i) - rsp);
  }

  lemma StackPointer(argv: seq<seq<byte>>, user: nat)
    requires Fits(argv)
    ensures Start(argv) <= PAGE
    ensures user % 8 == 0 ==> (user - PAGE + Start(argv)) % 8 == 0
  {
    TopOrder(argv, 0, |argv|);
  }

  /** exec and then _start: the program gets back the arguments it was given, with the stack
      pointer aligned if the top of the user stack is. */
  method ExecThenStart(argv: seq<seq<byte>>, base: nat, user: nat) returns (args: seq<seq<byte>>, rsp: nat)
    requires Fits(argv) && base % PAGE == 0 && base + PAGE < B64 && PAGE < user < B64
    ensures args == argv && user - PAGE <= rsp && (user % 8 == 0 ==> rsp % 8 == 0)
  {
    var m, stackTop := Layout(argv, base);
    Relocate(m, argv, base, user);
    StackPointer(argv, user);
    rsp := user - (PAGE - stackTop);
    assert rsp - Start(argv) == user - PAGE;
    args := StartProgram(m[stackTop..], rsp, m[..], argv);
  }
}
