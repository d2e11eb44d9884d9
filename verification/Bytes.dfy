/** Byte strings and the C memory functions on byte arrays. */
module Bytes {
  newtype byte = x: int | 0 <= x < 256

  function Min(a: int, b: int): int { if a < b then a else b }
  function Max(a: int, b: int): int { if a < b then b else a }

  /** s with d laid over it from position at. */
  function Overlay<T>(s: seq<T>, at: nat, d: seq<T>): (r: seq<T>)
    requires at + |d| <= |s|
    ensures |r| == |s|
    ensures forall i {:trigger r[i]} :: 0 <= i < |s| ==> r[i] == if at <= i < at + |d| then d[i - at] else s[i]
  {
    seq(|s|, i requires 0 <= i < |s| => if at <= i < at + |d| then d[i - at] else s[i])
  }

  function Repeat<T>(x: T, n: nat): (r: seq<T>)
    ensures |r| == n && forall i :: 0 <= i < n ==> r[i] == x
  {
    seq(n, _ => x)
  }

  /** Bytes that a transfer at offset should move, of an object of the given size. */
  function Clipped(size: nat, offset: nat, length: nat): nat { Min(length, Max(size - offset, 0)) }

  lemma SliceOfSlice<T>(s: seq<T>, begin: nat, end: nat, from: nat, to: nat)
    requires begin <= from <= to <= end <= |s|
    ensures s[begin..end][from - begin..to - begin] == s[from..to]
  {
    assert |s[begin..end][from - begin..to - begin]| == |s[from..to]|;
    assert forall i :: 0 <= i < to - from ==> s[begin..end][from - begin..to - begin][i] == s[from..to][i];
  }

  lemma OverlayTwice<T>(s: seq<T>, at: nat, d: seq<T>, e: seq<T>)
    requires at + |d| + |e| <= |s|
    ensures Overlay(Overlay(s, at, d), at + |d|, e) == Overlay(s, at, d + e)
  {}

  /** memcpy between different arrays. */
  method MemCpy<T>(dest: array<T>, destAt: nat, src: array<T>, srcAt: nat, n: nat)
    requires dest != src && destAt + n <= dest.Length && srcAt + n <= src.Length
    modifies dest
    ensures dest[..] == Overlay(old(dest[..]), destAt, src[srcAt..srcAt + n])
  {
    ghost var d := dest[..];
    for i := 0 to n
      invariant forall k :: 0 <= k < |d| ==> dest[k] == if destAt <= k < destAt + i then src[srcAt + k - destAt] else d[k]
    {
      dest[destAt + i] := src[srcAt + i];
    }
  }
}
