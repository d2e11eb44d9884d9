/** The physical page allocator: a status byte per page, first-fit allocation. */
module Kmem {
  import opened Options

  datatype Status = PageArray | Free | Used

  function UsedCount(st: seq<Status>): nat {
    if st == [] then 0 else UsedCount(st[..|st| - 1]) + (if st[|st| - 1] == Used then 1 else 0)
  }

  /** n consecutive free pages start at index i. */
  ghost predicate FreeRun(st: seq<Status>, i: nat, n: nat) {
    i + n <= |st| && forall j :: i <= j < i + n ==> st[j] == Free
  }

  /** st with n pages from index first set to s. */
  function Mark(st: seq<Status>, first: nat, n: nat, s: Status): (r: seq<Status>)
    requires first + n <= |st|
    ensures |r| == |st|
    ensures forall j :: 0 <= j < |st| ==> r[j] == if first <= j < first + n then s else st[j]
  {
    seq(|st|, j requires 0 <= j < |st| => if first <= j < first + n then s else st[j])
  }

  lemma {:induction false} UsedCountUpdate(st: seq<Status>, i: nat, s: Status)
    requires i < |st|
    ensures UsedCount(st[i := s])
         == UsedCount(st) - (if st[i] == Used then 1 else 0) + (if s == Used then 1 else 0)
  {
    var n := |st| - 1;
    if i < n {
      assert st[i := s][..n] == st[..n][i := s];
      UsedCountUpdate(st[..n], i, s);
    } else {
      assert st[i := s][..n] == st[..n];
    }
  }

  /** Turning n free pages into used ones adds n to the count; the reverse removes n. */
  lemma {:induction false} UsedCountMark(st: seq<Status>, first: nat, n: nat, s: Status)
    requires first + n <= |st|
    requires s == Used ==> FreeRun(st, first, n)
    requires s != Used ==> forall j :: first <= j < first + n ==> st[j] == Used
    ensures UsedCount(Mark(st, first, n, s)) == UsedCount(st) + (if s == Used then n else 0 - n)
  {
    if n == 0 {
      assert Mark(st, first, n, s) == st;
    } else {
      var prev := Mark(st, first, n - 1, s);
      UsedCountMark(st, first, n - 1, s);
      UsedCountUpdate(prev, first + n - 1, s);
      assert Mark(st, first, n, s) == prev[first + n - 1 := s];
    }
  }

  /** Freeing n pages removes at most n from the count, and n exactly when all were used. */
  lemma {:induction false} UsedCountFreed(st: seq<Status>, first: nat, n: nat)
    requires first + n <= |st|
    ensures UsedCount(Mark(st, first, n, Free)) >= UsedCount(st) - n
    ensures UsedCount(Mark(st, first, n, Free)) == UsedCount(st) - n <==> forall j :: first <= j < first + n ==> st[j] == Used
  {
    if n == 0 {
      assert Mark(st, first, n, Free) == st;
    } else {
      var prev := Mark(st, first, n - 1, Free);
      UsedCountFreed(st, first, n - 1);
      UsedCountUpdate(prev, first + n - 1, Free);
      assert Mark(st, first, n, Free) == prev[first + n - 1 := Free];
    }
  }

  lemma {:induction false} NoneUsed(st: seq<Status>)
    requires forall j :: 0 <= j < |st| ==> st[j] != Used
    ensures UsedCount(st) == 0
  {
    if st != [] { NoneUsed(st[..|st| - 1]); }
  }

  /** Physical memory: words holds every page, 512 words each; pages base to
      base + total are the region the allocator manages, through status. */
  class Memory {
    const pages: nat
    const base: nat
    const total: nat
    const words: array<nat>
    const status: array<Status>
    var used: int

    ghost predicate Valid()
      reads this, status
    {
      && 1 <= base && base + total <= pages
      && words.Length == 512 * pages && status.Length == total
      && used == UsedCount(status[..])
    }

    /** kmem_init once the region is chosen: the array of status bytes lies in the
        region's own first pages, which are never handed out. */
    constructor (pages: nat, base: nat, total: nat)
      requires 1 <= base && base + total <= pages
      ensures Valid() && used == 0 && fresh(words) && fresh(status)
      ensures this.pages == pages && this.base == base && this.total == total
      ensures var reserved := total / 4096 + 1;
              && total <= reserved * 4096
              && forall i :: 0 <= i < total ==> status[i] == if i < reserved then PageArray else Free
    {
      this.pages, this.base, this.total := pages, base, total;
      words := new nat[512 * pages];
      status := new Status[total](_ => Free);
      used := 0;
      new;
      var pageArrayPages := total / 4096 + 1;
      for i := 0 to total
        invariant used == 0
        invariant forall j :: 0 <= j < i ==> status[j] == if j < pageArrayPages then PageArray else Free
      {
        if i < pageArrayPages { status[i] := PageArray; } else { status[i] := Free; }
      }
      assert forall j :: 0 <= j < total ==> status[..][j] != Used;
      NoneUsed(status[..]);
    }

    /** kpage_alloc: the lowest free run, or None where the source panics, which is
        exactly when there is no run (or none was asked for). */
    method KpageAlloc(numPages: nat) returns (page: Option<nat>)
      requires Valid()
      modifies this`used, status
      ensures Valid()
      ensures page.None? <==> numPages == 0 || forall i :: !FreeRun(old(status[..]), i, numPages)
      ensures page.None? ==> status[..] == old(status[..])
      ensures page.Some? ==>
        && base <= page.value && FreeRun(old(status[..]), page.value - base, numPages)
        && (forall i :: 0 <= i < page.value - base ==> !FreeRun(old(status[..]), i, numPages))
        && status[..] == Mark(old(status[..]), page.value - base, numPages, Used)
    {
      ghost var st := status[..];
      var i, consecutive := 0, 0;
      while true
        invariant 0 <= i <= total && 0 <= consecutive <= i
        invariant numPages > 0 ==> consecutive < numPages
        invariant used == old(used) && status[..] == st
        invariant forall j :: i - consecutive <= j < i ==> st[j] == Free
        invariant consecutive < i ==> st[i - consecutive - 1] != Free
        invariant numPages > 0 ==> forall k :: 0 <= k && k + numPages <= i ==> !FreeRun(st, k, numPages)
        decreases total - i
      {
        if i >= total {
          return None;
        }
        if status[i] == Free {
          consecutive := consecutive + 1;
          if consecutive == numPages { break; }
        } else {
          consecutive := 0;
        }
        i := i + 1;
      }
      var first := i - numPages + 1;
      assert FreeRun(st, first, numPages);
      for j := first to first + numPages
        invariant used == old(used) && status[..] == Mark(st, first, j - first, Used)
      {
        status[j] := Used;
        assert status[..] == Mark(st, first, j - first, Used)[j := Used];
      }
      assert status[..] == Mark(st, first, numPages, Used);
      UsedCountMark(st, first, numPages, Used);
      used := used + numPages;
      page := Some(base + first);
    }

    /** kpage_free: the count of used pages stays right exactly when each page was used. */
    method KpageFree(page: nat, numPages: nat)
      requires Valid()
      requires base <= page && page + numPages <= base + total
      modifies this`used, status
      ensures status[..] == Mark(old(status[..]), page - base, numPages, Free) && used == old(used) - numPages
      ensures Valid() <==> forall j :: page - base <= j < page - base + numPages ==> old(status[j]) == Used
    {
      ghost var st := status[..];
      var first := page - base;
      for j := first to first + numPages
        invariant used == old(used) && status[..] == Mark(st, first, j - first, Free)
      {
        status[j] := Free;
        assert status[..] == Mark(st, first, j - first, Free)[j := Free];
      }
      assert status[..] == Mark(st, first, numPages, Free);
      UsedCountFreed(st, first, numPages);
      used := used - numPages;
      assert forall j :: first <= j < first + numPages ==> st[j] == old(status[j]);
    }
  }
}
