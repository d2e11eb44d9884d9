/** Intrusive circular doubly linked lists. */
module List {
  /** struct list_head; container_of leads from it to the item it is embedded in. */
  class Node<T> {
    var prev: Node?<T>
    var next: Node?<T>
    const item: T

    constructor (item: T)
      ensures this.item == item && prev == null && next == null
    {
      this.item, prev, next := item, null, null;
    }
  }

  /** The nodes, in order, form one ring; a list's head is the first. */
  ghost predicate Ring<T>(r: seq<Node<T>>)
    reads r
  {
    && |r| > 0
    && (forall i, j :: 0 <= i < j < |r| ==> r[i] != r[j])
    && (forall i :: 0 <= i < |r| - 1 ==> r[i].next == r[i + 1])
    && (forall i :: 0 < i < |r| ==> r[i].prev == r[i - 1])
    && r[|r| - 1].next == r[0] && r[0].prev == r[|r| - 1]
  }

  function Insert<T>(r: seq<T>, k: nat, x: T): (s: seq<T>)
    requires k <= |r|
    ensures |s| == |r| + 1 && s[k] == x
    ensures forall i {:trigger s[i]} :: 0 <= i < |s| ==> s[i] == if i < k then r[i] else if i == k then x else r[i - 1]
  {
    r[..k] + [x] + r[k..]
  }

  function Remove<T>(r: seq<T>, k: nat): (s: seq<T>)
    requires k < |r|
    ensures |s| == |r| - 1
    ensures forall i {:trigger s[i]} :: 0 <= i < |s| ==> s[i] == if i < k then r[i] else r[i + 1]
  {
    r[..k] + r[k + 1..]
  }

  lemma RemoveWithin<T>(r: seq<T>, k: nat)
    requires k < |r|
    ensures forall i :: 0 <= i < |r| - 1 ==> Remove(r, k)[i] in r
  {}

  lemma InsertRemove<T>(r: seq<T>, k: nat, x: T)
    requires k <= |r|
    ensures Remove(Insert(r, k, x), k) == r
  {}

  method InitList<T>(head: Node<T>)
    modifies head`prev, head`next
    ensures Ring([head])
  {
    head.prev := head;
    head.next := head;
  }

  /** list_add: behind the k-th node of a ring. */
  method ListAdd<T>(entry: Node<T>, head: Node<T>, ghost r: seq<Node<T>>, ghost k: nat)
    requires Ring(r) && k < |r| && r[k] == head && entry !in r
    modifies entry, r
    ensures Ring(Insert(r, k + 1, entry))
  {
    var following := head.next;
    assert following == if k + 1 < |r| then r[k + 1] else r[0];
    entry.prev := head;
    head.next := entry;
    following.prev := entry;
    entry.next := following;
    ghost var s := Insert(r, k + 1, entry);
    assert forall i, j :: 0 <= i < j < |s| ==> s[i] != s[j];
  }

  /** list_add_tail: before the k-th node of a ring, at the list's end when that is the head. */
  method ListAddTail<T>(entry: Node<T>, head: Node<T>, ghost r: seq<Node<T>>, ghost k: nat)
    requires Ring(r) && k < |r| && r[k] == head && entry !in r
    modifies entry, r
    ensures Ring(Insert(r, if k == 0 then |r| else k, entry))
  {
    var preceding := head.prev;
    assert preceding == if k > 0 then r[k - 1] else r[|r| - 1];
    entry.prev := preceding;
    preceding.next := entry;
    entry.next := head;
    head.prev := entry;
    ghost var s := Insert(r, if k == 0 then |r| else k, entry);
    assert forall i, j :: 0 <= i < j < |s| ==> s[i] != s[j];
  }

  /** list_del of a node other than the head. */
  method ListDel<T>(entry: Node<T>, ghost r: seq<Node<T>>, ghost k: nat)
    requires Ring(r) && 0 < k < |r| && r[k] == entry
    modifies r
    ensures Ring(Remove(r, k))
    ensures entry.prev == old(entry.prev) && entry.next == old(entry.next)
  {
    var following := entry.next;
    var preceding := entry.prev;
    assert following == (if k + 1 < |r| then r[k + 1] else r[0]) && preceding == r[k - 1];
    following.prev := preceding;
    preceding.next := following;
    ghost var s := Remove(r, k);
    assert forall i, j :: 0 <= i < j < |s| ==> s[i] != s[j];
  }
}
