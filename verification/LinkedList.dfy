/** The heap-allocated singly linked list that holds devices, responses, notifications and connections. */
module LinkedList {
  import opened Wrappers

  class Node<T> {
    var data: T
    var next: Node?<T>

    constructor (data: T, next: Node?<T>)
      ensures this.data == data && this.next == next
    {
      this.data, this.next := data, next;
    }
  }

  /** The sequence without its element at position k. */
  function Cut<T>(s: seq<T>, k: nat): (r: seq<T>)
    requires k < |s|
    ensures |r| == |s| - 1
    ensures forall i {:trigger r[i]} :: 0 <= i < |r| ==> r[i] == if i < k then s[i] else s[i + 1]
  {
    s[..k] + s[k + 1..]
  }

  lemma CutNoDuplicates<T>(s: seq<T>, k: nat)
    requires k < |s| && NoDuplicates(s)
    ensures NoDuplicates(Cut(s, k)) && s[k] !in Cut(s, k)
  {
  }

  /** Moving the first element of one sequence to the end of another keeps their concatenation. */
  lemma FirstMoved<T>(done: seq<T>, todo: seq<T>)
    requires todo != []
    ensures done + todo == done + [todo[0]] + todo[1..]
  {
  }

  /** The list without the first element equal to x; the whole list when there is none. */
  function RemoveFirst<T(==)>(s: seq<T>, x: T): (r: seq<T>)
    ensures x !in s ==> r == s
    ensures x in s ==> |r| == |s| - 1
  {
    if s == [] then [] else if s[0] == x then s[1..] else [s[0]] + RemoveFirst(s[1..], x)
  }

  lemma {:induction false} RemoveFirstAt<T>(s: seq<T>, x: T, i: nat)
    requires i < |s| && s[i] == x && x !in s[..i]
    ensures RemoveFirst(s, x) == Cut(s, i)
  {
    if i > 0 {
      assert s[0] == s[..i][0] && s[1..][..i - 1] == s[..i][1..];
      RemoveFirstAt(s[1..], x, i - 1);
      assert Cut(s, i) == [s[0]] + Cut(s[1..], i - 1);
    }
  }

  lemma {:induction false} RemoveFirstMultiset<T>(s: seq<T>, x: T)
    requires x in s
    ensures multiset(RemoveFirst(s, x)) == multiset(s) - multiset{x}
  {
    assert s == [s[0]] + s[1..];
    if s[0] != x {
      RemoveFirstMultiset(s[1..], x);
    }
  }

  class LinkedList<T(==)> {
    var head: Node?<T>
    ghost var Contents: seq<T>
    ghost var spine: seq<Node<T>>  // the nodes reachable from head, in order
    ghost var Repr: set<object>

    /** head leads through the nodes of the spine, each once, to null: the list is finite and acyclic. */
    ghost predicate Valid()
      reads this, Repr
    {
      && this in Repr
      && |spine| == |Contents|
      && (forall i :: 0 <= i < |spine| ==> spine[i] in Repr)
      && NoDuplicates(spine)
      && head == At(0)
      && (forall i :: 0 <= i < |spine| ==> spine[i].data == Contents[i] && spine[i].next == At(i + 1))
    }

    /** The node at a position, null past the end. */
    ghost function At(i: nat): Node?<T>
      reads this
    {
      if i < |spine| then spine[i] else null
    }

    constructor ()
      ensures Valid() && fresh(Repr)
      ensures Contents == [] && Repr == {this}
    {
      head := null;
      Contents, spine := [], [];
      Repr := {this};
    }

    method Add(data: T)
      requires Valid()
      modifies Repr
      ensures Valid() && fresh(Repr - old(Repr))
      ensures Contents == [data] + old(Contents)
      ensures |spine| > 0 && spine[1..] == old(spine)
    {
      var entry := new Node(data, head);
      head := entry;
      Contents, spine, Repr := [data] + Contents, [entry] + spine, Repr + {entry};
    }

    /** Unlinks the first node that holds data; k is its position. */
    method Remove(data: T) returns (ghost k: nat)
      requires Valid()
      requires data in Contents
      modifies Repr
      ensures Valid() && Repr <= old(Repr)
      ensures Contents == RemoveFirst(old(Contents), data)
      ensures k < |old(Contents)| && old(Contents)[k] == data && data !in old(Contents)[..k]
      ensures Contents == Cut(old(Contents), k)
      ensures spine == Cut(old(spine), k) && old(spine)[k] !in Repr
    {
      var entry, previous := head, null;
      k := 0;
      while entry != null
        invariant k <= |spine| && entry == At(k)
        invariant data !in Contents[..k]
        invariant k > 0 ==> previous == spine[k - 1]
        decreases |spine| - k
      {
        if entry.data == data {
          RemoveFirstAt(Contents, data, k);
          Unlink(entry, previous, k);
          return;
        }
        previous := entry;
        entry := entry.next;
        k := k + 1;
      }
      assert false;
    }

    /** Makes the predecessor of entry, or the list head, point past it. */
    method Unlink(entry: Node<T>, previous: Node?<T>, ghost k: nat)
      requires Valid()
      requires k < |spine| && entry == spine[k]
      requires k > 0 ==> previous == spine[k - 1]
      modifies Repr
      ensures Valid() && Repr == old(Repr) - {entry}
      ensures Contents == Cut(old(Contents), k) && spine == Cut(old(spine), k)
    {
      CutNoDuplicates(spine, k);
      if entry == head {
        head := entry.next;
      } else {
        previous.next := entry.next;
      }
      entry.next := null;
      Contents, spine, Repr := Cut(Contents, k), Cut(spine, k), Repr - {entry};
    }

    method Delete()
      requires Valid()
      modifies Repr
      ensures Valid() && Repr <= old(Repr)
      ensures head == null && Contents == []
    {
      while head != null
        invariant Valid() && Repr <= old(Repr)
        decreases |spine|
      {
        var entry := head;
        head := entry.next;
        entry.next := null;
        Contents, spine, Repr := Contents[1..], spine[1..], Repr - {entry};
      }
    }
  }
}
