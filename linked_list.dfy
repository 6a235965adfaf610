/** The hand-written doubly linked list the chain is stored in. Its abstract
    value is the ghost sequence `Nodes`: the nodes from head to tail. */
module LinkedList {
  import opened CircleNode

  /** `s` is what one reaches from `first` by following `next` until null. */
  ghost predicate ChainFrom(first: Node?, s: seq<Node>)
    reads s`next
  {
    first == (if s == [] then null else s[0]) &&
    (forall i :: 0 <= i < |s| - 1 ==> s[i].next == s[i + 1]) &&
    (s != [] ==> s[|s| - 1].next == null)
  }

  class DoublyLinkedList {
    var head: Node?
    var tail: Node?
    var length: int
    ghost var Nodes: seq<Node>

    /** The list invariant: `length` counts the nodes, head and tail are the
        ends, and every `next` and `prev` link agrees with the order of `Nodes`. */
    ghost predicate Valid()
      reads this, Nodes`next, Nodes`prev
    {
      length == |Nodes| &&
      (forall i, j :: 0 <= i < j < |Nodes| ==> Nodes[i] != Nodes[j]) &&
      head == (if Nodes == [] then null else Nodes[0]) &&
      tail == (if Nodes == [] then null else Nodes[|Nodes| - 1]) &&
      (forall i :: 0 <= i < |Nodes| - 1 ==> Nodes[i].next == Nodes[i + 1] && Nodes[i + 1].prev == Nodes[i]) &&
      (Nodes != [] ==> Nodes[0].prev == null && Nodes[|Nodes| - 1].next == null)
    }

    constructor ()
      ensures Valid() && Nodes == []
      ensures head == null && tail == null && length == 0
    {
      head := null;
      tail := null;
      length := 0;
      Nodes := [];
    }

    /** Appends `node` at the tail. The node must be fresh from its constructor
        (no links) and not already in the list. */
    method Add(node: Node)
      requires Valid()
      requires node !in Nodes
      requires node.next == null && node.prev == null
      modifies this, Nodes`next, node`prev
      ensures Valid()
      ensures Nodes == old(Nodes) + [node]
      ensures length == old(length) + 1
      ensures tail == node
      ensures old(head) == null ==> head == node
      ensures old(head) != null ==> head == old(head)
    {
      if head == null {
        head := node;
        tail := node;
      } else {
        tail.next := node;
        node.prev := tail;
        tail := node;
      }
      length := length + 1;
      Nodes := Nodes + [node];
    }

    /** Unlinks and returns the node at `index`; out of range it returns
        nothing (null) and changes nothing. The removed node keeps its own
        `next` and `prev` links. */
    method Remove(index: int) returns (removed: Node?)
      requires Valid()
      modifies this, Nodes`next, Nodes`prev
      ensures Valid()
      ensures 0 <= index < old(length) ==>
        removed == old(Nodes)[index] &&
        Nodes == old(Nodes)[..index] + old(Nodes)[index + 1..] &&
        length == old(length) - 1 &&
        removed.next == old(removed.next) && removed.prev == old(removed.prev)
      ensures 0 <= index < old(length) && old(length) == 1 ==> head == null && tail == null
      ensures 0 <= index == 0 < old(length) - 1 ==> head == old(Nodes)[1] && head.prev == null
      ensures 0 < index == old(length) - 1 ==> tail == old(Nodes)[index - 1] && tail.next == null
      ensures !(0 <= index < old(length)) ==>
        removed == null && unchanged(this) && forall n :: n in old(Nodes) ==> unchanged(n)
    {
      if 0 <= index < length {
        var current := ItemAt(index);
        ghost var s := Nodes;
        assert index > 0 ==> current.prev == s[index - 1];
        assert index + 1 < |s| ==> current.next == s[index + 1];
        if index == 0 {
          head := current.next;
          if head == null {
            tail := null;
          } else {
            head.prev := null;
          }
        } else if index == length - 1 {
          tail := current.prev;
          tail.next := null;
        } else {
          current.prev.next := current.next;
          current.next.prev := current.prev;
        }
        length := length - 1;
        Nodes := s[..index] + s[index + 1..];
        return current;
      }
      return null;
    }

    /** Walks `index` steps along `next` from the head; out of range it returns
        nothing (null). */
    method ItemAt(index: int) returns (item: Node?)
      requires Valid()
      ensures item == (if 0 <= index < length then Nodes[index] else null)
    {
      if 0 <= index < length {
        var current := head;
        var i := 0;
        while i < index
          invariant 0 <= i <= index
          invariant current == Nodes[i]
        {
          current := current.next;
          i := i + 1;
        }
        return current;
      }
      return null;
    }
  }

  /** The list invariant depends only on the list's own fields and the links
      of its nodes. */
  twostate lemma ValidKept(l: DoublyLinkedList)
    requires old(l.Valid()) && unchanged(l) && unchanged(l.Nodes`next, l.Nodes`prev)
    ensures l.Valid()
  {
  }

  /** The nodes reachable from the head are exactly the list's nodes, so
      `length` is the number of reachable nodes. */
  lemma {:induction false} ReachableAreNodes(l: DoublyLinkedList, s: seq<Node>)
    requires l.Valid() && ChainFrom(l.head, s)
    ensures s == l.Nodes && |s| == l.length
  {
    var n := l.Nodes;
    var k := 0;
    while k < |s|
      invariant 0 <= k <= |s| && k <= |n|
      invariant k < |s| <==> k < |n|
      invariant s[..k] == n[..k]
      invariant k < |s| ==> s[k] == n[k]
    {
      if k + 1 < |s| {
        assert s[k].next == s[k + 1];
      }
      if k + 1 < |n| {
        assert n[k].next == n[k + 1];
      }
      k := k + 1;
    }
    assert s == s[..k] && n == n[..k];
  }
}
