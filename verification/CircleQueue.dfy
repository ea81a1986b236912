/**
 CIRCLEQ of queue.h: a doubly linked circular queue in which the head itself, cast to an element,
 ends the queue on both sides.
 */
module CircleQueue {
  import opened Basics
  import opened QueueSeq

  /** What a link points to: the head, or an element. */
  datatype Link = Unset | AtHead(head: Head) | At(node: Node)

  class Node {
    var next: Link
    var prev: Link

    constructor ()
      ensures next == Unset && prev == Unset
    {
      next, prev := Unset, Unset;
    }
  }

  class Head {
    var first: Link
    var last: Link
    ghost var elems: seq<Node>

    /** Element i, or the head on either side of the elements. */
    ghost function LinkAt(i: int): Link
      reads this
    {
      if 0 <= i < |elems| then At(elems[i]) else AtHead(this)
    }

    ghost predicate Linked(i: nat)
      requires i < |elems|
      reads this, elems[i]
    {
      elems[i].next == LinkAt(i + 1) && elems[i].prev == LinkAt(i - 1)
    }

    ghost predicate Valid()
      reads this, elems
    {
      && Distinct(elems)
      && first == LinkAt(0)
      && last == LinkAt(|elems| - 1)
      && forall i :: 0 <= i < |elems| ==> Linked(i)
    }

    constructor ()
      ensures Valid() && elems == []
    {
      elems := [];
      new;
      first, last := AtHead(this), AtHead(this);
    }

    method InsertHead(elm: Node)
      requires Valid() && elm !in elems
      modifies this, elems, elm
      ensures Valid() && elems == [elm] + old(elems)
    {
      elm.next := first;
      elm.prev := AtHead(this);
      if last == AtHead(this) {
        last := At(elm);
      } else {
        first.node.prev := At(elm);
      }
      first := At(elm);
      elems := [elm] + elems;
      forall i | 0 <= i < |elems|
        ensures Linked(i)
      {
        assert i > 0 ==> old(Linked(i - 1));
      }
    }

    method InsertTail(elm: Node)
      requires Valid() && elm !in elems
      modifies this, elems, elm
      ensures Valid() && elems == old(elems) + [elm]
    {
      elm.next := AtHead(this);
      elm.prev := last;
      if first == AtHead(this) {
        first := At(elm);
      } else {
        last.node.next := At(elm);
      }
      last := At(elm);
      elems := elems + [elm];
      forall i | 0 <= i < |elems|
        ensures Linked(i)
      {
        assert i < |elems| - 1 ==> old(Linked(i));
      }
    }

    method InsertBefore(ghost k: nat, listelm: Node, elm: Node)
      requires Valid() && elm !in elems
      requires k < |elems| && elems[k] == listelm
      modifies this, elems, elm
      ensures Valid() && elems == Inserted(old(elems), k, elm)
    {
      assert Linked(k) && (k > 0 ==> Linked(k - 1));
      elm.next := At(listelm);
      elm.prev := listelm.prev;
      if listelm.prev == AtHead(this) {
        first := At(elm);
      } else {
        listelm.prev.node.next := At(elm);
      }
      listelm.prev := At(elm);
      elems := Inserted(elems, k, elm);
      forall i | 0 <= i < |elems|
        ensures Linked(i)
      {
        assert i < k ==> old(Linked(i));
        assert i > k ==> old(Linked(i - 1));
      }
    }

    method InsertAfter(ghost k: nat, listelm: Node, elm: Node)
      requires Valid() && elm !in elems
      requires k < |elems| && elems[k] == listelm
      modifies this, elems, elm
      ensures Valid() && elems == Inserted(old(elems), k + 1, elm)
    {
      assert Linked(k) && (k + 1 < |elems| ==> Linked(k + 1));
      elm.next := listelm.next;
      elm.prev := At(listelm);
      if listelm.next == AtHead(this) {
        last := At(elm);
      } else {
        listelm.next.node.prev := At(elm);
      }
      listelm.next := At(elm);
      elems := Inserted(elems, k + 1, elm);
      forall i | 0 <= i < |elems|
        ensures Linked(i)
      {
        assert i <= k ==> old(Linked(i));
        assert i > k + 1 ==> old(Linked(i - 1));
      }
    }

    method Remove(ghost k: nat, elm: Node)
      requires Valid()
      requires k < |elems| && elems[k] == elm
      modifies this, elems
      ensures Valid() && elems == Removed(old(elems), k)
    {
      assert Linked(k) && (k > 0 ==> Linked(k - 1)) && (k + 1 < |elems| ==> Linked(k + 1));
      if elm.next == AtHead(this) {
        last := elm.prev;
      } else {
        elm.next.node.prev := elm.prev;
      }
      if elm.prev == AtHead(this) {
        first := elm.next;
      } else {
        elm.prev.node.next := elm.next;
      }
      elems := Removed(elems, k);
      forall i | 0 <= i < |elems|
        ensures Linked(i)
      {
        assert i < k ==> old(Linked(i));
        assert i >= k ==> old(Linked(i + 1));
      }
    }

    method ForEach() returns (visited: seq<Node>)
      requires Valid()
      ensures visited == elems
    {
      visited := [];
      var item := first;
      while item != AtHead(this)
        invariant |visited| <= |elems| && visited == elems[..|visited|]
        invariant item == LinkAt(|visited|)
        decreases |elems| - |visited|
      {
        assert Linked(|visited|);
        visited := visited + [item.node];
        item := item.node.next;
      }
    }

    method ForEachReverse() returns (visited: seq<Node>)
      requires Valid()
      ensures visited == Reversed(elems)
    {
      visited := [];
      var item := last;
      while item != AtHead(this)
        invariant |visited| <= |elems| && visited == Reversed(elems)[..|visited|]
        invariant item == LinkAt(|elems| - 1 - |visited|)
        decreases |elems| - |visited|
      {
        assert Linked(|elems| - 1 - |visited|);
        visited := visited + [item.node];
        item := item.node.prev;
      }
    }

    /** The next element, or the first after the last one. */
    method LoopNext(ghost k: nat, elm: Node) returns (node: Node)
      requires Valid()
      requires k < |elems| && elems[k] == elm
      ensures node == elems[Around(k + 1, |elems|)]
    {
      assert Linked(k);
      if elm.next == AtHead(this) {
        node := first.node;
      } else {
        node := elm.next.node;
      }
    }

    /** The previous element, or the last before the first one. */
    method LoopPrev(ghost k: nat, elm: Node) returns (node: Node)
      requires Valid()
      requires k < |elems| && elems[k] == elm
      ensures node == elems[Around(k - 1, |elems|)]
    {
      assert Linked(k);
      if elm.prev == AtHead(this) {
        node := last.node;
      } else {
        node := elm.prev.node;
      }
    }

    /** Stepping with LoopNext from any element comes back to it after visiting every element once. */
    method GoRound(ghost k: nat, start: Node) returns (visited: seq<Node>)
      requires Valid()
      requires k < |elems| && elems[k] == start
      ensures visited == elems[k..] + elems[..k]
    {
      ghost var round := elems[k..] + elems[..k];
      visited := [start];
      var item := LoopNext(k, start);
      while item != start
        invariant 1 <= |visited| <= |elems| && visited == round[..|visited|]
        invariant item == elems[Around(k + |visited|, |elems|)]
        decreases |elems| - |visited|
      {
        ghost var i := Around(k + |visited|, |elems|);
        assert i != k && round[|visited|] == item;
        visited := visited + [item];
        item := LoopNext(i, item);
      }
    }

    /** LoopPrev undoes LoopNext. */
    method ThereAndBack(ghost k: nat, elm: Node) returns (node: Node)
      requires Valid()
      requires k < |elems| && elems[k] == elm
      ensures node == elm
    {
      var step := LoopNext(k, elm);
      node := LoopPrev(Around(k + 1, |elems|), step);
    }
  }

  /** An index one round too high or too low brought back into 0..n. */
  function Around(i: int, n: nat): (r: nat)
    requires 0 <= i + n && i < 2 * n
    ensures r < n
  {
    if i < 0 then i + n else if i < n then i else i - n
  }
}
