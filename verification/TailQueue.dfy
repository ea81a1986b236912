/**
 TAILQ of queue.h: a doubly linked tail queue whose back links are addresses of `next` fields.

 A Slot stands for the address of a variable that holds a node: the first field of a head or the
 next field of a node. Every macro is a method on the head that refines an operation on the
 sequence of queued nodes.
 */
module TailQueue {
  import opened Basics
  import opened QueueSeq

  datatype Slot = Unset | FirstOf(head: Head) | NextOf(node: Node)

  class Node {
    var next: Node?
    var prev: Slot

    constructor ()
      ensures next == null && prev == Unset
    {
      next, prev := null, Unset;
    }
  }

  /** The object a slot lies in. */
  function Home(slot: Slot): set<object> {
    match slot
    case Unset => {}
    case FirstOf(head) => {head}
    case NextOf(node) => {node}
  }

  /** Reads through an address. */
  function Load(slot: Slot): Node?
    requires !slot.Unset?
    reads Home(slot)
  {
    match slot
    case FirstOf(head) => head.first
    case NextOf(node) => node.next
  }

  /** Writes through an address. */
  method Store(slot: Slot, node: Node?)
    requires !slot.Unset?
    modifies Home(slot)
    ensures Load(slot) == node
    ensures slot.FirstOf? ==> slot.head.last == old(slot.head.last) && slot.head.elems == old(slot.head.elems)
    ensures slot.NextOf? ==> slot.node.prev == old(slot.node.prev)
  {
    match slot
    case FirstOf(head) => head.first := node;
    case NextOf(n) => n.next := node;
  }

  /** The field after the one a slot addresses, in a head or in a node: an entry has the layout of a
      head, so reading a node's entry as a head yields the node's back link. */
  function SecondField(slot: Slot): Slot
    requires !slot.Unset?
    reads Home(slot)
  {
    match slot
    case FirstOf(head) => head.last
    case NextOf(node) => node.prev
  }

  class Head {
    var first: Node?
    var last: Slot
    ghost var elems: seq<Node>

    /** The slot that holds element i, or would hold a new last element when i is the length. */
    ghost function SlotAt(i: nat): Slot
      requires i <= |elems|
      reads this
    {
      if i == 0 then FirstOf(this) else NextOf(elems[i - 1])
    }

    ghost predicate Linked(i: nat)
      requires i < |elems|
      reads this, elems[i]
    {
      elems[i].next == ElementOr(elems, i + 1, null) && elems[i].prev == SlotAt(i)
    }

    ghost predicate Valid()
      reads this, elems
    {
      && Distinct(elems)
      && first == ElementOr(elems, 0, null)
      && last == SlotAt(|elems|)
      && forall i :: 0 <= i < |elems| ==> Linked(i)
    }

    constructor ()
      ensures Valid() && elems == []
    {
      first, elems := null, [];
      new;
      last := FirstOf(this);
    }

    method Init()
      modifies this
      ensures Valid() && elems == []
    {
      first, last, elems := null, FirstOf(this), [];
    }

    method InsertHead(elm: Node)
      requires Valid() && elm !in elems
      modifies this, elems, elm
      ensures Valid() && elems == [elm] + old(elems)
    {
      elm.next := first;
      if elm.next != null {
        first.prev := NextOf(elm);
      } else {
        last := NextOf(elm);
      }
      first := elm;
      elm.prev := FirstOf(this);
      elems := [elm] + elems;
      forall i | 0 <= i < |elems|
        ensures Linked(i)
      {
        assert i > 0 ==> old(Linked(i - 1));
      }
    }

    method InsertTail(elm: Node)
      requires Valid() && elm !in elems
      modifies this, elems, elm
      ensures Valid() && elems == old(elems) + [elm]
    {
      elm.next := null;
      elm.prev := last;
      Store(last, elm);
      last := NextOf(elm);
      elems := elems + [elm];
      forall i | 0 <= i < |elems|
        ensures Linked(i)
      {
        assert i < |elems| - 1 ==> old(Linked(i));
      }
    }

    method InsertBefore(ghost k: nat, listelm: Node, elm: Node)
      requires Valid() && elm !in elems
      requires k < |elems| && elems[k] == listelm
      modifies this, elems, elm
      ensures Valid() && elems == Inserted(old(elems), k, elm)
    {
      assert Linked(k) && (k > 0 ==> Linked(k - 1));
      elm.prev := listelm.prev;
      elm.next := listelm;
      Store(listelm.prev, elm);
      listelm.prev := NextOf(elm);
      elems := Inserted(elems, k, elm);
      forall i | 0 <= i < |elems|
        ensures Linked(i)
      {
        assert i < k ==> old(Linked(i));
        assert i > k ==> old(Linked(i - 1));
      }
    }

    method InsertAfter(ghost k: nat, listelm: Node, elm: Node)
      requires Valid() && elm !in elems
      requires k < |elems| && elems[k] == listelm
      modifies this, elems, elm
      ensures Valid() && elems == Inserted(old(elems), k + 1, elm)
    {
      assert Linked(k) && (k + 1 < |elems| ==> Linked(k + 1));
      elm.next := listelm.next;
      if elm.next != null {
        elm.next.prev := NextOf(elm);
      } else {
        last := NextOf(elm);
      }
      listelm.next := elm;
      elm.prev := NextOf(listelm);
      elems := Inserted(elems, k + 1, elm);
      forall i | 0 <= i < |elems|
        ensures Linked(i)
      {
        assert i <= k ==> old(Linked(i));
        assert i > k + 1 ==> old(Linked(i - 1));
      }
    }

    method Remove(ghost k: nat, elm: Node)
      requires Valid()
      requires k < |elems| && elems[k] == elm
      modifies this, elems
      ensures Valid() && elems == Removed(old(elems), k)
      ensures elm !in elems && elm.next == old(elm.next) && elm.prev == old(elm.prev)
    {
      assert Linked(k) && (k > 0 ==> Linked(k - 1)) && (k + 1 < |elems| ==> Linked(k + 1));
      if elm.next != null {
        elm.next.prev := elm.prev;
      } else {
        last := elm.prev;
      }
      Store(elm.prev, elm.next);
      elems := Removed(elems, k);
      forall i | 0 <= i < |elems|
        ensures Linked(i)
      {
        assert i < k ==> old(Linked(i));
        assert i >= k ==> old(Linked(i + 1));
      }
    }

    method Replace(ghost k: nat, elm: Node, elm2: Node)
      requires Valid() && elm2 !in elems
      requires k < |elems| && elems[k] == elm
      modifies this, elems, elm2
      ensures Valid() && elems == old(elems)[k := elm2]
    {
      assert Linked(k) && (k > 0 ==> Linked(k - 1)) && (k + 1 < |elems| ==> Linked(k + 1));
      elm2.next := elm.next;
      if elm2.next != null {
        elm2.next.prev := NextOf(elm2);
      } else {
        last := NextOf(elm2);
      }
      elm2.prev := elm.prev;
      Store(elm2.prev, elm2);
      elems := elems[k := elm2];
      forall i | 0 <= i < |elems|
        ensures Linked(i)
      {
        assert old(Linked(i));
      }
    }

    /** Moves every element of the other queue to the end of this one. */
    method Concat(other: Head)
      requires this != other && Valid() && other.Valid()
      requires Apart(elems, other.elems)
      modifies this, other, elems, other.elems
      ensures Valid() && elems == old(elems) + old(other.elems)
      ensures other.Valid() && other.elems == []
    {
      ghost var n := |elems|;
      if other.first != null {
        assert other.Linked(0) && (n > 0 ==> Linked(n - 1));
        Store(last, other.first);
        other.first.prev := last;
        last := other.last;
        elems := elems + other.elems;
        ApartJoin(old(elems), other.elems);
        forall i | 0 <= i < |elems|
          ensures Linked(i)
        {
          assert i < n ==> old(Linked(i));
          assert i >= n ==> old(other.Linked(i - n));
        }
        other.Init();
      } else {
        assert elems + other.elems == elems;
      }
    }

    method Swap(other: Head)
      requires Valid() && other.Valid()
      requires this != other ==> Apart(elems, other.elems)
      modifies this, other, elems, other.elems
      ensures Valid() && elems == old(other.elems)
      ensures other.Valid() && other.elems == old(elems)
    {
      var swapFirst, swapLast := first, last;
      first := other.first;
      last := other.last;
      other.first := swapFirst;
      other.last := swapLast;
      elems, other.elems := other.elems, elems;
      swapFirst := first;
      if swapFirst != null {
        swapFirst.prev := FirstOf(this);
      } else {
        last := FirstOf(this);
      }
      swapFirst := other.first;
      if swapFirst != null {
        swapFirst.prev := FirstOf(other);
      } else {
        other.last := FirstOf(other);
      }
      forall i | 0 <= i < |elems|
        ensures Linked(i)
      {
        assert old(other.Linked(i));
      }
      forall i | 0 <= i < |other.elems|
        ensures other.Linked(i)
      {
        assert old(Linked(i));
      }
    }

    /** The last element, by reading the entry that holds the last link as if it were a head. */
    method Last() returns (node: Node?)
      requires Valid()
      ensures node == if elems == [] then null else elems[|elems| - 1]
    {
      assert elems != [] ==> Linked(|elems| - 1);
      assert |elems| > 1 ==> Linked(|elems| - 2);
      node := Load(SecondField(last));
    }

    /** The predecessor, by reading the entry or head that holds the link to elm as if it were a head. */
    method Prev(ghost k: nat, elm: Node) returns (node: Node?)
      requires Valid()
      requires k < |elems| && elems[k] == elm
      ensures node == if k == 0 then null else elems[k - 1]
    {
      assert Linked(k) && Linked(|elems| - 1);
      assert k > 0 ==> Linked(k - 1);
      assert k > 1 ==> Linked(k - 2);
      node := Load(SecondField(elm.prev));
    }

    method ForEach() returns (visited: seq<Node>)
      requires Valid()
      ensures visited == elems
    {
      visited := [];
      var item := first;
      while item != null
        invariant |visited| <= |elems| && visited == elems[..|visited|]
        invariant item == ElementOr(elems, |visited|, null)
        decreases |elems| - |visited|
      {
        assert Linked(|visited|);
        visited := visited + [item];
        item := item.next;
      }
    }

    method ForEachReverse() returns (visited: seq<Node>)
      requires Valid()
      ensures visited == Reversed(elems)
    {
      visited := [];
      var item := Last();
      while item != null
        invariant |visited| <= |elems| && visited == Reversed(elems)[..|visited|]
        invariant item == if |visited| == |elems| then null else elems[|elems| - 1 - |visited|]
        decreases |elems| - |visited|
      {
        ghost var k := |elems| - 1 - |visited|;
        visited := visited + [item];
        item := Prev(k, item);
      }
    }
  }
}
