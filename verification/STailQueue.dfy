/**
 STAILQ of queue.h: a singly linked tail queue whose head keeps the address of the last link, which
 is the head's own first field while the queue is empty.
 */
module STailQueue {
  import opened Basics
  import opened QueueSeq

  datatype Slot = Unset | FirstOf(head: Head) | NextOf(node: Node)

  class Node {
    var next: Node?

    constructor ()
      ensures next == null
    {
      next := null;
    }
  }

  function Home(slot: Slot): set<object> {
    match slot
    case Unset => {}
    case FirstOf(head) => {head}
    case NextOf(node) => {node}
  }

  /** *slot = node */
  method Store(slot: Slot, node: Node?)
    requires !slot.Unset?
    modifies Home(slot)
    ensures slot.FirstOf? ==>
        slot.head.first == node && slot.head.last == old(slot.head.last) && slot.head.elems == old(slot.head.elems)
    ensures slot.NextOf? ==> slot.node.next == node
  {
    match slot
    case FirstOf(head) => head.first := node;
    case NextOf(n) => n.next := node;
  }

  class Head {
    var first: Node?
    var last: Slot
    ghost var elems: seq<Node>

    ghost predicate Linked(i: nat)
      requires i < |elems|
      reads this, elems[i]
    {
      elems[i].next == ElementOr(elems, i + 1, null)
    }

    /** The tail slot addresses the last link, or the first field when there is none. */
    ghost predicate TailSlot()
      reads this
    {
      last == if elems == [] then FirstOf(this) else NextOf(elems[|elems| - 1])
    }

    ghost predicate Valid()
      reads this, elems
    {
      && Distinct(elems)
      && first == ElementOr(elems, 0, null)
      && TailSlot()
      && forall i :: 0 <= i < |elems| ==> Linked(i)
    }

    constructor ()
      ensures Valid() && elems == []
    {
      first, elems := null, [];
      new;
      last := FirstOf(this);
    }

    method Init()
      modifies this
      ensures Valid() && elems == []
    {
      first, last, elems := null, FirstOf(this), [];
    }

    method InsertHead(elm: Node)
      requires Valid() && elm !in elems
      modifies this, elm
      ensures Valid() && elems == [elm] + old(elems)
    {
      elm.next := first;
      if elm.next == null {
        last := NextOf(elm);
      }
      first := elm;
      elems := [elm] + elems;
      forall i | 0 <= i < |elems|
        ensures Linked(i)
      {
        assert i > 0 ==> old(Linked(i - 1));
      }
    }

    method InsertAfter(ghost k: nat, listelm: Node, elm: Node)
      requires Valid() && elm !in elems
      requires k < |elems| && elems[k] == listelm
      modifies this, elems, elm
      ensures Valid() && elems == Inserted(old(elems), k + 1, elm)
    {
      assert Linked(k);
      elm.next := listelm.next;
      if elm.next == null {
        last := NextOf(elm);
      }
      listelm.next := elm;
      elems := Inserted(elems, k + 1, elm);
      forall i | 0 <= i < |elems|
        ensures Linked(i)
      {
        assert i <= k ==> old(Linked(i));
        assert i > k + 1 ==> old(Linked(i - 1));
      }
    }

    method InsertTail(elm: Node)
      requires Valid() && elm !in elems
      modifies this, elems, elm
      ensures Valid() && elems == old(elems) + [elm]
    {
      elm.next := null;
      Store(last, elm);
      last := NextOf(elm);
      elems := elems + [elm];
      forall i | 0 <= i < |elems|
        ensures Linked(i)
      {
        assert i < |elems| - 1 ==> old(Linked(i));
      }
    }

    method Concat(other: Head)
      requires this != other && Valid() && other.Valid()
      requires Apart(elems, other.elems)
      modifies this, other, elems
      ensures Valid() && elems == old(elems) + old(other.elems)
      ensures other.Valid() && other.elems == []
    {
      ghost var n := |elems|;
      if other.first != null {
        Store(last, other.first);
        last := other.last;
        elems := elems + other.elems;
        ApartJoin(old(elems), other.elems);
        forall i | 0 <= i < |elems|
          ensures Linked(i)
        {
          assert i < n ==> old(Linked(i));
          assert i >= n ==> old(other.Linked(i - n));
        }
        other.Init();
      } else {
        assert elems + other.elems == elems;
      }
    }

    method RemoveHead()
      requires Valid() && elems != []
      modifies this
      ensures Valid() && elems == old(elems)[1..]
    {
      RemoveHeadUntil(0, first);
    }

    /** Drops everything up to and including elm. */
    method RemoveHeadUntil(ghost k: nat, elm: Node)
      requires Valid()
      requires k < |elems| && elems[k] == elm
      modifies this
      ensures Valid() && elems == old(elems)[k + 1..]
    {
      assert Linked(k);
      first := elm.next;
      if first == null {
        last := FirstOf(this);
      }
      elems := elems[k + 1..];
      forall i | 0 <= i < |elems|
        ensures Linked(i)
      {
        assert old(Linked(i + k + 1));
      }
    }

    method RemoveAfter(ghost k: nat, elm: Node)
      requires Valid()
      requires k + 1 < |elems| && elems[k] == elm
      modifies this, elems
      ensures Valid() && elems == Removed(old(elems), k + 1)
    {
      assert Linked(k) && Linked(k + 1);
      elm.next := elm.next.next;
      if elm.next == null {
        last := NextOf(elm);
      }
      elems := Removed(elems, k + 1);
      forall i | 0 <= i < |elems|
        ensures Linked(i)
      {
        assert i <= k ==> old(Linked(i));
        assert i > k ==> old(Linked(i + 1));
      }
    }

    /** Finds the predecessor of elm from the front. */
    method Remove(ghost k: nat, elm: Node)
      requires Valid()
      requires k < |elems| && elems[k] == elm
      modifies this, elems
      ensures Valid() && elems == Removed(old(elems), k)
    {
      if first == elm {
        assert k == 0;
        RemoveHead();
      } else {
        var curelm := first;
        ghost var i := 0;
        assert k > 0 && Linked(0);
        while curelm.next != elm
          invariant 0 <= i < k && curelm == elems[i]
          invariant Valid() && elems == old(elems)
          invariant curelm.next == elems[i + 1]
          decreases k - i
        {
          assert Linked(i) && Linked(i + 1);
          curelm := curelm.next;
          i := i + 1;
        }
        RemoveAfter(i, curelm);
      }
    }

    method Swap(other: Head)
      requires Valid() && other.Valid()
      modifies this, other
      ensures Valid() && elems == old(other.elems)
      ensures other.Valid() && other.elems == old(elems)
    {
      var swapFirst, swapLast := first, last;
      first := other.first;
      last := other.last;
      other.first := swapFirst;
      other.last := swapLast;
      elems, other.elems := other.elems, elems;
      if first == null {
        last := FirstOf(this);
      }
      if other.first == null {
        other.last := FirstOf(other);
      }
      forall i | 0 <= i < |elems|
        ensures Linked(i)
      {
        assert old(other.Linked(i));
      }
      forall i | 0 <= i < |other.elems|
        ensures other.Linked(i)
      {
        assert old(Linked(i));
      }
    }

    /** The node that contains the last link. */
    method Last() returns (node: Node?)
      requires Valid()
      ensures node == if elems == [] then null else elems[|elems| - 1]
    {
      if first == null {
        node := null;
      } else {
        node := last.node;
      }
    }
  }
}
