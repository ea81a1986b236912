/**
 LIST of queue.h: a doubly linked list headed by one pointer. The back link of an element is the
 address of the variable that points to it, which lies in the head or in the previous element, so
 that insertion before an element and removal never need the head.
 */
module List {
  import opened Basics
  import opened QueueSeq

  datatype Slot = Unset | FirstOf(head: Head) | NextOf(node: Node)

  class Node {
    var next: Node?
    var prev: Slot

    constructor ()
      ensures next == null && prev == Unset
    {
      next, prev := null, Unset;
    }
  }

  function Home(slot: Slot): set<object> {
    match slot
    case Unset => {}
    case FirstOf(head) => {head}
    case NextOf(node) => {node}
  }

  /** *slot */
  function Load(slot: Slot): Node?
    requires !slot.Unset?
    reads Home(slot)
  {
    match slot
    case FirstOf(head) => head.first
    case NextOf(node) => node.next
  }

  /** *slot = node */
  method Store(slot: Slot, node: Node?)
    requires !slot.Unset?
    modifies Home(slot)
    ensures Load(slot) == node
    ensures slot.FirstOf? ==> slot.head.elems == old(slot.head.elems)
    ensures slot.NextOf? ==> slot.node.prev == old(slot.node.prev)
  {
    match slot
    case FirstOf(head) => head.first := node;
    case NextOf(n) => n.next := node;
  }

  class Head {
    var first: Node?
    ghost var elems: seq<Node>

    ghost function SlotAt(i: nat): Slot
      requires i <= |elems|
      reads this
    {
      if i == 0 then FirstOf(this) else NextOf(elems[i - 1])
    }

    ghost predicate Linked(i: nat)
      requires i < |elems|
      reads this, elems[i]
    {
      elems[i].next == ElementOr(elems, i + 1, null) && elems[i].prev == SlotAt(i)
    }

    ghost predicate Valid()
      reads this, elems
    {
      && Distinct(elems)
      && first == ElementOr(elems, 0, null)
      && forall i :: 0 <= i < |elems| ==> Linked(i)
    }

    /** The variable an element's back link addresses holds that element. */
    lemma BackLinkHolds(i: nat)
      requires Valid() && i < |elems|
      ensures elems[i].prev == FirstOf(this) || (elems[i].prev.NextOf? && elems[i].prev.node in elems)
      ensures Load(elems[i].prev) == elems[i]
    {
      assert Linked(i) && (i > 0 ==> Linked(i - 1));
    }

    constructor ()
      ensures Valid() && elems == []
    {
      first, elems := null, [];
    }

    method InsertHead(elm: Node)
      requires Valid() && elm !in elems
      modifies this, elems, elm
      ensures Valid() && elems == [elm] + old(elems)
    {
      elm.next := first;
      if elm.next != null {
        first.prev := NextOf(elm);
      }
      first := elm;
      elm.prev := FirstOf(this);
      elems := [elm] + elems;
      forall i | 0 <= i < |elems|
        ensures Linked(i)
      {
        assert i > 0 ==> old(Linked(i - 1));
      }
    }

    method InsertBefore(ghost k: nat, listelm: Node, elm: Node)
      requires Valid() && elm !in elems
      requires k < |elems| && elems[k] == listelm
      modifies this, elems, elm
      ensures Valid() && elems == Inserted(old(elems), k, elm)
    {
      assert Linked(k) && (k > 0 ==> Linked(k - 1));
      elm.prev := listelm.prev;
      elm.next := listelm;
      Store(listelm.prev, elm);
      listelm.prev := NextOf(elm);
      elems := Inserted(elems, k, elm);
      forall i | 0 <= i < |elems|
        ensures Linked(i)
      {
        assert i < k ==> old(Linked(i));
        assert i > k ==> old(Linked(i - 1));
      }
    }

    method InsertAfter(ghost k: nat, listelm: Node, elm: Node)
      requires Valid() && elm !in elems
      requires k < |elems| && elems[k] == listelm
      modifies this, elems, elm
      ensures Valid() && elems == Inserted(old(elems), k + 1, elm)
    {
      assert Linked(k) && (k + 1 < |elems| ==> Linked(k + 1));
      elm.next := listelm.next;
      if elm.next != null {
        listelm.next.prev := NextOf(elm);
      }
      listelm.next := elm;
      elm.prev := NextOf(listelm);
      elems := Inserted(elems, k + 1, elm);
      forall i | 0 <= i < |elems|
        ensures Linked(i)
      {
        assert i <= k ==> old(Linked(i));
        assert i > k + 1 ==> old(Linked(i - 1));
      }
    }

    method Remove(ghost k: nat, elm: Node)
      requires Valid()
      requires k < |elems| && elems[k] == elm
      modifies this, elems
      ensures Valid() && elems == Removed(old(elems), k)
      ensures elm.next == old(elm.next) && elm.prev == old(elm.prev)
    {
      assert Linked(k) && (k > 0 ==> Linked(k - 1)) && (k + 1 < |elems| ==> Linked(k + 1));
      if elm.next != null {
        elm.next.prev := elm.prev;
      }
      Store(elm.prev, elm.next);
      elems := Removed(elems, k);
      forall i | 0 <= i < |elems|
        ensures Linked(i)
      {
        assert i < k ==> old(Linked(i));
        assert i >= k ==> old(Linked(i + 1));
      }
    }

    method Replace(ghost k: nat, elm: Node, elm2: Node)
      requires Valid() && elm2 !in elems
      requires k < |elems| && elems[k] == elm
      modifies this, elems, elm2
      ensures Valid() && elems == old(elems)[k := elm2]
    {
      assert Linked(k) && (k > 0 ==> Linked(k - 1)) && (k + 1 < |elems| ==> Linked(k + 1));
      elm2.next := elm.next;
      if elm2.next != null {
        elm2.next.prev := NextOf(elm2);
      }
      elm2.prev := elm.prev;
      Store(elm2.prev, elm2);
      elems := elems[k := elm2];
      forall i | 0 <= i < |elems|
        ensures Linked(i)
      {
        assert old(Linked(i));
      }
    }

    method Swap(other: Head)
      requires Valid() && other.Valid()
      requires this != other ==> Apart(elems, other.elems)
      modifies this, other, elems, other.elems
      ensures Valid() && elems == old(other.elems)
      ensures other.Valid() && other.elems == old(elems)
    {
      var swapTmp := first;
      first := other.first;
      other.first := swapTmp;
      elems, other.elems := other.elems, elems;
      swapTmp := first;
      if swapTmp != null {
        swapTmp.prev := FirstOf(this);
      }
      swapTmp := other.first;
      if swapTmp != null {
        swapTmp.prev := FirstOf(other);
      }
      forall i | 0 <= i < |elems|
        ensures Linked(i)
      {
        assert old(other.Linked(i));
      }
      forall i | 0 <= i < |other.elems|
        ensures other.Linked(i)
      {
        assert old(Linked(i));
      }
    }

    /** NULL for the element whose back link lies in the head, otherwise the node that contains it. */
    method Prev(ghost k: nat, elm: Node) returns (node: Node?)
      requires Valid()
      requires k < |elems| && elems[k] == elm
      ensures node == if k == 0 then null else elems[k - 1]
    {
      assert Linked(k);
      if elm.prev == FirstOf(this) {
        node := null;
      } else {
        node := elm.prev.node;
      }
    }

    /** The safe loop with a body that removes the current element when p holds of it: every element
        is visited once, in order, and those at which p fails remain. */
    method RemoveWhere(p: Node -> bool) returns (visited: seq<Node>)
      requires Valid()
      modifies this, elems
      ensures Valid() && visited == old(elems)
      ensures elems == Without(old(elems), p)
    {
      hide Without;
      ghost var before := elems;
      ghost var n := 0;
      visited := [];
      WithoutNone(p);
      var item := first;
      while item != null
        invariant Valid() && forall x :: x in elems ==> x in before
        invariant |visited| <= |before| && visited == before[..|visited|]
        invariant n <= |elems| && elems[..n] == Without(visited, p) && elems[n..] == before[|visited|..]
        invariant item == ElementOr(before, |visited|, null)
        decreases |before| - |visited|
      {
        assert elems[n] == elems[n..][0] == item;
        assert Linked(n);
        var tvar := item.next;
        StepWithout(before, |visited|, elems, n, p);
        if p(item) {
          Remove(n, item);
        } else {
          n := n + 1;
        }
        visited := visited + [item];
        item := tvar;
      }
      assert elems == elems[..n] + elems[n..];
    }
  }

  lemma WithoutNone<T>(p: T -> bool)
    ensures Without([], p) == []
  {
  }

  /** One step of a removing loop over `before`: elems is the kept part of the first m elements
      followed by the rest. */
  lemma StepWithout<T>(before: seq<T>, m: nat, elems: seq<T>, n: nat, p: T -> bool)
    requires m < |before| && n < |elems|
    requires elems[..n] == Without(before[..m], p) && elems[n..] == before[m..]
    ensures elems[n] == before[m]
    ensures n + 1 < |elems| ==> m + 1 < |before| && elems[n + 1] == before[m + 1]
    ensures n + 1 == |elems| ==> m + 1 == |before|
    ensures before[..m + 1] == before[..m] + [before[m]]
    ensures p(before[m]) ==>
        Removed(elems, n)[..n] == Without(before[..m + 1], p) && Removed(elems, n)[n..] == before[m + 1..]
    ensures !p(before[m]) ==> elems[..n + 1] == Without(before[..m + 1], p) && elems[n + 1..] == before[m + 1..]
  {
    assert elems[n..][0] == before[m..][0];
    assert before[..m + 1] == before[..m] + [before[m]];
    WithoutAppend(before[..m], [before[m]], p);
    assert elems[n + 1..] == elems[n..][1..] && before[m + 1..] == before[m..][1..];
    if n + 1 < |elems| {
      assert elems[n..][1] == before[m..][1];
    }
  }
}
