/**
 The operations on sequences that the queues of queue.h carry out on linked nodes.
 */
module QueueSeq {
  import opened Basics

  /** No node is in both sequences. */
  ghost predicate Apart<T>(s: seq<T>, t: seq<T>) {
    forall i, j :: 0 <= i < |s| && 0 <= j < |t| ==> s[i] != t[j]
  }

  /** The element at index i, or what stands behind the last one. */
  function ElementOr<T>(s: seq<T>, i: nat, end: T): T {
    if i < |s| then s[i] else end
  }

  lemma ApartJoin<T>(s: seq<T>, t: seq<T>)
    requires Distinct(s) && Distinct(t) && Apart(s, t)
    ensures Distinct(s + t)
  {
  }

  /** The sequence with x put in at index k. */
  function Inserted<T>(s: seq<T>, k: nat, x: T): (r: seq<T>)
    requires k <= |s|
    ensures |r| == |s| + 1 && r[k] == x
    ensures forall i :: 0 <= i < k ==> r[i] == s[i]
    ensures forall i :: k < i < |r| ==> r[i] == s[i - 1]
    ensures Distinct(s) && x !in s ==> Distinct(r)
  {
    s[..k] + [x] + s[k..]
  }

  /** The sequence without the element at index k. */
  function Removed<T>(s: seq<T>, k: nat): (r: seq<T>)
    requires k < |s|
    ensures |r| == |s| - 1
    ensures forall i :: 0 <= i < k ==> r[i] == s[i]
    ensures forall i :: k <= i < |r| ==> r[i] == s[i + 1]
    ensures Distinct(s) ==> Distinct(r) && s[k] !in r
  {
    s[..k] + s[k + 1..]
  }

  function Reversed<T>(s: seq<T>): (r: seq<T>)
    ensures |r| == |s|
    ensures forall i :: 0 <= i < |s| ==> r[i] == s[|s| - 1 - i]
  {
    if s == [] then [] else Reversed(s[1..]) + [s[0]]
  }

  /** The elements at which p does not hold, in order. */
  function Without<T>(s: seq<T>, p: T -> bool): (r: seq<T>)
    ensures forall k :: 0 <= k < |r| ==> r[k] in s && !p(r[k])
    ensures forall k :: 0 <= k < |s| && !p(s[k]) ==> s[k] in r
    ensures |r| <= |s|
  {
    if s == [] then [] else (if p(s[0]) then [] else [s[0]]) + Without(s[1..], p)
  }

  lemma {:induction false} WithoutAppend<T>(s: seq<T>, t: seq<T>, p: T -> bool)
    ensures Without(s + t, p) == Without(s, p) + Without(t, p)
  {
    if s == [] {
      assert s + t == t;
    } else {
      assert (s + t)[1..] == s[1..] + t;
      WithoutAppend(s[1..], t, p);
    }
  }
}
