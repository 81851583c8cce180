/** The address-sorted, duplicate-free queue the collector keeps its pointers in. */
module PtrQueues {

  ghost predicate StrictlyAscending(s: seq<nat>) {
    forall i, j :: 0 <= i < j < |s| ==> s[i] < s[j]
  }

  /** `s` with `x` put in its place, or `s` itself when `x` is already there. */
  function Insert(s: seq<nat>, x: nat): seq<nat> {
    if s == [] then [x]
    else if s[0] < x then [s[0]] + Insert(s[1..], x)
    else if s[0] == x then s
    else [x] + s
  }

  lemma {:induction false} InsertMembers(s: seq<nat>, x: nat)
    ensures forall y :: y in Insert(s, x) <==> y in s || y == x
  {
    if s != [] && s[0] < x {
      InsertMembers(s[1..], x);
      assert s == [s[0]] + s[1..];
    }
  }

  lemma ConsAscending(x: nat, s: seq<nat>)
    requires StrictlyAscending(s) && forall y :: y in s ==> x < y
    ensures StrictlyAscending([x] + s)
  {
    assert forall i :: 0 <= i < |s| ==> s[i] in s;
  }

  lemma {:induction false} InsertKeepsOrder(s: seq<nat>, x: nat)
    requires StrictlyAscending(s)
    ensures StrictlyAscending(Insert(s, x))
    ensures forall y :: y in Insert(s, x) <==> y in s || y == x
    ensures |Insert(s, x)| == if x in s then |s| else |s| + 1
  {
    InsertMembers(s, x);
    if s != [] && s[0] < x {
      InsertKeepsOrder(s[1..], x);
      InsertMembers(s[1..], x);
      assert s == [s[0]] + s[1..];
      ConsAscending(s[0], Insert(s[1..], x));
    } else if s != [] && s[0] > x {
      ConsAscending(x, s);
    }
  }

  lemma {:induction false} InsertAt(s: seq<nat>, x: nat, k: nat)
    requires k <= |s|
    requires forall i :: 0 <= i < k ==> s[i] < x
    requires k < |s| ==> s[k] >= x
    ensures Insert(s, x) == if k < |s| && s[k] == x then s else s[..k] + [x] + s[k..]
  {
    if k > 0 {
      InsertAt(s[1..], x, k - 1);
      assert s == [s[0]] + s[1..];
      SplitCons(s, x, k);
    }
  }

  lemma SplitCons(s: seq<nat>, x: nat, k: nat)
    requires 0 < k <= |s|
    ensures s[..k] + [x] + s[k..] == [s[0]] + (s[1..][..k - 1] + [x] + s[1..][k - 1..])
  {
    assert s[..k] == [s[0]] + s[1..][..k - 1];
    assert s[k..] == s[1..][k - 1..];
  }

  /** Enqueueing ascending pointers just appends them. */
  lemma {:induction false} InsertLargest(s: seq<nat>, x: nat)
    requires forall i :: 0 <= i < |s| ==> s[i] < x
    ensures Insert(s, x) == s + [x]
  {
    InsertAt(s, x, |s|);
  }

  class PtrQueue {
    var elems: seq<nat>

    ghost predicate Valid()
      reads this
    {
      && StrictlyAscending(elems)
      && forall x :: x in elems ==> x != 0
    }

    constructor ()
      ensures Valid() && elems == []
    {
      elems := [];
    }

    /** Adds `ptr` unless it is already queued, and tells whether it was new. */
    method Enqueue(ptr: nat) returns (isNew: bool)
      requires Valid()
      requires ptr != 0
      modifies this
      ensures Valid()
      ensures isNew == (ptr !in old(elems))
      ensures !isNew ==> elems == old(elems)
      ensures elems == Insert(old(elems), ptr)
    {
      InsertKeepsOrder(elems, ptr);
      var k := 0;
      while k < |elems| && elems[k] < ptr
        invariant 0 <= k <= |elems|
        invariant forall i :: 0 <= i < k ==> elems[i] < ptr
      {
        k := k + 1;
      }
      InsertAt(elems, ptr, k);
      if k < |elems| && elems[k] == ptr {
        return false;
      }
      elems := elems[..k] + [ptr] + elems[k..];
      return true;
    }

    /** The smallest queued pointer, or NULL when there is none. */
    method Dequeue() returns (ptr: nat)
      requires Valid()
      modifies this
      ensures Valid()
      ensures old(elems) == [] ==> ptr == 0 && elems == []
      ensures old(elems) != [] ==> old(elems) == [ptr] + elems
    {
      if elems == [] {
        return 0;
      }
      ptr := elems[0];
      elems := elems[1..];
    }

    /** The queued pointer at `index`, or NULL past the end. */
    method Get(index: nat) returns (ptr: nat)
      ensures ptr == if index < |elems| then elems[index] else 0
    {
      if index >= |elems| {
        return 0;
      }
      return elems[index];
    }
  }
}
