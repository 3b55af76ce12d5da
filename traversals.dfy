/**
 * Loops a client of src/linkedlist.c writes over the list and its iterator,
 * as test/test_linkedlist.c does: building a list by pushes, a full
 * traversal, removing chosen elements during a traversal, and emptying a
 * list through its iterator. Each is proved against the sequence view of
 * ListSpec, and the test functions themselves are replayed on that basis.
 */
module Traversals {
  import opened ListSpec
  import opened LinkedLists

  /** Pushes the elements of `vs` in order: the list grows by exactly `vs`. */
  method PushAll<T>(ll: LinkedList<T>, vs: seq<T>)
    requires ll.Valid()
    modifies ll.Repr
    ensures ll.Valid() && fresh(ll.Repr - old(ll.Repr))
    ensures ll.Contents == old(ll.Contents) + vs
  {
    var i := 0;
    while i < |vs|
      invariant 0 <= i <= |vs|
      invariant ll.Valid() && fresh(ll.Repr - old(ll.Repr))
      invariant ll.Contents == old(ll.Contents) + vs[..i]
    {
      ll.Push(vs[i]);
      assert vs[..i + 1] == vs[..i] + [vs[i]];
      i := i + 1;
    }
    assert vs[..i] == vs;
  }

  /**
   * A fresh iterator driven by `hasnext`/`next` until exhausted yields the
   * contents in order, after exactly `size` calls of `next`.
   */
  method TraverseAll<T>(ll: LinkedList<T>) returns (yielded: seq<T>, calls: nat)
    requires ll.Valid()
    ensures yielded == ll.Contents
    ensures calls == |ll.Contents|
  {
    var it := new Iter(ll);
    yielded, calls := [], 0;
    var more := it.HasNext();
    while more
      invariant it.Valid() && it.ll == ll && fresh(it)
      invariant it.index == calls == |yielded| <= |ll.Contents|
      invariant yielded == ll.Contents[..calls]
      invariant more <==> calls < |ll.Contents|
      decreases |ll.Contents| - calls
    {
      var x := it.Next();
      yielded, calls := yielded + [x], calls + 1;
      more := it.HasNext();
    }
  }

  /**
   * Two iterators over one list: for every element the outer iterator
   * yields, a second iterator runs a full traversal. Neither disturbs the
   * other, so the outer one still yields the contents in order and every
   * inner traversal yields them all.
   */
  method NestedTraversal<T>(ll: LinkedList<T>) returns (outer: seq<T>, inner: seq<seq<T>>)
    requires ll.Valid()
    ensures outer == ll.Contents
    ensures |inner| == |ll.Contents|
    ensures forall k :: 0 <= k < |inner| ==> inner[k] == ll.Contents
  {
    var it := new Iter(ll);
    outer, inner := [], [];
    var more := it.HasNext();
    while more
      invariant it.Valid() && it.ll == ll && fresh(it)
      invariant it.index == |outer| == |inner| <= |ll.Contents|
      invariant outer == ll.Contents[..it.index]
      invariant forall k :: 0 <= k < |inner| ==> inner[k] == ll.Contents
      invariant more <==> it.index < |ll.Contents|
      decreases |ll.Contents| - it.index
    {
      var x := it.Next();
      var all, calls := TraverseAll(ll);
      outer, inner := outer + [x], inner + [all];
      more := it.HasNext();
    }
  }

  /**
   * One traversal in which the element yielded at each position in `drop`
   * is removed through the iterator right after `next` returned it: every
   * round's value, whether `next`'s or `remove`'s, is the original element
   * at that position, and what stays in the list is the rest, in its old
   * order.
   */
  method RemoveYieldedAt<T>(ll: LinkedList<T>, drop: set<nat>) returns (vals: seq<T>)
    requires ll.Valid()
    modifies ll.Repr
    ensures ll.Valid() && ll.Repr <= old(ll.Repr)
    ensures vals == old(ll.Contents)
    ensures ll.Contents == KeepUnmarked(old(ll.Contents), drop)
  {
    ghost var s := ll.Contents;
    var it := new Iter(ll);
    var i: nat := 0;
    vals := [];
    var more := it.HasNext();
    while more
      invariant it.Valid() && it.ll == ll && fresh(it)
      invariant ll.Repr <= old(ll.Repr)
      invariant i <= |s| && ll.Contents == KeepUnmarked(s[..i], drop) + s[i..]
      invariant vals == s[..i]
      invariant it.index == |KeepUnmarked(s[..i], drop)|
      invariant more <==> i < |s|
      decreases |s| - i
    {
      PrefixSnoc(s, i);
      var v := NextRemovingIf(it, i in drop, s, i, drop);
      vals := vals + [v];
      i := i + 1;
      more := it.HasNext();
    }
    assert s[..i] == s;
  }

  /**
   * One round of the loop above: `next`, then `remove` when `marked`. The
   * value handed back is the element at position `i` of the original
   * contents `s` either way, so `remove` returns what `next` just yielded.
   */
  method NextRemovingIf<T>(it: Iter<T>, marked: bool, ghost s: seq<T>, ghost i: nat, ghost drop: set<nat>)
      returns (v: T)
    requires it.Valid() && i < |s| && marked == (i in drop)
    requires it.ll.Contents == KeepUnmarked(s[..i], drop) + s[i..]
    requires it.index == |KeepUnmarked(s[..i], drop)|
    modifies it, it.ll.Repr
    ensures it.Valid() && it.ll.Repr <= old(it.ll.Repr)
    ensures v == s[i]
    ensures it.ll.Contents == KeepUnmarked(s[..i + 1], drop) + s[i + 1..]
    ensures it.index == |KeepUnmarked(s[..i + 1], drop)|
  {
    KeepUnmarkedAdvance(s, i, drop, it.ll.Contents);
    v := it.Next();
    if marked {
      v := it.Remove();
    }
  }

  /**
   * `next` followed by `remove`, until `hasnext` fails: the list is empty
   * after exactly as many rounds as it had elements.
   */
  method RemoveAllByIterator<T>(ll: LinkedList<T>) returns (rounds: nat)
    requires ll.Valid()
    modifies ll.Repr
    ensures ll.Valid() && ll.Repr <= old(ll.Repr)
    ensures rounds == |old(ll.Contents)|
    ensures ll.Contents == []
  {
    ghost var s := ll.Contents;
    var it := new Iter(ll);
    rounds := 0;
    var more := it.HasNext();
    while more
      invariant it.Valid() && it.ll == ll && fresh(it) && it.last == null
      invariant ll.Repr <= old(ll.Repr)
      invariant rounds <= |s| && ll.Contents == s[rounds..]
      invariant it.index == 0
      invariant more <==> rounds < |s|
      decreases |s| - rounds
    {
      var _ := it.Next();
      var _ := it.Remove();
      rounds := rounds + 1;
      more := it.HasNext();
    }
  }

  /**
   * One call of the list's public mutating interface on a real list: the
   * contents change exactly as `Apply` says, and a removing call hands back
   * the element at the index it removed.
   */
  method Perform<T>(ll: LinkedList<T>, op: Op<T>) returns (out: Option<T>)
    requires ll.Valid() && Allowed(ll.Contents, op)
    modifies ll.Repr
    ensures ll.Valid() && fresh(ll.Repr - old(ll.Repr))
    ensures ll.Contents == Apply(old(ll.Contents), op)
    ensures op.Remove? ==> out == Some(old(ll.Contents)[op.index])
    ensures op.Pop? ==> out == Some(old(ll.Contents)[|old(ll.Contents)| - 1])
    ensures op.Insert? || op.Push? ==> out == None
  {
    ghost var s := ll.Contents;
    match op
    case Insert(i, x) =>
      ll.Insert(i, x);
      out := None;
    case Remove(i) =>
      var d := ll.Remove(i);
      out := Some(d);
    case Push(x) =>
      ll.Push(x);
      assert s[..|s|] == s;
      out := None;
    case Pop =>
      var d := ll.Pop();
      out := Some(d);
  }

  /**
   * Performs `ops` in order on a real list: the contents end as `Run` says,
   * so the size law `RunSize` holds of the list itself.
   */
  method PerformAll<T>(ll: LinkedList<T>, ops: seq<Op<T>>)
    requires ll.Valid() && Run(ll.Contents, ops).Some?
    modifies ll.Repr
    ensures ll.Valid() && fresh(ll.Repr - old(ll.Repr))
    ensures ll.Contents == Run(old(ll.Contents), ops).value
    ensures |ll.Contents| + Shrinks(ops) == |old(ll.Contents)| + Grows(ops)
  {
    ghost var s := ll.Contents;
    var i := 0;
    while i < |ops|
      invariant 0 <= i <= |ops|
      invariant ll.Valid() && fresh(ll.Repr - old(ll.Repr))
      invariant Run(ll.Contents, ops[i..]) == Run(s, ops)
    {
      assert ops[i..][0] == ops[i] && ops[i..][1..] == ops[i + 1..];
      var _ := Perform(ll, ops[i]);
      i := i + 1;
    }
    assert ops[i..] == [];
    RunSize(s, ops);
  }

  /**
   * Reads the first `n` elements back by index, as `get` calls in a loop.
   */
  method ReadBack<T>(ll: LinkedList<T>, n: nat) returns (gets: seq<T>)
    requires ll.Valid() && n <= |ll.Contents|
    ensures gets == ll.Contents[..n]
  {
    gets := [];
    var j := 0;
    while j < n
      invariant 0 <= j <= n
      invariant gets == ll.Contents[..j]
    {
      var v := ll.Get(j);
      gets := gets + [v];
      j := j + 1;
    }
  }

  /**
   * Pushes 0 .. n-1 onto an empty list, reading each element back by its
   * index right after pushing it.
   */
  method PushCountingUp(ll: LinkedList<int>, n: nat) returns (gets: seq<int>)
    requires ll.Valid() && ll.Contents == []
    modifies ll.Repr
    ensures ll.Valid() && fresh(ll.Repr - old(ll.Repr))
    ensures |ll.Contents| == n && forall k :: 0 <= k < n ==> ll.Contents[k] == k
    ensures gets == ll.Contents
  {
    gets := [];
    var i := 0;
    while i < n
      invariant 0 <= i <= n
      invariant ll.Valid() && fresh(ll.Repr - old(ll.Repr))
      invariant |ll.Contents| == i && forall k :: 0 <= k < i ==> ll.Contents[k] == k
      invariant gets == ll.Contents
    {
      ll.Push(i);
      var v := ll.Get(i);
      gets := gets + [v];
      i := i + 1;
    }
  }

  /**
   * `test_int`: push 0..4 reading each back, remove index 2 and read the
   * rest back, pop, then insert 2 again at index 2. Every value and size the
   * test asserts along the way is returned.
   */
  method IntScenario() returns (pushedGets: seq<int>, removed: int, sizeAfterRemove: nat,
                                remainingGets: seq<int>, popped: int, sizeAfterPop: nat,
                                sizeAfterInsert: nat, got: int)
    ensures pushedGets == [0, 1, 2, 3, 4]
    ensures removed == 2 && sizeAfterRemove == 4 && remainingGets == [0, 1, 3, 4]
    ensures popped == 4 && sizeAfterPop == 3
    ensures sizeAfterInsert == 4 && got == 2
  {
    var ll := new LinkedList<int>();
    pushedGets := PushCountingUp(ll, 5);
    assert ll.Contents == [0, 1, 2, 3, 4];
    removed := ll.Remove(2);
    sizeAfterRemove := ll.Size();
    assert ll.Contents == [0, 1, 3, 4];
    remainingGets := ReadBack(ll, 4);
    popped := ll.Pop();
    sizeAfterPop := ll.Size();
    ll.Insert(2, 2);
    sizeAfterInsert := ll.Size();
    got := ll.Get(2);
  }

  /**
   * `test_iter`: push 0..9, traverse once, traverse again removing the
   * elements at positions 0, 5 and 9, and traverse what is left.
   */
  method IterScenario() returns (first: seq<int>, firstCalls: nat, removing: seq<int>,
                                 rest: seq<int>, restCalls: nat)
    ensures first == [0, 1, 2, 3, 4, 5, 6, 7, 8, 9] && firstCalls == 10
    ensures removing == [0, 1, 2, 3, 4, 5, 6, 7, 8, 9]
    ensures rest == [1, 2, 3, 4, 6, 7, 8] && restCalls == 7
  {
    var ll := new LinkedList<int>();
    PushAll(ll, [0, 1, 2, 3, 4, 5, 6, 7, 8, 9]);
    first, firstCalls := TraverseAll(ll);
    removing := RemoveYieldedAt(ll, {0, 5, 9});
    KeepUnmarkedTenExample();
    rest, restCalls := TraverseAll(ll);
  }

  /**
   * `test_removeall`: five pushes then five pops leave size 0; five pushes
   * then next-and-remove until exhausted take five rounds and leave size 0.
   */
  method RemoveAllScenario() returns (afterPops: nat, rounds: nat, afterIter: nat)
    ensures afterPops == 0 && rounds == 5 && afterIter == 0
  {
    var ll := new LinkedList<int>();
    PushAll(ll, [0, 1, 2, 3, 4]);
    var i := 0;
    while i < 5
      invariant 0 <= i <= 5
      invariant ll.Valid() && fresh(ll.Repr) && |ll.Contents| == 5 - i
    {
      var _ := ll.Pop();
      i := i + 1;
    }
    afterPops := ll.Size();
    ll := new LinkedList<int>();
    PushAll(ll, [0, 1, 2, 3, 4]);
    rounds := RemoveAllByIterator(ll);
    afterIter := ll.Size();
  }

  /**
   * An iterator keeps working across a push by another caller: after it has
   * yielded 0 from 0, 1, 2, pushing 9 leaves its pointers in place, and it
   * goes on to yield 1, 2 and the new 9 before `hasnext` fails.
   */
  method PushWhileIterating() returns (yielded: seq<int>, exhausted: bool)
    ensures yielded == [0, 1, 2, 9] && exhausted
  {
    var ll := new LinkedList<int>();
    PushAll(ll, [0, 1, 2]);
    var it := new Iter(ll);
    var a := it.Next();
    ghost var ns := ll.Nodes;
    assert it.next == ns[1];
    ll.Push(9);
    assert ll.Nodes[..3] == ns;
    it.Reanchor(1);
    assert ll.Contents == [0, 1, 2, 9];
    var b := it.Next();
    var c := it.Next();
    var d := it.Next();
    yielded := [a, b, c, d];
    exhausted := !it.HasNext();
  }

  /**
   * An iterator whose last-yielded node is removed through the list keeps
   * traversing: after it has yielded 0 from 0, 1, 2, `remove(0)` leaves its
   * `next` in place, and it goes on to yield 1 and 2 before `hasnext` fails.
   */
  method RemoveLastYieldedThroughList() returns (yielded: seq<int>, removed: int, exhausted: bool)
    ensures removed == 0 && yielded == [0, 1, 2] && exhausted
  {
    var ll := new LinkedList<int>();
    PushAll(ll, [0, 1, 2]);
    var it := new Iter(ll);
    var a := it.Next();
    ghost var ns := ll.Nodes;
    assert it.next == ns[1];
    removed := ll.Remove(0);
    assert ll.Nodes == RemoveAt(ns, 0);
    it.Reanchor(0);
    var b := it.Next();
    var c := it.Next();
    yielded := [a, b, c];
    exhausted := !it.HasNext();
  }

  /**
   * Two iterators over 0, 1, 2: the first yields 0 and removes it while the
   * second has already yielded 0 and 1. The second iterator's nodes survive,
   * so it goes on to yield 2 and then reports the end.
   */
  method RemoveBehindOtherIterator() returns (removed: int, seen: seq<int>, exhausted: bool)
    ensures removed == 0 && seen == [0, 1, 2] && exhausted
  {
    var ll := new LinkedList<int>();
    PushAll(ll, [0, 1, 2]);
    var a := new Iter(ll);
    var b := new Iter(ll);
    var _ := a.Next();
    var x0 := b.Next();
    var x1 := b.Next();
    ghost var ns := ll.Nodes;
    assert b.last == ns[1] && b.next == ns[2];
    removed := a.Remove();
    assert ll.Nodes == RemoveAt(ns, 0);
    b.Reanchor(1);
    var x2 := b.Next();
    seen := [x0, x1, x2];
    exhausted := !b.HasNext();
  }
}
