/**
 * The doubly-linked list of src/linkedlist.c: nodes linked both ways, a list
 * object that tracks head, tail and size, and an iterator object bound to one
 * list that can splice out the element it yielded last.
 *
 * The payload (`void *` in the source) is the type parameter T. Each list
 * keeps, as ghost state, the sequence of its nodes from head to tail and the
 * sequence of their payloads; Valid() ties both to the real links.
 */
module LinkedLists {
  import opened ListSpec

  /** `struct linkedlist_node`: the payload and the links to both neighbours. */
  class Node<T> {
    var next: Node?<T>
    var prev: Node?<T>
    const data: T

    constructor (data: T)
      ensures this.data == data && next == null && prev == null
    {
      this.data := data;
      next := null;
      prev := null;
    }
  }

  /** Each node's `next` is the node after it in `ns`. */
  ghost predicate NextLinked<T>(ns: seq<Node<T>>)
    reads ns
  {
    forall k {:trigger ns[k].next} :: 0 <= k < |ns| - 1 ==> ns[k].next == ns[k + 1]
  }

  /** Each node's `prev` is the node before it in `ns`. */
  ghost predicate PrevLinked<T>(ns: seq<Node<T>>)
    reads ns
  {
    forall k {:trigger ns[k].prev} :: 0 < k < |ns| ==> ns[k].prev == ns[k - 1]
  }

  /**
   * A chain linked forward whose last node has no successor has no cycle:
   * two positions hold two different nodes.
   */
  lemma {:induction false} LinkedDistinct<T>(ns: seq<Node<T>>, i: nat, j: nat)
    requires NextLinked(ns) && 0 < |ns| && ns[|ns| - 1].next == null
    requires i < j < |ns|
    ensures ns[i] != ns[j]
    decreases |ns| - j
  {
    if j < |ns| - 1 {
      LinkedDistinct(ns, i + 1, j + 1);
      assert ns[i].next == ns[i + 1] && ns[j].next == ns[j + 1];
    } else {
      assert ns[i].next == ns[i + 1];
    }
  }

  /** In such a chain, the node at position `p` occurs nowhere else. */
  lemma OccursOnce<T>(ns: seq<Node<T>>, p: nat)
    requires NextLinked(ns) && 0 < |ns| && ns[|ns| - 1].next == null && p < |ns|
    ensures forall j :: 0 <= j < |ns| && j != p ==> ns[j] != ns[p]
  {
    forall j | 0 <= j < |ns| && j != p
      ensures ns[j] != ns[p]
    {
      if j < p { LinkedDistinct(ns, j, p); } else { LinkedDistinct(ns, p, j); }
    }
  }

  /**
   * The links around a slot once `n` has been spliced in at `index`: `n`
   * points at the nodes before and after the slot, they point back at `n`,
   * and every other link in `ns` is as it was.
   */
  ghost predicate SplicedIn<T>(ns: seq<Node<T>>, index: nat, n: Node<T>)
    reads ns, n
  {
    && index <= |ns|
    && (forall j {:trigger ns[j].next} :: 0 <= j < |ns| - 1 && j != index - 1 ==> ns[j].next == ns[j + 1])
    && (forall j {:trigger ns[j].prev} :: 0 < j < |ns| && j != index ==> ns[j].prev == ns[j - 1])
    && (0 < index ==> ns[index - 1].next == n)
    && (index < |ns| ==> ns[index].prev == n)
    && n.next == (if index < |ns| then ns[index] else null)
    && n.prev == (if 0 < index then ns[index - 1] else null)
  }

  /** After such a splice, the chain with `n` at `index` is linked both ways. */
  lemma SpliceInLinks<T>(ns: seq<Node<T>>, index: nat, n: Node<T>)
    requires SplicedIn(ns, index, n)
    ensures NextLinked(InsertAt(ns, index, n)) && PrevLinked(InsertAt(ns, index, n))
  {
    var r := InsertAt(ns, index, n);
    forall k | 0 <= k < |r| - 1
      ensures r[k].next == r[k + 1]
    {
      if k < index - 1 {
        assert r[k] == ns[k] && r[k + 1] == ns[k + 1];
      } else if index < k {
        assert r[k] == ns[k - 1] && r[k + 1] == ns[k];
      }
    }
    forall k | 0 < k < |r|
      ensures r[k].prev == r[k - 1]
    {
      if k < index {
        assert r[k] == ns[k] && r[k - 1] == ns[k - 1];
      } else if index + 1 < k {
        assert r[k] == ns[k - 1] && r[k - 1] == ns[k - 2];
      }
    }
  }

  /**
   * The links around position `i` once its node has been spliced out: the
   * nodes on either side point at each other (or at null at an end of the
   * chain), and every other link in `ns` is as it was.
   */
  ghost predicate SplicedOut<T>(ns: seq<Node<T>>, i: nat)
    reads ns
  {
    && i < |ns|
    && (forall j {:trigger ns[j].next} :: 0 <= j < |ns| - 1 && j != i - 1 && j != i ==> ns[j].next == ns[j + 1])
    && (forall j {:trigger ns[j].prev} :: 0 < j < |ns| && j != i && j != i + 1 ==> ns[j].prev == ns[j - 1])
    && (0 < i ==> ns[i - 1].next == (if i + 1 < |ns| then ns[i + 1] else null))
    && (i + 1 < |ns| ==> ns[i + 1].prev == (if 0 < i then ns[i - 1] else null))
  }

  /** After such a splice, the chain without position `i` is linked both ways. */
  lemma SpliceOutLinks<T>(ns: seq<Node<T>>, i: nat)
    requires SplicedOut(ns, i)
    ensures NextLinked(RemoveAt(ns, i)) && PrevLinked(RemoveAt(ns, i))
  {
    var r := RemoveAt(ns, i);
    forall k | 0 <= k < |r| - 1
      ensures r[k].next == r[k + 1]
    {
      if k < i - 1 {
        assert r[k] == ns[k] && r[k + 1] == ns[k + 1];
      } else if k == i - 1 {
        assert r[k] == ns[i - 1] && r[k + 1] == ns[i + 1];
      } else {
        assert r[k] == ns[k + 1] && r[k + 1] == ns[k + 2];
      }
    }
    forall k | 0 < k < |r|
      ensures r[k].prev == r[k - 1]
    {
      if k < i {
        assert r[k] == ns[k] && r[k - 1] == ns[k - 1];
      } else if k == i {
        assert r[k] == ns[i + 1] && r[k - 1] == ns[i - 1];
      } else {
        assert r[k] == ns[k + 1] && r[k - 1] == ns[k];
      }
    }
  }

  /** `struct linkedlist`. */
  class LinkedList<T> {
    var head: Node?<T>
    var tail: Node?<T>
    var size: nat

    /** The nodes, from head to tail. */
    ghost var Nodes: seq<Node<T>>
    /** The payloads, from head to tail: the list as its callers see it. */
    ghost var Contents: seq<T>
    /** This list object and its nodes. */
    ghost var Repr: set<object>

    /**
     * The ghost bookkeeping alone: Repr holds the list and every node, and
     * Contents lists the nodes' payloads. It reads only the ghost fields, so
     * relinking nodes leaves it intact.
     */
    ghost predicate Tracked()
      reads this`Nodes, this`Contents, this`Repr
    {
      && this in Repr
      && (forall k :: 0 <= k < |Nodes| ==> Nodes[k] in Repr)
      && |Nodes| == |Contents|
      && (forall k :: 0 <= k < |Nodes| ==> Nodes[k].data == Contents[k])
    }

    /**
     * The linkage invariant: `size` counts the chain; head and tail are null
     * exactly when it is empty; head has no predecessor and tail no successor;
     * neighbours in Nodes point at each other (so, by LinkedDistinct, no node
     * occurs twice).
     */
    ghost predicate Valid()
      reads this, Repr
    {
      && Tracked()
      && size == |Nodes|
      && (|Nodes| == 0 ==> head == null && tail == null)
      && (|Nodes| != 0 ==>
            && head == Nodes[0] && tail == Nodes[|Nodes| - 1]
            && head.prev == null && tail.next == null)
      && NextLinked(Nodes)
      && PrevLinked(Nodes)
    }

    /** `linkedlist_alloc`: an empty list. */
    constructor ()
      ensures Valid() && fresh(Repr)
      ensures Contents == [] && Nodes == []
      ensures size == 0 && head == null && tail == null
    {
      head := null;
      tail := null;
      size := 0;
      Nodes := [];
      Contents := [];
      Repr := {this};
    }

    /**
     * `linkedlist_size`: the number of elements, which is zero exactly when
     * the list has neither head nor tail.
     */
    function Size(): (n: nat)
      reads this, Repr
      requires Valid()
      ensures n == |Contents|
      ensures n == 0 <==> head == null
      ensures n == 0 <==> tail == null
    {
      size
    }

    /**
     * `get_node`: the node at position `i`, reached by walking forward from
     * head when `i` lies in the first half and backward from tail otherwise.
     */
    method GetNode(i: nat) returns (curr: Node<T>)
      requires Valid() && i < |Nodes|
      ensures curr == Nodes[i]
    {
      if i < size / 2 {
        curr := head;
        var k := i;
        while k > 0
          invariant 0 <= k <= i
          invariant curr == Nodes[i - k]
        {
          assert curr.next == Nodes[i - k + 1];
          curr := curr.next;
          k := k - 1;
        }
      } else {
        curr := tail;
        var k := size - 1 - i;
        while k > 0
          invariant 0 <= k <= size - 1 - i
          invariant curr == Nodes[i + k]
        {
          assert curr.prev == Nodes[i + k - 1];
          curr := curr.prev;
          k := k - 1;
        }
      }
    }

    /** `linkedlist_get`. */
    method Get(index: nat) returns (x: T)
      requires Valid() && |Contents| != 0 && index < |Contents|
      ensures x == Contents[index]
    {
      var n := GetNode(index);
      x := n.data;
    }

    /**
     * `linkedlist_insert`: splices a new node in so that `data` becomes
     * element `index`; the empty list, the head and the tail are handled
     * without walking.
     */
    method Insert(index: nat, data: T)
      requires Valid() && index <= |Contents|
      modifies Repr
      ensures Valid() && fresh(Repr - old(Repr))
      ensures Contents == InsertAt(old(Contents), index, data)
      ensures index < |Nodes| && fresh(Nodes[index])
      ensures Nodes == InsertAt(old(Nodes), index, Nodes[index])
    {
      ghost var ns, cs := Nodes, Contents;
      var n := new Node(data);
      if size == 0 {
        // list is empty
        LinkFirst(n);
      } else if index == 0 {
        // insert at head
        LinkAtHead(n);
      } else if index == size {
        // insert at tail
        LinkAtTail(n);
      } else {
        // find slot to displace, then link the node in before it
        var curr := GetNode(index);
        assert curr.prev == ns[index - 1];
        LinkBefore(n, curr, index);
      }
      size := size + 1;
      NoteInserted(ns, cs, index, n);
    }

    /**
     * The state between the relinking and the bookkeeping of an insertion:
     * `n` is linked in at `index` of the chain `ns`, head and tail say where
     * the chain now starts and ends, and the ghost state still describes
     * the chain before the insertion.
     */
    ghost predicate LinkedIn(ns: seq<Node<T>>, cs: seq<T>, index: nat, n: Node<T>)
      reads this`head, this`tail, this`Nodes, this`Contents, this`Repr, ns, n
    {
      && Tracked() && Nodes == ns && Contents == cs && n !in Repr
      && SplicedIn(ns, index, n)
      && head == (if index == 0 then n else ns[0])
      && tail == (if index == |ns| then n else ns[|ns| - 1])
      && (0 < index ==> ns[0].prev == null)
      && (index < |ns| ==> ns[|ns| - 1].next == null)
    }

    /** The empty-list branch of `linkedlist_insert`. */
    method LinkFirst(n: Node<T>)
      requires Valid() && |Nodes| == 0 && n !in Repr
      modifies this`head, this`tail, n
      ensures LinkedIn(Nodes, Contents, 0, n)
    {
      head, tail := n, n;
      n.next := null;
      n.prev := null;
    }

    /** The insert-at-head branch of `linkedlist_insert`. */
    method LinkAtHead(n: Node<T>)
      requires Valid() && |Nodes| != 0 && n !in Repr
      modifies this`head, n, head
      ensures LinkedIn(Nodes, Contents, 0, n)
    {
      OccursOnce(Nodes, 0);
      n.next := head;
      n.prev := null;
      head.prev := n;
      head := n;
    }

    /** The insert-at-tail branch of `linkedlist_insert`. */
    method LinkAtTail(n: Node<T>)
      requires Valid() && |Nodes| != 0 && n !in Repr
      modifies this`tail, n, tail
      ensures LinkedIn(Nodes, Contents, |Nodes|, n)
    {
      OccursOnce(Nodes, |Nodes| - 1);
      n.prev := tail;
      n.next := null;
      tail.next := n;
      tail := n;
    }

    /** The middle branch of `linkedlist_insert`: `n` goes in before `curr`. */
    method LinkBefore(n: Node<T>, curr: Node<T>, ghost index: nat)
      requires Valid() && 0 < index < |Nodes| && curr == Nodes[index] && n !in Repr
      modifies n, curr, curr.prev
      ensures LinkedIn(Nodes, Contents, index, n)
    {
      assert curr.prev == Nodes[index - 1];
      OccursOnce(Nodes, index);
      OccursOnce(Nodes, index - 1);
      n.next := curr;
      n.prev := curr.prev;
      n.prev.next := n;
      curr.prev := n;
    }

    /**
     * The ghost half of an insertion: once `n` has been linked in at `index`
     * and `size` counted it, record it in Nodes, Contents and Repr.
     */
    ghost method NoteInserted(ns: seq<Node<T>>, cs: seq<T>, index: nat, n: Node<T>)
      requires index <= |ns| && LinkedIn(ns, cs, index, n) && size == |ns| + 1
      modifies this`Nodes, this`Contents, this`Repr
      ensures Valid()
      ensures Nodes == InsertAt(ns, index, n)
      ensures Contents == InsertAt(cs, index, n.data)
      ensures Repr == old(Repr) + {n}
    {
      SpliceInLinks(ns, index, n);
      Nodes := InsertAt(ns, index, n);
      Contents := InsertAt(cs, index, n.data);
      Repr := Repr + {n};
    }

    /**
     * `remove_node`: splices out node `n` (found at position `i`) and hands
     * back its payload. Index removal and iterator removal both use it.
     */
    method RemoveNode(n: Node<T>, ghost i: nat) returns (data: T)
      requires Valid() && i < |Nodes| && Nodes[i] == n
      modifies Repr
      ensures Valid() && Repr == old(Repr) - {n}
      ensures data == old(Contents)[i]
      ensures Contents == RemoveAt(old(Contents), i)
      ensures Nodes == RemoveAt(old(Nodes), i)
    {
      ghost var ns, cs := Nodes, Contents;
      OccursOnce(ns, i);
      if 0 < i { OccursOnce(ns, i - 1); }
      if i + 1 < |ns| { OccursOnce(ns, i + 1); }
      assert n.next == (if i + 1 < |ns| then ns[i + 1] else null);
      assert n.prev == (if 0 < i then ns[i - 1] else null);
      if n == head {
        head := n.next;
      }
      if n == tail {
        tail := n.prev;
      }
      if n.next != null {
        n.next.prev := n.prev;
      }
      if n.prev != null {
        n.prev.next := n.next;
      }
      size := size - 1;
      data := n.data;
      NoteRemoved(ns, cs, i);
    }

    /**
     * The ghost half of a removal: once the node at position `i` has been
     * linked out and `size` no longer counts it, drop it from Nodes,
     * Contents and Repr.
     */
    ghost method NoteRemoved(ns: seq<Node<T>>, cs: seq<T>, i: nat)
      requires Tracked() && Nodes == ns && Contents == cs && i < |ns|
      requires forall j :: 0 <= j < |ns| && j != i ==> ns[j] != ns[i]
      requires SplicedOut(ns, i) && size == |ns| - 1
      requires head == (if i == 0 then (if 1 < |ns| then ns[1] else null) else ns[0])
      requires tail == (if i == |ns| - 1 then (if 0 < i then ns[i - 1] else null) else ns[|ns| - 1])
      requires 0 < i ==> ns[0].prev == null
      requires i < |ns| - 1 ==> ns[|ns| - 1].next == null
      modifies this`Nodes, this`Contents, this`Repr
      ensures Valid()
      ensures Nodes == RemoveAt(ns, i)
      ensures Contents == RemoveAt(cs, i)
      ensures Repr == old(Repr) - {ns[i]}
    {
      SpliceOutLinks(ns, i);
      Nodes := RemoveAt(ns, i);
      Contents := RemoveAt(cs, i);
      Repr := Repr - {ns[i]};
    }

    /**
     * `linkedlist_remove`: the endpoints and the single element are found
     * without walking, any other index through GetNode.
     */
    method Remove(index: nat) returns (data: T)
      requires Valid() && |Contents| != 0 && index < |Contents|
      modifies Repr
      ensures Valid() && Repr <= old(Repr)
      ensures data == old(Contents)[index]
      ensures Contents == RemoveAt(old(Contents), index)
      ensures Nodes == RemoveAt(old(Nodes), index)
    {
      var n;
      if size == 1 {
        n := head;
      } else if index == 0 {
        n := head;
      } else if index == size - 1 {
        n := tail;
      } else {
        n := GetNode(index);
      }
      data := RemoveNode(n, index);
    }

    /** `linkedlist_push`: insert at `size`, which appends. */
    method Push(data: T)
      requires Valid()
      modifies Repr
      ensures Valid() && fresh(Repr - old(Repr))
      ensures Contents == old(Contents) + [data]
      ensures |Nodes| == |old(Nodes)| + 1 && fresh(Nodes[|old(Nodes)|])
      ensures Nodes == old(Nodes) + [Nodes[|old(Nodes)|]]
    {
      Insert(size, data);
    }

    /** `linkedlist_pop`: remove at `size - 1`, which takes the last element. */
    method Pop() returns (data: T)
      requires Valid() && |Contents| != 0
      modifies Repr
      ensures Valid() && Repr <= old(Repr)
      ensures data == old(Contents)[|old(Contents)| - 1]
      ensures Contents == old(Contents)[..|old(Contents)| - 1]
      ensures Nodes == old(Nodes)[..|old(Nodes)| - 1]
    {
      data := Remove(size - 1);
    }

    /**
     * `linkedlist_free`, reduced to what a caller can observe: the payloads
     * handed to the cleanup callback, in the order the loop over the chain
     * reaches them.
     */
    method Free() returns (visited: seq<T>)
      requires Valid()
      ensures visited == Contents
    {
      visited := [];
      var n := head;
      ghost var k := 0;
      while n != null
        invariant k <= |Nodes|
        invariant n == (if k < |Nodes| then Nodes[k] else null)
        invariant visited == Contents[..k]
        decreases |Nodes| - k
      {
        visited := visited + [n.data];
        n := n.next;
        k := k + 1;
      }
    }
  }

  /**
   * `struct linkedlist_iter`: a cursor bound to one list. `next` is the node
   * to yield next (null once exhausted), `last` the node yielded last (null
   * before the first yield and after each removal). The ghost `index` is the
   * position of `next` in the list's Nodes.
   */
  class Iter<T> {
    const ll: LinkedList<T>
    var next: Node?<T>
    var last: Node?<T>
    ghost var index: nat

    /**
     * The cursor sits at position `k` of the list: `next` is the node there,
     * or null at the end. `last` plays no part: `lliter_hasnext` and
     * `lliter_next` never read it, and only `lliter_remove` needs it.
     */
    ghost predicate At(k: nat)
      reads this, ll
    {
      && k <= |ll.Nodes|
      && next == (if k < |ll.Nodes| then ll.Nodes[k] else null)
    }

    /** `last` is the node right before the cursor, so `lliter_remove` takes out position `index - 1`. */
    ghost predicate LastBeforeCursor()
      reads this, ll
    {
      last != null && 0 < index <= |ll.Nodes| && last == ll.Nodes[index - 1]
    }

    ghost predicate Valid()
      reads this, ll, ll.Repr
    {
      && ll.Valid()
      && this !in ll.Repr
      && At(index)
    }

    /**
     * The iterator holds node pointers, not a position: after its list was
     * changed by other calls, it is usable again wherever its `next` is
     * still in the chain (or null). This moves the ghost position to the
     * place `k` that pointer now sits at, and shows it is the only one.
     */
    ghost method Reanchor(k: nat)
      requires ll.Valid() && this !in ll.Repr
      requires At(k)
      modifies this`index
      ensures Valid() && index == k
      ensures next == old(next) && last == old(last)
      ensures forall j: nat :: At(j) ==> j == index
    {
      index := k;
      forall j: nat | At(j)
        ensures j == index
      {
        if j != index && j < |ll.Nodes| && index < |ll.Nodes| {
          OccursOnce(ll.Nodes, index);
        }
      }
    }

    /** `lliter_alloc`: starts at head, with nothing yielded yet. */
    constructor (ll: LinkedList<T>)
      requires ll.Valid()
      ensures Valid() && this.ll == ll
      ensures next == ll.head && last == null && index == 0
    {
      this.ll := ll;
      next := ll.head;
      last := null;
      index := 0;
    }

    /** `lliter_hasnext`: there is a node at the cursor, i.e. not every element has been yielded. */
    function HasNext(): (b: bool)
      reads this, ll, ll.Repr
      requires Valid()
      ensures b <==> index < |ll.Contents|
    {
      next != null
    }

    /** `lliter_next`: yields the payload at the cursor and advances it. */
    method Next() returns (x: T)
      requires Valid() && index < |ll.Contents|
      modifies this
      ensures Valid()
      ensures x == ll.Contents[old(index)]
      ensures index == old(index) + 1
      ensures LastBeforeCursor()
      ensures last == old(next) && last != null
    {
      last := next;
      next := next.next;
      index := index + 1;
      x := last.data;
    }

    /**
     * `lliter_remove`: splices out the node yielded last and returns its
     * payload; `next` is left alone, so traversal continues with the element
     * that followed it. The node yielded last must still sit right before
     * the cursor, as it does after `Next`.
     */
    method Remove() returns (x: T)
      requires Valid() && LastBeforeCursor()
      modifies this, ll.Repr
      ensures Valid() && ll.Repr <= old(ll.Repr)
      ensures x == old(ll.Contents)[old(index) - 1]
      ensures ll.Contents == RemoveAt(old(ll.Contents), old(index) - 1)
      ensures ll.Nodes == RemoveAt(old(ll.Nodes), old(index) - 1)
      ensures index == old(index) - 1
      ensures next == old(next) && last == null
    {
      var n := last;
      last := null;
      x := ll.RemoveNode(n, index - 1);
      index := index - 1;
    }
  }
}
