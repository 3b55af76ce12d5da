/**
 * The abstract view of a linked list: the sequence of payloads from head to
 * tail. Every list operation of src/linkedlist.c is a splice or a lookup on
 * this sequence; the functions here say which one, and the lemmas state what
 * follows for callers that chain several operations.
 */
module ListSpec {

  /** The sequence after `x` is spliced in so that it becomes element `i`. */
  function InsertAt<T>(s: seq<T>, i: nat, x: T): (r: seq<T>)
    requires i <= |s|
    ensures |r| == |s| + 1
    ensures r[i] == x
    ensures forall j :: 0 <= j < i ==> r[j] == s[j]
    ensures forall j :: i < j < |r| ==> r[j] == s[j - 1]
  {
    s[..i] + [x] + s[i..]
  }

  /** The sequence after element `i` is spliced out. */
  function RemoveAt<T>(s: seq<T>, i: nat): (r: seq<T>)
    requires i < |s|
    ensures |r| == |s| - 1
    ensures forall j :: 0 <= j < i ==> r[j] == s[j]
    ensures forall j :: i <= j < |r| ==> r[j] == s[j + 1]
  {
    s[..i] + s[i + 1..]
  }

  /** Removing the element just inserted at the same index gives back the list. */
  lemma RemoveAfterInsert<T>(s: seq<T>, i: nat, x: T)
    requires i <= |s|
    ensures RemoveAt(InsertAt(s, i, x), i) == s
  {
    var r := RemoveAt(InsertAt(s, i, x), i);
    assert |r| == |s|;
    assert forall j :: 0 <= j < |s| ==> r[j] == s[j];
  }

  /** Re-inserting a removed element where it was gives back the list. */
  lemma InsertAfterRemove<T>(s: seq<T>, i: nat)
    requires i < |s|
    ensures InsertAt(RemoveAt(s, i), i, s[i]) == s
  {
    var r := InsertAt(RemoveAt(s, i), i, s[i]);
    assert |r| == |s|;
    assert forall j :: 0 <= j < |s| ==> r[j] == s[j];
  }

  /** Extending a prefix by one position appends the element there. */
  lemma PrefixSnoc<T>(s: seq<T>, i: nat)
    requires i < |s|
    ensures s[..i + 1] == s[..i] + [s[i]]
  {
  }

  /** Removing at the seam of `a + b` takes out the first element of `b`. */
  lemma RemoveAtSeam<T>(a: seq<T>, b: seq<T>)
    requires b != []
    ensures (a + b)[|a|] == b[0]
    ensures RemoveAt(a + b, |a|) == a + b[1..]
  {
    assert RemoveAt(a + b, |a|) == (a + b)[..|a|] + (a + b)[|a| + 1..];
    assert (a + b)[..|a|] == a && (a + b)[|a| + 1..] == b[1..];
  }

  /** One call of the list's public mutating interface. */
  datatype Op<T> =
    | Insert(index: nat, data: T)
    | Remove(index: nat)
    | Push(data: T)
    | Pop

  /**
   * The effect of one operation on the contents, or None when the operation's
   * precondition (the assert at its start in the source) does not hold.
   * Push is insert at `size`, pop is remove at `size - 1`.
   */
  function Apply<T>(s: seq<T>, op: Op<T>): seq<T>
    requires Allowed(s, op)
  {
    match op
    case Insert(i, x) => InsertAt(s, i, x)
    case Remove(i) => RemoveAt(s, i)
    case Push(x) => InsertAt(s, |s|, x)
    case Pop => RemoveAt(s, |s| - 1)
  }

  /** The precondition the source asserts for each operation. */
  predicate Allowed<T>(s: seq<T>, op: Op<T>)
  {
    match op
    case Insert(i, _) => i <= |s|
    case Remove(i) => |s| != 0 && i < |s|
    case Push(_) => true
    case Pop => |s| != 0
  }

  /** Runs `ops` in order; None as soon as one of them is not allowed. */
  function Run<T>(s: seq<T>, ops: seq<Op<T>>): (r: Option<seq<T>>)
    decreases |ops|
  {
    if ops == [] then Some(s)
    else if !Allowed(s, ops[0]) then None
    else Run(Apply(s, ops[0]), ops[1..])
  }

  datatype Option<T> = None | Some(value: T)

  /** Number of operations in `ops` that add an element. */
  function Grows<T>(ops: seq<Op<T>>): nat
  {
    if ops == [] then 0
    else (if ops[0].Insert? || ops[0].Push? then 1 else 0) + Grows(ops[1..])
  }

  /** Number of operations in `ops` that take an element out. */
  function Shrinks<T>(ops: seq<Op<T>>): nat
  {
    if ops == [] then 0
    else (if ops[0].Remove? || ops[0].Pop? then 1 else 0) + Shrinks(ops[1..])
  }

  /** After n inserts/pushes and m removes/pops that all succeed, size is |s| + n - m. */
  lemma {:induction false} RunSize<T>(s: seq<T>, ops: seq<Op<T>>)
    requires Run(s, ops).Some?
    ensures |Run(s, ops).value| + Shrinks(ops) == |s| + Grows(ops)
    decreases |ops|
  {
    if ops != [] {
      RunSize(Apply(s, ops[0]), ops[1..]);
    }
  }

  /** The operations that push each element of `vs` in turn. */
  function Pushes<T>(vs: seq<T>): (ops: seq<Op<T>>)
    ensures |ops| == |vs|
  {
    if vs == [] then [] else [Push(vs[0])] + Pushes(vs[1..])
  }

  /** Pushing v0..vk appends them in that order, so get(i) afterwards is vi. */
  lemma {:induction false} RunPushes<T>(s: seq<T>, vs: seq<T>)
    ensures Run(s, Pushes(vs)) == Some(s + vs)
    decreases |vs|
  {
    if vs != [] {
      var ops := Pushes(vs);
      assert ops[1..] == Pushes(vs[1..]);
      assert ops[0] == Push(vs[0]);
      assert Apply(s, ops[0]) == s + [vs[0]];
      assert Run(s, ops) == Run(s + [vs[0]], Pushes(vs[1..]));
      RunPushes(s + [vs[0]], vs[1..]);
      assert s + [vs[0]] + vs[1..] == s + vs;
    } else {
      assert s + vs == s;
    }
  }

  /** Popping as many times as there are elements empties the list. */
  lemma {:induction false} RunPopsEmpties<T>(s: seq<T>, ops: seq<Op<T>>)
    requires |ops| == |s|
    requires forall k :: 0 <= k < |ops| ==> ops[k] == Pop
    ensures Run(s, ops) == Some([])
    decreases |ops|
  {
    if ops != [] {
      RunPopsEmpties(RemoveAt(s, |s| - 1), ops[1..]);
    }
  }

  /**
   * What is left of `s` once the elements at the positions in `drop` are
   * taken out, the others keeping their order.
   */
  function KeepUnmarked<T>(s: seq<T>, drop: set<nat>): (r: seq<T>)
    ensures |r| <= |s|
    ensures forall k :: 0 <= k < |r| ==> r[k] in s
  {
    if s == [] then []
    else
      var init := s[..|s| - 1];
      KeepUnmarked(init, drop) + (if |s| - 1 in drop then [] else [s[|s| - 1]])
  }

  /** Dropping every position leaves nothing. */
  lemma {:induction false} KeepUnmarkedAll<T>(s: seq<T>, drop: set<nat>)
    requires forall j :: 0 <= j < |s| ==> j in drop
    ensures KeepUnmarked(s, drop) == []
    decreases |s|
  {
    if s != [] {
      KeepUnmarkedAll(s[..|s| - 1], drop);
    }
  }

  /** Dropping no position of `s` leaves `s` as it was. */
  lemma {:induction false} KeepUnmarkedNone<T>(s: seq<T>, drop: set<nat>)
    requires forall j :: 0 <= j < |s| ==> j !in drop
    ensures KeepUnmarked(s, drop) == s
    decreases |s|
  {
    if s != [] {
      KeepUnmarkedNone(s[..|s| - 1], drop);
      assert s[..|s| - 1] + [s[|s| - 1]] == s;
    }
  }

  /** Extending the prefix by one position keeps that element exactly when its position is not dropped. */
  lemma KeepUnmarkedStep<T>(s: seq<T>, p: nat, drop: set<nat>)
    requires p < |s|
    ensures KeepUnmarked(s[..p + 1], drop) == KeepUnmarked(s[..p], drop) + (if p in drop then [] else [s[p]])
  {
    assert s[..p + 1][..p] == s[..p];
  }

  /** A stretch of positions none of which is dropped is kept whole. */
  lemma {:induction false} KeepUnmarkedSpan<T>(s: seq<T>, a: nat, b: nat, drop: set<nat>)
    requires a <= b <= |s|
    requires forall j :: a <= j < b ==> j !in drop
    ensures KeepUnmarked(s[..b], drop) == KeepUnmarked(s[..a], drop) + s[a..b]
    decreases b - a
  {
    if a < b {
      KeepUnmarkedSpan(s, a, b - 1, drop);
      KeepUnmarkedStep(s, b - 1, drop);
      assert s[a..b - 1] + [s[b - 1]] == s[a..b];
    }
  }

  /**
   * One step of a traversal that removes the positions in `drop`: if the
   * list reads `KeepUnmarked(s[..i], drop) + s[i..]`, the cursor's element
   * is `s[i]`, and removing it when `i` is dropped (or stepping past it
   * otherwise) leaves the list reading the same way for `i + 1`.
   */
  lemma KeepUnmarkedAdvance<T>(s: seq<T>, i: nat, drop: set<nat>, c: seq<T>)
    requires i < |s| && c == KeepUnmarked(s[..i], drop) + s[i..]
    ensures c[|KeepUnmarked(s[..i], drop)|] == s[i]
    ensures s[..i + 1] == s[..i] + [s[i]]
    ensures i in drop ==> RemoveAt(c, |KeepUnmarked(s[..i], drop)|) == KeepUnmarked(s[..i + 1], drop) + s[i + 1..]
    ensures i in drop ==> |KeepUnmarked(s[..i + 1], drop)| == |KeepUnmarked(s[..i], drop)|
    ensures i !in drop ==> c == KeepUnmarked(s[..i + 1], drop) + s[i + 1..]
    ensures i !in drop ==> |KeepUnmarked(s[..i + 1], drop)| == |KeepUnmarked(s[..i], drop)| + 1
  {
    var kept := KeepUnmarked(s[..i], drop);
    RemoveAtSeam(kept, s[i..]);
    assert s[i..][1..] == s[i + 1..];
    KeepUnmarkedStep(s, i, drop);
    assert kept + s[i..] == (kept + [s[i]]) + s[i + 1..];
  }

  /**
   * Iterating over 0..9 and removing the elements yielded at positions 0, 5
   * and 9 leaves 1, 2, 3, 4, 6, 7, 8.
   */
  lemma KeepUnmarkedTenExample()
    ensures KeepUnmarked([0, 1, 2, 3, 4, 5, 6, 7, 8, 9], {0, 5, 9}) == [1, 2, 3, 4, 6, 7, 8]
  {
    var s := [0, 1, 2, 3, 4, 5, 6, 7, 8, 9];
    var drop: set<nat> := {0, 5, 9};
    assert KeepUnmarked(s[..0], drop) == [];
    KeepUnmarkedStep(s, 0, drop);
    KeepUnmarkedSpan(s, 1, 5, drop);
    KeepUnmarkedStep(s, 5, drop);
    KeepUnmarkedSpan(s, 6, 9, drop);
    KeepUnmarkedStep(s, 9, drop);
    assert s[..10] == s;
    assert s[1..5] + s[6..9] == [1, 2, 3, 4, 6, 7, 8];
  }
}
