# Doubly-linked list with an external iterator, in Dafny

This project models `src/linkedlist.c`, a generic doubly-linked list in C, and proves what its operations do.

The list has these parts:

- **Nodes.** Each node holds a payload and links to its two neighbours.
- **The list object.** It tracks `head`, `tail` and `size`.
- **Operations.** The list supports index-based insert, remove and get, plus push and pop at the tail.
- **The iterator.** It is a separate object bound to one list. It yields payloads from head to tail and can splice out the element it yielded last.

The model follows the C code's own shape. Nodes, the list and the iterator are Dafny classes whose fields are updated in place. `get_node` walks the chain with the same two loops. `remove_node` relinks neighbours with the same four conditional pointer writes.

Each list carries ghost state that says what the pointers mean:

- `Nodes` is the sequence of nodes from head to tail.
- `Contents` is the sequence of their payloads.
- `Repr` is the set of objects the list owns.

`LinkedList.Valid()` is the linkage invariant. It requires:

- `size` equals the length of the chain;
- `head` and `tail` are null exactly when the list is empty;
- `head.prev` and `tail.next` are null;
- every node's `next` and `prev` point to its neighbours in `Nodes`.

Every operation is proved to keep this invariant. Each operation's effect on `Contents` is stated through the sequence functions of `ListSpec`:

- `InsertAt` and `RemoveAt` are splices.
- `KeepUnmarked` is what stays after removing chosen positions.
- `Run` replays a sequence of operations.

Lemmas relate these functions to each other. `Traversals.Perform` and `Traversals.PerformAll` tie them to the list itself: one call, or a sequence of calls, on a real list does to its contents what `Apply` or `Run` says. `Iter.Remove` is the `Remove` operation at the position before the cursor, so removals made through an iterator count as removes in the size law.

The model has three modules:

- `ListSpec` (listspec.dfy): the sequence view and its lemmas.
- `LinkedLists` (linkedlist.dfy): the classes `Node`, `LinkedList` and `Iter`, which model the C structs and functions.
- `Traversals` (traversals.dfy): client loops over the list and its iterator, as `test/test_linkedlist.c` writes them. It also replays that file's test functions on the model.

**Splitting `linkedlist_insert`.** The four branches of `linkedlist_insert` are separate methods: `LinkFirst`, `LinkAtHead`, `LinkAtTail` and `LinkBefore`. `Insert` calls them in the same `if` chain as the C code and then increments `size`. This keeps each relinking proof small. Each branch's pointer writes are the C statements, in the C order.

**Iterator API.** `include/linkedlist.h` and the tests declare an iterator API keyed by the list: `lliter_init(ll)`, `lliter_hasnext(ll)` and so on. `src/linkedlist.c` implements a separate iterator object created by `lliter_alloc(ll)`. The model follows the implementation. A test's `lliter_init(ll)` is read as allocating a fresh iterator.

## Model

| member | source | states |
|---|---|---|
| ListSpec.InsertAt | src/linkedlist.c:58-96 | the contents after inserting `x` at `i`: one longer, `x` at `i`, elements before `i` unchanged, elements from `i` on shifted up by one |
| ListSpec.RemoveAt | src/linkedlist.c:98-118 | the contents after removing position `i`: one shorter, elements before `i` unchanged, later elements shifted down by one |
| ListSpec.RemoveAfterInsert | src/linkedlist.c:58-118 | a property derived from the two splices, not one the source states: removing at the index just inserted at gives back the original contents |
| ListSpec.InsertAfterRemove | src/linkedlist.c:58-118 | a property derived from the two splices, not one the source states: re-inserting a removed element at its old index gives back the original contents |
| ListSpec.RunSize | test/test_linkedlist.c:43-58 | after any run of operations that all meet their preconditions, size = initial size + inserts and pushes − removes and pops |
| ListSpec.RunPushes | test/test_linkedlist.c:37-41 | pushing `v0..vk` in turn appends them in order, so `get(i)` afterwards returns `vi` |
| ListSpec.RunPopsEmpties | test/test_linkedlist.c:155-158 | popping as many times as there are elements empties the list, and no pop hits an empty list |
| ListSpec.KeepUnmarked | test/test_linkedlist.c:124-131 | what stays when the elements at the positions in `drop` are removed: no longer than the input, and made only of input elements |
| ListSpec.KeepUnmarkedStep | test/test_linkedlist.c:125-130 | extending the traversed prefix by one position keeps that element exactly when its position is not dropped |
| ListSpec.KeepUnmarkedSpan | test/test_linkedlist.c:125-130 | a stretch of positions none of which is dropped is kept whole and in order |
| ListSpec.KeepUnmarkedAll | test/test_linkedlist.c:167-173 | removing every yielded element leaves the empty list |
| ListSpec.KeepUnmarkedNone | test/test_linkedlist.c:116-121 | a traversal that removes nothing leaves the contents unchanged |
| ListSpec.KeepUnmarkedAdvance | src/linkedlist.c:153-165 | one round of next-then-maybe-remove: the cursor's element is the next original element, and afterwards the list reads the same way one position further on |
| ListSpec.KeepUnmarkedTenExample | test/test_linkedlist.c:133-141 | on 0..9 with positions 0, 5 and 9 removed, what stays is 1, 2, 3, 4, 6, 7, 8 |
| LinkedLists.LinkedDistinct | src/linkedlist.c:179-186 | in a chain linked forward and ending in null, two different positions hold two different nodes, so the chain has no cycle |
| LinkedLists.OccursOnce | src/linkedlist.c:183-186 | in such a chain a node occurs at one position only, so relinking a node's neighbours touches no other position |
| LinkedLists.SpliceInLinks | src/linkedlist.c:68-93 | once a node is linked between the nodes around a slot, the chain with the node at that slot is linked both ways |
| LinkedLists.SpliceOutLinks | src/linkedlist.c:183-186 | once a node's neighbours are linked to each other, the chain without that node is linked both ways |
| LinkedLists.Node.constructor | src/linkedlist.c:64-66 | a new node carries the given payload and no links |
| LinkedLists.LinkedList.constructor | src/linkedlist.c:28-36 | `linkedlist_alloc`: the list is empty, `size` is 0, `head` and `tail` are null, and the invariant holds |
| LinkedLists.LinkedList.Size | src/linkedlist.c:54-56 | `size` is the number of elements, and it is 0 exactly when `head` is null and exactly when `tail` is null |
| LinkedLists.LinkedList.GetNode | src/linkedlist.c:168-176 | the node at position `i`, reached by the forward walk of `i` steps when `i < size/2` and by the backward walk of `size-1-i` steps otherwise |
| LinkedLists.LinkedList.Get | src/linkedlist.c:120-125 | the payload at position `index`; nothing changes |
| LinkedLists.LinkedList.Insert | src/linkedlist.c:58-96 | the contents become `old[..index] + [data] + old[index..]`, the node sequence gains exactly one fresh node at `index` and keeps every old node in order, the invariant still holds, and the footprint grows only by fresh objects |
| LinkedLists.LinkedList.LinkFirst | src/linkedlist.c:68-72 | empty list: the new node becomes head and tail with no links |
| LinkedLists.LinkedList.LinkAtHead | src/linkedlist.c:73-78 | index 0: the new node is linked in before the old head and becomes head |
| LinkedLists.LinkedList.LinkAtTail | src/linkedlist.c:79-84 | index `size`: the new node is linked in after the old tail and becomes tail |
| LinkedLists.LinkedList.LinkBefore | src/linkedlist.c:85-93 | any other index: the new node is linked in between the node at `index` and its predecessor; head and tail stay |
| LinkedLists.LinkedList.RemoveNode | src/linkedlist.c:178-193 | returns the payload of the node at position `i`, removes exactly that position from the contents and the chain, keeps the invariant, and drops only that node from the footprint |
| LinkedLists.LinkedList.Remove | src/linkedlist.c:98-118 | returns `old[index]`; the contents and the node sequence both lose exactly position `index` |
| LinkedLists.LinkedList.Push | src/linkedlist.c:127-129 | the contents become `old + [data]`, and the node sequence gains one fresh node at the end |
| LinkedLists.LinkedList.Pop | src/linkedlist.c:131-133 | returns the last element; the contents and the node sequence both lose their last entry |
| LinkedLists.LinkedList.Free | src/linkedlist.c:38-52 | the loop from head stops at null after visiting every node once, in chain order: the payloads it visits are exactly the contents |
| LinkedLists.Iter.constructor | src/linkedlist.c:137-143 | `lliter_alloc`: the cursor is at head and nothing has been yielded |
| LinkedLists.Iter.HasNext | src/linkedlist.c:149-151 | true exactly when some element has not been yielded yet |
| LinkedLists.Iter.Next | src/linkedlist.c:153-158 | returns the element at the cursor, advances the cursor by one, and remembers the yielded node as `last`, which is then the node right before the cursor |
| LinkedLists.Iter.Reanchor | src/linkedlist.c:11-15 | the iterator is only its node pointers, and traversal reads only `next`: after other calls changed the list, wherever `next` is still in the chain (or null) the iterator is valid again, at the one position `next` fits |
| LinkedLists.Iter.Remove | src/linkedlist.c:160-165 | when `last` is the node right before the cursor: removes exactly the element yielded last (from both the contents and the node sequence) and returns it; the cursor stays on the same next node, now one position earlier, and `last` is cleared |
| Traversals.Perform | src/linkedlist.c:58-133 | one call of `insert`, `remove`, `push` or `pop` on a real list changes its contents exactly as `Apply` says, and `remove` and `pop` return the element removed |
| Traversals.PerformAll | src/linkedlist.c:58-133 | a sequence of such calls on a real list ends with the contents `Run` gives, so the list's size is its initial size plus inserts and pushes minus removes and pops |
| Traversals.PushAll | test/test_linkedlist.c:110-113 | pushing the elements of `vs` one by one appends `vs` |
| Traversals.TraverseAll | test/test_linkedlist.c:115-121 | a fresh iterator yields the contents in order, and `hasnext` fails after exactly `size` calls of `next` |
| Traversals.NestedTraversal | src/linkedlist.c:137-158 | a full traversal by a second iterator inside each step of a first one disturbs neither: both yield the whole contents in order |
| Traversals.RemoveYieldedAt | test/test_linkedlist.c:123-131 | removing through the iterator the elements yielded at the positions in `drop`: each round's value, from `next` or from `remove`, is the original element at that position, so the values are the old contents in order, and the list is left as `KeepUnmarked(old contents, drop)` |
| Traversals.NextRemovingIf | test/test_linkedlist.c:125-130 | one round of that loop: `remove` returns the same element `next` just yielded, the next element of the original contents |
| Traversals.RemoveAllByIterator | test/test_linkedlist.c:161-173 | `next` then `remove` until `hasnext` fails empties the list in exactly as many rounds as it had elements |
| Traversals.ReadBack | test/test_linkedlist.c:48-51 | reading indices `0..n-1` with `get` returns the first `n` elements of the contents |
| Traversals.PushCountingUp | test/test_linkedlist.c:38-41 | pushing `0..n-1` onto an empty list, reading each back with `get` right after its push, returns `i` for index `i` and leaves contents `0..n-1` |
| Traversals.IntScenario | test/test_linkedlist.c:34-62 | on 0..4: each `get(i)` after a push returns `i`; `remove(2)` returns 2 and leaves size 4 and elements 0, 1, 3, 4; `pop` returns 4 and leaves size 3; after `insert(2, 2)` the size is 4 and `get(2)` returns 2 |
| Traversals.IterScenario | test/test_linkedlist.c:105-144 | on 0..9: the first traversal yields 0..9 in 10 calls; the removing traversal's values are 0..9, each `remove` returning what `next` just yielded; after removing positions 0, 5 and 9 a traversal yields 1, 2, 3, 4, 6, 7, 8, and `hasnext` fails after exactly those 7 calls |
| Traversals.PushWhileIterating | src/linkedlist.c:149-158 | an iterator that has yielded 0 from 0, 1, 2 keeps its place across a `push` of 9 by another caller, then yields 1, 2 and 9 and reports the end |
| Traversals.RemoveLastYieldedThroughList | src/linkedlist.c:149-158 | an iterator that has yielded 0 from 0, 1, 2 goes on after `remove(0)` takes out its last-yielded node, since `hasnext` and `next` never read `last`: it yields 1 and 2 and then reports the end |
| Traversals.RemoveBehindOtherIterator | src/linkedlist.c:153-165 | with two iterators over 0, 1, 2, the first removing 0 while the second has already yielded 0 and 1 leaves the second able to yield 2 and then report the end |
| Traversals.RemoveAllScenario | test/test_linkedlist.c:146-175 | five pushes then five pops leave size 0; five pushes then next-and-remove take five rounds and leave size 0 |

## Left out

- Memory management is not modelled: `malloc`, `free` and allocation failure (the `assert(n != NULL)` after `malloc`). A new node is a Dafny `new`, and a removed node simply leaves the footprint.
- `lliter_free` only releases memory and is not modelled.
- LinkedLists.LinkedList.Free: returns the payloads in the order the loop would hand them to the cleanup callback `fn`, instead of calling `fn`. The `fn == NULL` case and the release of the nodes and the list are not modelled.
- `size` is a `nat`. The 32-bit `unsigned int` wrap-around is not modelled, so `Insert` has no bound of `size < 2^32`.
- LinkedLists.LinkedList.Pop: requires a non-empty list. On an empty list the C code computes `size - 1` with unsigned wrap-around, and only the assert at the start of `linkedlist_remove` stops it.
- The `assert`s at the start of `insert`, `remove`, `get`, `lliter_next` and `lliter_remove` become preconditions. Aborting the program is not modelled.
- The header's iterator API (`lliter_init(ll)` and the list-keyed `lliter_hasnext`, `lliter_next` and `lliter_remove`) has no implementation in `src/linkedlist.c` and is not modelled.
- Removing the node an iterator's `next` points at leaves that iterator with a dangling pointer, and so does freeing its list. The source leaves both undefined, and they are not modelled. Removing the node its `last` points at is different: `lliter_hasnext` and `lliter_next` never read `last`, so the iterator goes on traversing (`Iter.Reanchor`, `Traversals.RemoveLastYieldedThroughList`). Only a later `lliter_remove` would then use a dangling pointer, and `Iter.Remove`'s precondition excludes that.
- LinkedLists.Iter.Remove: requires `last` to be the node right before `next` in the chain, which is more than the `last != NULL` that `lliter_remove` asserts. Two defined C states fail it, and there the model does not let the iterator remove. One is an `insert` between `last` and `next`. The other is an iterator that has reached the end with `last` set when elements are then pushed. Its `next` stays NULL, so it never yields them, and the model covers that part. In both states C's `lliter_remove` still removes the `last` node. Traversal itself, through `hasnext` and `next`, is covered in every state where `next` is still in the chain, after any change made through the list or through another iterator.
- `test_string` and `test_large` are not replayed. The first depends on C strings, `malloc` and `strcmp`. The second is 10000 pushes followed by `get` at powers of two, which `Traversals.PushAll` and `LinkedList.Get` cover for any length.
- The print helpers of the test file are console output only and are not modelled.
