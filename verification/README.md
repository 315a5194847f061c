# Three generic containers, modelled in Dafny

This project models the three containers of `io.github.hoangtuan2k5.datastructures`:

- `DynamicArray<T>`, a growable array. It has a backing buffer, a live count `size` and a capacity that doubles when an append finds the buffer full.
- `StaticArray<T>`, a fixed-capacity wrapper. Every operation covers all capacity slots, and `reverse` swaps mirror pairs toward the middle.
- `DefaultIDoublyLinkedList<T>` over `Node<T>`, a doubly linked list that tracks `head`, `tail` and `size`.

Each container is an immutable Dafny datatype, and each Java operation is a function or a method that returns the new state. Operations whose Java body is a loop are methods with the same loop, and the others are functions, with two kinds of exception. The linked list's `clear` is a loop-free function, because its loop only nulls the fields of the nodes it unlinks, which this model leaves out (see "## Left out"). The three `contains` operations are methods although their Java bodies have no loop, because they call the `indexOf` methods. The modelling choices:

- Java `null` is `Option.None`.
- `equals` and `Objects.equals` are Dafny `==`.
- A thrown exception is an `Err`/`Fail` value that names the exception class.

Files:

- `common.dfy` (module `Common`): `Option`, the `Error` taxonomy, `Result`, `Outcome`, and `Step` (a state plus an outcome, for operations that mutate before they throw). It also holds the first-match predicate `IsFirstIndex` shared by every `indexOf`, and `Reversed`.
- `dynamic_array.dfy` (module `DynamicArray`): `DynArray(slots, size)`. The capacity is `|slots|`. `Live(a)` is the live prefix `slots[..size]`.
- `static_array.dfy` (module `StaticArray`): `StArray(slots)`.
- `node.dfy` (module `Nodes`): the `Node(data, prev, next)` cell. Links are `Ref` addresses into a heap.
- `linked_list.dfy` (module `DoublyLinkedList`): the list is a heap `map<Ref, Node<T>>` plus `head`, `tail`, `size`, and the next unused reference `free`, which models `new Node`.
  - `Spine(l)` is the chain met by walking `size` steps along `next` from `head`.
  - `Valid(l)` says that this chain is duplicate-free and ends at `tail`, that `head`, `tail` and `size == 0` are null together, and that every `prev` mirrors a `next`.
  - `Contents(l)` is the payload sequence along the chain.

The source's quirks are kept as written:

- `get`/`set`/`swap`/`remove` on the dynamic array check the index against the capacity, not the size.
- `resize` doubles the capacity, so a zero capacity stays zero. `append` on a zero-capacity array therefore increments `size` to 1 and then throws `ArrayIndexOutOfBoundsException` from the buffer write.
- `remove(index)` with `size <= index < capacity` skips the shift and drops the last element. On an empty array it sets `size` to -1 and then throws `ArrayIndexOutOfBoundsException`.

## Model

| member | source | states |
|---|---|---|
| DynamicArray.Create | src/main/java/io/github/hoangtuan2k5/datastructures/array/DynamicArray.java:32-39 | Fails with IllegalArgument exactly when the capacity is negative. Otherwise it gives an empty valid array of exactly that capacity with every slot null. |
| DynamicArray.Grow | src/main/java/io/github/hoangtuan2k5/datastructures/array/DynamicArray.java:221-224 | The capacity becomes exactly twice the old one (so 0 stays 0). Old slots keep their positions, new slots are null, and the size is unchanged. |
| DynamicArray.Append | src/main/java/io/github/hoangtuan2k5/datastructures/array/DynamicArray.java:49-54 | Succeeds iff the capacity is positive. The live contents become old + [e], and the capacity doubles exactly when size == capacity beforehand. At capacity 0 it fails with ArrayIndexOutOfBounds, leaving size 1 in a state outside the invariant. |
| DynamicArray.Get | src/main/java/io/github/hoangtuan2k5/datastructures/array/DynamicArray.java:63-66 | Succeeds iff 0 <= index < capacity, whatever the size. That check is `validateIndex` (DynamicArray.java:212-216), modelled by the predicate `DynamicArray.InBounds`; the Ok-iff clauses of Get, Set, Swap and Remove state it. It returns that slot, which is the live element when index < size. |
| DynamicArray.Set | src/main/java/io/github/hoangtuan2k5/datastructures/array/DynamicArray.java:75-78 | Succeeds iff 0 <= index < capacity. Only the indexed slot changes; size and capacity are kept. |
| DynamicArray.GetAfterSet | src/main/java/io/github/hoangtuan2k5/datastructures/array/DynamicArray.java:63-78 | A get right after set(i, v) returns v at i and the old answer at every other index. |
| DynamicArray.Swap | src/main/java/io/github/hoangtuan2k5/datastructures/array/DynamicArray.java:169-176 | Succeeds iff both indices are in [0, capacity). It exchanges exactly those two slots and keeps size and capacity. |
| DynamicArray.SwapTwice | src/main/java/io/github/hoangtuan2k5/datastructures/array/DynamicArray.java:169-176 | Swapping the same pair twice restores the array. |
| DynamicArray.Remove | src/main/java/io/github/hoangtuan2k5/datastructures/array/DynamicArray.java:89-95 | Outside [0, capacity) it throws with no change. For index < size the live contents lose position index. For size <= index < capacity it drops the last element. In both of those cases slot size-1 becomes null and later slots and capacity are kept. On an empty array it leaves size -1 and throws ArrayIndexOutOfBounds. |
| DynamicArray.Clear | src/main/java/io/github/hoangtuan2k5/datastructures/array/DynamicArray.java:103-108 | Slots [0, old size) become null and size becomes 0. Capacity and the slots past the old size are kept. |
| DynamicArray.Fill | src/main/java/io/github/hoangtuan2k5/datastructures/array/DynamicArray.java:156-160 | Every live slot becomes e. Size, capacity and the slots past size are unchanged. |
| DynamicArray.IndexOf | src/main/java/io/github/hoangtuan2k5/datastructures/array/DynamicArray.java:118-133 | Returns the smallest live index whose slot equals x (null matches null), or -1 if there is none. |
| DynamicArray.Contains | src/main/java/io/github/hoangtuan2k5/datastructures/array/DynamicArray.java:202-204 | True iff x occurs among the live elements, which is the case iff indexOf does not answer -1. |
| DynamicArray.Copy | src/main/java/io/github/hoangtuan2k5/datastructures/array/DynamicArray.java:140-146 | Same size, same capacity, and every slot equal to the source's. |
| DynamicArray.Size | src/main/java/io/github/hoangtuan2k5/datastructures/array/DynamicArray.java:183-185 | The number of live elements. |
| DynamicArray.IsEmpty | src/main/java/io/github/hoangtuan2k5/datastructures/array/DynamicArray.java:192-194 | True iff there are no live elements. |
| DynamicArray.Next | src/main/java/io/github/hoangtuan2k5/datastructures/array/DynamicArray.java:256-267 | Succeeds iff the cursor is below size, which is `hasNext()` (`DynamicArray.HasNext`). It returns the live element under the cursor and advances the cursor by one. Otherwise it throws IndexOutOfBounds. |
| DynamicArray.IteratorYieldsLive | src/main/java/io/github/hoangtuan2k5/datastructures/array/DynamicArray.java:252-269 | size calls of next() on a fresh iterator (`iterator()`, modelled by `DynamicArray.Iterator`, starts the cursor at 0) yield exactly the live elements in order, and one more call throws. |
| DynamicArray.AppendScenario | src/test/java/io/github/hoangtuan2k5/datastructures/array/DynamicArrayTest.java:32-51 | Appending 10, 20, 30, 40 at capacity 2 doubles the capacity on the third append and ends with [10, 20, 30, 40]. |
| StaticArray.Create | src/main/java/io/github/hoangtuan2k5/datastructures/array/StaticArray.java:30-37 | Fails with IllegalArgument exactly when the capacity is negative. Otherwise it gives that many null slots. |
| StaticArray.Get | src/main/java/io/github/hoangtuan2k5/datastructures/array/StaticArray.java:46-49 | Succeeds iff 0 <= index < capacity and returns that slot. That check is `validateIndex` (StaticArray.java:189-193), modelled by the predicate `StaticArray.InBounds`; the Ok-iff clauses of Get, Set and Swap state it. |
| StaticArray.Set | src/main/java/io/github/hoangtuan2k5/datastructures/array/StaticArray.java:58-61 | Succeeds iff 0 <= index < capacity, and only that slot changes. |
| StaticArray.GetAfterSet | src/main/java/io/github/hoangtuan2k5/datastructures/array/StaticArray.java:46-61 | A get right after set(i, v) returns v at i and the old answer elsewhere. |
| StaticArray.Clear | src/main/java/io/github/hoangtuan2k5/datastructures/array/StaticArray.java:66-70 | Every slot becomes null and the capacity is kept. |
| StaticArray.Fill | src/main/java/io/github/hoangtuan2k5/datastructures/array/StaticArray.java:77-81 | Every slot becomes e and the capacity is kept. |
| StaticArray.IndexOf | src/main/java/io/github/hoangtuan2k5/datastructures/array/StaticArray.java:91-106 | Returns the first index in [0, capacity) whose slot equals x (null matches null), or -1. |
| StaticArray.Contains | src/main/java/io/github/hoangtuan2k5/datastructures/array/StaticArray.java:114-116 | True iff some slot equals x, which is the case iff indexOf answers a non-negative index. |
| StaticArray.Size | src/main/java/io/github/hoangtuan2k5/datastructures/array/StaticArray.java:123-125 | Reports the number of slots, which is the capacity. |
| StaticArray.IsEmpty | src/main/java/io/github/hoangtuan2k5/datastructures/array/StaticArray.java:132-134 | True iff the capacity is 0. |
| StaticArray.Swap | src/main/java/io/github/hoangtuan2k5/datastructures/array/StaticArray.java:165-172 | Succeeds iff both indices are in range, and exchanges exactly those two slots. |
| StaticArray.SwapTwice | src/main/java/io/github/hoangtuan2k5/datastructures/array/StaticArray.java:165-172 | Swapping the same pair twice restores the array. |
| StaticArray.Reverse | src/main/java/io/github/hoangtuan2k5/datastructures/array/StaticArray.java:177-181 | New slot i holds old slot capacity-1-i, so the result is the old slots back to front; for an odd capacity the middle slot is unchanged. Reversing twice restores the slots (Common.ReversedTwice). |
| StaticArray.Copy | src/main/java/io/github/hoangtuan2k5/datastructures/array/StaticArray.java:200-204 | Same capacity and every slot equal to the source's. |
| StaticArray.Next | src/main/java/io/github/hoangtuan2k5/datastructures/array/StaticArray.java:216-227 | Succeeds iff the cursor is below the capacity, which is `hasNext()` (`StaticArray.HasNext`). It returns that slot and advances, and otherwise throws IndexOutOfBounds. |
| StaticArray.IteratorYieldsSlots | src/main/java/io/github/hoangtuan2k5/datastructures/array/StaticArray.java:212-229 | capacity calls of next() on a fresh iterator (`iterator()`, modelled by `StaticArray.Iterator`, starts the cursor at 0) yield every slot in order, and one more call throws. |
| Nodes.SetData | src/main/java/io/github/hoangtuan2k5/datastructures/linkedlist/Node.java:45-56 | getData then returns the new payload; both links are unchanged. |
| Nodes.SetPrev | src/main/java/io/github/hoangtuan2k5/datastructures/linkedlist/Node.java:63-74 | getPrev then returns the new back link; payload and forward link are unchanged. |
| Nodes.SetNext | src/main/java/io/github/hoangtuan2k5/datastructures/linkedlist/Node.java:81-92 | getNext then returns the new forward link; payload and back link are unchanged. |
| DoublyLinkedList.StructuralInvariant | src/main/java/io/github/hoangtuan2k5/datastructures/linkedlist/DefaultIDoublyLinkedList.java:22-24 | In a valid list, head, tail and size == 0 are null together. Exactly size nodes are reachable from head by next: a walk of size + 1 steps meets the same nodes, because tail's next is null (and head's prev is null). The same nodes are reached in reverse from tail by prev. Every next link is mirrored by a prev link and vice versa. |
| DoublyLinkedList.Empty | src/main/java/io/github/hoangtuan2k5/datastructures/linkedlist/DefaultIDoublyLinkedList.java:29-33 | A new list is valid, has no elements, size 0, and null head and tail. |
| DoublyLinkedList.Clear | src/main/java/io/github/hoangtuan2k5/datastructures/linkedlist/DefaultIDoublyLinkedList.java:42-54 | After clear the list is valid and empty, with size 0 and null head and tail. |
| DoublyLinkedList.Size | src/main/java/io/github/hoangtuan2k5/datastructures/linkedlist/DefaultIDoublyLinkedList.java:62-64 | The number of elements. |
| DoublyLinkedList.ValidateIndex | src/main/java/io/github/hoangtuan2k5/datastructures/linkedlist/DefaultIDoublyLinkedList.java:74-79 | Answers true iff 0 <= index < size, and throws IndexOutOfBounds otherwise. |
| DoublyLinkedList.IsEmpty | src/main/java/io/github/hoangtuan2k5/datastructures/linkedlist/DefaultIDoublyLinkedList.java:87-89 | True iff there are no elements. |
| DoublyLinkedList.Add | src/main/java/io/github/hoangtuan2k5/datastructures/linkedlist/DefaultIDoublyLinkedList.java:100-102 | Keeps the list valid; contents become old + [e] and size grows by 1. |
| DoublyLinkedList.AddFirst | src/main/java/io/github/hoangtuan2k5/datastructures/linkedlist/DefaultIDoublyLinkedList.java:110-119 | Keeps the list valid; contents become [e] + old and size grows by 1. |
| DoublyLinkedList.AddLast | src/main/java/io/github/hoangtuan2k5/datastructures/linkedlist/DefaultIDoublyLinkedList.java:127-136 | Keeps the list valid; contents become old + [e] and size grows by 1. |
| DoublyLinkedList.PeekFirst | src/main/java/io/github/hoangtuan2k5/datastructures/linkedlist/DefaultIDoublyLinkedList.java:145-150 | Throws NoSuchElement iff the list is empty; otherwise returns the first element. |
| DoublyLinkedList.PeekLast | src/main/java/io/github/hoangtuan2k5/datastructures/linkedlist/DefaultIDoublyLinkedList.java:159-164 | Throws NoSuchElement iff the list is empty; otherwise returns the last element. |
| DoublyLinkedList.RemoveFirst | src/main/java/io/github/hoangtuan2k5/datastructures/linkedlist/DefaultIDoublyLinkedList.java:173-186 | Throws NoSuchElement iff empty. Otherwise it returns the first element, the contents lose it, size drops by 1, the list stays valid, and head and tail are both null once it is empty. |
| DoublyLinkedList.RemoveLast | src/main/java/io/github/hoangtuan2k5/datastructures/linkedlist/DefaultIDoublyLinkedList.java:195-208 | Throws NoSuchElement iff empty. Otherwise it returns the last element, the contents lose it, size drops by 1, the list stays valid, and head and tail are both null once it is empty. |
| DoublyLinkedList.AddFirstThenRemoveFirst | src/main/java/io/github/hoangtuan2k5/datastructures/linkedlist/DefaultIDoublyLinkedList.java:110-186 | removeFirst after addFirst(e) returns e and restores the contents. |
| DoublyLinkedList.AddLastThenRemoveLast | src/main/java/io/github/hoangtuan2k5/datastructures/linkedlist/DefaultIDoublyLinkedList.java:127-208 | removeLast after addLast(e) returns e and restores the contents. |
| DoublyLinkedList.UnlinkInterior | src/main/java/io/github/hoangtuan2k5/datastructures/linkedlist/DefaultIDoublyLinkedList.java:229-232 | Splicing out (`DoublyLinkedList.Splice`, the two link updates and `size--`) a node that is neither head nor tail keeps the list valid, returns its payload, and excises exactly its position from the contents. |
| DoublyLinkedList.Unlink | src/main/java/io/github/hoangtuan2k5/datastructures/linkedlist/DefaultIDoublyLinkedList.java:217-240 | Throws NullPointer iff the handle is null. Otherwise, for the node at position k, it returns element k, excises position k, and keeps the list valid with size one less. |
| DoublyLinkedList.RemoveAt | src/main/java/io/github/hoangtuan2k5/datastructures/linkedlist/DefaultIDoublyLinkedList.java:269-276 | Throws IndexOutOfBounds iff the index is not in [0, size). Otherwise it returns the element at index, excises that position, and keeps the list valid. |
| DoublyLinkedList.Remove | src/main/java/io/github/hoangtuan2k5/datastructures/linkedlist/DefaultIDoublyLinkedList.java:249-259 | Returns true iff x occurs (null matches null) and then excises only its first occurrence. Otherwise it returns false and the list is unchanged. The list stays valid either way. |
| DoublyLinkedList.IndexOf | src/main/java/io/github/hoangtuan2k5/datastructures/linkedlist/DefaultIDoublyLinkedList.java:285-294 | Returns the first position whose element equals x (null matches null), or -1. |
| DoublyLinkedList.Contains | src/main/java/io/github/hoangtuan2k5/datastructures/linkedlist/DefaultIDoublyLinkedList.java:303-305 | True iff x occurs, which is the case iff indexOf does not answer -1. |
| DoublyLinkedList.Next | src/main/java/io/github/hoangtuan2k5/datastructures/linkedlist/DefaultIDoublyLinkedList.java:342-354 | Succeeds iff the iterator's node is not null, which is `hasNext()` (`DoublyLinkedList.HasNext`). It returns that node's payload and moves to its next link; otherwise it throws NoSuchElement. |
| DoublyLinkedList.IteratorYieldsContents | src/main/java/io/github/hoangtuan2k5/datastructures/linkedlist/DefaultIDoublyLinkedList.java:337-356 | size calls of next() on a fresh iterator (`iterator()`, modelled by `DoublyLinkedList.Iterator`, starts at head) yield the contents head to tail and leave it on null, where next() throws. |
| DoublyLinkedList.ListScenario | src/main/java/io/github/hoangtuan2k5/datastructures/linkedlist/DefaultIDoublyLinkedList.java:110-208 | After addLast(1), addLast(2), addFirst(0) the list is 0, 1, 2; removeLast then returns 2 and leaves 0, 1. |

## Left out

- The `toString` methods of all three containers and of `Node`. Their output depends on each element's Java `toString`.
- Java `int` overflow of `capacity *= 2` and of the counters. Integers are unbounded here.
- `Arrays.copyOf` and `System.arraycopy` are modelled by sequence operations, not by their mechanics.
- The nulling of unlinked nodes' fields in `clear` and in the private `remove(Node)`. Those nodes are no longer reachable through the list API, so they stay in the heap with their old fields.
- Iterator object identity and concurrent modification. An iterator reads the container value it was created from, whereas Java's reads the live fields.
- StaticArray.Copy: the copy's independence from the original, which the source's tests check by updating the copy and reading the original, is not stated as a separate property. Values are immutable in this model, so an update to either one cannot reach the other.
- DynamicArray.Copy: the copy's independence from the original is not stated as a separate property. Values are immutable in this model, so an update to either one cannot reach the other.
- Operations on a `DynamicArray` left broken by a failed `append` (size 1, capacity 0) or a failed `remove` (size -1) are not modelled. The members that read the live prefix require the class invariant `Valid`. Those failing steps themselves are modelled exactly.
- DoublyLinkedList.Unlink: it requires the handle to be null or a node of the list. The source's only callers, `remove(Object)` and `removeAt`, guarantee this.
- DoublyLinkedList.NextN reports a dangling link as an error. A valid list has no dangling links, so this never happens for one (IteratorYieldsContents).
