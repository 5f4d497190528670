# AISDI linear containers in Dafny

This project models the two generic sequence containers of the AISDI "Liniowe" exercise and
proves their behaviour against an abstract `seq<T>` of contents:

- `aisdi::LinkedList<Type>` (`src/LinkedList.h`): a doubly linked chain between two
  permanent boundary nodes, `head` and `tail`, with a running count `csize`. The class
  `LinkedLists.LinkedList` keeps the real fields (`head`, `tail`, `size`). It also carries ghost
  state: the node sequence `nodes` (`head`, the element nodes, `tail`), the abstract `contents`
  and the footprint `Repr`. `Valid()` states the representation invariant:
  - following `next` from `head` reaches `tail` after `csize + 1` steps;
  - `prev` mirrors `next`;
  - the element nodes hold `contents`.

  That no node occurs twice is not part of the invariant. It is proved from it by induction
  (`NoNodeTwice`).
  A position (`ConstIterator`/`Iterator`) is a node of the list. Each iterator operator is a
  member of the list that takes that node, and each is specified through the node's place
  `IndexOf(p)` in `nodes`.
- `aisdi::Vector<Type>` (`src/Vector.h`): a growable buffer `tab` with `csize` live elements
  and capacity `maxsize`. The capacity starts at 2 and doubles when full. The class
  `Vectors.Vector` keeps `tab` as an `array<T>` that operations shift in place and `realloc`
  replaces. `Contents()` is `tab[..csize]`. A position is the datatype `Vectors.Iter`: the vector
  (null for a default-constructed iterator) and an index.

The source reports errors by throwing. Every throw is a failure value here:
- `Outcomes.Error` is `OutOfRange` (`std::out_of_range`) or `BadArrayNewLength`
  (`std::bad_array_new_length`);
- operations return `Result<T>` or `Outcome`;
- the contracts state when each failure happens and that a failing call changes nothing.

The shared sequence edits `InsertAt` and `RemoveRange` (module `Sequences`) give the
abstract meaning of insertion and erasure in both containers.

Files: `outcomes.dfy`, `sequences.dfy`, `linked_list.dfy`, `vector.dfy`.

## Model

| member | source | states |
|---|---|---|
| LinkedLists.Node.Sentinel | src/LinkedList.h:33-34 | a boundary node starts with no neighbours |
| LinkedLists.Node.constructor | src/LinkedList.h:35-38 | an element node holds its datum and the given neighbours |
| LinkedLists.LinkedList.NoNodeTwice | src/LinkedList.h:46-52 | in any list satisfying the invariant, two different places in the chain hold different nodes; proved by induction back to `head`, which has no predecessor |
| LinkedLists.LinkedList.constructor | src/LinkedList.h:46-52 | a new list is valid and empty: `head->next == tail`, size 0, `isEmpty()` |
| LinkedLists.LinkedList.FromSeq | src/LinkedList.h:54-58 | appending the initializer list's items in order yields exactly that sequence |
| LinkedLists.LinkedList.Copy | src/LinkedList.h:60-64 | the copy holds the other list's elements in order, in fresh nodes |
| LinkedLists.LinkedList.Assign | src/LinkedList.h:85-93 | after copy assignment the list holds the other's elements and the other list is unchanged; self-assignment keeps the very same nodes, so positions survive; otherwise the sentinels are kept and every element node is freshly allocated |
| LinkedLists.LinkedList.AppendAll | src/LinkedList.h:89-90 | the range-for over the other list appends all its elements in order in fresh nodes before `tail`, reading them through its positions; the existing nodes keep their places and the other list stays intact |
| LinkedLists.LinkedList.IsEmpty | src/LinkedList.h:110-113 | `head->next == tail` exactly when the list has no elements |
| LinkedLists.LinkedList.GetSize | src/LinkedList.h:115-118 | `csize` equals the number of elements and the number of nodes strictly between the sentinels |
| LinkedLists.LinkedList.Insert | src/LinkedList.h:130-138 | `v` goes right before the node at `p` (at the end for `end()`), the size grows by one, the new node is freshly allocated, every other node keeps its order, and the post-insert sanity check never throws |
| LinkedLists.LinkedList.Splice | src/LinkedList.h:132-136 | the relinking keeps the invariant and puts a fresh node at `p`'s old place |
| LinkedLists.LinkedList.InsertCheckNeverFires | src/LinkedList.h:137 | `head->next == tail->prev` holds exactly when `csize == 1`, so the `runtime_error` check is dead |
| LinkedLists.LinkedList.Append | src/LinkedList.h:120-123 | appending adds `v` at the end in a fresh node just before `tail`; every existing node keeps its place, so positions survive |
| LinkedLists.LinkedList.Prepend | src/LinkedList.h:125-128 | prepending adds `v` at the front in a fresh node just after `head`; every existing node keeps its place, so positions survive |
| LinkedLists.LinkedList.PopFirst | src/LinkedList.h:140-146 | fails with `out_of_range` and changes nothing when empty; otherwise returns the first element and unlinks exactly its node, so positions to the other nodes survive |
| LinkedLists.LinkedList.PopLast | src/LinkedList.h:148-154 | fails with `out_of_range` and changes nothing when empty; otherwise returns the last element and unlinks exactly its node, so positions to the other nodes survive |
| LinkedLists.LinkedList.Erase | src/LinkedList.h:156-164 | fails and changes nothing exactly at a sentinel; otherwise removes exactly that node and its element |
| LinkedLists.LinkedList.Unlink | src/LinkedList.h:160-163 | connecting an element node's neighbours removes exactly that node from the chain and keeps the invariant |
| LinkedLists.LinkedList.EraseRange | src/LinkedList.h:166-192 | succeeds exactly when `first` is not after `last`, and then removes exactly `[first, last)` (all elements for `(begin(), end())`, nothing for `first == last`); otherwise fails with `out_of_range` and changes nothing |
| LinkedLists.LinkedList.Reaches | src/LinkedList.h:176-182 | the walk from `first` meets `last` before `tail` exactly when `last` lies after `first` |
| LinkedLists.LinkedList.UnlinkRange | src/LinkedList.h:183-191 | the removal loop removes exactly the nodes of `[first, last)` |
| LinkedLists.LinkedList.UnlinkStep | src/LinkedList.h:185-190 | one pass of the removal loop removes one more node of the range and returns its successor |
| LinkedLists.LinkedList.Clear | src/LinkedList.h:224-238 | afterwards `head->next == tail`, the size is 0 and the list is empty; the sentinels are kept |
| LinkedLists.LinkedList.Begin | src/LinkedList.h:194-197 | `begin()` is place 1: the first element, or `tail` when empty |
| LinkedLists.LinkedList.End | src/LinkedList.h:199-202 | `end()` is the last place, cannot be dereferenced, and equals `begin()` exactly when the list is empty |
| LinkedLists.LinkedList.Deref | src/LinkedList.h:266-270 | dereferencing fails exactly at a sentinel and otherwise yields the element at that place |
| LinkedLists.LinkedList.Next | src/LinkedList.h:272-277 | `++` fails exactly at `tail` and otherwise moves to the next place |
| LinkedLists.LinkedList.Prev | src/LinkedList.h:286-291 | `--` fails exactly from the first element (it would land on `head`) and otherwise moves to the previous place |
| LinkedLists.LinkedList.Plus | src/LinkedList.h:300-312 | `+ d` moves `abs(d)` places forward and fails exactly when that would pass `tail` |
| LinkedLists.LinkedList.Minus | src/LinkedList.h:314-323 | `- d` moves `abs(d)` places back and fails exactly when that would reach `head` |
| LinkedLists.LinkedList.Equals | src/LinkedList.h:325-328 | two positions are equal exactly when they are the same place in the chain |
| LinkedLists.AppendThenPopLast | src/LinkedList.h:148-154 | `append(v); popLast()` returns `v` and restores the contents |
| LinkedLists.PrependThenPopFirst | src/LinkedList.h:140-146 | `prepend(v); popFirst()` returns `v` and restores the contents |
| LinkedLists.InsertThenErase | src/LinkedList.h:156-164 | inserting before `p` and then erasing at `p - 1` succeeds and restores the contents |
| LinkedLists.CopyIsIndependent | src/LinkedList.h:60-64 | appending to a copy leaves the original unchanged |
| Sequences.InsertAtEnds | src/LinkedList.h:120-128 | insertion at the past-the-end place is appending and at place 0 is prepending |
| Sequences.RemoveAfterInsert | src/LinkedList.h:130-164 | erasing the element just inserted restores the sequence |
| Sequences.RemoveRangeExtremes | src/LinkedList.h:168-175 | erasing the whole range empties the sequence, which is the `clear()` shortcut, and an empty range changes nothing |
| Vectors.Vector.constructor | src/Vector.h:29-32 | a new vector is empty with capacity 2 |
| Vectors.Vector.FromSeq | src/Vector.h:34-43 | holds the list's items in order with capacity twice their number (4 for an empty list, since `realloc(0)` doubles) |
| Vectors.Vector.Copy | src/Vector.h:45-52 | the copy has the same elements and capacity in a fresh buffer |
| Vectors.Vector.AssignAsWritten | src/Vector.h:71-81 | copy assignment as written throws `bad_array_new_length` exactly when `maxsize <= other.csize` and `other.maxsize <= csize`, and then changes neither the fields nor the buffer; otherwise it copies the other's elements |
| Vectors.Vector.Assign | src/Vector.h:71-81 | with the intended guard, copy assignment always succeeds and holds the other's elements |
| Vectors.Vector.CopyFrom | src/Vector.h:75-79 | the copy loop leaves the other's elements in order, also when copying from itself |
| Vectors.Vector.IsEmpty | src/Vector.h:93-96 | empty exactly when there are no elements |
| Vectors.Vector.GetSize | src/Vector.h:98-101 | `csize` is the number of elements |
| Vectors.Vector.Realloc | src/Vector.h:103-116 | `0` doubles the capacity; `n <= csize` (nonzero) throws and changes nothing; otherwise the capacity becomes `n`; the elements are kept in every case |
| Vectors.Vector.Append | src/Vector.h:118-126 | adds `v` at the end, doubling the capacity only when full |
| Vectors.Vector.Insert | src/Vector.h:135-147 | places `v` at `p.index`, shifting later elements up by one and keeping earlier ones |
| Vectors.Vector.Prepend | src/Vector.h:128-133 | adds `v` at the front |
| Vectors.Vector.PopFirst | src/Vector.h:149-159 | fails and changes nothing when empty; otherwise returns the first element and shifts the rest down |
| Vectors.Vector.PopLast | src/Vector.h:161-167 | fails and changes nothing when empty; otherwise returns the last element and drops it |
| Vectors.Vector.Erase | src/Vector.h:169-177 | fails and changes nothing exactly when `index >= csize`; otherwise removes exactly that element |
| Vectors.Vector.ShiftDown | src/Vector.h:172-176 | the shifting loop removes exactly the element at `k` and keeps the order of the rest |
| Vectors.Vector.EraseRange | src/Vector.h:179-188 | an empty or inverted range changes nothing; a non-empty range starting at or past `csize` fails and changes nothing; otherwise exactly `[first, last)` is removed |
| Vectors.Vector.Begin | src/Vector.h:190-193 | `begin()` addresses the first element, or fails to dereference when empty |
| Vectors.Vector.End | src/Vector.h:195-198 | `end()` cannot be dereferenced or advanced and equals `begin()` exactly when empty |
| Vectors.Iter.Deref | src/Vector.h:248-253 | fails for a null vector or an index at or past `csize`, otherwise yields that element |
| Vectors.Iter.Next | src/Vector.h:255-260 | `++` may reach `csize` but not go past it |
| Vectors.Iter.Prev | src/Vector.h:269-274 | `--` fails exactly at index 0 |
| Vectors.Iter.Plus | src/Vector.h:283-287 | `+ d` fails exactly when `index + d > csize` |
| Vectors.Iter.MinusAsWritten | src/Vector.h:289-293 | `- d` as written never fails; below index 0 it wraps modulo 2^64, stated for wraps of at most 2^31 places |
| Vectors.Iter.Minus | src/Vector.h:289-293 | `- d` with the intended guard fails exactly when `d > index`, and agrees with the source wherever it succeeds |
| Vectors.Iter.Equals | src/Vector.h:295-298 | equal exactly when same vector and same index |
| Vectors.PlusIsRepeatedNext | src/Vector.h:283-287 | `+ d` agrees with `d` successive `++` steps, including where they fail |
| Vectors.TraversalVisitsContents | src/Vector.h:255-260 | stepping from `begin()` visits every element in order, reaches `end()` after `csize` steps, and a further step fails |
| Vectors.NextThenPrev | src/Vector.h:269-274 | `--` undoes `++` |
| Vectors.BeginMinusOneWraps | src/Vector.h:289-293 | `begin() - 1` yields index 2^64 - 1 as written, and fails with the intended guard |
| Vectors.FullAssignmentThrows | src/Vector.h:71-81 | assigning `{3, 4}` to `{1, 2}` (both full at capacity 2) throws as written |
| Vectors.FullAssignmentCopies | src/Vector.h:71-81 | the same assignment with the intended guard yields `3, 4` |
| Vectors.AppendThenPopLast | src/Vector.h:161-167 | `append(v); popLast()` returns `v` and restores the contents |
| Vectors.PrependThenPopFirst | src/Vector.h:149-159 | `prepend(v); popFirst()` returns `v` and restores the contents |

## Findings

| source | as written | input that shows it | evidently intended | confidence | as-written member | corrected member |
|---|---|---|---|---|---|---|
| src/Vector.h:73-74 | copy assignment reallocates when `maxsize <= other.csize` and asks for `other.maxsize`, which `realloc` rejects when it is not above the target's `csize` | `a = b` with `a = {1, 2}` and `b = {3, 4}`, both full at capacity 2; also self-assignment of any full vector | grow only when `maxsize < other.csize`, so that assignment always copies | not executed | Vectors.Vector.AssignAsWritten, Vectors.FullAssignmentThrows | Vectors.Vector.Assign, Vectors.FullAssignmentCopies |
| src/Vector.h:291 | the guard `index-d<0` is on an unsigned value and never holds, so `- d` wraps below index 0 | `begin() - 1` gives index 2^64 - 1 and no exception | throw `out_of_range` when `d > index` | not executed | Vectors.Iter.MinusAsWritten, Vectors.BeginMinusOneWraps | Vectors.Iter.Minus |

## Left out

- Destructors, `delete` and `delete[]` are left out: allocation becomes fresh objects and arrays in the heap model, and deallocation has no counterpart.
- `LinkedLists.LinkedList.Clear`: the loop that only deletes the unlinked nodes (src/LinkedList.h:227-234) is left out for the same reason. The model relinks the sentinels directly.
- The move constructors and move assignments of both containers (src/Vector.h:54-61, 83-91; src/LinkedList.h:66-76, 95-108) are left out. They only hand over buffers or sentinel pairs, and the moved-from vector is left with a null buffer and a stale count.
- The `Iterator`/`ConstIterator` split and the `const_cast` in `Iterator::operator*` are left out: one position type serves both.
- The benchmark program `src/main.cpp` is not part of this model.
- The checks `size<0` (src/Vector.h:105) and `index<0` (src/Vector.h:251) can never hold for unsigned values and are not modelled.
- `Vectors.Vector.Append`: does not model overflow of `2*maxsize` in `std::size_t`, because capacities are unbounded here.
- `Vectors.Iter.Plus`: takes `d >= 0` only. In the source a negative `d = -k` wraps the sum modulo 2^64, so `it + (-k)` moves `k` places back without throwing when `k <= index`, and throws `out_of_range` otherwise (src/Vector.h:285-286).
- `Vectors.Iter.MinusAsWritten`: states the wrapped index only for wraps of at most 2^31 places. The source passes `index-d` through the `int` parameter of the iterator constructor (src/Vector.h:245), which keeps only its low 32 bits, so `begin() - 2^32` has index 0 there. Likewise, from index 2^64 - 1 the source's `++` wraps `index+1` to 0 and succeeds (src/Vector.h:257-258), where `Vectors.Iter.Next` fails.
- `Vectors.Iter.Next` and `Vectors.Iter.Plus`: require a non-null vector, because the source reads `vptr->csize` through a possibly null `vptr` there (src/Vector.h:257, 285), which is undefined behaviour for a default-constructed iterator.
- `Vectors.Iter.Minus`: takes `d >= 0` only; a negative `d` moves forward unchecked in the source.
- `Vectors.Iter.Prev`: does not model the `(int)index` cast, which misbehaves only for indices of 2^31 or more. The same holds for the `int` index parameter of the iterator constructor (src/Vector.h:245).
- `Vectors.Vector.Insert`: requires `p.index <= csize`. In the source a larger index below `maxsize` (after growth) writes the item to `tab[index]` in bounds, but `csize++` then makes only the slot `tab[csize]` live: the item stays outside the contents, and a stale or default-constructed slot becomes the last element (src/Vector.h:140-145). An index at or past `maxsize` writes out of bounds.
- `Vectors.Vector.EraseRange`: requires `last.index <= csize` for a non-empty range that starts inside the vector. In the source such a range still lowers `csize` by `last.index - first.index` (src/Vector.h:183-187): with `csize = 5`, `first = 3` and `last = 6` it leaves `csize = 2` and silently drops element 2, which lies outside the range; `csize` wraps below 0 only when `last.index - first.index > csize`.
- `LinkedLists.LinkedList.EraseRange`: requires that a range starting at `end()` also ends there; otherwise the source's walk dereferences the null `tail->next`.
- `LinkedLists.LinkedList.Insert`: requires `p` to be a node other than `head`; the source would dereference the null `head->prev`.
- `LinkedLists.LinkedList.Prev` and `LinkedLists.LinkedList.Minus`: require a position other than `head`, from which the source would step to a null node.
- List positions that belong to another list are excluded by the requires clauses (`p in nodes`). The vector's operations use only a position's index, as the source does.
- Sentinel nodes carry the element type's default value, which no contract uses.
