# Doubly-linked list with a bidirectional iterator

This project models a generic doubly-linked list container written in C
(`linkedlist.c`, with its interface documented in `list.h`) and proves its
contracts against an abstract sequence of elements.

- `list_spec.dfy` (module `ListSpec`) holds the value-level vocabulary:
  `Option` for a pointer that may be `NULL`, the errno codes `ENOENT` (2)
  and `EINVAL` (22) as defined on Linux, and the sequence functions that say
  what removal (`IndexOf`, `RemoveFirst`) and membership (`Matches`) mean.
- `linked_list.dfy` (module `LinkedList`) holds the nodes and the list as
  classes whose fields are updated in place. A `List` has the real fields
  `head`, `tail`, `numberOfElements` and `compare`, plus a ghost view:
  `Nodes` (the chain from head to tail), `Contents` (their elements) and
  `Repr` (the nodes the list owns). `Valid()` is the shape invariant. The C
  functions that take a `list_t *` are module-level methods taking a
  `List?<T>`, so the `NULL`-list paths are part of their contracts. A
  `NULL` element argument is `None`.
- `list_iterator.dfy` (module `ListIterator`) holds the iterator: a class
  with the cursor pair `next`/`previous` and a ghost `Position`, a pair of
  chain indices (`Cursor`). The functions `Advance`, `Retreat`, `Forward`
  and `Backward` specify stepping. The methods are proved against them.

Where the model departs from the code:

- `list_create` never stores its comparator (`linkedlist.c:40-48`), so
  `list_contains` would call an uninitialised function pointer. The model
  stores the comparator given to the constructor in the list's `compare`
  field, and `Contains` uses it.
- `list_remove` compares element pointers, not the comparator. The model
  keeps this: removal compares with `==` on the element type.
- The no-op statement at `linkedlist.c:115` is recorded under Findings.
  `Remove`, which the rest of the model uses, clears the new head's
  `previous` link.

## Model

| member | source | states |
|---|---|---|
| `ListSpec.IndexOf` | linkedlist.c:118-120 | the scan's stopping point: the first position holding the element, with no earlier position holding it |
| `ListSpec.RemoveFirst` | linkedlist.c:98-135 | removal shortens the contents by one when the element occurs and leaves them unchanged when it does not |
| `ListSpec.RemoveFirstSplices` | linkedlist.c:117-133 | removal splices out exactly the first occurrence and keeps the order of all other elements |
| `ListSpec.RemoveFirstMultiset` | linkedlist.c:98-135 | removal takes out one copy of the element and nothing else |
| `ListSpec.RemoveAppendedOnce` | list.h:50-58 | an element appended to a list that did not hold it is removed by the next removal, after which it is absent, so a second removal returns `ENOENT` |
| `ListSpec.InsertedIsMatched` | linkedlist.c:177-186 | with a comparator that finds an element equal to itself, an appended or prepended element is found |
| `ListSpec.NoMatchAfterRemove` | linkedlist.c:177-186 | when the comparator agrees with identity and the element occurred once, nothing matches it after a successful removal |
| `LinkedList.Node.constructor` | linkedlist.c:25-33 | a new node holds the element and is linked to nothing |
| `LinkedList.List.constructor` | linkedlist.c:40-48 | a new list is empty, satisfies the shape invariant, and keeps the comparator |
| `LinkedList.FollowNextAt` | linkedlist.c:13-16 | in a valid list, `k` `next` steps from node `i` reach node `i + k`, or `NULL` past the tail |
| `LinkedList.FollowPreviousAt` | linkedlist.c:13-16 | in a valid list, `k` `previous` steps from node `i` reach node `i - k`, or `NULL` past the head |
| `LinkedList.ChainIsConsistent` | linkedlist.c:18-22 | `head` is `NULL` iff `tail` is `NULL` iff the count is 0; `next` links lead from head to tail in `count - 1` steps and to `NULL` in `count`; `previous` links mirror this from tail |
| `LinkedList.DeleteNode` | linkedlist.c:35-38 | releasing a node decrements the count |
| `LinkedList.Destroy` | linkedlist.c:50-54 | pops until the list is empty; a `NULL` list is ignored |
| `LinkedList.Append` | linkedlist.c:56-75 | `EINVAL` and no change for a `NULL` list or element; otherwise returns 0, contents become `old + [e]`, the count grows by one, earlier nodes are kept, and the shape invariant holds |
| `LinkedList.Prepend` | linkedlist.c:77-96 | `EINVAL` and no change for a `NULL` list or element; otherwise returns 0, contents become `[e] + old`, the count grows by one, and the shape invariant holds |
| `LinkedList.Remove` | linkedlist.c:98-135 | `EINVAL` for a `NULL` list or element; `ENOENT` and no change when no element is identical; otherwise returns 0, removes the first identical element's node, keeps the others in order, and decrements the count |
| `LinkedList.RemoveAsWritten` | linkedlist.c:108-116 | as the source is written, removing the head of a list of two or more elements leaves the new head's `previous` pointing at the released node, so the shape invariant fails; removing the only element empties the list with `head` and `tail` `NULL`; every other path behaves as `Remove` |
| `LinkedList.DanglingHeadScenario` | linkedlist.c:115 | removing the head of [1, 2] as written leaves one element whose `previous` link is not `NULL` |
| `LinkedList.RemoveHead` | linkedlist.c:108-116 | the head case: the second node becomes the head with `previous` cleared, `tail` becomes `NULL` when the list empties |
| `LinkedList.RemoveAfterHead` | linkedlist.c:117-123 | the scan finds the first node holding the element, or returns `ENOENT` with the list unchanged |
| `LinkedList.Unlink` | linkedlist.c:125-133 | splicing out an interior or tail node joins its neighbours, moves `tail` back when it was the tail, and keeps the shape invariant |
| `LinkedList.Shift` | linkedlist.c:137-153 | `NULL` and no change on a `NULL` or empty list; otherwise returns the first element, leaves the rest, decrements the count, and keeps the invariant |
| `LinkedList.Pop` | linkedlist.c:155-171 | `NULL` and no change on a `NULL` or empty list; otherwise returns the last element, leaves the rest, decrements the count, and keeps the invariant |
| `LinkedList.Size` | linkedlist.c:173-175 | the number of elements in the list, or `-EINVAL` for a `NULL` list |
| `LinkedList.Contains` | linkedlist.c:177-186 | 1 iff some element `y` has `compare(element, y) == 0`, else 0; the list is unchanged |
| `LinkedList.PopShiftScenario` | list.h:60-75 | on [1, 2, 3] built by appends, pop returns 3, shift returns 1, the size is 1 and the next shift returns 2 |
| `ListIterator.Advance` | linkedlist.c:222-232 | a `next` step keeps both cursors on the chain or `NULL` |
| `ListIterator.Retreat` | linkedlist.c:234-244 | a `previous` step keeps both cursors on the chain or `NULL` |
| `ListIterator.NextThenPrevious` | linkedlist.c:222-244 | `previous` right after a successful `next` returns the same element and restores `next`, with `previous` just before it (the old `previous` is not restored when the two cursors were not adjacent, as after a reset) |
| `ListIterator.PreviousThenNext` | linkedlist.c:222-244 | `next` right after a successful `previous` returns the same element and restores `previous`, with `next` just after it (the old `next` is not restored when the two cursors were not adjacent) |
| `ListIterator.ForwardIsSuffix` | linkedlist.c:222-232 | repeated `next` steps return the elements from the cursor to the tail, in order |
| `ListIterator.BackwardIsReversedPrefix` | linkedlist.c:234-244 | repeated `previous` steps return the elements from the cursor back to the head, in reverse order |
| `ListIterator.AdvanceTimesMoves` | linkedlist.c:222-232 | `k` successful `next` steps move `next` forward by `k`, with `previous` just behind it |
| `ListIterator.StartTraversals` | linkedlist.c:247-254 | from a reset iterator, `next` steps yield the whole list head to tail, and `previous` steps yield it tail to head |
| `ListIterator.ReplayAfterExhaustion` | list.h:121-151 | after `size` `next` steps the iterator is at the end, and `previous` steps then replay the list tail to head |
| `ListIterator.Iterator.constructor` | linkedlist.c:205-206 | a new iterator refers to its list and stands at the reset position |
| `ListIterator.Create` | linkedlist.c:195-208 | `NULL` for a `NULL` list; otherwise a new iterator over the list, with `next` at the head and `previous` at the tail |
| `ListIterator.HasNext` | linkedlist.c:214-216 | 1 iff a `next` step would return an element, 0 at the end |
| `ListIterator.HasPrevious` | linkedlist.c:218-220 | 1 iff a `previous` step would return an element, 0 at the start |
| `ListIterator.Next` | linkedlist.c:222-232 | for a `NULL` iterator or at the end, returns `NULL` and stays put; otherwise returns the element at `next`, and `previous` becomes the old `next` and `next` its successor |
| `ListIterator.Previous` | linkedlist.c:234-244 | for a `NULL` iterator or at the start, returns `NULL` and stays put; otherwise returns the element at `previous`, and `next` becomes the old `previous` and `previous` its predecessor |
| `ListIterator.Reset` | linkedlist.c:247-254 | `EINVAL` for a `NULL` iterator; otherwise returns 0 with `next` at the head and `previous` at the tail |

## Left out

- Allocation failure: node, list and iterator allocation always succeed here, so the `errno` returns of `list_append` and `list_prepend` and the `NULL` returns of `list_create` and `list_iterator_create` on a failed `malloc` are not modelled.
- Memory release: `free` in `list_deletenode`, `list_destroy` and `list_iterator_destroy` is not modelled. `list_iterator_destroy` does nothing else, so it has no counterpart.
- `list_sort` is declared in `list.h` but has no implementation, so there is nothing to model.
- The iterator allocation size at `linkedlist.c:200` is a memory-layout defect with no effect on list behaviour here.
- Destroy: does not model the release of the list record itself, only the pops that empty it.
- Contains: requires a non-`NULL` list, because the source dereferences it unconditionally. The element is a value of the element type: a `NULL` element would be handed to the comparator, which is outside the model.
- HasNext: requires `Valid()` of the iterator: it is non-`NULL` (the source dereferences it unconditionally), its list satisfies the shape invariant and its cursor pair lies on the list's current chain. The source reads only the iterator's own `next` field; the extra requirement lets the result be stated in terms of the list's contents.
- HasPrevious: requires `Valid()` of the iterator, as `HasNext` does; the source reads only the iterator's own `previous` field.
- Next: requires an iterator whose cursor pair lies on the list's current chain. An iterator used after the list changed under it may read a released node in the source; the model does not describe that use-after-free. Resetting re-establishes validity.
- Previous: the same requirement as `Next`.
- RemoveAsWritten: on a head match in a list of two or more elements it states the dangling link and the new contents, but not the rest of the broken chain; on a one-element list it states the emptied list; on every path without a head match it runs `Remove` and states `Remove`'s outcome except for the spliced node sequence.
- `numberOfElements` is a C `int`; its overflow after 2^31 - 1 insertions is not modelled.

## Findings

| source | as written | input that shows it | evidently intended | confidence | as-written member | corrected member |
|---|---|---|---|---|---|---|
| linkedlist.c:115 | `list->head->previous;` is an expression with no effect, so after the head is removed the new head's `previous` still points at the released node | a list holding `a, b`, then `list_remove(list, a)`: `b` is the head and its `previous` is the released node of `a`. A later `list_pop` then takes the branch at line 164 and writes through that pointer, and leaves `head` dangling | `list->head->previous = NULL;` | not executed | `LinkedList.RemoveAsWritten` | `LinkedList.Remove` |
