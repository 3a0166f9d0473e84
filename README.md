# lab0-c string queue, modelled in Dafny

This project models the implemented part of `queue.c` from lab0-c: a queue
of strings kept in a circular doubly linked list anchored by a sentinel
node, in the style of the Linux kernel's `list.h`. It covers creating a
queue, inserting at either end, removing at either end with an optional
bounded copy of the removed string into a caller buffer, counting by
traversal, deleting the middle element, and clearing the list in `q_free`.

The list lives in an arena of nodes addressed by index (`ListHead.Arena`):
the arrays `next`, `prev` and `val` hold each node's links and string
payload, and node 0 is the sentinel. A ghost sequence `Nodes` lists the
elements in forward order and `Contents` their strings. `Valid()` holds the
link invariant `Ring.IsRing`. Every linked element is a node the allocator
has handed out. The sentinel's `next` is the first element and its `prev`
the last. Following `next` from the element at position i
leads to position i+1, and following `prev` leads to position i-1. Both
ends lead back to the sentinel. The elements are distinct, and every
stored string is NUL-free.

Modules:
- `Ring` (ring.dfy): the link invariant on plain sequences, and the lemmas
  that splicing a node in at either end or unlinking one keeps it.
- `ListHead` (list_head.dfy): the arena class and the `list.h` primitives
  queue.c calls: `INIT_LIST_HEAD`, `list_add`, `list_add_tail`, `list_del`,
  `list_empty`, `list_first_entry`, `list_last_entry`. The allocator is
  modelled as `Malloc` and `FreeLast`. `Size` and `DeleteMid` follow
  `list_for_each_entry` (start at `next[0]`, step along `next`, stop at the
  sentinel), and `Free` follows `list_for_each_entry_safe`, which reads the
  successor before unlinking the current element. Each of these loops
  carries its own invariant that the current entry is the element at the
  loop's position. `WalkVisitsInOrder` proves that the same traversal,
  written as a ghost function `Walk`, visits `Contents` in order and is
  back at the sentinel after `|Contents|` steps.
- `CString` (cstring.dfy): C strings and the copy-out (`strncpy` followed by
  a terminator).
- `Queue` (queue.dfy): the `q_*` functions. The head is an `Arena?`, so a
  NULL head is `null`, as in C. A NULL `char *s` is `None`.
- `QueueProperties` (properties.dfy): caller-side round trips proved from
  the contracts alone.

Things outside the program become parameters. `mallocOk` is the answer of
`malloc` for the node or head, and `strdupOk` is the answer of `strdup`. A
node allocation also fails when the arena is exhausted. `capacity` is the
number of element nodes the arena can hold.

## Model

| member | source | states |
|---|---|---|
| Queue.New | queue.c:8-15 | returns NULL exactly when the head allocation fails; otherwise a fresh valid queue whose sentinel's next and prev are itself, whose contents are empty, and whose arena has room for exactly capacity elements |
| Queue.Free | queue.c:18-30 | a NULL head is a no-op; otherwise every element is unlinked front to back (the safe iteration reads the successor before unlinking) and the list ends empty and valid; no payload changes, so an element detached earlier keeps its string |
| Queue.InsertHead | queue.c:33-50 | returns true exactly when head and s are non-NULL and both allocations succeed; then the contents are [s] + old; on every false return the queue is unchanged; no payload other than the new node's changes |
| Queue.InsertTail | queue.c:53-70 | returns true exactly when head and s are non-NULL and both allocations succeed; then the contents are old + [s]; on every false return the queue is unchanged; no payload other than the new node's changes |
| Queue.RemoveHead | queue.c:73-87 | NULL for a NULL or empty queue, and then neither the queue nor the buffer changes; otherwise returns the detached first element, whose value is old[0], and the contents become old[1..]; with a buffer, its first bufsize characters are CopyOut(old[0], bufsize) and the rest is untouched |
| Queue.RemoveTail | queue.c:90-104 | mirror of RemoveHead: returns the detached last element, whose value is the last of old, and the contents become old without its last element; NULL and nothing changed for a NULL or empty queue |
| Queue.CopyToBuffer | queue.c:81-84 | strncpy of bufsize-1 characters then a NUL at bufsize-1: sp[..bufsize] is CopyOut(value, bufsize), and the buffer beyond bufsize is unchanged |
| Queue.Size | queue.c:108-119 | 0 for a NULL head; otherwise the counting traversal returns exactly the length of Contents |
| Queue.DeleteMid | queue.c:122-141 | false, with nothing changed, for a NULL or empty queue; otherwise true, and the element at index m = len(old)/2 is removed, so the contents become old[..m] + old[m+1..]; the trailing `return false` is proved unreachable |
| ListHead.Arena.constructor | queue.c:10-13 | a fresh arena whose sentinel is initialised: valid, empty, next[0] == prev[0] == 0 |
| ListHead.Arena.InitListHead | queue.c:13 | INIT_LIST_HEAD makes the sentinel point to itself both ways, which is the valid empty list |
| ListHead.Arena.ListEmpty | queue.c:75 | list_empty is true exactly when the contents are empty |
| ListHead.Arena.FirstEntry | queue.c:78 | list_first_entry is the first element of the forward order, and its value is Contents[0] |
| ListHead.Arena.LastEntry | queue.c:95 | list_last_entry is the last element of the forward order, and its value is the last of Contents |
| ListHead.Arena.ListAdd | queue.c:48 | list_add links an unlinked node right after the sentinel: Nodes become [n] + old, contents [val[n]] + old, and the ring stays valid |
| ListHead.Arena.ListAddTail | queue.c:68 | list_add_tail links an unlinked node right before the sentinel: Nodes become old + [n], contents old + [val[n]], and the ring stays valid |
| ListHead.Arena.ListDel | queue.c:79 | list_del of the element at position k joins its neighbours: Nodes and contents lose exactly position k, and the ring stays valid |
| ListHead.Arena.WalkVisitsInOrder | queue.c:115 | list_for_each_entry from the sentinel reaches, after k steps, the element at position k-1 with value Contents[k-1]; it is back at the sentinel after exactly len(Contents) elements |
| ListHead.Arena.BackPointers | queue.c:79 | in a valid list every node n of the ring has next[prev[n]] == n and prev[next[n]] == n, which is what list_del relies on |
| ListHead.Arena.Malloc | queue.c:38-40 | the node allocation succeeds exactly when the allocator agrees and the arena has room; it returns a node that is not linked |
| ListHead.Arena.FreeLast | queue.c:43-45 | freeing the node just allocated when strdup fails returns the arena to exactly its earlier state |
| ListHead.Arena.SetValue | queue.c:42 | storing the duplicated string in an unlinked node changes no other payload and keeps the list valid |
| Ring.EmptyRing | queue.c:13 | a sentinel pointing to itself both ways is the valid empty ring |
| Ring.AddFront | queue.c:48 | the four pointer writes of list_add turn a valid ring into the valid ring with the new node first |
| Ring.AddBack | queue.c:68 | the four pointer writes of list_add_tail turn a valid ring into the valid ring with the new node last |
| Ring.Widen | queue.c:38 | handing out one more node keeps a valid ring valid |
| Ring.Narrow | queue.c:44 | taking back the last node handed out keeps the ring valid when that node is not linked |
| Ring.Unlink | queue.c:79 | for the element at position k, prev and next are its neighbours in the forward order, and joining them gives the valid ring without position k, which no longer holds that node |
| CString.Strncpy | queue.c:82 | strncpy of n characters from a NUL-free string writes the string's characters padded with NUL to exactly n characters and nothing beyond them |
| CString.CopyOutShape | queue.c:82-83 | the copied-out buffer holds the first min(len(v), bufsize-1) characters of v, and every later position, including bufsize-1, is NUL |
| CString.CopyOutReadsBack | queue.c:82-83 | read back as a C string, the buffer is v cut to bufsize-1 characters, so it is v itself when len(v) < bufsize |
| CString.CStr | queue.c:82-83 | the C string a buffer holds is a NUL-free prefix of it, followed by a NUL when it is shorter than the buffer |
| QueueProperties.HeadRoundTrip | queue.c:33-87 | q_insert_head followed by q_remove_head returns the inserted string and restores the contents |
| QueueProperties.TailRoundTrip | queue.c:53-104 | q_insert_tail followed by q_remove_tail returns the inserted string and restores the contents |
| QueueProperties.BufferRoundTrip | queue.c:53-87 | on an empty queue, q_insert_tail then q_remove_head leaves it empty, and the buffer reads back as the string cut to bufsize-1 characters |
| QueueProperties.NewThenInsert | queue.c:8-70 | q_new followed by a q_insert_tail whose allocations succeed yields a valid queue holding exactly that string |
| QueueProperties.DetachedElementSurvives | queue.c:18-87 | the element q_remove_head hands out keeps its string through a later q_insert_tail and q_free, which empty the queue |
| QueueProperties.FailedInsertsChangeNothing | queue.c:35-46 | insertions that fail on a node allocation, on strdup or on a NULL string leave the contents and links unchanged |

## Left out

- `q_delete_dup`, `q_swap`, `q_reverse`, `q_reverseK`, `q_sort`, `q_ascend`, `q_descend` and `q_merge` (queue.c:144-190) are stubs. Their bodies are empty or return a constant. Modelling deduplication, swapping, reversal, sorting, filtering or merging would invent behaviour the code does not have. queue.c's function names and header comments describe these algorithms, but their bodies are stubs, and the model follows the bodies.
- Memory release: `free` of the payloads and nodes in `q_free`, `free(head)`, and `q_release_element` in `q_delete_mid` (declared in queue.h, which is not part of this model). Unlinked nodes simply stay in the arena, and their payloads stay readable. That is how a removed element is handed to the caller.
- The allocator is a bump allocator over a fixed arena. `FreeLast` reclaims only the node just allocated, which is the only `free` whose effect the list can observe (queue.c:44). `malloc` and `strdup` failures are the parameters `mallocOk` and `strdupOk`, not real nondeterminism.
- `container_of` / `list_entry` pointer arithmetic: an element is identified with its node index.
- `LIST_POISONING`: the model says nothing about the links left in a node after `list_del`.
- `Queue.RemoveHead`, `Queue.RemoveTail`: on a non-empty queue, a non-NULL buffer with `bufsize == 0` is excluded by a precondition. There `bufsize - 1` underflows and the code writes far outside the buffer (queue.c:82, queue.c:99). On a NULL or empty queue any `bufsize` is accepted, since the code returns NULL before touching the buffer.
- `Queue.Size`: the count is an unbounded integer. The C `int` would overflow past INT_MAX elements, which the arena cannot reach in practice.
- C strings are `seq<char>` without NUL. Insertion requires a NUL-free string. strdup's copy up to the first NUL is therefore the whole string.
- The test harness and command interpreter that drive the queue are not part of this model.
