# Intrusive linked list of the Cortex-M scheduler

This project models the intrusive singly linked list of the Cortex-M
Scheduler (libpopcorn). The list is meant to be the substrate of the
kernel's ready queues and wait queues, whose code is not part of this
model. A list is named by a head variable, and the two operations receive
the address of that variable (`LinkedList_t** head`). They walk a
pointer-to-pointer cursor along the links:

- `LinkedList_AddElement` moves the cursor to the link that holds NULL,
  stores the new node there and sets the new node's `next` to NULL.
- `LinkedList_RemoveElement` moves the cursor until the link it points at
  holds the given node. It then stores that node's successor in the link
  and stops. If the node never turns up, the walk reaches NULL without
  writing anything.

How the model is built:

- **Nodes live in an arena.** The nodes are the slots of an array
  `next: array<int>`: `next[p]` is the `next` field of node `p`, and `Null`
  (-1) is the C null pointer. The list operations never allocate a node;
  they only rewrite links of nodes the caller already owns.
- **The head variable is passed in and out.** The operations take the
  head's value and return its new value.
- **The cursor is a `Link`.** A `LinkedList_t**` cursor is modelled as a
  `Link`: either `Head` (the caller's head variable) or `Next(p)` (the
  `next` field of node `p`). `WriteLink` performs `*cursor = value`, and
  its contract says that it writes that one place and no other.
- **The abstraction is a ghost sequence.** A list's abstract value is the
  sequence of nodes met from the head until `Null`, given as a ghost
  sequence tied to the links by `ListSpec.IsList`. That the list is finite
  is the caller's obligation: the list must end in `Null`, and this is the
  `requires IsList(...)` of both operations. That it is acyclic is then
  proved (`ListDistinct`), not assumed. The links determine the sequence
  (`ListUnique`).

Adding a node that is already in the list breaks the caller's
obligation. The C code still runs in that case, and the model states what
it does: the old tail is linked to the node, and the node's link is set to
NULL. The list from the head then ends at that node, and the nodes after it
are cut off. No cycle is formed (`ListAppendPresent`). Removing a null
`element` is allowed and writes nothing, because no node in the list is
NULL.

## Model

| member | source | states |
|---|---|---|
| LinkedList.WriteLink | libpopcorn/src/utils/linked_list.c:26 | `*cursor = value` writes exactly one place: the head variable when the cursor is the head, otherwise the `next` field of one node, and leaves every other link unchanged |
| LinkedList.AddElement | libpopcorn/src/utils/linked_list.c:33-39 | appending `element` (not yet in the list) makes the list the old node sequence followed by `element`; `element`'s link becomes NULL; on an empty list only the head variable and `element`'s link are written; on a non-empty list the head is kept and only the old tail's link and `element`'s link change; if `element` was already in the list, the list ends at `element` |
| LinkedList.RemoveElement | libpopcorn/src/utils/linked_list.c:23-31 | the list becomes the old node sequence with the first occurrence of `element` deleted; an absent (or null) `element` leaves the head and every link unchanged; removing the head node sets the head to the old `element->next` and writes no link; otherwise only the predecessor's link is written, with the old `element->next`, and `element`'s own link is kept |
| ListSpec.IndexOf | libpopcorn/src/utils/linked_list.c:24-25 | the position where the removal walk stops: `element` is there and at no earlier position |
| ListSpec.RemoveFirst | libpopcorn/src/utils/linked_list.c:23-31 | the node sequence after a removal: unchanged when `element` is absent, otherwise one node shorter with exactly one copy of `element` fewer, all other nodes kept |
| ListSpec.RemoveFirstAt | libpopcorn/src/utils/linked_list.c:25-29 | deleting the first occurrence found at position `k` leaves exactly the nodes before `k` followed by the nodes after `k`, in their order |
| ListSpec.RemoveAppended | libpopcorn/src/utils/linked_list.c:23-39 | removing a node right after appending it restores the original node sequence |
| ListSpec.ListDistinct | libpopcorn/src/utils/linked_list.c:24 | a list whose walk reaches NULL visits no node twice, so both loops terminate on an acyclic list |
| ListSpec.ListUnique | libpopcorn/src/utils/linked_list.c:34-36 | the walk from a head is determined by the links: two node sequences that both describe the list from the same head are equal |
| ListSpec.ListAppend | libpopcorn/src/utils/linked_list.c:37-38 | linking the old tail (or the head of an empty list) to a new node and setting its link to NULL yields the old sequence followed by that node |
| ListSpec.ListAppendPresent | libpopcorn/src/utils/linked_list.c:37-38 | doing the same with a node already in the list yields the list cut off right after that node |
| ListSpec.ListUnlink | libpopcorn/src/utils/linked_list.c:26 | storing node `k`'s successor in its predecessor's link (or in the head when `k` is 0) yields the sequence without position `k` |

## Left out

- The declaration of `LinkedList_t` (popcorn/utils/linked_list.h) is not part of this model. A node is taken to be a structure whose only field the list uses is `next`.
- Pointers are arena indices. Nodes that sit in other memory, and aliasing between a node and the head variable, are not modelled.
- The head variable is modelled by value in and value out rather than as a memory location. A write of the head's unchanged value cannot be told apart from no write.
- Mutual exclusion is out of scope. The list does none of its own, and concurrent use is not modelled. How callers protect it (for instance with the critical section declared in libpopcorn/inc/popcorn/primitives/critical_section.h, whose implementation is not shown) is not part of this model.
- Cyclic lists are excluded by the precondition `IsList` of both operations, as a caller obligation. On a cyclic list the walk in `LinkedList_AddElement` never reaches NULL and runs forever. `LinkedList_RemoveElement` runs forever only when `element` cannot be reached from the head. When it reaches `element` it writes once and breaks out of the loop, so it terminates. For example, with a→b→a and head a, removing b stores a in `a->next` and returns, leaving a pointing to itself. `IsList` also excludes these terminating cyclic inputs, so the model does not describe what removal does to them.
- LinkedList.AddElement: a NULL `element` is excluded; the C code dereferences it at line 38 (`element->next = NULL`).
- Startup code (app/src/startup.cpp), the weak assertion handler (libpopcorn/src/platform.cpp), the platform macros (Inc/platform.h), the spin lock (Inc/spinlock.h) and the syscall test (Test/Src/syscall_test.cpp) are left out. They are hardware bring-up or bare declarations, or they test a dispatcher whose implementation is not shown.
- The scheduler, task control blocks, `Blockable` and the tick handling are not part of this model, because their source is not shown.
