# Singly linked list, modelled and verified in Dafny

This project models the singly linked list of `Linked_list.py`. A `Node`
holds a value (`data`) and a reference to the following node (`next`). A
`LinkedList` owns the first node through `head`. The list offers five
operations:

- insertion at the front;
- insertion at the end;
- insertion right after the first node holding a given value;
- deletion of the first node holding a given value;
- a membership search.

Insertion at the front only rewires `head`. Every other operation walks the
chain from `head` with the same `while` loop as `Linked_list.py`, and the
insertions and the deletion rewire `next` pointers in place.

The model has three modules:

- `ListSpec` (`list_spec.dfy`) gives reference definitions on plain sequences.
  `FirstIndex` finds the position of a value's first occurrence.
  `InsertAfterFirst` and `RemoveFirst` say what insertion after a value and
  deletion of a value do to the contents. Lemmas connect these recursive
  definitions to the position-based splices that the methods perform. Other
  lemmas cover the cases where the value is absent, multisets (exactly one
  element gained or lost) and round trips between insertion and deletion.
- `LinkedLists` (`linked_list.dfy`) holds the classes `Node` and `LinkedList`.
  A list has two ghost fields, which are its abstract view:
  - `Nodes` is the sequence of node objects from `head` to the last node;
  - `Contents` is their values, in the same order.

  `Valid()` is the list's invariant. It says that `head` is the first of
  `Nodes`, that each node's `next` is the node after it and the last one's is
  null, that no node occurs twice (so the chain is finite and acyclic), and
  that the i-th node holds the i-th value. Every method requires `Valid()` and
  restores it. Each method states its new `Contents` and `Nodes` in terms of
  the old ones and of the `ListSpec` definitions. Each loop's termination
  measure is the number of nodes from `current` to the end of the chain.
- `LinkedListExample` (`example_run.dfy`) replays the example session at the
  bottom of the script. It proves the contents after the insertions, the
  contents after the deletion, and the two search results.

The two pointer updates of `insert_after` (lines 43-44) are the method
`LinkAfter`; the new node (line 42) is created in `InsertAfter` itself. The
pointer update of `delete_node` (line 67) is the method `Unlink`. Splitting
them out keeps each proof about the heap small. The statements are the same
as in `Linked_list.py`, in the same order.

## Model

| member | source | states |
|---|---|---|
| `LinkedLists.Node.constructor` | Linked_list.py:7-9 | a new node holds the given value and has no successor |
| `LinkedLists.LinkedList.constructor` | Linked_list.py:14-15 | a new list is valid and empty: `head` is null, no nodes, contents `[]` |
| `LinkedLists.LinkedList.InsertAtBeginning` | Linked_list.py:18-21 | valid afterwards; contents become `[data] + old contents`; the fresh node is the new `head` and the old chain follows it; only the list object and the new node are written, so every existing node stays untouched |
| `LinkedLists.LinkedList.InsertAtEnd` | Linked_list.py:24-32 | valid afterwards; contents become `old contents + [data]`; the old chain is kept as a prefix and one fresh node is behind it; on an empty list the new node becomes `head`, otherwise `head` is unchanged |
| `LinkedLists.LinkedList.InsertAfter` | Linked_list.py:35-44 | valid afterwards; contents become `InsertAfterFirst(old contents, target, data)`; `head` is unchanged; if the target occurs, one fresh node sits right behind the node of its first occurrence and every other node keeps its place; if the target does not occur, the chain is exactly as before |
| `LinkedLists.LinkedList.LinkAfter` | Linked_list.py:43-44 | splicing a node that is not yet in the list behind the i-th node keeps the list valid and puts that node, and its value, at position i+1, with everything else in order |
| `LinkedLists.LinkedList.DeleteNode` | Linked_list.py:47-68 | valid afterwards; contents become `RemoveFirst(old contents, key)`; when the head holds the key, `head` advances to the old `head.next`; otherwise the node of the key's first occurrence is unlinked and the rest keeps its order; when the key is absent, the chain is exactly as before; the unlinked node keeps its value and its `next`, since only `head` or the previous node's `next` is written |
| `LinkedLists.LinkedList.Unlink` | Linked_list.py:67 | linking the node before position i to the successor of node i keeps the list valid and removes exactly position i from both the chain and the contents |
| `LinkedLists.LinkedList.Search` | Linked_list.py:71-77 | returns true exactly when the key is in the contents; it modifies nothing |
| `ListSpec.FirstIndex` | Linked_list.py:36-38 | the position where a walk from the front stops: it holds the value, and no earlier position does |
| `ListSpec.InsertAfterFirst` | Linked_list.py:35-44 | the contents grow by one element exactly when the target occurs |
| `ListSpec.InsertAfterFirstAt` | Linked_list.py:42-44 | when position i is the first occurrence of the target, the result is the old sequence with the new value placed at i+1 |
| `ListSpec.InsertAfterFirstAbsent` | Linked_list.py:39-41 | inserting after a value that does not occur leaves the sequence unchanged |
| `ListSpec.InsertAfterFirstMultiset` | Linked_list.py:35-44 | exactly one copy of the new value is added when the target occurs, and nothing otherwise |
| `ListSpec.RemoveFirst` | Linked_list.py:47-68 | the contents shrink by one element exactly when the key occurs |
| `ListSpec.RemoveFirstAt` | Linked_list.py:58-67 | when position i is the first occurrence of the key, exactly position i is cut out and the rest keeps its order |
| `ListSpec.RemoveFirstAbsent` | Linked_list.py:62-65 | deleting a value that does not occur leaves the sequence unchanged |
| `ListSpec.RemoveFirstMultiset` | Linked_list.py:47-68 | deletion removes one copy of the key (none if absent) and keeps every other value |
| `ListSpec.RemoveFirstUndoesInsertAfterFirst` | Linked_list.py:35-68 | inserting a new value after an existing target and then deleting that value gives back the original sequence |
| `ListSpec.RemoveFirstUndoesAppend` | Linked_list.py:24-68 | appending a new value and then deleting it gives back the original sequence |
| `LinkedListExample.ExampleAppends` | Linked_list.py:95-100 | a new list after inserting 10, 20 and 30 at the end holds `[10, 20, 30]` |
| `LinkedListExample.ExampleInserts` | Linked_list.py:101-102 | then inserting 5 at the beginning and 25 after 20 gives `[5, 10, 20, 25, 30]` |
| `LinkedListExample.ExampleDelete` | Linked_list.py:108 | then deleting 10 gives `[5, 20, 25, 30]` |
| `LinkedListExample.ExampleRun` | Linked_list.py:113-114 | searching the final list finds 25 and does not find 100 |

## Left out

- `display` (Linked_list.py:80-88) only prints the list to the console, so it is not modelled.
- The "not found" messages of `insert_after` and `delete_node` (lines 40 and 64) are console output. The model keeps only their effect: the list is left unchanged.
- The assignments `current = None` (lines 53 and 68) only drop a local reference. Memory reclamation is not modelled, so unlinked nodes simply stay in the heap.
- The `__main__` block (lines 94-114) prints its results. Only its sequence of operations and the values it would print are modelled, as `LinkedListExample`.
- The values are compared with Dafny's built-in equality on a type parameter `T(==)`. Python's `==` and `!=` can be redefined per class (`__eq__`), and such user-defined comparisons are not modelled.
- Python's truth tests on nodes (`if not self.head`, `while current`) are modelled as comparisons with null. A `Node` instance is always truthy, because the class defines neither `__bool__` nor `__len__`.
- The classes' fields are public in Python, so other code could rewire nodes behind the list's back. The model assumes that only the list's own methods change its nodes.
- `LinkedLists.LinkedList.InsertAtEnd`, `InsertAfter` and `DeleteNode` declare that they may modify every node of the list. Their postconditions still pin down every node's `data` and `next`: the new `Nodes` sequence is given in terms of the old one, and `Valid()` fixes the fields of each node in it. The one node that leaves the chain, the one `DeleteNode` unlinks, is covered by a separate postcondition saying that it is unchanged.
- Prim's algorithm (`Prim's_Algorithm.py`) is a separate program in the same repository and is not part of this model.
