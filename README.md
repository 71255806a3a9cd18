# Linked-list containers, modelled and verified in Dafny

This project models the five linked-list classes of the DataStructure
repository and proves what their operations do:

- the singly linked list of `linked_list/singly.py`: a head, a length counter, and a tail found by scanning;
- the doubly linked list of `linked_list/doubly.py`: head and tail pointers, and `prev`/`next` links on every node;
- the circular list of `linked_list/circulate.py`: a ring with no tail field;
- the two earlier drafts at the repository root, `TwoWayLinkedList.py` and `OneWayLinkedList.py`.

Every list is a Dafny `class` with the same fields as the Python object.
Python's `None` is `null`. Its methods rewrite `next`/`prev` links in
place. Each class also carries three ghost fields:

- `Nodes`: the chain, head first;
- `Repr`: the footprint;
- `cursor`: the iteration position.

Each class has a `Valid()` invariant. It says that the links run through
`Nodes` and that no node occurs twice. In the complete lists and in
`TwoWayDraft` it also says that head, tail and length agree with `Nodes`.
In `OneWayDraft` it only bounds the counter by the chain's length, because
that draft lets the counter and the cached tail drift; the separate
predicates `TailCached()` and `Counted()` say when the tail and the
counter agree with `Nodes`. For the ring, the last node links back to the
head instead of ending at null. Every method is proved against a specification on
sequences:

- `Values(Nodes)`, the values met by forward iteration;
- `InsertAfter`, `RemoveAt`, `RemoveFirst`, `InsertAfterFirst` and `Reverse` in `common.dfy`;
- `InsertShortcut` for the doubly list's `insert`.

Python exceptions become results:

- an `Outcome`, `Pass` or `Fail(error)`, for methods that return nothing;
- a `Result`, `Ok(value)` or `Err(error)`, for methods that return a node.

The error is `IndexError`, `ValueError`, `TypeError` or `AttributeError`,
the class the source raises. `StopIteration` becomes `None` of an `Option`.

Files:

- `common.dfy`: module `LinkedSeq`. It holds the error and result types and the sequence functions, with their lemmas.
- `singly.dfy`: `Singly`.
- `doubly.dfy`: `Doubly`. It also holds the lemmas about re-linked `prev`/`next` chains.
- `two_way_draft.dfy`: `TwoWayDraft`. It shares the node class of `Doubly`, which has the same fields.
- `one_way_draft.dfy`: `OneWayDraft`. It shares the node class of `Singly`.
- `circulate.dfy`: `Circulate`.
- `scenarios.dfy`: `Scenarios`. Client walks with concrete values.

Two behaviours of the circular list are easy to miss, and the model
keeps both:

- Its constructor accepts an `iterable` but never reads it (circulate.py:18-20), so it always builds an empty ring.
- Iterating a non-empty ring never stops (circulate.py:44-50): `__next__` follows the links round and raises StopIteration only on an empty ring.

## Model

| member | source | states |
|---|---|---|
| LinkedSeq.FirstIndex | linked_list/singly.py:141-152 | the index returned holds `v` and no earlier index does: the first occurrence that every scan stops at |
| LinkedSeq.InsertAfter | linked_list/singly.py:105-121 | one element longer, the new element right after position k, everything before kept, everything after shifted by one |
| LinkedSeq.RemoveAt | linked_list/singly.py:154-172 | one element shorter, everything before k kept, everything after shifted back by one |
| LinkedSeq.Reverse | linked_list/doubly.py:53-57 | same length, element j is element len-1-j of the input |
| LinkedSeq.RemoveFirstSpec | linked_list/singly.py:154-175 | removing the first occurrence takes exactly one copy of the value out of the multiset and keeps the prefix before it |
| LinkedSeq.InsertAfterFirstSpec | linked_list/singly.py:105-121 | inserting after the first occurrence adds exactly one copy of the new value |
| Singly.OneWayLinkedListNode.constructor | linked_list/singly.py:6-12 | a new node holds the value and links to nothing |
| Singly.OneWayLinkedList.constructor | linked_list/singly.py:35-46 | construction yields a valid list whose values are the iterable in order, and no `_current` attribute exists yet |
| Singly.OneWayLinkedList.MakeupLinkedList | linked_list/singly.py:43-46 | the values become the old values followed by the iterable |
| Singly.OneWayLinkedList.Length | linked_list/singly.py:48-49 | `__len__` is the number of values iteration yields |
| Singly.OneWayLinkedList.GetTailNode | linked_list/singly.py:69-80 | null on an empty list, else the last node, whose link is null |
| Singly.OneWayLinkedList.AppendNode | linked_list/singly.py:82-103 | ValueError and no change for a direction other than 'head' or 'tail'; otherwise the node is the new last (tail) or first (head) node and the list stays valid |
| Singly.OneWayLinkedList.Insert | linked_list/singly.py:105-121 | Pass exactly when `before` occurs, and then the values are InsertAfterFirst of the old values; IndexError and no change otherwise |
| Singly.OneWayLinkedList.LinkAfter | linked_list/singly.py:117-118 | the new node sits right after position k and every other link is kept |
| Singly.OneWayLinkedList.Append | linked_list/singly.py:123-130 | values become old + [value]; the old nodes stay in front |
| Singly.OneWayLinkedList.AppendLeft | linked_list/singly.py:132-139 | values become [value] + old; the old nodes follow |
| Singly.OneWayLinkedList.Find | linked_list/singly.py:141-152 | null exactly when the value is absent, else the node at the first occurrence |
| Singly.OneWayLinkedList.RemoveNode | linked_list/singly.py:154-172 | IndexError and no change when absent; else the node at the first occurrence is returned with its link cleared and the chain loses exactly that node |
| Singly.OneWayLinkedList.Unlink | linked_list/singly.py:163-168 | the predecessor (or head) bypasses the node at position k, which loses its link |
| Singly.OneWayLinkedList.Remove | linked_list/singly.py:174-175 | Pass exactly when the value occurs: the chain loses exactly the node at the first occurrence and the values are RemoveFirst of the old ones; IndexError and no change otherwise |
| Singly.OneWayLinkedList.PopNode | linked_list/singly.py:177-202 | ValueError for an unknown direction, IndexError when empty; 'head' detaches and returns the first node, 'tail' the last one, each with its link cleared |
| Singly.OneWayLinkedList.PopLeft | linked_list/singly.py:204-209 | IndexError exactly when empty; else returns the old head and leaves the rest of the values |
| Singly.OneWayLinkedList.Pop | linked_list/singly.py:211-216 | IndexError exactly when empty; else returns the old last node and leaves the values without their last one |
| Singly.OneWayLinkedList.Clear | linked_list/singly.py:218-231 | empty list, head null, length 0, and every old node's link cleared |
| Singly.OneWayLinkedList.DeepCopy | linked_list/singly.py:242 | a fresh valid list with the same values (the effect of `deepcopy`) |
| Singly.OneWayLinkedList.Extend | linked_list/singly.py:233-249 | TypeError and no change exactly when `other` is missing or empty; else values are self + other, `other` unchanged |
| Singly.OneWayLinkedList.ExtendLeft | linked_list/singly.py:251-267 | TypeError and no change exactly when `other` is missing or empty; else values are other + self, `other` unchanged |
| Singly.OneWayLinkedList.LinkAtTail | linked_list/singly.py:247-249 | the chain becomes the old nodes followed by the copy's nodes |
| Singly.OneWayLinkedList.LinkAtHead | linked_list/singly.py:265-267 | the chain becomes the copy's nodes followed by the old nodes |
| Singly.OneWayLinkedList.ExtendIntoEmptyAsWritten | linked_list/singly.py:243-245 | as written, `extend` or `extendleft` into an empty list (the same branch at singly.py:261-263) sets the head but leaves the length 0, so the list is not valid |
| Singly.OneWayLinkedList.Iter | linked_list/singly.py:57-59 | an iteration starts at position 0 |
| Singly.OneWayLinkedList.Next | linked_list/singly.py:61-67 | yields the value at the cursor and advances; at the end raises StopIteration (`Ok(None)`) and deletes `_current`, so a further call, or one before any `__iter__`, raises AttributeError |
| Doubly.TwoWayLinkedListNode.constructor | linked_list/doubly.py:6-13 | a new node holds the value and links to nothing in either direction |
| Doubly.TwoWayLinkedList.constructor | linked_list/doubly.py:20-27 | construction yields a valid list whose values are the iterable in order |
| Doubly.TwoWayLinkedList.MakeupLinkedList | linked_list/doubly.py:29-32 | the values become the old values followed by the iterable |
| Doubly.TwoWayLinkedList.Length | linked_list/doubly.py:39-40 | `__len__` is the number of values iteration yields |
| Doubly.TwoWayLinkedList.AppendNode | linked_list/doubly.py:59-78 | empty list: the node alone; 'tail': appended behind the tail; other position: put in front of the head; prev/next stay mirrored |
| Doubly.TwoWayLinkedList.AppendLeft | linked_list/doubly.py:80-88 | values become [value] + old |
| Doubly.TwoWayLinkedList.Append | linked_list/doubly.py:90-98 | values become old + [value] |
| Doubly.TwoWayLinkedList.DeepCopy | linked_list/doubly.py:106 | a fresh valid list with the same values (the effect of `copy.deepcopy`) |
| Doubly.TwoWayLinkedList.Extend | linked_list/doubly.py:100-110 | values become self + other; the old nodes stay in front; a distinct `other` is unchanged |
| Doubly.TwoWayLinkedList.LinkAtTail | linked_list/doubly.py:107-110 | the chain becomes the old nodes followed by the copy's, linked both ways at the seam |
| Doubly.TwoWayLinkedList.ExtendLeft | linked_list/doubly.py:112-122 | values become other + self; the old nodes stay at the back; a distinct `other` is unchanged |
| Doubly.TwoWayLinkedList.LinkAtHead | linked_list/doubly.py:119-122 | the chain becomes the copy's nodes followed by the old ones, linked both ways at the seam |
| Doubly.TwoWayLinkedList.Insert | linked_list/doubly.py:124-145 | Pass exactly when `before` occurs, with values InsertShortcut of the old ones and one fresh node added to the old chain (behind the tail on a tail match, else behind the first match); IndexError and no change otherwise |
| Doubly.TwoWayLinkedList.ScanForInsert | linked_list/doubly.py:131-144 | null exactly when `before` is absent; stops at once when the tail holds `before`, else at the first node holding it, which is not the tail |
| Doubly.TwoWayLinkedList.LinkAfter | linked_list/doubly.py:137-142 | a fresh node holding the value sits right after position k, with the four links rewired and every other link kept |
| Doubly.InsertShortcut | linked_list/doubly.py:133-143 | what `insert` does to the values: a tail match appends, any other match inserts after the first occurrence |
| Doubly.InsertShortcutAgrees | linked_list/doubly.py:133-135 | the shortcut agrees with inserting after the first occurrence exactly when the tail is not a match or is the first match |
| Doubly.InsertShortcutMultiset | linked_list/doubly.py:124-145 | either way `insert` adds exactly one copy of `after` |
| Doubly.SpliceLinks | linked_list/doubly.py:139-141 | after the four link writes of `insert` the chain with the new node is linked both ways |
| Doubly.UnspliceLinks | linked_list/doubly.py:171 | after the two link writes that bypass an interior node the shorter chain is linked both ways |
| Doubly.JoinLinks | linked_list/doubly.py:107-108 | two chains joined by one `next` and one `prev` write are one chain linked both ways |
| Doubly.TrimLinks | linked_list/doubly.py:164-169 | a chain cut at its ends is still linked both ways inside |
| Doubly.TwoWayLinkedList.RemoveNode | linked_list/doubly.py:147-172 | IndexError exactly when empty; a one-node list becomes empty whatever the position; else 'right' drops the last node, 'left' the first, any other position the node at k |
| Doubly.TwoWayLinkedList.DropTail | linked_list/doubly.py:164-166 | the chain loses its last node and the predecessor becomes the tail |
| Doubly.TwoWayLinkedList.DropHead | linked_list/doubly.py:167-169 | the chain loses its first node and the successor becomes the head |
| Doubly.TwoWayLinkedList.Bypass | linked_list/doubly.py:170-171 | the chain loses the interior node at k |
| Doubly.TwoWayLinkedList.Pop | linked_list/doubly.py:174-182 | IndexError exactly when empty; else returns the old tail and the values lose their last one |
| Doubly.TwoWayLinkedList.PopLeft | linked_list/doubly.py:184-192 | IndexError exactly when empty; else returns the old head and the values lose their first one |
| Doubly.TwoWayLinkedList.Remove | linked_list/doubly.py:194-217 | Pass exactly when the value occurs, removing the node at its first occurrence; ValueError and no change otherwise |
| Doubly.TwoWayLinkedList.Clear | linked_list/doubly.py:219-230 | empty list with null head and tail and length 0, and every old node's prev and next cleared |
| Doubly.TwoWayLinkedList.Find | linked_list/doubly.py:232-243 | null exactly when the value is absent, else the node at the first occurrence |
| Doubly.TwoWayLinkedList.Iter | linked_list/doubly.py:42-44 | an iteration starts at position 0 |
| Doubly.TwoWayLinkedList.Next | linked_list/doubly.py:46-51 | yields the value at the cursor and advances, or None (StopIteration) at the end |
| Doubly.TwoWayLinkedList.Reversed | linked_list/doubly.py:53-57 | walking `prev` from the tail yields exactly the reverse of the forward values |
| TwoWayDraft.TwoWayLinkedList.constructor | TwoWayLinkedList.py:18-26 | with default arguments, an empty valid list |
| TwoWayDraft.TwoWayLinkedList.Length | TwoWayLinkedList.py:28-29 | `__len__` is the number of values iteration yields |
| TwoWayDraft.TwoWayLinkedList.Iter | TwoWayLinkedList.py:31-33 | an iteration starts at position 0 |
| TwoWayDraft.TwoWayLinkedList.Next | TwoWayLinkedList.py:35-40 | yields the value at the cursor and advances, or None at the end |
| TwoWayDraft.TwoWayLinkedList.Reversed | TwoWayLinkedList.py:42-46 | the backward walk yields the reverse of the forward values |
| TwoWayDraft.TwoWayLinkedList.AppendNode | TwoWayLinkedList.py:48-67 | empty list: the node alone; 'tail': behind the tail; other position: in front of the head |
| TwoWayDraft.TwoWayLinkedList.AddHeadNode | TwoWayLinkedList.py:69-77 | values become [value] + old |
| TwoWayDraft.TwoWayLinkedList.AddTailNode | TwoWayLinkedList.py:79-87 | values become old + [value] |
| TwoWayDraft.TwoWayLinkedList.InsertNode | TwoWayLinkedList.py:89-101 | when `before` occurs the values become InsertShortcut of the old ones and one fresh node is added to the old chain (behind the tail on a tail match, else behind the first match); when it does not, nothing changes and nothing is raised |
| TwoWayDraft.TwoWayLinkedList.ScanForInsert | TwoWayLinkedList.py:90-101 | null exactly when `before` is absent; stops at once on a tail match, else at the first match, which is not the tail |
| TwoWayDraft.TwoWayLinkedList.LinkAfter | TwoWayLinkedList.py:96-99 | a fresh node holding the value sits right after position k |
| TwoWayDraft.TwoWayLinkedList.RemoveEnd | TwoWayLinkedList.py:103-125 | IndexError exactly when empty; a one-node list becomes empty; else 'tail' drops the last node and any other position the first |
| TwoWayDraft.TwoWayLinkedList.DropHead | TwoWayLinkedList.py:122-123 | the chain loses its first node and the successor becomes the head |
| TwoWayDraft.TwoWayLinkedList.DropTail | TwoWayLinkedList.py:119-120 | the chain loses its last node and the predecessor becomes the tail |
| TwoWayDraft.TwoWayLinkedList.Bypass | TwoWayLinkedList.py:165 | the chain loses the interior node at k |
| TwoWayDraft.TwoWayLinkedList.RemoveTailNode | TwoWayLinkedList.py:127-133 | IndexError exactly when empty; else the chain loses its last node, the others staying in order |
| TwoWayDraft.TwoWayLinkedList.RemoveHeadNode | TwoWayLinkedList.py:135-141 | IndexError exactly when empty; else the chain loses its first node, the others staying in order |
| TwoWayDraft.TwoWayLinkedList.RemoveNode | TwoWayLinkedList.py:143-170 | Pass exactly when the value occurs, removing the node at its first occurrence; ValueError and no change otherwise |
| TwoWayDraft.TwoWayLinkedList.ScanFor | TwoWayLinkedList.py:149-168 | null exactly when the value is absent, else the node at its first occurrence |
| TwoWayDraft.TwoWayLinkedList.Unlink | TwoWayLinkedList.py:153-166 | a node without predecessor hands the head on, one without successor the tail, an interior one is bypassed; the chain loses exactly that node |
| TwoWayDraft.TwoWayLinkedList.Clear | TwoWayLinkedList.py:172-183 | empty list with null head and tail and length 0, every old node's links cleared |
| OneWayDraft.OneWayLinkedList.constructor | OneWayLinkedList.py:33-40 | with default arguments, an empty list whose tail and counter agree with the chain |
| OneWayDraft.OneWayLinkedList.Length | OneWayLinkedList.py:42-43 | the counter never exceeds the number of values, and equals it while the counter is kept |
| OneWayDraft.OneWayLinkedList.Iter | OneWayLinkedList.py:50-52 | an iteration starts at position 0 |
| OneWayDraft.OneWayLinkedList.Next | OneWayLinkedList.py:54-59 | yields the value at the cursor and advances, or None at the end |
| OneWayDraft.OneWayLinkedList.InsertNode | OneWayLinkedList.py:61-77 | when `before` occurs one fresh node is spliced into the old chain behind the first match, so the values become InsertAfterFirst of the old ones; else nothing changes; the counter and the cached tail never change |
| OneWayDraft.OneWayLinkedList.LinkAfter | OneWayLinkedList.py:73-74 | the new node sits right after position k; counter and tail untouched |
| OneWayDraft.OneWayLinkedList.AppendNode | OneWayLinkedList.py:79-99 | counter 0: the node replaces the chain as head and tail; else 'tail' appends behind the cached tail and moves it, any other direction prepends; the counter goes up by one |
| OneWayDraft.OneWayLinkedList.TailAppendNode | OneWayLinkedList.py:101-108 | counter 0: a fresh node replaces the chain, whatever the cached tail; otherwise a fresh node goes behind the old chain; either way the counter goes up by one and the tail is cached afterwards |
| OneWayDraft.OneWayLinkedList.HeadAppendNode | OneWayLinkedList.py:110-117 | a fresh node goes in front of the old chain (or replaces the chain when the counter is 0); a counted list stays counted |
| OneWayDraft.OneWayLinkedList.FindNode | OneWayLinkedList.py:119-130 | null exactly when the value is absent, else the node at the first occurrence |
| OneWayDraft.OneWayLinkedList.RemoveNode | OneWayLinkedList.py:132-150 | None and no change exactly when absent; else returns the node at the first occurrence with its link cleared, the chain loses it and the counter drops by one; the tail is never touched |
| OneWayDraft.OneWayLinkedList.Unlink | OneWayLinkedList.py:141-147 | the predecessor (or head) bypasses the node at k, which loses its link; the counter drops by one |
| OneWayDraft.OneWayLinkedList.HeadRemove | OneWayLinkedList.py:152-157 | returns the old head with its link cleared and leaves the rest of the values |
| OneWayDraft.OneWayLinkedList.TailRemove | OneWayLinkedList.py:159-164 | removes from the chain the node at the first occurrence of the cached tail's value and returns it with its link cleared, or None when the value is gone; that is the last node only when the tail is cached and its value occurs nowhere earlier |
| OneWayDraft.OneWayLinkedList.Clear | OneWayLinkedList.py:166-180 | empty list with null head and tail, counter 0, every old node's link cleared |
| Circulate.CirculateLinkedListNode.constructor | linked_list/circulate.py:5-11 | a new node holds the value and links to nothing |
| Circulate.CirculateLinkedList.constructor | linked_list/circulate.py:18-20 | always an empty ring with head null and length 0, whatever the iterable |
| Circulate.CirculateLinkedList.Length | linked_list/circulate.py:22-23 | `__len__` is the number of nodes in the ring |
| Circulate.CirculateLinkedList.GetTailNode | linked_list/circulate.py:30-38 | null on an empty ring, else the last node, which links to head and is the only node that does |
| Circulate.CirculateLinkedList.Iter | linked_list/circulate.py:40-42 | an iteration starts at the head |
| Circulate.CirculateLinkedList.Next | linked_list/circulate.py:44-50 | None on an empty ring; otherwise yields the value at the cursor and moves on, wrapping from the last node to the head |
| Circulate.CirculateLinkedList.AppendValue | linked_list/circulate.py:52-69 | an empty ring becomes a one-node self-loop; else the node goes between tail and head, as the last node for 'tail' (head kept) and as the new head for 'head' |
| Circulate.CirculateLinkedList.LinkBehindTail | linked_list/circulate.py:62-63 | the node is the new last node, linked to head |
| Circulate.CirculateLinkedList.LinkBeforeHead | linked_list/circulate.py:65-68 | the node is the new head and the tail links to it |
| Circulate.CirculateLinkedList.Append | linked_list/circulate.py:91-92 | a fresh node goes behind the old nodes, so values become old + [value]; a non-empty ring keeps its head |
| Circulate.CirculateLinkedList.AppendLeft | linked_list/circulate.py:94-95 | values become [value] + old and the head holds the value |
| Circulate.CirculateLinkedList.PopNode | linked_list/circulate.py:71-89 | ValueError for an unknown position, IndexError when empty; 'head' returns the old head with its link cleared, the next node becomes head and the tail links to it; popping the only node leaves an empty ring |
| Circulate.CirculateLinkedList.PopNodeAsWritten | linked_list/circulate.py:81-82 | as written, popping the only node leaves head on the popped node, whose link is null, with length 0: not a valid ring |
| Circulate.CirculateLinkedList.PopLeft | linked_list/circulate.py:97-98 | IndexError exactly when empty; else returns the old head and the values lose their first one |
| Scenarios.DoublyInsertAtTailMatch | linked_list/doubly.py:133-135 | on [5, 7, 5], `insert(5, 8)` appends, so the backward walk is [8, 5, 7, 5] |
| Scenarios.DoublyInsertInside | linked_list/doubly.py:136-143 | on [1, 2, 3], `insert(1, 9)` gives [1, 9, 2, 3] |
| Scenarios.DoublyInsertMissing | linked_list/doubly.py:145 | `insert` behind a missing value raises IndexError and changes nothing |
| Scenarios.SinglyRemoveThenPopLeft | linked_list/singly.py:154-209 | `remove(2)` on [1, 2, 3, 2] leaves three values, and `popleft` returns 1 |
| Scenarios.OneWayDraftInsertLeavesTailStale | OneWayLinkedList.py:61-77 | after `insert_node` behind the last node `len()` is still 2, and `tail_remove` removes the 2 in the middle, leaving [1, 3] |
| Scenarios.SinglyNextBeforeIter | linked_list/singly.py:35-41 | on a fresh list, `next` before any `iter` raises AttributeError |
| Scenarios.SinglyNextAfterEnd | linked_list/singly.py:61-67 | on [1], `next` yields 1, then raises StopIteration, then AttributeError |
| Scenarios.OneWayDraftAppendAfterDrift | OneWayLinkedList.py:61-117 | after `tail_append_node(1)`, `insert_node(1, 2)` and `head_remove()` the counter is 0 with 2 still chained; `tail_append_node(3)` then replaces the chain, so `len()` is 1 and iteration yields only 3 |
| Scenarios.RingPopLeftThenIterate | linked_list/circulate.py:44-98 | after two appends and an appendleft, `popleft` returns 0 and iteration yields 1, 2, 1, … |

## Left out

- All `__str__` methods. They only format text, some of it with `hex(id(...))` addresses.
- `linked_list/__init__.py`, which only re-exports names. linked_list/__init__.py is not part of this model.
- The demo block at the end of `TwoWayLinkedList.py`, which is console output.
- The list classes alone reach their `__iter__` cursor, so returning `self` from `__iter__` is not modelled.
- `__reversed__` is a generator. It is modelled as a method that returns the whole backward sequence at once.
- `copy.deepcopy` is not modelled as a library. DeepCopy builds fresh nodes holding the same values, which is its effect on these lists.
- Values compare with Dafny equality on a type with `==`. A user-defined Python `__eq__` is not modelled.
- The node constructors take only the value. Their optional `next_node` and `prev_node` arguments are never passed by the lists, which link every new node themselves, so the model starts each node unlinked.
- The nodes' `value` setter is never called by the lists, so a node's value is a constant.
- The `hex(id(a)) == hex(id(b))` test of the ring becomes reference equality.
- Circulate.CirculateLinkedList.GetTailNode: the source loops while its cursor is not None and falls out with None. On a ring that cannot happen, so the model loops on the link test alone.
- Circulate.CirculateLinkedList.AppendValue: only 'tail' and 'head' are positions, because `append` and `appendleft` pass nothing else. For another position the source links the node in as a self-loop when the ring is empty (circulate.py:54-57), and otherwise counts a node it never links in; the precondition excludes both cases.
- Circulate.CirculateLinkedList.PopNode: the 'tail' branch of `_pop` is an unfinished `...` that fails on an unbound name, so 'tail' is excluded by a precondition.
- Circulate.CirculateLinkedList.PopNodeAsWritten: covers only the one-node ring, the input where it differs from PopNode.
- TwoWayDraft.TwoWayLinkedList.constructor: only the default arguments are modelled. Passing nodes sets head and tail with a length of 0, which no valid doubly list has, since its counter must equal the chain's length.
- OneWayDraft.OneWayLinkedList.constructor: only the default arguments are modelled. The caller's nodes may form any structure: shared with another list, cyclic, or with a tail that is not on the head's chain. The ghost chain cannot be built for that without a walk the constructor does not make.
- Doubly.TwoWayLinkedList.Extend and Doubly.TwoWayLinkedList.ExtendLeft require both lists to be non-empty, because the source dereferences both ends.
- Singly.OneWayLinkedList.Pop requires a list that does not have exactly one node, because the source then dereferences a missing predecessor (singly.py:196) and raises AttributeError.
- Singly.OneWayLinkedList.PopNode requires, for the direction 'tail', a list that does not have exactly one node, for the same reason (singly.py:196).
- TwoWayDraft.TwoWayLinkedList.RemoveNode requires the list not to be exactly `[value]`, because the source then dereferences a missing successor.
- Doubly.TwoWayLinkedList.Next, OneWayDraft.OneWayLinkedList.Next and Circulate.CirculateLinkedList.Next require an iteration started by Iter. Their constructors do not create the cursor attribute, so the source raises AttributeError when `__next__` runs before `__iter__`; that call is not modelled.
- TwoWayDraft.TwoWayLinkedList.Next also requires an iteration started by Iter. Its constructor sets the cursor to None (TwoWayLinkedList.py:26), so a `__next__` before `__iter__` would raise StopIteration; that call is not modelled.
- OneWayDraft.OneWayLinkedList.AppendNode requires the tail to be cached and the chain non-empty when appending at the 'tail' with a non-zero counter. A stale tail (left by `insert_node` or `remove_node`) would be written through anywhere.
- OneWayDraft.OneWayLinkedList.TailAppendNode requires, when the counter is non-zero, the tail to be cached and the chain non-empty. With a stale tail the source writes the new node through it (OneWayLinkedList.py:93-94): after `tail_append_node(1)`, `tail_append_node(2)`, `insert_node(2, 3)` and `tail_append_node(4)` the 3 is lost, since the cached tail is still the 2. That call is not modelled.
- OneWayDraft.OneWayLinkedList.HeadRemove requires a non-empty list, and OneWayDraft.OneWayLinkedList.TailRemove a set tail, because the source dereferences them.
- OneWayDraft.OneWayLinkedList.Length returns the counter even when a removal after `insert_node` has made it negative. Python's `len()` would then raise ValueError.
- The removed nodes of the doubly lists keep their own `prev`/`next` links, as in the source. No contract speaks about those stale links.
- Iteration interleaved with mutation is not modelled. Every mutator may change anything in `Repr`, which includes the list object and its cursor, and none promises to keep `Iterating()`. So a `__next__` after an `append` or `remove` in the middle of an iteration cannot be called in the model.
- Nothing is concurrent, and Python integers are unbounded like Dafny's `int`, so no wrap-around is modelled.

## Findings

| source | as written | input that shows it | evidently intended | confidence | as-written member | corrected member |
|---|---|---|---|---|---|---|
| linked_list/singly.py:243-245 | `extend` into an empty list sets the head from the copy and returns without setting the length | `extend(OneWayLinkedList([1, 2]))` on an empty list: iteration yields 1, 2 but `len()` is 0 | the length becomes the copy's length | high, not executed | Singly.OneWayLinkedList.ExtendIntoEmptyAsWritten | Singly.OneWayLinkedList.Extend |
| linked_list/singly.py:261-263 | `extendleft` into an empty list sets the head from the copy and returns without setting the length | `extendleft(OneWayLinkedList([1, 2]))` on an empty list: iteration yields 1, 2 but `len()` is 0 | the length becomes the copy's length | high, not executed | Singly.OneWayLinkedList.ExtendIntoEmptyAsWritten | Singly.OneWayLinkedList.ExtendLeft |
| linked_list/circulate.py:81-82 | `popleft` stores the popped head's successor back into `head`; on a one-node ring that successor is the node itself | `append(1)` then `popleft()`: head still refers to the popped node, its link is None and the length is 0; a later `append` dereferences the missing tail | popping the last node leaves an empty ring with head None | high, not executed | Circulate.CirculateLinkedList.PopNodeAsWritten | Circulate.CirculateLinkedList.PopNode |
