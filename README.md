# A verified model of the queue.c string queue

queue.c implements a queue of C strings as a singly linked list. A
`queue_t` record holds `head`, `tail` and a cached `size`; every
`list_ele_t` node holds a private, heap-allocated copy of its string and a
`next` link. The operations are:

- create (`q_new`) and free (`q_free`);
- insert at the head or the tail, copying the string;
- remove at the head, optionally copying the string out into a
  caller-supplied buffer of `bufsize` bytes;
- report the size;
- reverse the list in place, by relinking nodes;
- sort the list in place with a recursive merge sort, fast/slow pointer
  split, ordering by `strcmp`.

The model is imperative Dafny:

- `Chains.Node` and `LinkedQueue.Queue` are classes with the C fields.
- A ghost sequence lists the nodes reachable from `head`. `Chains.Chain`
  says that following `next` from a node visits exactly that sequence
  without repetition and ends at null.
- Every C function is a method that updates `next`, `head` and `tail` in
  place (`q_size` is a function).
- Reversal and sorting are proved to relink the nodes they were given:
  no node is allocated or dropped.
- Sorting is proved to give an ascending permutation of the strings. The
  ordering is `strcmp(a, b) < 0`, modelled as `StringOrder.Lt`.
- Every entry point accepts a null queue, as the C code does.
- Allocation failure is an input of the method (the two `malloc` results).

The three files are:

- `string_order.dfy`: the string order and sortedness.
- `chain.dfy`: nodes and chains, and the merge specification `MergedNodes`
  with its lemmas.
- `queue.dfy`: the queue and its operations.

## Model

| member | source | states |
|---|---|---|
| LinkedQueue.Queue.constructor | queue.c:16-20 | a new record has null `head` and `tail`, size 0, no nodes, and satisfies the queue invariant |
| LinkedQueue.New | queue.c:12-22 | null exactly when allocation fails; otherwise a fresh, valid, empty queue |
| LinkedQueue.Size | queue.c:167-172 | 0 for a null queue; otherwise the number of nodes in the chain from `head`, which is the number of stored strings |
| LinkedQueue.Free | queue.c:25-42 | walks the chain from `head`, releasing every node exactly once, in list order, and ends with `head` null; a null queue releases nothing |
| LinkedQueue.InsertHead | queue.c:51-85 | fails exactly when the queue is null or either allocation fails, and then changes nothing; otherwise a fresh node holding exactly `s` in a buffer of `strlen(s) + 1` bytes becomes the first node; the contents become `[s] + old contents`; `tail` is set only if the queue was empty; the invariant is kept |
| LinkedQueue.InsertTail | queue.c:94-126 | fails under the same conditions as `InsertHead` and then changes nothing; otherwise a fresh node holding `s` with a null `next` becomes `tail`; the contents become `old contents + [s]`; `head` changes only if the queue was empty; the invariant is kept |
| LinkedQueue.LinkTail | queue.c:115-122 | linking a node from outside the chain after its last node, and nulling the new node's `next`, gives the chain extended by that node |
| LinkedQueue.TailCopyBytesAsWritten | queue.c:105 | as written, the buffer `q_insert_tail` allocates holds the copy and its terminator exactly when the string has at most `sizeof(size_t)` = 8 characters |
| LinkedQueue.TailCopyOverrun | queue.c:105-113 | as written, the copy of the 9-character string `"abcdefghi"` that `q_insert_tail` writes overruns its buffer |
| LinkedQueue.CopyBytes | queue.c:63 | `strlen(s) + 1` bytes is the least buffer that holds the copy and its terminator |
| LinkedQueue.CopyLength | queue.c:149-154 | the number of characters copied out is below `bufsize` and at most the string's length: the whole string when it fits with its terminator, otherwise `bufsize - 1` |
| LinkedQueue.RemoveHead | queue.c:136-161 | fails exactly when the queue is null or empty, and then changes nothing; otherwise the first node is unlinked, the contents lose their first string, and the size drops by one; the queue stays valid, with `tail` cleared when the queue becomes empty; if `sp` is given, its first `bufsize` bytes hold the removed string cut to `CopyLength` characters followed by terminators, and its other bytes are unchanged |
| LinkedQueue.RemoveHeadAsWritten | queue.c:141-146 | as written, unlinking the head never touches `tail`; removing the last node leaves a null `head` with `tail` on the released node, which breaks the invariant |
| LinkedQueue.ReverseFrom | queue.c:198-206 | `reverse(cur, &head)` returns `cur`, reports the chain's last node as the new head, turns every later node's link back to its predecessor, and leaves the first node's link as it was |
| LinkedQueue.RelinkReversed | queue.c:191-195 | on two or more nodes, the same nodes form the reversed chain from the old last node; the old first node ends it with a null `next` |
| LinkedQueue.Reverse | queue.c:181-196 | the queue stays valid with the same size; its nodes and its strings come out in reverse order; no node is allocated; on two or more nodes `head` and `tail` swap; on fewer nothing changes |
| LinkedQueue.ReverseLong | queue.c:188-195 | the two-or-more-node case of `q_reverse`: the nodes and strings reversed, `head` and `tail` swapped, and the new tail has a null `next` |
| LinkedQueue.SplitPoint | queue.c:236-243 | the fast/slow walk stops on node number ceil(n/2) (counting from 1): the front half gets ceil(n/2) nodes and the back half floor(n/2), both non-empty |
| LinkedQueue.Split | queue.c:246-247 | cutting after the m-th node leaves two chains: the first m nodes from `head`, and the rest from the returned node |
| LinkedQueue.Halve | queue.c:236-248 | the walk plus the cut splits the chain into a front chain (from the old head, ceil(n/2) nodes) and a back chain; together they hold exactly the old nodes, and they share none |
| LinkedQueue.Attach | queue.c:277-279 | `cur->next = tmp` extends the linked run taken so far and leaves both remaining input chains intact |
| LinkedQueue.MergeStep | queue.c:267-281 | one iteration of the merge loop keeps the merge invariant `MergeInv` and takes exactly one node |
| LinkedQueue.Merge | queue.c:261-294 | merging two disjoint, non-empty chains relinks their nodes into the single chain `MergedNodes(xs, ys)`: the left head is taken when its string is strictly smaller, otherwise the right one, and the leftover chain is appended |
| LinkedQueue.MergeRuns | queue.c:255 | merging two ascending rearrangements of the halves gives one chain holding exactly the nodes and strings of both halves, in ascending order |
| LinkedQueue.MergeSort | queue.c:228-258 | the result is a chain of exactly the input nodes (a permutation, no allocation), holding the same multiset of strings, in ascending order |
| LinkedQueue.SortHalves | queue.c:250-251 | given a front and a back chain that share no node, sorting the front half and then the back half and merging them gives one chain holding exactly the nodes and strings of both halves, in ascending order |
| LinkedQueue.SortBack | queue.c:252-255 | given an ascending rearrangement `fs` of the front half that shares no node with the back chain, sorting the back half and merging gives one chain holding exactly the nodes and strings of both halves, in ascending order |
| LinkedQueue.LastNode | queue.c:221-225 | the walk from the head of a non-empty chain stops on its last node, whose `next` is null |
| LinkedQueue.Install | queue.c:220-225 | pointing `head` at the sorted chain and `tail` at its last node restores the queue invariant with the size unchanged |
| LinkedQueue.Sort | queue.c:213-226 | the queue stays valid with the same size and exactly the same nodes; its strings are ascending and a permutation of the old ones; a queue that was already sorted keeps its order; a null or empty queue is untouched |
| LinkedQueue.CStringsPermuted | queue.c:220 | relinking nodes in another order keeps every stored string free of terminators |
| LinkedQueue.CStringsReversal | queue.c:193 | reversing the chain keeps every stored string free of terminators |
| StringOrder.Lt | queue.c:268 | `strcmp(a, b) < 0` holds exactly when `a` is a proper prefix of `b`, or when at the first position past their longest common prefix (`CommonPrefix`) both have a character and `a`'s is the smaller |
| StringOrder.LtIrreflexive | queue.c:268 | no string is `strcmp`-smaller than itself |
| StringOrder.LtAsymmetric | queue.c:268 | `strcmp(a, b) < 0` and `strcmp(b, a) < 0` never both hold |
| StringOrder.LtTransitive | queue.c:268 | the `strcmp` order is transitive |
| StringOrder.LtTotal | queue.c:268-274 | two different strings are ordered one way or the other, so the merge's `else` branch takes a right-hand string that is no greater |
| StringOrder.SortedPairwise | queue.c:213-226 | in an ascending sequence every earlier string is no greater than every later one |
| StringOrder.SortedUnique | queue.c:208-226 | two ascending orderings of the same strings are equal, so sorting a sorted queue keeps its order |
| Chains.Node.constructor | queue.c:59-73 | a new node holds exactly the copied string, in a buffer of the given capacity, which must hold the string and its terminator, and has a null `next` |
| Chains.ChainNext | queue.c:222-223 | each node of a chain links to the next node listed, and the last to null |
| Chains.ChainTail | queue.c:146 | the chain continues at the first node's successor |
| Chains.ChainReversal | queue.c:191-206 | nodes whose links all point back, with the first ending in null, form the reversed chain from the last node, with the strings reversed |
| Chains.ReversalInvolutive | queue.c:181-196 | reversing twice restores the original order |
| Chains.ValuesReversal | queue.c:181-196 | the strings of the reversed nodes are the reversed strings |
| Chains.ChainConcat | queue.c:284-288 | a linked run whose last node points at the head of a disjoint chain forms one chain with it |
| Chains.Halves | queue.c:246-247 | the two halves of a run without repeats have no repeats, share no node, and together are the run |
| Chains.TakeFirst | queue.c:268-274 | moving the head of one input onto the taken run keeps the run free of repeats and apart from what is still to be merged |
| Chains.MergedNodes | queue.c:261-294 | the reference definition of what `merge` builds: the left head when its string is strictly smaller, otherwise the right head, then the leftover run; the result is as long as both inputs together |
| Chains.MergedNodesPermutes | queue.c:261-294 | the merge holds exactly the nodes of both inputs |
| Chains.MergedValuesPermute | queue.c:261-294 | the merge holds exactly the strings of both inputs |
| Chains.MergedNodesHead | queue.c:267-276 | a non-empty merge starts with the head of one of its inputs |
| Chains.MergedNodesSorted | queue.c:261-294 | merging two ascending runs gives an ascending run |
| Chains.MergedHalves | queue.c:250-255 | merging ascending rearrangements of two halves gives an ascending rearrangement of both halves, nodes and strings |

## Left out

- Memory management: `malloc` and `free` are not modelled. A failed allocation is an input (`allocOk`, `nodeAlloc`, `valueAlloc`). Released nodes stay as objects: `Free` returns them in release order, and the freed queue record is not modelled.
- Stored strings are Dafny strings with no `'\0'`. The copy made by `memset` and `strncpy` at queue.c:72-73 and 112-113 is modelled as storing exactly `s` in a buffer of recorded capacity. The byte-level writes are not modelled. A null `s`, which would crash in `strlen`, cannot be expressed.
- The `rmh->value` null test at queue.c:148 never fails in the model: every node it builds holds a string.
- `StringOrder.Lt` compares Dafny characters. It does not model `strcmp`'s comparison of unsigned bytes, which differs for characters that are not single bytes.
- `size` is an unbounded integer; the overflow of C's `int` is not modelled.
- Recursion depth: `reverse` and `mergesort` recurse once per node or per halving. Stack exhaustion is not modelled.
- Merge sort is not claimed to be stable: on a tie `merge` takes the right-hand node.
- LinkedQueue.RemoveHead: requires `1 <= bufsize <= sp.Length` when `sp` is given, because with `bufsize` 0 queue.c computes `bufsize - 1` in `size_t` and copies without bound.
- LinkedQueue.Merge: requires both chains to be non-empty, because otherwise queue.c dereferences a null `cur`; `mergesort`, its only caller, never passes an empty chain.
- Helper methods: `LinkTail`, `ReverseLong`, `Halve`, `SortHalves`, `SortBack`, `MergeRuns`, `MergeStep`, `Attach`, `LastNode` and `Install` each carry one stretch of a C function. The stores keep the source's order with three exceptions; none matters, because nothing reads the moved field in between. In `q_insert_tail` the model nulls the new node's `next` (inside `LinkTail`) before storing `q->tail`, where queue.c:119-122 stores `q->tail` first. In `q_reverse` the model nulls the old head's `next` (inside `RelinkReversed`) before storing `q->head`, where queue.c:194-195 stores `q->head` first. In `q_sort`, `mergesort(&q->head)` writes `q->head` through a pointer inside `merge` (queue.c:265, 276), before the walk to the new tail (queue.c:221-224); the model returns the new head instead, and `Install` stores it after `LastNode` has found the tail.
- `harness.h` and `queue.h` are not part of this model.

## Findings

| source | as written | input that shows it | evidently intended | confidence | as-written member | corrected member |
|---|---|---|---|---|---|---|
| queue.c:146 | `q->head = q->head->next;` never updates `tail` | remove the only string of a one-element queue: `head` becomes null while `tail` still points at the freed node, so a following `q_insert_tail` writes through the freed node and leaves `head` null | set `tail` to null when the queue becomes empty | high; not executed | LinkedQueue.RemoveHeadAsWritten | LinkedQueue.RemoveHead |
| queue.c:105 | `malloc(sizeof(char) * sizeof(strlen(s)) + 1)` asks for `sizeof(size_t) + 1` = 9 bytes whatever `s` is | `q_insert_tail(q, "abcdefghi")`: `memset` at line 112 writes 10 bytes into the 9-byte buffer | `malloc(strlen(s) + 1)`, as `q_insert_head` does at line 63 | high; not executed | LinkedQueue.TailCopyOverrun | LinkedQueue.CopyBytes |
