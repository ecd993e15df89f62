# sll_meta: intrusive singly-linked list, iterator and node pool

`sll_meta` is a C header that generates, for a caller's node type carrying
one `sll_link_next` field, three small components:

- a **list**, a record of `first`, `last` and a count `n` over nodes that
  the caller owns;
- a forward **iterator**, which can remove the node it currently visits;
- a **pool**, a list used as a reservoir of free nodes. Getting a node
  reuses the pool's head, or allocates a zeroed node when the pool is empty.

This project models that header in Dafny, over one concrete node class
(`Sll.Node`, with a link and an `id` payload placeholder). It is split into
these modules:

- `Sll` (list.dfy): `Node` and the list class `SList`. `SList` has the
  source's `first`/`last`/`n` fields, plus ghost `elems` (the linked nodes,
  in order) and `Repr` (its footprint). `SList.Valid()` requires:
  - `n == |elems|`;
  - `first` and `last` are the ends of `elems`, or both null when it is empty;
  - every node links to the next one, and the last node's link is null;
  - no node appears twice.

  Each operation that changes the list is a method that updates it in
  place and states its new state in terms of `elems`. `Size`, which changes
  nothing, is a function.
- `SllIter` (iter.dfy): the iterator class. It keeps the source's
  `list`/`prev`/`current` fields and a ghost index `pos` into `list.elems`.
  Each operation except `PopAsWritten` is tied to a pure cursor semantics
  through `Abs()`; `PopAsWritten`, the removal's literal body, leaves the
  iterator and the list inconsistent and is stated on fields only.
- `IterModel` (cursor.dfy): the pure cursor semantics (`Start`, `Get`,
  `Next`, `IsEnd`, `Pop`). It also defines `Keep`/`Picked`, reference
  definitions for a removal pass, and `Sweep`, that pass as a function.
  Beside them are lemmas: what a pass over a whole list leaves and visits,
  and the demonstration scenario (ids 1..10, remove 1, 5, 6 and 10).
- `SllPool` (pool.dfy): the pool, a wrapper holding one `SList`.
- `SllClients` (clients.dfy): callers written against the contracts only:
  - FIFO order of push and pop;
  - the removal pass of the demonstration program, run with the iterator and the pool;
  - the pool round trip;
  - the counterexample for the iterator's removal as written.

### How the source is read

The removal through the iterator (`iter_pop`) does less in its body than
its doc comment promises. The body only updates the list's
`first`/`last`/`n`. It does not:
- relink the predecessor to the successor;
- clear the removed node's link;
- clear `current`.

So:
- `SllIter.Iterator.PopAsWritten` models the body exactly as written.
  `SllClients.PopAsWrittenCounterexample` shows what it leaves behind (see
  Findings).
- `SllIter.Iterator.Pop` models the removal the doc comment describes. It
  adds a saved successor `succ` to the iterator, so that the next step
  resumes after the removed node. After a removal, `current` is null,
  which the ghost flag `gap` records, while `succ` still holds the node to
  visit.

Because of that state, `Iterator.IsEnd` tests `current == null && succ == null`,
while the source tests only `current == null`. Its contract proves the two
tests agree whenever the iterator is not in that gap. Every step the model
adds to a source body is marked `added:` in the code.

Other readings:
- `iter_pop` decrements `iter->list.n`, which does not compile on a
  pointer. The model reads it as the bound list's count.
- `pool_get` and `pool_return` call `popfront` and `pushback`. The model
  reads them as the header's `list_popfront` and `list_pushback`.
- The header is generated by macros and asserts its pointer arguments
  non-null. The model uses Dafny's non-null types instead.
- `list_pushback` does not clear the incoming node's link. Its
  precondition therefore asks for a clear node (what `list_node_clear`
  gives) and one not already in the list.
- The demonstration program announces the removal of ids 1, 4, 5 and 10.
  Its test removes 1, 5, 6 and 10, and the scenario follows the test.

## Model

| member | source | states |
|---|---|---|
| Sll.Node.constructor | src/sll_meta.h:179 | a node allocated by the pool is zero-filled: null link, zero payload |
| Sll.ClearNode | src/sll_meta.h:102-105 | the node's link becomes null; its payload is untouched |
| Sll.SList.constructor | src/sll_meta.h:66-70 | a zero-initialised list record is a valid empty list |
| Sll.SList.Clear | src/sll_meta.h:96-101 | the list becomes valid and empty: `first == last == null`, `n == 0`, `elems == []`; no node is touched |
| Sll.SList.Size | src/sll_meta.h:106-109 | returns the number of linked nodes, changes nothing, and is 0 exactly when `first` is null |
| Sll.SList.PushBack | src/sll_meta.h:110-122 | for a clear node not already linked in the list: `elems` becomes `old(elems) + [node]` and the list stays valid. On an empty list the node becomes `first` and `last`. Otherwise the old tail links to it and `first` is kept. No payload is written, the new node's included |
| Sll.SList.PopFront | src/sll_meta.h:123-132 | empty list: returns null and changes nothing. Otherwise returns `old(elems)[0]` with its link cleared; `elems` becomes `old(elems)[1..]` and `n` drops by one. `last` is null exactly when the list becomes empty. No payload is written |
| Sll.SList.Unlink | src/sll_meta.h:162-169 | the list side of removing the node at index `p`: `first` moves to the successor if the node was the head, `last` to `prev` if it was the tail, `n` drops by one, and `elems` loses exactly that node with the others kept in order; the list stays valid and no payload is written |
| SllIter.Iterator.Start | src/sll_meta.h:135-141 | binds the iterator to the list with `prev == null`, `current == list.first`, at the start of the cursor semantics |
| SllIter.Iterator.Get | src/sll_meta.h:142-145 | returns the node at the cursor position (a member of the list) or null, without moving |
| SllIter.Iterator.IsEnd | src/sll_meta.h:156-159 | true exactly when no node remains to be visited; outside the gap left by a removal this is exactly `current == null` |
| SllIter.Iterator.Next | src/sll_meta.h:146-155 | from a visited node: `prev` becomes it and `current` its successor. At the end: `prev` and `current` are null and nothing moves. After a removal: resumes at the saved successor. In all cases it matches one cursor step |
| SllIter.Iterator.Pop | src/sll_meta.h:160-172 | with no current node: returns null and changes nothing. Otherwise: returns the old `current` with its link cleared. The list's `first`/`last`/`n` are updated as the source does, and the list loses exactly that node with the others kept in order. The next step resumes at the node after it. No payload is written |
| SllIter.Iterator.Remove | src/sll_meta.h:162-169 | the removal branch at a visited node: the iterator reports nothing at its position, keeps `prev` and `succ`, and the list loses exactly that node as `SList.Unlink` states |
| SllIter.PopAt | src/sll_meta.h:160-172 | links the two sides of the removal: the cursor removal at a designated node is `Without` at its index (the sequence `SList.Unlink` leaves), returns that node and leaves a gap at the position |
| SllIter.Iterator.PopAsWritten | src/sll_meta.h:160-172 | the literal body: returns `current`. The list's `first`, `last` and `n` are updated, and no link and no iterator field changes |
| SllPool.Pool.constructor | src/sll_meta.h:90 | a zero-initialised pool is a valid empty list |
| SllPool.Pool.Get | src/sll_meta.h:175-182 | never null, always clear and not in the pool. Non-empty pool: the former first node, and the pool loses it. Empty pool: a fresh node with a zero payload, and the pool stays empty. A reused node keeps its stale payload, and no payload in the pool is written |
| SllPool.Pool.Return | src/sll_meta.h:183-187 | a clear node not already in the pool is appended: the pool's `elems` gains it at the tail, it becomes `last`, and the size grows by one. No payload is written, the returned node's included |
| IterModel.Get | src/sll_meta.h:142-145 | the designated node, when there is one, is the list's element at the cursor position; nothing is designated exactly in a gap or at the end |
| IterModel.Start | src/sll_meta.h:135-141 | a fresh cursor is at the head: it designates the first node, or nothing for an empty list |
| IterModel.IsEnd | src/sll_meta.h:156-159 | end means nothing is designated now and nothing would be after one more step; outside a gap, this is "nothing designated" |
| IterModel.Next | src/sll_meta.h:146-155 | a step keeps the list and leaves any gap; at the end it changes nothing (idempotent) |
| IterModel.Pop | src/sll_meta.h:43 | returns the designated node, or nothing and no change. On removal, the list loses exactly that node (length and multiset), the others keep their order, and the next step designates the removed node's successor |
| IterModel.Round | src/example_main.c:47-58 | a round of the demonstration's removal loop leaves a well-formed cursor outside any gap, with exactly one node fewer left to visit and no node added |
| IterModel.Sweep | src/example_main.c:46-59 | the demonstration's removal loop from a cursor: it visits as many nodes as remain after the cursor and never lengthens the list; `SweepFromStart` states what it leaves and sees |
| IterModel.KeepAppend | src/example_main.c:46-59 | filtering distributes over concatenation |
| IterModel.KeepStep | src/example_main.c:50-58 | filtering a suffix decides on its first node, then filters the rest |
| IterModel.PickedAppend | src/example_main.c:46-59 | picking the removed nodes distributes over concatenation |
| IterModel.KeepPickedSplit | src/example_main.c:46-59 | every node ends up in exactly one of the kept list and the removed list (multisets add up) |
| IterModel.KeepSubset | src/example_main.c:46-59 | the kept list holds only nodes of the input that are not to be removed |
| IterModel.PassStart | src/example_main.c:46 | the loop invariant of the removal pass holds right after `iter_start` |
| IterModel.PassRound | src/example_main.c:47-58 | one round preserves the invariant: it visits the next original node, and the removed list, appended to whatever the pool held, grows by that node exactly when it is in `drop` |
| IterModel.PassEnd | src/example_main.c:46 | when the pass reaches its end, the list is the filtered original and every node has been visited |
| IterModel.SweepFrom | src/example_main.c:46-59 | a pass from index `p` keeps the prefix before `p`, filters the rest, and sees the rest in order |
| IterModel.SweepFromDrop | src/example_main.c:50-55 | the same, when the node at `p` is removed |
| IterModel.SweepFromKeep | src/example_main.c:56-58 | the same, when the node at `p` is kept |
| IterModel.SweepFromStart | src/example_main.c:46-59 | a pass over a whole list leaves exactly the nodes not in `drop`, in order, and visits every node once, in list order |
| IterModel.ExampleSweep | src/example_main.c:38-70 | the demonstration scenario: ids 1..10 less {1, 5, 6, 10} leave 2, 3, 4, 7, 8, 9, all ten are visited in order, and the first three left are 2, 3, 4 |
| IterModel.ExampleKeep | src/example_main.c:50 | filtering ids 1..10 by {1, 5, 6, 10} gives 2, 3, 4, 7, 8, 9 |
| SllClients.PushAll | src/sll_meta.h:110-122 | pushing distinct clear nodes one by one appends them in the given order |
| SllClients.PopAll | src/sll_meta.h:123-132 | popping until empty returns the nodes in list order, each with a cleared link |
| SllClients.PushAllPopAll | src/sll_meta.h:32-33 | FIFO: k pushes onto an empty list followed by popping it empty return the k nodes in push order and leave it empty |
| SllClients.PopToPool | src/example_main.c:53-54 | popping through the iterator and returning to the pool: the cursor takes a removal step and the pool gains the node at its tail; no payload changes |
| SllClients.SweepRound | src/example_main.c:46-58 | one loop round with the iterator and the pool matches `IterModel.Round`; the pool gains the node exactly when it is removed; no payload changes |
| SllClients.SweepToPool | src/example_main.c:46-59 | the whole pass with the iterator: the list becomes the filtered original, and the pool gains the removed nodes at its tail, in list order; no payload changes, so the nodes to remove may be chosen by id as the demonstration does |
| SllClients.HeadToPool | src/example_main.c:66-70 | the list's head, if any, moves to the pool's tail; no payload changes |
| SllClients.PoolToTail | src/example_main.c:78-82 | the pool's head, or a fresh zeroed node when the pool is empty, becomes the list's tail; no payload changes |
| SllClients.PopAsWrittenCounterexample | src/sll_meta.h:160-172 | in a three-node list, the literal removal of the middle node leaves the count at two while the first node still links to it and it to the last, and the iterator still designates it |
| SllClients.ReturnThenGet | src/sll_meta.h:175-187 | returning a node to an empty pool and getting one gives back that same node |

## Left out

- The demonstration program's printing. Its loops appear only as the
  clients above and the scenario lemmas.
- The macro and token-pasting machinery (`CONCAT`, the `SLL_*_DECLS` and
  `SLL_*_DEFS` templates). The model is one concrete node class.
- Memory: `calloc` is `new Node`, and allocation failure is not modelled.
  Nothing is ever freed; the header has no release function.
- `pool_clear`, named in the header's doc comment, has no definition in the
  header. A zero-initialised pool is the `Pool` constructor.
- Draining a list through a release callback, getting a node together with
  a "was allocated" flag, and releasing a whole pool are not defined in the
  header, so they are not modelled.
- Re-binding an existing iterator to another list: `iter_start` is modelled
  as the iterator's constructor, and its `list` field is fixed.
- Concurrency and thread safety: the header assumes sequential use.
- Payload fields beyond the `id` placeholder: the list never reads them.
- `size_t` width: `n` is a `nat`. It is only decremented while the list is
  non-empty and cannot overflow in any reachable state.
- That a node is in at most one container: this is not tracked globally.
  The clients require the footprints of a list and a pool to be disjoint.
- SllIter.Iterator.IsEnd: the model's test also checks the saved successor
  `succ`, a field the source does not have. Its contract states agreement
  with the source's `current == null` test only outside the gap after a
  removal.
- SllIter.Iterator.Pop: this is the removal the doc comment describes.
  The literal body is `PopAsWritten`.
- SllIter.Iterator.Next: in the gap after a removal, it takes a branch the
  source does not have, resuming at `succ`. Outside the gap it is the
  source's two branches, plus the upkeep of `succ`.

## Findings

| source | as written | input that shows it | evidently intended | confidence | as-written member | corrected member |
|---|---|---|---|---|---|---|
| src/sll_meta.h:160-172 | removal through the iterator updates only the list's `first`, `last` and `n`. The predecessor still links to the removed node, which keeps its own link, and `current` still designates it | list a, b, c with the iterator at b: after the removal `n` is 2, but a still links to b and b to c, so three nodes are reachable from `first` | the predecessor is relinked to the successor, the removed node is detached, and traversal resumes at the successor (the doc comment at src/sll_meta.h:43) | not executed | SllIter.Iterator.PopAsWritten, SllClients.PopAsWrittenCounterexample | SllIter.Iterator.Pop |
