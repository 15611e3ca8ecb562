# Verified model of the MPP list, thread and byte helpers

This project models three headers that the rest of the repository builds on and
proves what they promise:

- the intrusive circular doubly linked list (`include/mpi/mpp_list.h`);
- the wait/status protocol of `MppThread` and the deadline of
  `Condition::timedwait` (`include/mpi/mpp_thread.h`);
- the byte readers and writers and `MPP_ALIGN` (`include/mpi/mpp_common.h`).

`dafny verify dfyconfig.toml` checks everything.

## How it is built

**List.** `IntrusiveList.dfy` has the node class, the operations as the stores
the C code performs, in its order, and the traversal macros as the loops they
expand to. Every method says what the link fields of a whole region of the heap
are afterwards, as a function from `ListLinks.dfy` of what they were, and its
`modifies` clause names the nodes that can change. The meaning of those
functions is proved in layers: the local invariant (each node's neighbours point
back at it), undo and runs in `ListLinks.dfy`; rings and their members in
`Rings.dfy`; many lists in one heap, as a map from heads to member sequences, in
`ListMaps.dfy`; which heads and which places each edit of such a map concerns, in
`ListEdits.dfy`; the traversal macros against arbitrary unlinking bodies in
`Traversal.dfy`, and against bodies that move members within the traversed list
in `SelfMove.dfy`; one list as a double-ended queue in `Deque.dfy`.
`ListLoops.dfy` runs those traversals in place and ties each to the machine the
theorems are about. A detached node is the head of an empty list, so a list map
describes a region completely.

A node is identified with the `member` field that embeds it: `list_entry`
subtracts a constant, so the cursor of the entry macros and the address of its
member determine each other.

**Threads.** `WaitProtocol.dfy` splits `wait` into two atomic steps, entering
(save, publish WAITING, park) and returning (restore if the slot still says
WAITING), for any number of threads and all four slots. It assumes that callers
hold the slot's mutex, as `pthread_cond_wait` requires; `wait` itself does not
lock. A parked thread may return at any time, signalled or not, so `signal`
changes nothing in the model. Assignments by other code (`set_status`, whose
body is not in the repository) are a third kind of step. That the slot number is
below 4 is a precondition: `mpp_assert` stops the program only under a debug flag
(`include/mpi/mpp_log.h:99-114`). The first statuses are a parameter, because the
constructor's body is not in the repository.

`Deadline.dfy` performs the four updates of `timedwait` with C's truncating
division; the current time is a parameter.

**Bytes.** `Bits.dfy` defines the bitwise operators bit by bit. `ByteOrder.dfy`
is an n-byte positional codec in both orders, n arbitrary, and `ByteCodec.dfy`
shows the sixteen macros to be instances of it, at any offset of any buffer.
Values written are integers of any size and sign, reduced byte by byte as the
stores do, with `>>` of a negative value taken as the arithmetic shift.
`Align.dfy` has the mask form of rounding up.

## Where the code falls short of what one might expect

- A status written by other code while threads wait can be lost: if a new wait
  starts before the old waiters have returned, it publishes WAITING again and an
  old waiter restores what it saved. `WaitProtocol.WriteSurvivesIff` and
  `WaitProtocol.WriteSafeIff` give the exact conditions, and
  `WaitProtocol.Overwrite` builds the run that loses the write.
- `timedwait` with a negative timeout can produce a negative `tv_nsec`, which
  `pthread_cond_timedwait` rejects. Some time of call leads to that exactly for a negative timeout that is
  not a whole number of seconds (`Deadline.AcceptedWheneverIff`);
  `Deadline.RejectedDeadline` is one such call.
- `MPP_RB32` and `MPP_RL32` lack the cast that the 64-bit readers have, so the
  value of the macro is negative when the top byte is 0x80 or more
  (`ByteCodec.Signed32`; strictly, C leaves that shift undefined, and the model
  takes the two's complement reading).
- `MPP_ALIGN` rounds up only to powers of two (`Align.AlignRoundsUpIffPow2`). It
  yields 0 when the sum wraps, and with an unsigned alignment narrower than the
  sum it falls short as soon as the sum exceeds the alignment's type
  (`Align.AlignWrappedIff`).
- `list_add` of a node that is still linked always breaks the local invariant
  (`ListLinks.ExecKeepsLinkedIff`), and `list_for_each_entry` over a body that
  unlinks its node never ends (`Traversal.UnsafeSelfUnlinkNeverEnds`).
- `list_for_each_safe` is not safe against moving members to the tail of the list
  it traverses: it ends only if at most one member is moved, and visits every
  member just once only if nothing or only the last member is moved
  (`SelfMove.MoveToOwnTailExact`, `SelfMove.TwoMembersNeverEnd`). Moving them to
  the front is harmless (`SelfMove.MoveToOwnFront`).

## Model

| member | source | states |
|---|---|---|
| IntrusiveList.ListHead.constructor | include/mpi/mpp_list.h:97-100 | a declared head is self-linked |
| IntrusiveList.LinksOf | include/mpi/mpp_list.h:93-95 | the two fields of the nodes of any region are described by exactly one pair of maps |
| IntrusiveList.InitListHead | include/mpi/mpp_list.h:102-104 | the node becomes self-linked; no other field of the region changes |
| IntrusiveList.ListAddBetween | include/mpi/mpp_list.h:129-137 | the links of the whole region after the four stores, also when the arguments alias |
| IntrusiveList.ListAdd | include/mpi/mpp_list.h:139-142 | inserts between the head and its successor; only those three nodes can change |
| IntrusiveList.ListAddTail | include/mpi/mpp_list.h:144-147 | inserts between the head's predecessor and the head; only those three nodes can change |
| IntrusiveList.ListDelBetween | include/mpi/mpp_list.h:149-153 | joins two nodes; nothing else changes |
| IntrusiveList.ListDelInit | include/mpi/mpp_list.h:155-160 | joins the neighbours and self-links the node; only those three nodes can change |
| IntrusiveList.ListIsLast | include/mpi/mpp_list.h:162-165 | true exactly for the final member; for the head exactly when the list is empty; false for any node elsewhere |
| IntrusiveList.ListEmpty | include/mpi/mpp_list.h:167-170 | true exactly when the head has no members |
| IntrusiveList.ListForEachEntry | include/mpi/mpp_list.h:118-121 | with a body that changes no links, ends having visited the members once each, in order |
| IntrusiveList.ListForEachSafeDel | include/mpi/mpp_list.h:106-108 | visits every original member once in order while unlinking any of them; the rest keep their order, the unlinked end detached, every other list is unchanged |
| IntrusiveList.ListForEachSafeMove | include/mpi/mpp_list.h:106-108 | moving chosen members to another list while traversing is a stable partition with `list_add_tail`, reverses the moved part with `list_add`, and changes no third list |
| ListLinks.InsertKeepsLinkedIff | include/mpi/mpp_list.h:129-137 | inserting between neighbours keeps a region doubly linked if and only if the new node was self-linked |
| ListLinks.DelInitKeepsLinked | include/mpi/mpp_list.h:155-160 | unlinking any node, a head included, keeps a region doubly linked and leaves the node self-linked |
| ListLinks.DelInitIdempotent | include/mpi/mpp_list.h:155-160 | unlinking a detached node changes no field |
| ListLinks.UndoIff | include/mpi/mpp_list.h:129-160 | reinserting a node between its logged neighbours restores every field exactly when they pointed back at it (for a node that is its own successor, exactly when its predecessor did) |
| ListLinks.UndoRestoresHeap | include/mpi/mpp_list.h:129-160 | any sequence of removals is undone, field for field over the whole region, by reinserting in reverse from the log |
| ListLinks.ExecKeepsLinkedIff | include/mpi/mpp_list.h:139-160 | one call of `list_add`, `list_add_tail` or `list_del_init` keeps the local invariant if and only if a node to be added was self-linked |
| ListLinks.AlwaysLinkedIffGuarded | include/mpi/mpp_list.h:139-160 | a run of such calls keeps the local invariant throughout if and only if every call met its guard |
| ListLinks.RunLast | include/mpi/mpp_list.h:139-160 | a run is allowed one more call exactly when both operands are nodes of the region and a node to be added is self-linked then, and the call works on the links the run has left |
| ListLinks.AddTailIsMirroredAddFront | include/mpi/mpp_list.h:139-147 | adding at the tail is adding at the front with the two fields exchanged, except exactly when the node added is the head or the last member of a list that is not empty |
| Rings.InsertIntoRing | include/mpi/mpp_list.h:129-137 | insertion at any place of a ring inserts at that place of the member sequence, the empty and one-element cases included |
| Rings.RemoveFromRing | include/mpi/mpp_list.h:155-160 | unlinking a member removes exactly it from the sequence and leaves it detached |
| Rings.RemoveHead | include/mpi/mpp_list.h:155-160 | unlinking the head empties it and leaves the members a ring of their own in the same cyclic order |
| Rings.RemoveFrame | include/mpi/mpp_list.h:149-160 | unlinking a node elsewhere leaves a ring as it was |
| Rings.EmptyAndLast | include/mpi/mpp_list.h:162-170 | what the two tests compare says exactly whether the sequence is empty and which member is last |
| Rings.MirrorRing | include/mpi/mpp_list.h:129-160 | along `prev` a head has exactly the reversed sequence |
| Rings.BackwardWalk | include/mpi/mpp_list.h:129-160 | the n-th node of the walk along `prev` is the n-th from the end of the walk along `next` |
| Rings.WalkReturns | include/mpi/mpp_list.h:93-160 | following `next` from any node returns to it within as many steps as there are nodes |
| ListMaps.AddFrontHolds | include/mpi/mpp_list.h:139-142 | with many lists in one heap, `list_add` makes the node the first member of exactly the intended list, whose head stays the head |
| ListMaps.AddTailHolds | include/mpi/mpp_list.h:144-147 | with many lists in one heap, `list_add_tail` makes the node the last member of exactly the intended list, whose head stays the head |
| ListMaps.DelHolds | include/mpi/mpp_list.h:155-160 | with many lists in one heap, `list_del_init` removes one node from exactly the list it is on |
| ListMaps.GuardsAgree | include/mpi/mpp_list.h:139-160 | a node is detached in terms of lists exactly when its fields show it self-linked, and may then be added next to any node of the region |
| ListMaps.RunRefinesLists | include/mpi/mpp_list.h:139-160 | over any run of `list_add`, `list_add_tail` and `list_del_init` in which every node added was self-linked, next to a head or to a member, the links end in the lists that the edits lead to, and no node is lost or gained; the rows of ListEdits say what the edits are |
| ListMaps.RunFromFreshNodes | include/mpi/mpp_list.h:102-160 | the same from any finite set of nodes just initialised |
| ListMaps.ListsDetermined | include/mpi/mpp_list.h:93-160 | the links determine the lists met from given heads |
| ListMaps.LinkedIffRings | include/mpi/mpp_list.h:93-160 | a region is doubly linked node by node if and only if it splits into disjoint finite rings |
| ListEdits.AddEdits | include/mpi/mpp_list.h:139-147 | an add takes only the node added out of the heads and changes only the list of the node it is added at: `list_add` puts it right after that node, `list_add_tail` right before, before the head meaning last |
| ListEdits.DelMemberEdits | include/mpi/mpp_list.h:155-160 | deleting a member keeps every head, adds the node as the head of an empty list and takes exactly its place out of its list; nothing else changes |
| ListEdits.DelHeadEdits | include/mpi/mpp_list.h:155-160 | deleting a head leaves it the head of an empty list and its members a list headed by the first of them; nothing else changes |
| ListEdits.EditLast | include/mpi/mpp_list.h:139-160 | a run makes these edits one after the other, each allowed exactly when its operands are on the lists and a node to be added is detached |
| ListEdits.RunKeepsHeads | include/mpi/mpp_list.h:139-160 | a head that a run never adds to a list is still a head after it |
| ListEdits.RunFrame | include/mpi/mpp_list.h:139-160 | a list none of whose nodes a run names is as it was |
| Traversal.TraversalExact | include/mpi/mpp_list.h:106-127 | whatever nodes of the region the body unlinks, chosen by iteration and node, a traversal ends having visited every original member once in order if and only if the body spares the nodes still to be visited, the current one in the form that is not safe, and the head until a safe loop has saved it |
| Traversal.FormsAgree | include/mpi/mpp_list.h:118-127 | with a body that unlinks nothing both entry macros visit the same nodes |
| Traversal.UnsafeSelfUnlinkNeverEnds | include/mpi/mpp_list.h:118-121 | after the body unlinks its node, the unsafe form stays at that node for ever |
| SelfMove.MoveToOwnFront | include/mpi/mpp_list.h:106-160 | moving picked members to the front of the traversed list, the safe loop ends, visits every member once in order and leaves the picked ones reversed before the rest; no other list changes |
| SelfMove.MoveToOwnTail | include/mpi/mpp_list.h:106-160 | moving at most one picked member to the tail of the traversed list, the safe loop ends with that member last, having met it again unless it was last already; no other list changes |
| SelfMove.MoveToOwnTailExact | include/mpi/mpp_list.h:106-160 | moving picked members to the tail of the traversed list, the safe loop ends if and only if at most one is picked, and ends having visited every member once in order if and only if none but the last is |
| SelfMove.TwoMembersNeverEnd | include/mpi/mpp_list.h:106-160 | a list of two members, both moved to its tail, on which the safe loop never ends |
| ListLoops.ListForEachSafe | include/mpi/mpp_list.h:106-108 | around any unlinking body for which the loop ends, it visits exactly the nodes that the traversal theorems speak of and leaves the links of the removals made, in their order |
| ListLoops.ListForEachEntryUnlinking | include/mpi/mpp_list.h:118-121 | the same for the form that reads the next node after the body |
| ListLoops.ListForEachSafeMoveWithin | include/mpi/mpp_list.h:106-108 | around a body that moves members within the traversed list, it visits the nodes and leaves the links that the theorems on such moves speak of, whenever it ends |
| Deque.RunRefinesDeque | include/mpi/mpp_list.h:139-170 | any interleaving of adds and takes at both ends, guarded by what the links show, yields and leaves what a double-ended queue would |
| Deque.CallEffects | include/mpi/mpp_list.h:139-160 | each of the four calls works at its own end of the ring: the two adds put the node first or last, the two takes return the first or the last member, detached, and leave the others |
| Deque.CallFrame | include/mpi/mpp_list.h:139-160 | no other list changes |
| Deque.MayCallIff | include/mpi/mpp_list.h:139-170 | the links show a take to be allowed exactly when the list is not empty, and an add exactly when the node is on no list and is not the head |
| Deque.CallLast | include/mpi/mpp_list.h:139-170 | a run makes its calls one after the other, each on the links the ones before have left |
| Deque.Conservation | include/mpi/mpp_list.h:139-170 | over any guarded interleaving of calls, the nodes taken and those left on the ring are those there at first and those added: none is lost or duplicated |
| Deque.Fifo | include/mpi/mpp_list.h:144-170 | `list_add_tail` with take-front is first in, first out over any run |
| Deque.Lifo | include/mpi/mpp_list.h:139-170 | `list_add` with take-front is last in, first out around any nested run |
| Deque.EndsExchanged | include/mpi/mpp_list.h:139-170 | exchanging the two ends in every call of a run gives the same nodes on the links with `next` and `prev` exchanged |
| Deque.FifoBackward | include/mpi/mpp_list.h:139-170 | `list_add` with take-back is first in, first out over any run |
| Deque.LifoAtBack | include/mpi/mpp_list.h:139-170 | `list_add_tail` with take-back is last in, first out around any nested run |
| WaitProtocol.MppThread.WaitEnter | include/mpi/mpp_thread.h:243-248 | any thread not inside `wait` may enter it on any slot: it saves the status of the slot, sets the slot to WAITING and is parked; no other slot and no other thread changes |
| WaitProtocol.MppThread.WaitReturn | include/mpi/mpp_thread.h:248-253 | a parked thread may return at any time: the status it saved comes back exactly if the slot still shows WAITING; no other slot and no other thread changes |
| WaitProtocol.MppThread.WriteStatus | include/mpi/mpp_thread.h:227 | an assignment by other code changes exactly that slot and no parked thread |
| WaitProtocol.RunLast | include/mpi/mpp_thread.h:243-258 | a run may go on with exactly the steps that name an existing slot, enter with a thread not inside `wait` or return with one that is, each from the state the run has reached |
| WaitProtocol.ManyMayWait | include/mpi/mpp_thread.h:243-248 | entries by any number of threads, on the same slot too, are possible one after the other exactly when the threads are distinct and not inside already; then all of them are inside |
| WaitProtocol.SignalsDoNotMatter | include/mpi/mpp_thread.h:255-258 | a run is possible exactly when it is without its signals, and ends in the same state |
| WaitProtocol.WaitsRestoreStatus | include/mpi/mpp_thread.h:243-253 | without outside writes, in every reachable state the slot shows WAITING exactly when one parked thread holds a status other than WAITING, and when nobody is parked it shows the original one |
| WaitProtocol.WriteStaysWithoutNewWaits | include/mpi/mpp_thread.h:250-252 | a written status stays while no new wait begins, whoever returns in whatever order |
| WaitProtocol.WriteTakesEffect | include/mpi/mpp_thread.h:243-253 | from any state, a status written to a slot is shown after any later steps that neither begin a wait on the slot nor write it |
| WaitProtocol.WriteSurvivesIff | include/mpi/mpp_thread.h:245-252 | a written status survives every later interleaving of waits if and only if no parked thread holds a different one |
| WaitProtocol.WriteSafeIff | include/mpi/mpp_thread.h:245-252 | in a slot touched only by waits, a status written is safe if and only if it is the one the slot had before the waits or the slot did not show WAITING when it was written; that it is shown at all is WriteTakesEffect |
| WaitProtocol.NeverLeftWaiting | include/mpi/mpp_thread.h:243-253 | under any interleaving of waits and outside writes of statuses other than WAITING, a slot with nobody parked shows the first status or a written one, never WAITING |
| WaitProtocol.StatusFromStart | include/mpi/mpp_thread.h:243-253 | from the first state of a thread, after any run, a slot with nobody parked shows the first status or one written to it, and the first one if none was |
| Deadline.TimedWaitDeadline | include/mpi/mpp_thread.h:172-182 | for every timeout, negative ones included, the deadline is exactly the timeout after now; at a given time it is a valid timespec if and only if the unnormalised nanoseconds are not negative |
| Deadline.AcceptedWheneverIff | include/mpi/mpp_thread.h:172-182 | the deadline is a valid timespec whatever the time of the call if and only if the timeout is not negative or is a whole number of seconds |
| Deadline.RejectedDeadline | include/mpi/mpp_thread.h:172-182 | at time 0 a timeout of -1 gives a deadline with a negative tv_nsec |
| Deadline.NsecSumFits | include/mpi/mpp_thread.h:179 | the unnormalised nanoseconds fit 32 bits for every timeout |
| Deadline.SecondsFitIff | include/mpi/mpp_thread.h:178-181 | for every timeout both values tv_sec takes stay in a given range if and only if the last one does, which for a valid deadline means that the exact time is in range |
| ByteOrder.DecodeEncode | include/mpi/mpp_common.h:41-123 | n bytes in either order, decoded after encoding, give the number modulo 2^(8n) |
| ByteOrder.EncodeDecode | include/mpi/mpp_common.h:41-123 | encoding after decoding gives the same bytes |
| ByteOrder.DecodeReverse | include/mpi/mpp_common.h:41-123 | the two orders read each other's reversal |
| ByteOrder.CrossRead | include/mpi/mpp_common.h:41-123 | reading little endian what was written big endian reverses the bytes, and doing so twice gives the number back |
| ByteCodec.ReadersDecode | include/mpi/mpp_common.h:41-118 | each of the eight readers is the n-byte decoder at any offset |
| ByteCodec.Signed32 | include/mpi/mpp_common.h:52-65 | the 32-bit readers give the encoded number if and only if the top byte is below 0x80, and that number less 2^32 otherwise |
| ByteCodec.WB16 | include/mpi/mpp_common.h:42-44 | stores the 2-byte big-endian encoding; no other byte changes |
| ByteCodec.WL16 | include/mpi/mpp_common.h:48-50 | stores the 2-byte little-endian encoding; no other byte changes |
| ByteCodec.WB24 | include/mpi/mpp_common.h:111-114 | stores the 3-byte big-endian encoding; no other byte changes |
| ByteCodec.WL24 | include/mpi/mpp_common.h:120-123 | stores the 3-byte little-endian encoding; no other byte changes |
| ByteCodec.WB32 | include/mpi/mpp_common.h:56-60 | stores the 4-byte big-endian encoding; no other byte changes |
| ByteCodec.WL32 | include/mpi/mpp_common.h:66-70 | stores the 4-byte little-endian encoding; no other byte changes |
| ByteCodec.WB64 | include/mpi/mpp_common.h:80-88 | stores the 8-byte big-endian encoding; no other byte changes |
| ByteCodec.WL64 | include/mpi/mpp_common.h:98-106 | stores the 8-byte little-endian encoding; no other byte changes |
| ByteCodec.RoundTrip | include/mpi/mpp_common.h:41-123 | reading back what was written gives it modulo its width; writing back what was read changes nothing |
| ByteCodec.ReadUnaffected | include/mpi/mpp_common.h:41-123 | a read outside the bytes written gives what it gave before |
| ByteCodec.PacketRoundTrip | include/mpi/mpp_common.h:41-123 | fields of any mix of widths and orders, written and read back to back, come back modulo their widths, and no byte outside them changes |
| ByteCodec.PacketRewrite | include/mpi/mpp_common.h:41-123 | writing back a packet that was read leaves the buffer as it was |
| Bits.OrBits | include/mpi/mpp_common.h:41 | the or operator of the model is or on every bit position |
| Bits.AndBits | include/mpi/mpp_common.h:38 | the and operator of the model is and on every bit position |
| Bits.NotBits | include/mpi/mpp_common.h:38 | the complement of the model flips every bit position below the width and has no bit at or above it |
| Bits.AndNotBits | include/mpi/mpp_common.h:38 | the model's `& ~` is and-not on every bit position |
| Align.AlignRoundsUp | include/mpi/mpp_common.h:38 | for an alignment 2^k, absent overflow, the result is the least multiple not below x |
| Align.AlignRoundsUpIffPow2 | include/mpi/mpp_common.h:38 | the macro rounds every x up if and only if the alignment is a power of two |
| Align.AlignWrappedIff | include/mpi/mpp_common.h:38 | with a sum of w unsigned bits and an alignment of v <= w unsigned bits, the macro rounds up if and only if the sum fits v bits; with v = w, it gives 0 when the sum wraps |
| Align.AlignMonotone | include/mpi/mpp_common.h:38 | alignment is monotone |
| Align.AlignTwice | include/mpi/mpp_common.h:38 | aligning to 2^j and then to 2^k is aligning to the larger, so aligning is idempotent |

## Left out

- IntrusiveList.ListForEachSafeMove: the destination is another list; moves within the traversed list are ListLoops.ListForEachSafeMoveWithin and the theorems of SelfMove.
- Traversal.TraversalExact: the body unlinks nodes; bodies that also add nodes are covered only as far as the moves of IntrusiveList.ListForEachSafeMove and SelfMove.
- ListLoops.ListForEachSafe: only runs that end, as a loop that does not end has no result; the same holds of the other two loops there.
- Deadline.TimedWaitDeadline: seconds are unbounded integers; Deadline.SecondsFitIff says when they fit the machine type. What `pthread_cond_timedwait` does with a rejected deadline is not modelled.
- Align.AlignWrappedIff: unsigned arithmetic, with the alignment no wider than the sum; a signed alignment is extended by its sign, so that its mask has all bits of the sum, as for v = w. Align.AlignRoundsUp takes x as not negative and the sum as not overflowing.
- The C++ class `mpp_list` and `MppQueue`: declarations without bodies in this repository.
- `MppThread::start`, `stop`, `get_status`, `set_status`: no bodies; an outside write is modelled as a bare assignment to one slot.
- `lock`, `unlock`, `trylock`, `Autolock` and the recursive mutex: calls into pthread, assumed to give the mutual exclusion that makes the two steps of a wait atomic.
- Fairness and the wake-up of a particular waiter by `signal`: decided by pthread.
- `list_entry` address arithmetic: a constant offset that the model identifies away.
- Shift counts at or beyond the width of the written operand (for instance `MPP_WB64` of a 32-bit value), which C leaves undefined: values are unbounded integers here.
- Macro arguments with side effects: the writer macros evaluate `d` once per byte.
- `mpp_clip`, `MPP_MAX`, `MPP_SWAP`, `MPP_DIV` and the like: easy members.
- `mpp_ceil_log2` and `axb_div_c`: they rest on functions without a visible body.
