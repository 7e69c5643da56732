# Intrusive list and timer wheel of `br`, in Dafny

This project models two header-only components of the `br` library.

- `br::ilist` (src/include/ilist.h) is an intrusive doubly-linked list. Every
  element carries its own `prev_`/`next_` links and a reference to the list it
  sits in. The list owns two sentinel nodes, `head_` and `tail_`, and counts
  its entries. A node belongs to at most one list: linking a node that is
  already in a list is refused.
- `br::basic_timer_wheel` (src/include/timer_wheel.h) is a hashed timer wheel.
  It is a ring of slots, each an `ilist` of `basic_expirable` elements, plus:
  - a cursor on the slot swept next;
  - a slot duration;
  - the duration of one revolution;
  - a start time, the beginning of the cursor's slot.

  `publish(e, deadline)` files `e` in the slot its deadline falls in, with the
  number of whole revolutions still to go. `check_expiration(now)` sweeps one
  slot per whole slot duration elapsed. A sweep expires and unlinks the
  elements with no revolutions left and counts the others down by one.

The model has three modules.

- `IntrusiveList` (ilist.dfy): classes `Node` and `IList` over the heap, with
  the same fields the C++ has.
  - The list invariant `IList.Valid` ties the ghost sequence `Members` to the
    `head -> ... -> tail` chain in both directions, to the owners and to the
    entry counter.
  - Every operation is proved against `Members`.
- `WheelSpec` (wheel_spec.dfy): a value-level wheel. A `Wheel` is a sequence
  of slots, each a sequence of `Entry(item, loops)`, and a cursor.
  - `Tick` is one pass of the outer loop of `check_expiration`. `Place` is
    `publish`. `Check` is `check_expiration` with the start-time arithmetic.
  - The lemmas give every entry the tick on which it fires. They prove that
    the wheel fires each entry exactly on that tick, and that nothing is lost
    or expired twice.
  - They also prove when, in time, a published element expires.
- `TimerWheelModel` (timer_wheel.dfy): class `TimerWheel` with the C++ fields. The
  slots are one `IList` per slot.
  - `check_expiration` and `publish` are proved to act on the lists exactly as
    `WheelSpec.Check` and `WheelSpec.Place` act on values, through the
    abstraction `TimerWheel.Abs`.
  - The slot sweep is the source's loop over the list, which takes the
    successor before touching the current node.

Times are natural numbers in units of the clock: `now` and `deadline` are
`startTime` plus an elapsed time. A virtual `expire()` call is modelled as the
element being appended to the sequence the method returns, in call order.

The element type `T` of the list is `Node` itself. `basic_expirable::n_loops_`
is the field `loops` of `Node`. No list operation reads or writes `loops`.

How the code expires an element: one published for `deadline` expires at the
first `check_expiration(now)` for which `(now - S) / sd > (deadline - S) / sd`.
Here `S` is the start time at publication and `sd` the slot duration. So an
element expires at the first check in a later slot than its deadline's slot,
not at the first check at or past the deadline, as one might expect. The
repository's unit test (tests/timer_wheel_ts.cc) agrees with the code, and the
model follows it:
- `ExpiresOnTime` proves the exact rule;
- `ExpiryWindow` proves the bounds: a check that expires an element has
  `now > deadline`, and every check at `now >= deadline + sd` expires it;
- `OneSecondSlots` proves the unit test's observations: nothing at `d`,
  expired at `d + 1`.

## Model

| member | source | states |
|---|---|---|
| IntrusiveList.Node.constructor | src/include/ilist.h:64-67 | a new node has no links, no owner list and a zero loop count |
| IntrusiveList.Node.LinkBefore | src/include/ilist.h:44-47 | a node in no list returns null and changes nothing; otherwise a free `node` is inserted into the owner's members right before this node and returned, while a node already in some list is refused (null) with every list unchanged |
| IntrusiveList.Node.LinkAfter | src/include/ilist.h:49-52 | as LinkBefore, inserting right after this node |
| IntrusiveList.Node.Unlink | src/include/ilist.h:54-59 | a node in a list is removed from exactly its position in the members, the list stays valid and the node ends with no links and no owner; a node in no list is left untouched |
| IntrusiveList.IList.constructor | src/include/ilist.h:102-110 | a new list is valid and empty, the two sentinels linked to each other and owned by the list |
| IntrusiveList.IList.Front | src/include/ilist.h:140-143 | the first member, or the tail sentinel when the list is empty |
| IntrusiveList.IList.Back | src/include/ilist.h:145-148 | the last member, or the head sentinel when the list is empty |
| IntrusiveList.IList.Size | src/include/ilist.h:150 | the entry counter equals the number of members |
| IntrusiveList.IList.Empty | src/include/ilist.h:151 | true exactly when the list has no members |
| IntrusiveList.IList.Walk | src/include/ilist.h:70-100 | iterating from begin() with ++ until end() visits exactly the members, in order |
| IntrusiveList.IList.PushFront | src/include/ilist.h:112-115 | a free node becomes the first member and is owned by the list; a node in a list leaves everything unchanged |
| IntrusiveList.IList.PushBack | src/include/ilist.h:117-120 | a free node becomes the last member and is owned by the list; a node in a list leaves everything unchanged |
| IntrusiveList.IList.PopFront | src/include/ilist.h:122-129 | null on an empty list; otherwise returns the first member, which leaves the list with no links and no owner, and the rest stay in order |
| IntrusiveList.IList.PopBack | src/include/ilist.h:131-138 | null on an empty list; otherwise returns the last member, which leaves the list with no links and no owner, and the rest stay in order |
| IntrusiveList.IList.Clear | src/include/ilist.h:153-166 | the list is valid and empty; every former member has no owner and keeps its stale `prev`/`next` |
| IntrusiveList.IList.UnlinkNode | src/include/ilist.h:169-184 | removes exactly that node from the members, keeps the list valid and clears the node's three links |
| IntrusiveList.IList.LinkNodeBefore | src/include/ilist.h:186-200 | a node already in a list is refused (null, nothing changes); a free node is inserted right before `current` (a member or the tail), linked both ways, owned and returned |
| IntrusiveList.IList.LinkNodeAfter | src/include/ilist.h:202-216 | a node already in a list is refused (null, nothing changes); a free node is inserted right after `current` (the head or a member), linked both ways, owned and returned |
| IntrusiveList.IList.NodesOwned | src/include/ilist.h:108-109 | every node of a valid list, sentinels included, has the list as its owner |
| IntrusiveList.IList.NotOwnedNotLinked | src/include/ilist.h:188 | a node whose owner is not this list is not on its chain, which is why the owner test alone is enough to refuse a link |
| WheelSpec.Empty | src/include/timer_wheel.h:67-76 | the constructed wheel: `ns` empty slots with the cursor on slot 0 |
| WheelSpec.Kept | src/include/timer_wheel.h:85-96 | what a sweep leaves in a slot: never more entries than the slot had (with `Due`, `SweepSplits` shows that kept and expired elements together are the slot's elements; `TickPending` shows every kept entry one pass closer to firing) |
| WheelSpec.Due | src/include/timer_wheel.h:85-96 | what a sweep expires, in list order: never more elements than the slot had (`SweepSplits` shows together with `Kept` that nothing is lost or duplicated) |
| WheelSpec.SweepSplits | src/include/timer_wheel.h:85-96 | a sweep splits a slot: the kept and the expired elements together are, as a multiset, exactly the slot's elements, so none is lost or duplicated |
| WheelSpec.SweepAppend | src/include/timer_wheel.h:85-96 | sweeping a slot front to back is sweeping its two halves one after the other |
| WheelSpec.Tick | src/include/timer_wheel.h:84-98 | one pass of the outer loop keeps the ring size and a cursor inside it (`TickConserves`, `TickPending` and `AdvanceCursor` state what it does to the contents and the cursor) |
| WheelSpec.Advance | src/include/timer_wheel.h:84-98 | `while (nSlotsTraversed--)`: any number of passes keeps the ring size and a cursor inside it; what they expire is `Fired`, whose properties are stated by `Conservation`, `AdvanceAdd` and `AdvanceFires` |
| WheelSpec.TickConserves | src/include/timer_wheel.h:84-98 | one pass of the outer loop takes out of the wheel exactly the elements it expires |
| WheelSpec.AdvanceCursor | src/include/timer_wheel.h:97 | after `n` passes the cursor is `n` slots further round the ring |
| WheelSpec.AdvanceAdd | src/include/timer_wheel.h:84-98 | `a` passes then `b` passes leave the wheel as `a + b` passes do, and expire the same elements in the same order |
| WheelSpec.Conservation | src/include/timer_wheel.h:84-98 | over any number of passes, what remains plus what expired is exactly what was in the wheel |
| WheelSpec.Place | src/include/timer_wheel.h:104-110 | publish of a free element: the wheel keeps its ring size and its cursor, and `PlaceAdds`, `PlacePending` and `ExpiresOnTime` state where and when the element lands |
| WheelSpec.PlaceAdds | src/include/timer_wheel.h:101-111 | publishing a free element adds exactly that element to the wheel's contents |
| WheelSpec.Relabel | src/include/timer_wheel.h:108-110 | re-publishing an element already in a list keeps every slot's elements and their order; only that element's loop count changes |
| WheelSpec.RelabelSlot | src/include/timer_wheel.h:108 | within one slot only the entries of that element take the new loop count |
| WheelSpec.Revolutions | src/include/timer_wheel.h:105-108 | whole revolutions of the time difference are whole revolutions of its whole slots |
| WheelSpec.PublishedTicks | src/include/timer_wheel.h:104-108 | the slot and loop count publish computes make the entry fire on pass `timeDiff / sd + 1` |
| WheelSpec.TickPending | src/include/timer_wheel.h:84-97 | one pass brings every pending entry one pass closer and expires exactly those due on it, in wheel order |
| WheelSpec.AdvancePending | src/include/timer_wheel.h:84-98 | after `k` passes every unexpired entry is still in the wheel, `k` passes closer |
| WheelSpec.AdvanceFires | src/include/timer_wheel.h:84-98 | `k` passes expire exactly the entries due on passes 1 to `k`, pass by pass |
| WheelSpec.PlacePending | src/include/timer_wheel.h:101-111 | publishing a free element adds one pending entry, due on pass `timeDiff / sd + 1`, and nothing else |
| WheelSpec.PlaceFiresBefore | src/include/timer_wheel.h:101-111 | a published element changes nothing that the passes before its own expire |
| WheelSpec.PlaceFiresCount | src/include/timer_wheel.h:101-111 | from its own pass on, a published element is expired exactly once in addition |
| WheelSpec.Check | src/include/timer_wheel.h:78-99 | after `check_expiration(now)` the start time is at most `now` and less than one slot duration before it |
| WheelSpec.TraversedBounds | src/include/timer_wheel.h:80-82 | the slots traversed end at or before `now` and one more would end after it |
| WheelSpec.TraversedQuotient | src/include/timer_wheel.h:80-82 | the slots traversed (`Traversed`, counted by repeated subtraction) are the elapsed time divided by the slot duration |
| WheelSpec.CheckQuotient | src/include/timer_wheel.h:80-98 | `check_expiration(now)` does `(now - start) / sd` passes and moves the start time by that many whole slots; what it expires (`CheckFired`) is what those passes fire |
| WheelSpec.CheckIdle | src/include/timer_wheel.h:81-84 | a check within the current slot changes nothing and expires nothing |
| WheelSpec.CheckTwice | src/include/timer_wheel.h:78-99 | checking at `t1` and then at `t2` leaves the wheel and start time as one check at `t2` does |
| WheelSpec.CheckTwiceFires | src/include/timer_wheel.h:78-99 | checking at `t1` and then at `t2` expires exactly what one check at `t2` does, in the same order |
| WheelSpec.ExpiresOnTime | src/include/timer_wheel.h:78-111 | a published element is not expired while `now` is in its deadline's slot or earlier, and is expired exactly once by a later check |
| WheelSpec.ExpiryWindow | src/include/timer_wheel.h:80-82 | a check that expires an element comes after its deadline, and every check at or past deadline plus one slot duration expires it |
| WheelSpec.OneSecondSlots | src/include/timer_wheel.h:78-111 | with one-second slots an element published for second `d` is not expired by a check at `d` and is expired by a check at `d + 1` |
| TimerWheelModel.Visit | src/include/timer_wheel.h:86-95 | the visited node is expired exactly when it has no loops left, and then leaves the list with no owner and no links; otherwise it loses one loop; the successor taken first is where the walk goes on |
| TimerWheelModel.SweepStep | src/include/timer_wheel.h:86-95 | one turn of the inner loop keeps the loop invariant of the sweep: the entries visited so far are swept as the pure sweep says, the expired nodes so far are its `Due` prefix and all of them are unlinked |
| TimerWheelModel.Sweep | src/include/timer_wheel.h:85-96 | the slot's remaining entries are those of the pure sweep and the expired nodes are the pure sweep's, in list order, each with no owner and no links |
| TimerWheelModel.SweepSlot | src/include/timer_wheel.h:85-96 | the sweep of one slot list, stated on the list's entries: kept entries one loop fewer, the rest expired in order and left unlinked |
| TimerWheelModel.Append | src/include/timer_wheel.h:110 | push_back on a slot adds the free node, with its loop count, as the last entry; a node already in a list changes nothing |
| TimerWheelModel.TimerWheel.constructor | src/include/timer_wheel.h:67-76 | a valid wheel of `ns` empty, fresh, distinct slot lists, cursor 0, the given durations and start time |
| TimerWheelModel.TimerWheel.SweepCursor | src/include/timer_wheel.h:85-96 | sweeping the cursor's slot changes that slot as the pure sweep does and no other slot; the expired nodes are unlinked |
| TimerWheelModel.TimerWheel.SweepWheel | src/include/timer_wheel.h:85-96 | the same, stated on the sequence of all slots |
| TimerWheelModel.TimerWheel.NodeSetOwned | src/include/timer_wheel.h:90 | every node of the wheel is in some list, so an element unlinked by a sweep is no longer one of the wheel's nodes and later passes do not touch it |
| TimerWheelModel.TimerWheel.Step | src/include/timer_wheel.h:97 | the cursor moves to the next slot, wrapping round, and no slot changes |
| TimerWheelModel.TimerWheel.Turn | src/include/timer_wheel.h:84-98 | one pass of the outer loop is the pure `Tick` on the wheel's contents and expires `TickFired`, each element left unlinked |
| TimerWheelModel.TimerWheel.Collect | src/include/timer_wheel.h:84-98 | one pass adds what it expires to what earlier passes expired, and the earlier ones stay unlinked |
| TimerWheelModel.TimerWheel.Rebase | src/include/timer_wheel.h:82 | the start time moves by whole slots and nothing else changes |
| TimerWheelModel.TimerWheel.TurnTimes | src/include/timer_wheel.h:84-98 | `count` passes are the pure `Advance` and expire the pure `Fired`, in order, every expired element unlinked |
| TimerWheelModel.TimerWheel.CheckExpiration | src/include/timer_wheel.h:78-99 | the wheel's contents and start time afterwards are the pure `Check`, and the expired elements are `CheckFired`, in the order expire() is called, each left with no owner and no links so it can be published again |
| TimerWheelModel.TimerWheel.RelabelSlots | src/include/timer_wheel.h:108 | setting an element's loop count relabels it in whichever slot holds it, slot by slot |
| TimerWheelModel.TimerWheel.PushSlot | src/include/timer_wheel.h:110 | push_back on slot `p` appends a free node to that slot only; a node already in a list keeps its owner and links |
| TimerWheelModel.TimerWheel.PushNodes | src/include/timer_wheel.h:110 | the same push, stated on the nodes of the wheel: the node set gains at most `e`, slot `p` gains `e` at the back, other slots are unchanged; a node already in a list keeps its owner and links |
| TimerWheelModel.TimerWheel.Enqueue | src/include/timer_wheel.h:110 | the same, stated on the sequence of all slots, a node already in a list keeping its owner and links |
| TimerWheelModel.TimerWheel.SetLoops | src/include/timer_wheel.h:108 | setting the loop count is the pure `Relabel`, and changes no slot when the element is in no list |
| TimerWheelModel.TimerWheel.PlaceIn | src/include/timer_wheel.h:108-110 | a free element lands at the back of slot `p` with its loop count; one already in a list is only relabelled and keeps its owner and links |
| TimerWheelModel.TimerWheel.Publish | src/include/timer_wheel.h:101-111 | a free element is placed as the pure `Place` says, with loop count `timeDiff / loopDuration`; an element already in a list keeps its owner, its links and its place and gets the new loop count |

## Left out

- The `MUTEX_LOCK` template parameter, `std::lock_guard` and `std::mutex`: the model is sequential. The owner test in `link_node_before`/`link_node_after`, made before the lock is taken, is therefore modelled as an ordinary test.
- `std::chrono` types: times and durations are unbounded naturals. Unsigned wrap-around of `now - start_time_` or `expirationTime - start_time_` is not modelled; `CheckExpiration` and `Publish` require the time not to lie before the start time. In the source, a `now` before the start time turns `elapsed / slot_duration_` into a huge unsigned count, and `while (nSlotsTraversed--)` then sweeps the whole wheel round and round, expiring everything; a deadline before the start time likewise gives a huge slot offset and loop count.
- Integer widths: `size_t` counters and slot indices are unbounded; no overflow of `n_entries_` or `c_idx_ + nSlots` is modelled.
- The constructor does not validate its arguments in the source; the model requires a positive slot duration and at least one slot, since the source divides by both.
- `basic_expirable::expire()` is a virtual call into user code: it is modelled as the element being appended to the returned `fired` sequence, in call order.
- The virtual destructor of `node` only calls `unlink()`, which `IntrusiveList.Node.Unlink` models; object lifetime is not modelled.
- `static_cast<T*>` of the sentinels: `Front`/`Back` return the sentinel node itself on an empty list.
- Iterator objects, `operator--`, the const post-increment forms and `next()`/`prev()` accessors are not modelled as members; forward iteration from `begin()` to `end()` is `IList.Walk`, and the sweep walks the list the same way.
- Inheritance: `basic_expirable` derives from `ilist::node`; here the loop count `n_loops_` is a field of `Node`.
- `slots_` is a `std::vector` that is never resized after construction: it is a constant sequence of lists.
- IntrusiveList.Node.Unlink: requires the owner list to be valid and the node to be one of its members, which holds for every node a valid list owns; unlinking a sentinel is not modelled.
- IntrusiveList.IList.LinkNodeBefore: requires `current` to be a member or the tail sentinel, and LinkNodeAfter a member or the head sentinel; the source would dereference a null link otherwise.
- TimerWheelModel.TimerWheel.CheckExpiration: states the set of nodes reachable from the slots only as not growing; the contents of every slot are stated exactly through `Abs`.
- TimerWheelModel.TimerWheel.Publish: states the set of nodes reachable from the slots only as bounded by the old set plus `e`; the contents of every slot are stated exactly through `Abs`.
- The tests under tests/ are not modelled beyond the unit-test scenario stated by `WheelSpec.OneSecondSlots`.
