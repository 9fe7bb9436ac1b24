# liba3, verified

A Dafny model of the parts of liba3 whose correctness rests on an invariant that is not visible in
any single function: the Robin Hood hash table, the cache on top of it, the lock-free ring queue,
the intrusive list, the pool allocator, the byte buffer with its tokenizer, and the decimal printer.

Code that changes memory in place is modelled by classes and methods over arrays and heap links
with the loops and branches of the original. Each is proved against a specification on values,
and the promises of the library are proved about that specification.

* `RobinHood.dfy` treats the slot array as a sequence. The layout invariant (`Layout`, `Keyed`)
  says that the entry in the slot after `i` is at most one step further from its home than the one
  in `i`, that some slot is free or holds an entry at its home, and that keys differ. Lemmas give
  the effect of one pass of each loop. `TableModel.dfy` and `TableRuns.dfy` are the table as its
  callers see it, and whole runs of it; `HashTable.dfy` is the table itself.
* `Cache.dfy` adds the access bitmap. The ghost fields record which keys were inserted, what the
  eviction callback was called with, and the key used last; `Valid` ties them to the table, so that what
  every method keeps holds over every run.
* `Spmc.dfy` is a transition system. Each atomic access of the source is one step of the producer
  or of one of any number of consumers, and a run is any sequence of steps.
* `LinkedList.dfy` works on heap links with both sentinels.
* `Pool.dfy` threads the free list through the storage it hands out.
* `BufferModel.dfy` (values) and `Buffer.dfy` (storage) are the growable buffer, `Tokens.dfy` the
  tokenizer, `Str.dfy` reversal and printing.
* `Bits.dfy`, `Sequences.dfy` and `Wrappers.dfy` hold what these share: bitwise operators on
  naturals, and words of 64 bits where the source relies on the width.

Where the code and its documentation differ, the model follows the code:

* A failed insertion into a table that may not grow is reported before the key is looked at, so a
  key that is present is neither updated nor passed to the duplicate callback
  (`src/include/a3/ht.h:361-363` against `src/include/a3/ht.h:139-149`); and without a callback a
  present entry keeps its value, although the documentation speaks of replacing it.
  `TableRuns.InsertIsMapInsertExactly` and `TableRuns.InsertReplacesExactly` say when the
  documented behaviour holds.
* The counter that decides this counts insertions that met their own key as well, so it is not
  the number of entries (`src/include/a3/ht.h:365`). `TableRuns.CounterOverRuns` says exactly what
  it is and `TableRuns.RefusesOnlyWhenFull` when it matters; `TableRuns.OneEntryCanFillTable` is a
  run in which one entry fills a table.
* Growing a buffer does not compact it (`src/include/a3/buffer.h:171-178`), so success of
  `a3_buf_ensure_cap` does not always mean room. `BufferModel.EnsureCapGuarantee` gives the exact
  condition, `BufferModel.EnsureCapCanFallShort` an input that fails it, and
  `BufferModel.WriteStrAppends` when a whole string is affected.
* `a3_buf_ensure_max_cap` is documented to grow the buffer to its maximum, but asks only for the
  missing bytes as free room (`src/include/a3/buffer.h:188`); `BufferModel.EnsureMaxCapReaches`
  says when the maximum is reached, and `BufferModel.EnsureMaxCapCanStop` is an input that fails.
* The printing loop admits one byte more than the destination has (`src/str.c:100`).
  `Str.ItoaInto` states when it is written, and `Str.TenOverrunsOneByte` is an input.
* Inserting a key that the cache already holds panics unless the first unmarked entry from the
  eviction index on is that key (`src/include/a3/cache.h:166-170`). `Cache.Cache.Insert` gives the
  exact condition on the state before, and `Cache.Cache.InsertTwice` an input that always fails.
* A capacity that is no multiple of 64 leaves slots without a bit (`src/include/a3/cache.h:80-82`);
  `Cache.EverySlotHasBlock` and `Cache.Cache.constructor` say so exactly.

## Model

| member | source | states |
|---|---|---|
| RobinHood.ProbeCount | src/include/a3/ht.h:216-219 | the modular expression is the number of forward steps from the home slot |
| RobinHood.PathIsPoor | src/include/a3/ht.h:294-307 | every slot between an entry's home and its place is used by an entry at least as far from its own home, around the end of the array too |
| RobinHood.FullCount | src/include/a3/ht.h:358-367 | live entries never exceed the slots, and equal them exactly if every slot is used |
| RobinHood.InsertionMeetsFree | src/include/a3/ht.h:228-234 | storing the carried entry in a free slot keeps the layout and adds exactly the new pair; a present key never gets that far |
| RobinHood.InsertionMeetsDuplicate | src/include/a3/ht.h:236-241 | the duplicate branch is taken only by the key the caller offered, before any swap |
| RobinHood.InsertionMeetsOther | src/include/a3/ht.h:243-254 | passing or swapping with another entry keeps the insertion invariant and comes closer to a free slot |
| RobinHood.SearchEnds | src/include/a3/ht.h:300-302 | giving up at a free slot or a richer resident misses no entry |
| RobinHood.SearchGoesOn | src/include/a3/ht.h:298-306 | a search that goes on has inspected at most every slot once |
| RobinHood.BeginDeletion | src/include/a3/ht.h:377-383 | freeing a used slot leaves a hole that only its neighbours can notice |
| RobinHood.ShiftBack | src/include/a3/ht.h:388-394 | moving the next entry back moves the hole forward, and that entry one step closer to its home |
| RobinHood.DeletionGoesOn | src/include/a3/ht.h:388-394 | a pass keeps the deletion invariant and cannot come back to the start, even in a full table |
| RobinHood.DeletionEnds | src/include/a3/ht.h:388-397 | where the loop stops the layout is whole and exactly the deleted entry is gone |
| HashTable.HashTable.constructor | src/include/a3/ht.h:317-333 | a new table is empty with the initial capacity and obeys the layout |
| HashTable.HashTable.InsertAt | src/include/a3/ht.h:221-257 | with a free slot it terminates and keeps the layout; an absent key is added and nothing else; for a present key every slot stays as it is but for its value, which the one call of the callback decides along with the verdict |
| HashTable.HashTable.MeetDuplicate | src/include/a3/ht.h:236-241 | no slot changes but the value in that of the key, which becomes what the callback leaves; the callback's verdict is returned; without one nothing changes |
| HashTable.HashTable.FindIndex | src/include/a3/ht.h:294-307 | gives the slot of the key if and only if it is in the table, after at most cap + 1 slots |
| HashTable.HashTable.Find | src/include/a3/ht.h:369-375 | a pointer into the slot of the key, or nothing exactly if it is absent |
| HashTable.HashTable.WriteValue | src/include/a3/ht.h:152-156 | writing through that pointer changes the value of that key and keeps the layout |
| HashTable.HashTable.DeleteIndex | src/include/a3/ht.h:377-398 | removes exactly the entry in the slot, keeps the layout across the wrap-around, and terminates in a full table |
| HashTable.HashTable.Delete | src/include/a3/ht.h:400-407 | removes the key and reports whether it was there |
| HashTable.HashTable.Resize | src/include/a3/ht.h:266-284 | the layout holds for the new modulus, the entries are the same, and the duplicate callback is never called |
| HashTable.HashTable.Grow | src/include/a3/ht.h:286-292 | doubles the capacity with the same entries exactly if growth is allowed |
| HashTable.HashTable.Insert | src/include/a3/ht.h:358-367 | the insertion of the model, its verdict and its callback calls; refused insertions leave every slot alone, and so do those of a present key but for its value unless the table grows; the inner insertion always has a free slot |
| HashTable.HashTable.NextEntry | src/include/a3/ht.h:259-264 | the first used slot from an index on, or -1 exactly if there is none |
| HashTable.HashTable.SetDuplicateCb | src/include/a3/ht.h:341-344 | the callback is the one set, and nothing else changes |
| HashTable.HashTable.ForEach | src/include/a3/ht.h:425-434 | iteration visits every entry exactly once |
| HashTable.HashTable.Perform | src/include/a3/ht.h:358-407 | any sequence of operations on the slot array is the run of the model, with the same outcomes |
| HashTable.ContentsLookup | src/include/a3/ht.h:294-307 | searching the slots and looking up the set of entries agree |
| HashTable.PutBySlots | src/include/a3/ht.h:221-257 | placing a pair in the set of entries is what the insertion does to the slots |
| TableModel.PutCount | src/include/a3/ht.h:221-257 | one entry more for a new key and none for a present one; entries stay unique |
| TableModel.InsertNew | src/include/a3/ht.h:358-367 | a new key in a table that may not grow is stored unless the counter has reached the capacity |
| TableRuns.StepKeepsValid | src/include/a3/ht.h:358-407 | every operation keeps live <= size <= cap, and the counter's excess grows by one exactly at an admitted duplicate |
| TableRuns.CounterOverRuns | src/include/a3/ht.h:358-407 | in every run from an empty table, size is the live entries plus the insertions that hit an existing key, and at most cap; so it is the number of entries exactly if there was no such insertion |
| TableRuns.StepIsMapStep | src/include/a3/ht.h:139-166 | each operation is the operation of a finite map, and a refused insertion changes nothing |
| TableRuns.InsertIsMapInsertExactly | src/include/a3/ht.h:139-149 | an insertion does what is documented exactly if growth is allowed, the counter is below the capacity, or the documented outcome is to fail and keep the value |
| TableRuns.InsertReplacesExactly | src/include/a3/ht.h:139-149 | when a present key has the offered value afterwards |
| TableRuns.SecondInsertIsIgnored | src/include/a3/ht.h:139-149 | a run in which a second insertion of a key does not replace the first |
| TableRuns.OneEntryCanFillTable | src/include/a3/ht.h:171-174 | thirty-one insertions of one key give one entry, a counter of 31, and a table that fails to insert a new key |
| TableRuns.StepIsMachineStep | src/include/a3/ht.h:358-407 | one operation of the table is one of a finite map with a counter and a capacity |
| TableRuns.RunRefinesMap | src/include/a3/ht.h:358-407 | over every run, with growth or without and with or without a callback, the table reports and holds what that machine does, which computes refusals from its counter alone |
| TableRuns.GrowingRunIsMapRun | src/include/a3/ht.h:358-407 | with growth allowed every run is that of a plain finite map |
| TableRuns.GrowingNeverRefuses | src/include/a3/ht.h:358-367 | no insertion of any run is refused if growth is allowed |
| TableRuns.RefusesOnlyWhenFull | src/include/a3/ht.h:361-363 | an insertion is refused exactly if growth is forbidden and the counter equals the capacity |
| TableRuns.GrowsAtNineTenths | src/include/a3/ht.h:361-363 | a table doubles exactly if it may grow and nine tenths of its capacity are counted, the first time with 28 of 31 |
| TableRuns.CalledOnce | src/include/a3/ht.h:236-241 | the duplicate callback is called once, with the stored and the offered value, exactly by an admitted insertion of a present key |
| TableRuns.GetAfterPut | src/include/a3/ht.h:139-149 | what each key maps to after an insertion |
| TableRuns.GetAfterDelete | src/include/a3/ht.h:163-166 | what each key maps to after a deletion |
| Spmc.RoundCapacity | src/spmc.c:19-25 | the capacity is the least power of two not below the wanted one, and the mask is one less |
| Spmc.IndexIsSlot | src/spmc.c:51-55 | masking a ticket is taking it modulo the capacity |
| Spmc.StepKeepsInv | src/spmc.c:57-120 | every step of every thread keeps the invariant of tickets and slots |
| Spmc.StoreKeepsInv | src/spmc.c:101-102 | storing disturbs none of the other tickets of the window |
| Spmc.TakeKeepsWindow | src/spmc.c:72-86 | emptying a slot takes exactly the exchanging thread's ticket out of the window |
| Spmc.StepExtendsPast | src/spmc.c:57-87 | a call that returns an element returns that of a ticket its thread had claimed and nobody had been given; no step rewrites what was enqueued, claimed or delivered |
| Spmc.StepKeepsLatest | src/spmc.c:57-120 | a ticket that a thread holds is the latest it has claimed, after every step |
| Spmc.ConsumerOrder | src/spmc.c:57-87 | at any point of any run, the element a thread is given was enqueued after all those it was given before |
| Spmc.DequeueReturnsNothing | src/spmc.c:57-87 | a dequeue returns NULL exactly where a try gives up: after five failed exchanges, or with every ticket below the loaded end claimed; an exchange of a slot never yields it |
| Spmc.TryDequeueAlone | src/spmc.c:57-75 | a try that runs alone claims and returns the oldest element, and returns NULL exactly if there is none left to claim |
| Spmc.FailedClaimReloads | src/spmc.c:63-69 | a failed exchange loads the current head, and the next undisturbed attempt claims it |
| Spmc.DequeueAlone | src/spmc.c:77-87 | a dequeue that runs alone returns the oldest element; with none left it has its ticket and waits |
| Spmc.TicketSafety | src/spmc.c:57-120 | in every interleaving each ticket has one claimant, no two threads hold one ticket, and ticket t delivers exactly the t-th element, never NULL |
| Spmc.NoLossNoDuplication | src/spmc.c:57-120 | over every run the elements returned are among those enqueued, none more often, and all of them once every ticket is delivered |
| Spmc.EnqueueFailsWhenFull | src/spmc.c:89-105 | each of the two checks of a try fails exactly while ticket end - cap is unclaimed or untaken |
| Spmc.EnqueueReports | src/spmc.c:89-120 | true is reported exactly where an element is published, false only by a try, and a blocking call without room stays where it is |
| Spmc.EnqueueAlone | src/spmc.c:89-120 | an enqueue that runs alone publishes its argument if there is room; if not, the try returns false and the other one waits |
| Spmc.AcceptedIsEnqueued | src/spmc.c:89-120 | over every run the elements published are the arguments of the calls that reported success, in the order of the calls |
| Spmc.StoreOverwritesNothing | src/spmc.c:89-120 | untaken elements occupy other slots than the one stored to, and survive the store |
| Spmc.UntakenApart | src/spmc.c:89-120 | untaken elements are in pairwise different slots |
| Spmc.CapacityCheckIsNotEnough | src/spmc.c:107-116 | a run in which the capacity check lets the producer on while the slot is still occupied |
| Spmc.BlockedConsumers | src/spmc.c:77-87 | when head is past end, exactly head - end consumers wait, holding the tickets from end to head |
| Spmc.QuiescentIsEmpty | src/spmc.c:39-44 | with head == end and no call under way every slot is NULL and delivery in ticket order equals the enqueued sequence |
| Cache.MarkAccessMarks | src/include/a3/cache.h:110-117 | exactly the slot's mark and those there were before are set afterwards, but in a block that would fill only the slot's own; no block fills |
| Cache.FullTableHasCandidate | src/include/a3/cache.h:136-150 | a full table always has an occupied slot without a mark |
| Cache.RecentIsNoVictim | src/include/a3/cache.h:136-150 | a marked key is never the victim |
| Cache.EverySlotHasBlock | src/include/a3/cache.h:80-82 | the bitmap covers every slot exactly if the capacity is a multiple of 64 |
| Cache.WithoutVictim | src/include/a3/cache.h:163-169 | the key is missing once the victim is gone exactly if it was before or is the victim's |
| Cache.RecentStaysIn | src/include/a3/cache.h:136-169 | evicting never makes room for a key that is present and marked |
| Cache.KeysRemove | src/include/a3/cache.h:152-156 | taking an entry out takes exactly one key out |
| Cache.Cache.constructor | src/include/a3/cache.h:72-83 | an empty cache of any capacity the table accepts; it obeys the invariant exactly if the capacity is a multiple of 64 |
| Cache.Cache.Access | src/include/a3/cache.h:110-117 | the marks afterwards, slot by slot, and the words behind them |
| Cache.Cache.Accessed | src/include/a3/cache.h:119-123 | the mask test reads the bit of the slot |
| Cache.Cache.Find | src/include/a3/cache.h:125-134 | a pointer into the slot of the key, which is marked beside the marks there were; or nothing and no mark exactly if it is absent |
| Cache.Cache.Seek | src/include/a3/cache.h:139-148 | stops at the first occupied unmarked slot in cyclic order, or reports that there is none |
| Cache.Cache.Evict | src/include/a3/cache.h:136-161 | panics exactly if no slot qualifies, so never in a full table, nor in a nonempty one without marks; otherwise hands the victim to the callback once, removes exactly it and clears all marks, so that further evictions do not panic while entries are left |
| Cache.Cache.Insert | src/include/a3/cache.h:163-172 | any key: with an exact counter a missing one never panics, and a full table loses exactly the first candidate and never the key used last; otherwise it panics exactly if evicting does not make room, which a caller can read off the state before; without a panic the key is then found and marked, after an eviction as the only one and else beside the marks there were, and the keys inserted are those stored plus those passed to the callback |
| Cache.Cache.InsertTwice | src/include/a3/cache.h:163-172 | inserting a key twice in a row panics |
| Cache.Cache.WriteValue | src/include/a3/cache.h:125-134 | writing through the pointer found changes that value only and keeps the invariant |
| LinkedList.List.constructor | src/include/a3/ll.h:63-71 | a new list is empty and linked |
| LinkedList.List.EndsAre | src/include/a3/ll.h:77-84 | both representations of empty mean no elements; head and end are the first and last element |
| LinkedList.List.NeighboursAre | src/include/a3/ll.h:87-98 | next and previous, read off the links alone, are the neighbours in the sequence |
| LinkedList.List.InsertAfter | src/include/a3/ll.h:101-110 | the sequence with the element inserted behind the given one; all links stay consistent |
| LinkedList.List.InsertBefore | src/include/a3/ll.h:113-122 | the sequence with the element inserted before the given one |
| LinkedList.List.Remove | src/include/a3/ll.h:125-131 | the sequence without the element |
| LinkedList.List.Push | src/include/a3/ll.h:134-149 | the element in front of the sequence, from either representation of empty |
| LinkedList.List.Enqueue | src/include/a3/ll.h:152-161 | the element behind the sequence |
| LinkedList.List.Pop | src/include/a3/ll.h:164-173 | the sequence without its first element |
| LinkedList.List.ForEach | src/include/a3/ll.h:179-182 | every element is visited once and in order even if the body removes the current one |
| LinkedList.List.ForEachReverse | src/include/a3/ll.h:185-189 | the reverse of the sequence is visited |
| LinkedList.VisitStep | src/include/a3/ll.h:179-182 | the element fetched before the body ran is the next one of the list the body left |
| LinkedList.KeepMembers | src/include/a3/ll.h:179-182 | what is left after the loop are the elements its body did not remove |
| LinkedList.KeepAppend | src/include/a3/ll.h:179-182 | and they are left in their order |
| LinkedList.List.InsertAndRemove | src/include/a3/ll.h:101-131 | removing an element undoes its insertion before or behind another one |
| Pool.AlignUpIsLeast | src/pool.c:20-21 | for a power of two the mask expression is the least multiple not below its argument |
| Pool.BlockLayout | src/pool.c:43-44 | object and header are disjoint and inside one block, and block sizes keep both alignments |
| Pool.AddressesAligned | src/pool.c:23-25 | every object is aligned if the storage is; so is every header if the alignment is at least 8 or the storage is word aligned |
| Pool.Pool.constructor | src/pool.c:41-64 | all blocks are on the free list, in order, inside the storage, and all objects are zero |
| Pool.Pool.LinkBlocks | src/pool.c:56-62 | the loop over zeroed storage leaves an acyclic, null-terminated list of all blocks |
| Pool.Pool.AllocBlock | src/pool.c:66-77 | NULL exactly if every block is out; otherwise the object of a block that was not, zeroed if the pool zeroes its blocks; only its header is cleared |
| Pool.Pool.FreeBlock | src/pool.c:79-89 | the block is free again, at the front; no cell of another block changes; with zeroing, its whole object is zero, and without, no cell but the header changes |
| Pool.Pool.WriteObject | src/pool.c:66-89 | writing to an outstanding object cannot break the free list |
| Pool.Pool.WalkFree | src/pool.c:94-96 | the walk visits the free blocks, each once, in list order |
| Pool.Pool.EveryBlockAccounted | src/pool.c:66-89 | in every state free and outstanding blocks add up to all blocks |
| BufferModel.EnsureCapGuarantee | src/include/a3/buffer.h:159-179 | unread bytes are kept, when it fails, and exactly when success means contiguous room |
| BufferModel.EnsureCapPlaces | src/include/a3/buffer.h:159-179 | where the bytes and the storage are afterwards: moved to the front exactly if that is needed and enough, grown to the limit exactly if it is not |
| BufferModel.ResetMoves | src/include/a3/buffer.h:117-125 | an empty buffer starts at the front with all its room, another one stays in place |
| BufferModel.EnsureCapCanFallShort | src/include/a3/buffer.h:171-178 | a buffer for which success leaves too little room |
| BufferModel.EnsureMaxCapReaches | src/include/a3/buffer.h:181-189 | growing to the limit always reports success, and reaches it exactly if the free bytes are fewer than those missing |
| BufferModel.EnsureMaxCapCanStop | src/include/a3/buffer.h:181-189 | a buffer that is reported as grown and stays below the limit |
| BufferModel.WriteByteAppends | src/buffer.c:54-62 | the byte is appended, or refused exactly if the limit of unread bytes is reached |
| BufferModel.ReadDrops | src/buffer.c:116-122 | the bytes read are dropped, and what is left stays in place, or starts over if nothing is |
| BufferModel.BufferIsBoundedQueue | src/buffer.c:54-122 | every run of byte writes and reads is a bounded first-in first-out queue |
| BufferModel.WriteStrAppends | src/include/a3/buffer.h:222-232 | a string is appended whole, refused exactly for the limit, or fails the length assertion under an exact condition, which never holds of an empty buffer |
| Buffer.Buffer.ResetIfEmpty | src/include/a3/buffer.h:117-125 | an empty buffer has head and tail 0 afterwards, another one keeps them |
| Buffer.Buffer.Space | src/include/a3/buffer.h:140-145 | the room behind the unread bytes |
| Buffer.Buffer.Compact | src/include/a3/buffer.h:148-156 | the unread bytes are moved to the front unchanged |
| Buffer.Buffer.Reallocate | src/str.c:28-34 | the bytes survive a change of length |
| Buffer.Buffer.EnsureCap | src/include/a3/buffer.h:159-179 | the outcome of the model; compaction is reached only with head != 0 |
| Buffer.Buffer.EnsureMaxCap | src/include/a3/buffer.h:182-189 | the outcome of the model |
| Buffer.Buffer.WriteByte | src/buffer.c:54-62 | the outcome of the model, inside the storage |
| Buffer.Buffer.Read | src/buffer.c:116-122 | drops the bytes read from the front; a count past the unread bytes fails an assertion, and no other one does |
| Buffer.Buffer.Wrote | src/include/a3/buffer.h:214-219 | bytes in place behind the unread ones become unread |
| Buffer.Buffer.WriteStr | src/include/a3/buffer.h:222-232 | the outcome of the model, with the copy inside the storage |
| Buffer.Buffer.WriteNum | src/buffer.c:109-113 | a word's decimal digits are written; the scratch space always suffices |
| Buffer.Buffer.Memmem | src/buffer.c:124-130 | the first occurrence among the unread bytes, or none exactly if there is none |
| Buffer.Buffer.Consume | src/buffer.c:164-176 | reads the needle exactly if the unread bytes begin with it |
| Buffer.Buffer.EatDelims | src/buffer.c:141-144 | reading stops at the first byte that is no delimiter |
| Buffer.Buffer.ZeroDelims | src/buffer.c:153-157 | exactly the run of delimiters behind the token becomes zero |
| Buffer.Buffer.TokenNext | src/buffer.c:135-162 | the range and the new head are those of the tokenizer, and only skipped trailing delimiters are overwritten |
| Buffer.Buffer.TokenBytes | src/buffer.c:153-161 | the range still holds the token, and the bytes behind it are unread and unchanged |
| Buffer.Buffer.TakeToken | src/buffer.c:135-162 | the bytes of the token and of what is left unread are those of the tokenizer |
| Buffer.Buffer.TakeAllTokens | src/buffer.c:135-162 | calls until no token is left give all tokens, whichever of them preserve the delimiters behind theirs |
| Tokens.NextIsTheCut | src/buffer.c:135-162 | the token found is the only cut of its kind, by the bytes of the text, with trailing delimiters preserved or not |
| Tokens.PreservingKeepsTokens | src/buffer.c:135-162 | preserving delimiters or not, call by call, does not change the tokens |
| Tokens.AllTokens | src/buffer.c:135-162 | tokenizing a text of tokens and gaps gives back the tokens |
| Tokens.EveryTextSplits | src/buffer.c:135-162 | every text is its own tokens with gaps of delimiters: nothing else is lost |
| Str.ReverseInPlace | src/str.c:75-81 | the bytes of the string are reversed and no others touched |
| Str.DigitsEvaluate | src/str.c:94-104 | the printed numeral has no leading zeros and evaluates to the number |
| Str.EvalPrints | src/str.c:94-104 | a numeral without leading zeros is what its value prints as |
| Str.DigitCount | src/str.c:94-104 | at most n digits exactly if the number is below ten to the n |
| Str.TenOverrunsOneByte | src/str.c:94-104 | printing ten into a string of one byte writes two |
| Str.ItoaInto | src/str.c:94-104 | the whole numeral inside the string exactly if the number is below ten to its length; otherwise the low digits and one byte past it |

## Left out

- Weak memory orders: steps of the queue are sequentially consistent, and its tickets are naturals that do not wrap around.
- Liveness of the queue's spin loops: a waiting thread may take idle steps for ever.
- The queue is a transition system on values rather than a class, because its threads interleave.
- Queue elements are never NULL: `None` stands for a null slot and the model enqueues only `Some`.
- HighwayHash, random hash keys and comparators are any lawful hash function and equivalence.
- Failing allocations, logging, and a panic other than as an outcome.
- Counters, capacities and hashes of the table are naturals without the wrap-around of `size_t` and `uint64_t`.
- The duplicate callback is a pure function of the stored and the offered value; the eviction callback is the record of its calls.
- HashTable.HashTable.DeleteIndex: is stated for occupied slots, since deleting a free one would miscount.
- `A3_CACHE_CLEAR`: deleting shifts a later entry into the current slot, and the loop moves past it.
- LinkedList.Link: a pointer to a next cell is modelled as a reference to the link that holds the cell; the container-of arithmetic is not modelled.
- LinkedList.List.ForEach: the body may remove the current element and nothing else.
- Pool.Pool.constructor: takes the storage's address as given, leaves out the callbacks for new blocks, and needs at least one block, as the assertion of the allocator it calls does (src/shim/aligned_alloc/aligned_alloc.c).
- Pool.Pool.FreeBlock: is stated for blocks that are out, and a pointer takes one cell of its header.
- Buffer.Buffer.Memmem: assumes the first-occurrence meaning of the search; the replacement in src/shim/memmem/missing.c, which stops early, is not part of this model.
- Buffer.Buffer.Reallocate: leaves the new bytes arbitrary and leaves out the terminating zero byte behind the new length.
- Formatted output to a buffer, `a3_string_itoa` with its floating-point logarithm, and the other string functions.
- src/include/a3/pq.h, src/include/a3/sll.h, src/vec.c, the reference counters, option and error types and the shims.
