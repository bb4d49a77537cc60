# Models of libstdc++ headers, with proofs

A Dafny model of the stateful and concurrent parts of a libstdc++ header set whose shared pointers
and atomics have been made usable in constant evaluation. `dafny verify dfyconfig.toml` checks all of
it. Paths are given from the root of the repository.

| files | what they model |
|---|---|
| `Chains`, `Buckets`, `Primes`, `ChainOps`, `TableRecord`, `HashTable`, `TableRuns` | the chained hash table: node links relinked in place, all insert, erase, resize, copy, iteration and comparison loops, and the abstract multiset it refines |
| `FutexWait` | waiting and notifying on a futex word with a waiter bit, any number of threads |
| `PaddedCas`, `CasThreads`, `FetchLoop` | compare-and-exchange on types with padding, threads that use it, and the read-modify-write loops built on it |
| `SharedCount`, `SpAtomic` | the shared-pointer control block and the atomic shared pointer (the C++26 variant) as step machines |
| `StringStorage`, `StringRuns`, `StringPool` | strings with a local buffer: moves, assignments, swap, appending, allocators, and who owns which heap buffer over whole programs |
| `Powers`, `Decimal` | digit counting, two-digits-at-a-time printing, integer `to_string` |
| `Gcds`, `Durations` | rational periods: common period, conversion, comparison, floor, ceil, round |
| `ForwardList`, `Reversal` | in-place reversal and splicing of singly linked lists |
| `AlignBuffer` | `std::align` in wrapping arithmetic |
| `ExceptionPtr` | reference counts of exception objects over runs of handle operations |

Loops that work on memory are methods over node objects and arrays, proved against specification
functions; protocols are functions from state and action to state, with an invariant that every action
keeps and theorems about every run. Ghost records (`nodes`/`freed`, `live`/`taken`) make "given back
once" and "not read after it was given back" part of what is proved. A capacity and the characters that share
its storage are read only while the storage holds them.

## Where the code and its promises part

For each of these the exact condition is proved under which the code does what is promised, and where that
is not already telling, a lemma gives a concrete input or run.

- `hashtable`'s `operator==` compares bucket by bucket whether each value of the left table occurs in the
  right one. With repeated values it can equate different tables, and is not symmetric
  (`CoversExact`, `EqualsNotSymmetric`). With distinct values on the left it says yes exactly when both tables
  have equally many buckets and the same contents (`EqualsExact`); so a table that has been grown differs from one
  with the same contents that has not (`EqualsMissesGrowth`). That both tables hash alike is assumed here, and not
  compared by the code.
- The timed futex waits return `false`, that is 0, for a deadline before the clock's epoch, as if 0 had been
  loaded. A caller that waits for 0 is told that it came (`TimedWaitExact`, `TimedWaitFalseSuccess`).
- A stored value that itself carries the waiter bit is not shown by loads (`LoadShowsLastStore`).
- The floating-point and min/max loops call the weak compare-and-exchange with its default form, which is meant for
  `atomic<T>`, also for `atomic_ref`. On an object whose padding is not clear they do not end as long as nobody
  stores to it (`PaddingBlocksEveryone`, `AloneEndsExactly`). The loop written for `atomic_ref` does end, within three
  attempts, as its comment says (`RefWithinThree`, `RefNeedsThree`).
- `_Sp_atomic`'s C++26 wait sleeps on the control-block word alone. A change is missed in some run exactly when the
  program stores another pointer with the control block of the value waited on (`WaitExact`). And a sleeper is
  woken for nothing exactly when another call on the same atomic is under way, since it takes that call's lock bit
  for a change (`WakeExact`, `LoadWakesSleeper`). The C++20 variant beside it re-checks both fields.
- `_M_transfer_after` without an end drops whatever was behind `this`; between two lists it keeps every node exactly
  when nothing was (`TransferAllKeepsNodes`). Within one list it cuts off what stands between `this` and `begin`
  (`TransferAllForwardKeepsNodes`), and with `this` behind `begin` it makes a ring (`TransferAllBackward`).
- `std::align` can succeed and still return a null pointer, when the buffer starts at the null address, or ends with
  the address space and asks for no bytes (`NullMeansSuccess`).

## Model

| member | source | states |
|---|---|---|
| Primes.LowerBound | include/c++/17.0.0/bits/stl_algobase.h:1499-1525 | binary search in a sorted list: everything before the result is below the bound, everything from it on is not |
| Primes.NextPrime | include/c++/17.0.0/backward/hashtable.h:227-234 | the least listed prime not below the argument, the largest one when there is none |
| HashTable.HashTable.constructor | include/c++/17.0.0/backward/hashtable.h:336-361 | an empty table whose size is the next prime |
| HashTable.HashTable.Find | include/c++/17.0.0/backward/hashtable.h:516-525 | the first node with the key in iteration order, nothing exactly when there is none |
| HashTable.HashTable.Count | include/c++/17.0.0/backward/hashtable.h:540-551 | the number of nodes with the key in the whole table, although only one bucket is read |
| HashTable.HashTable.InsertUniqueNoresize | include/c++/17.0.0/backward/hashtable.h:756-773 | inserts exactly when the key was absent, then at the head of its bucket; otherwise returns the first match and changes nothing |
| HashTable.HashTable.InsertEqualNoresize | include/c++/17.0.0/backward/hashtable.h:775-798 | adds one entry behind the first equal key, or at the head; chains stay sound and grouped |
| HashTable.HashTable.InsertUnique | include/c++/17.0.0/backward/hashtable.h:443-448 | the growing entry point: multiset effect, and afterwards elements do not outnumber buckets unless the table has its largest size |
| HashTable.HashTable.InsertEqual | include/c++/17.0.0/backward/hashtable.h:450-455 | the same for equal keys |
| HashTable.HashTable.FindOrInsert | include/c++/17.0.0/backward/hashtable.h:800-820 | returns an entry with the key, inserting the given one exactly when there was none |
| HashTable.HashTable.EqualRange | include/c++/17.0.0/backward/hashtable.h:822-846 | the half-open stretch of the iteration order between the two iterators is exactly the list of all nodes with the key |
| HashTable.HashTable.EraseKey | include/c++/17.0.0/backward/hashtable.h:878-935 | removes all nodes with the key and no other, keeps the order of the rest, returns the old count, also when the key lies inside one of those nodes |
| ChainOps.EraseKeyIn | include/c++/17.0.0/backward/hashtable.h:884-933 | the chain loop with the saved slot: exactly the nodes with the key are unlinked and given back, and neither a key nor a link is read of a node that was |
| ChainOps.SameKey | include/c++/17.0.0/backward/hashtable.h:893-930 | a comparison may read the caller's key only while the node that holds it is alive |
| ChainOps.EraseFront | include/c++/17.0.0/backward/hashtable.h:1096-1103 | gives nodes back one by one, having read the link before |
| ChainOps.Predecessor | include/c++/17.0.0/backward/hashtable.h:1084-1090 | finds the node before a given one by walking the bucket |
| HashTable.HashTable.EraseAt | include/c++/17.0.0/backward/hashtable.h:937-973 | removes exactly the node the iterator stands on |
| HashTable.HashTable.EraseRange | include/c++/17.0.0/backward/hashtable.h:975-998 | removes exactly what iteration visits from first until last, across any number of buckets, and keeps the order of the rest |
| HashTable.HashTable.EraseBucket | include/c++/17.0.0/backward/hashtable.h:1065-1090 | removes a stretch of one bucket that begins at a node, given back node by node |
| HashTable.HashTable.EraseBucketFront | include/c++/17.0.0/backward/hashtable.h:1092-1104 | removes the front of one bucket |
| HashTable.HashTable.Grow | include/c++/17.0.0/backward/hashtable.h:1018-1063 | relinks every node once; each new bucket is what belongs there, in reverse of the old iteration order |
| HashTable.HashTable.Resize | include/c++/17.0.0/backward/hashtable.h:1018-1063 | grows only when needed, to the next prime; afterwards there are as many buckets as asked for, or the largest number there is; the multiset of entries and the set of nodes stay as they were |
| TableRecord.RelinkAll | include/c++/17.0.0/backward/hashtable.h:1034-1046 | the two nested loops produce the array obtained by pushing the nodes, in iteration order, onto their new buckets |
| Buckets.RehashedKeepsNodes | include/c++/17.0.0/backward/hashtable.h:1034-1046 | rehashing neither loses nor duplicates a node |
| Buckets.RehashedGood | include/c++/17.0.0/backward/hashtable.h:1034-1046 | every run of equal keys stays contiguous, so all lookups stay right after a resize |
| TableRecord.MatchesReversed | include/c++/17.0.0/backward/hashtable.h:1034-1046 | the matches of a key after a resize are the old ones, reversed |
| TableRecord.RunInOrder | include/c++/17.0.0/backward/hashtable.h:824-846 | the run of a key inside its bucket is all there is of that key in the iteration order |
| HashTable.HashTable.Begin | include/c++/17.0.0/backward/hashtable.h:391-398 | the first node of the iteration order, or the end |
| HashTable.HashTable.Increment | include/c++/17.0.0/backward/hashtable.h:646-661 | steps from each position of the iteration order to the next, across empty buckets |
| HashTable.HashTable.Traverse | include/c++/17.0.0/backward/hashtable.h:391-406 | iteration ends and visits every node exactly once |
| HashTable.HashTable.Clear | include/c++/17.0.0/backward/hashtable.h:1106-1126 | gives back every node ever taken and leaves an empty table of the same size |
| HashTable.HashTable.Copy | include/c++/17.0.0/backward/hashtable.h:1128-1161 | a copy has the same entries in the same order, in nodes of its own |
| HashTable.HashTable.Assign | include/c++/17.0.0/backward/hashtable.h:351-364 | copy assignment gives back every old node and copies; assigning to itself changes nothing |
| HashTable.HashTable.Equals | include/c++/17.0.0/backward/hashtable.h:702-741 | the loops compute: equally many buckets, each pair equally long with the first covered by the second |
| TableRuns.EqualsDecides | include/c++/17.0.0/backward/hashtable.h:702-741 | between chains of one hash function and equally many buckets, when the left ones repeat no value, that test holds exactly when both hold the same multiset |
| TableRuns.EqualsExact | include/c++/17.0.0/backward/hashtable.h:702-741 | exact condition over tables: with equal hash functions and no value repeated on the left, the comparison says yes if and only if the bucket counts agree and the multisets agree |
| TableRuns.EqualsMissesGrowth | include/c++/17.0.0/backward/hashtable.h:702-741 | two tables that hold the same single entry, one of them grown by a resize, compare unequal under any hash function |
| TableRuns.CoversExact | include/c++/17.0.0/backward/hashtable.h:702-741 | exact condition: the test of a bucket means equal contents for every bucket it may be compared with if and only if it repeats no value |
| TableRuns.CoversNotSymmetric | include/c++/17.0.0/backward/hashtable.h:702-741 | with repeated values the comparison of two buckets is not symmetric: a concrete pair |
| TableRuns.EqualsNotSymmetric | include/c++/17.0.0/backward/hashtable.h:702-741 | two tables, built by insertion under any hash function, of which the first equals the second and not the other way round |
| TableRuns.FoundIffHeld | include/c++/17.0.0/backward/hashtable.h:516-525 | a key is found exactly when the abstract multiset has an entry with it |
| TableRuns.FoundIsHeld | include/c++/17.0.0/backward/hashtable.h:540-551 | the nodes found under a key carry exactly the entries of the multiset with that key |
| TableRuns.ErasedIsHeld | include/c++/17.0.0/backward/hashtable.h:878-935 | erasing a key removes exactly its entries from the multiset |
| TableRuns.UniqueKept | include/c++/17.0.0/backward/hashtable.h:756-773 | without the two equal-key insertions keys stay unique |
| TableRuns.PerformInsert | include/c++/17.0.0/backward/hashtable.h:443-455 | every insertion, growing or not, refines its effect on the multiset; the growing ones leave room: elements no more than buckets, or the largest table |
| TableRuns.PerformErase | include/c++/17.0.0/backward/hashtable.h:878-935 | erasing by a key, also one that lies in a node of the table, removes exactly its entries and keeps the order of the rest |
| TableRuns.PerformHeld | include/c++/17.0.0/backward/hashtable.h:878-935 | erasing by the key stored at a position, reached by stepping an iterator, removes exactly the entries of that key |
| TableRuns.PerformOne | include/c++/17.0.0/backward/hashtable.h:936-973 | erasing at an iterator, reached by stepping from the beginning, removes exactly the node iteration visits there, and nothing at the end |
| TableRuns.Perform | include/c++/17.0.0/backward/hashtable.h:443-455 | every operation refines its effect on an abstract multiset, and keeps room unless it is an insertion that does not grow the table |
| TableRuns.Run | include/c++/17.0.0/backward/hashtable.h:443-455 | every run, of any length, of growing and non-growing insertions, erasures by key, by a key in the table, by iterator and by range, resizes and clears refines a run of the multiset; without the non-growing insertions there are never more elements than buckets while there are at most 4294967291 elements; keys stay unique without the equal-key insertions |
| TableRuns.PerformSpan | include/c++/17.0.0/backward/hashtable.h:975-998 | erasing between two iterators, reached by stepping from the beginning, removes exactly the nodes iteration visits there |
| TableRuns.SpanErasedLess | include/c++/17.0.0/backward/hashtable.h:975-998 | such an erasure only takes away, and exactly that many |
| FutexWait.NextInv | include/c++/17.0.0/bits/atomic_futex.h:98-120 | every atomic action of any thread keeps the invariant on word, sleepers and results |
| FutexWait.NoLostWakeup | include/c++/17.0.0/bits/atomic_futex.h:98-120 | in every reachable state a sleeper has a notification coming, or the word still shows its assumed value with the bit and its condition is false |
| FutexWait.MetNeverSleeps | include/c++/17.0.0/bits/atomic_futex.h:109-118 | a waiter whose condition already holds does not fall asleep, and its next load returns |
| FutexWait.LoadShowsLastStore | include/c++/17.0.0/bits/atomic_futex.h:85-89 | a load shows the last stored value exactly when that value did not itself carry the waiter bit |
| FutexWait.UntimedWaitsAreRight | include/c++/17.0.0/bits/atomic_futex.h:201-219 | the untimed waits return only on a stored value that meets their condition |
| FutexWait.TimedWaitExact | include/c++/17.0.0/bits/atomic_futex.h:251-277 | exact condition: the timed wait answers by its last load if and only if it is not the case that the deadline is before the epoch, zero is awaited and something else was seen |
| FutexWait.TimedWaitFalseSuccess | include/c++/17.0.0/bits/atomic_futex.h:169-177 | a run in which waiting for zero reports success on a word that never held it |
| FutexWait.DecodeMask | include/c++/17.0.0/bits/atomic_futex.h:85-89 | the model's words are the 32-bit words: masking the bit |
| FutexWait.DecodeSet | include/c++/17.0.0/bits/atomic_futex.h:109-111 | the model's words are the 32-bit words: setting the bit |
| FutexWait.EncodeDecode | include/c++/17.0.0/bits/atomic_futex.h:80-83 | nothing of a 32-bit word is lost in the model: encoding undoes decoding |
| PaddedCas.CompareExchangeRef | include/c++/17.0.0/bits/atomic_base.h:1201-1240 | the loop for atomic_ref: outcome, number of attempts, stored value with clear padding, and the caller's expected value afterwards |
| PaddedCas.RefSafe | include/c++/17.0.0/bits/atomic_base.h:1201-1240 | under any interference and any spurious failures, success replaced an equal value, failure saw a different one, and every earlier attempt saw the expected value with other padding |
| PaddedCas.RefWithinThree | include/c++/17.0.0/bits/atomic_base.h:1212-1222 | when all writers clear the padding the strong form decides within three attempts |
| PaddedCas.RefNeedsThree | include/c++/17.0.0/bits/atomic_base.h:1212-1222 | three attempts can be needed: the run the comment describes |
| PaddedCas.RefUnboundedOtherwise | include/c++/17.0.0/bits/atomic_base.h:1212-1222 | without that discipline no bound holds |
| PaddedCas.AtomicOnceExact | include/c++/17.0.0/bits/atomic_base.h:1180-1200 | exact condition: the single attempt compares values if and only if the cell's padding is clear or the values differ |
| CasThreads.WithinThree | include/c++/17.0.0/bits/atomic_base.h:1212-1222 | with any number of threads storing, exchanging and comparing on one cell, no call needs a fourth attempt, whatever padding was there at first |
| CasThreads.ComparesValues | include/c++/17.0.0/bits/atomic_base.h:1201-1287 | in every interleaving all these accesses are a history of one register of values, and each comparison's decision is an access of its own made while it ran |
| FetchLoop.NextInv | include/c++/17.0.0/bits/atomic_base.h:1390-1512 | every atomic step keeps: each call has made at most one exchange since it began |
| FetchLoop.Linearizes | include/c++/17.0.0/bits/atomic_base.h:1390-1512 | in every interleaving, with plain stores among the calls, the cell is the fold of the operations and stores in their order; each call made exactly one exchange while it ran and returns the value just before it (just after, for the forms that ask for it); different calls have different ones, in real-time order, and every entry is a store or some call's exchange |
| FetchLoop.FoldOfMin | include/c++/17.0.0/bits/atomic_base.h:1475-1491 | the fold of minimum entries is the least of the first value and their operands |
| FetchLoop.FoldOfMax | include/c++/17.0.0/bits/atomic_base.h:1494-1510 | the fold of maximum entries is the greatest |
| FetchLoop.OperandsOfRun | include/c++/17.0.0/bits/atomic_base.h:1475-1510 | in a run whose calls are all of one kind the cell is a fold of entries of that kind, and the entries are exactly the operands of the calls that have made their exchange |
| FetchLoop.MinOfRun | include/c++/17.0.0/bits/atomic_base.h:1475-1491 | in every interleaving of fetch-min calls alone the cell is the least of its initial value and the operands of all calls that have made their exchange |
| FetchLoop.MaxOfRun | include/c++/17.0.0/bits/atomic_base.h:1494-1510 | in every interleaving of fetch-max calls alone it is the greatest |
| FetchLoop.PaddingBlocksEveryone | include/c++/17.0.0/bits/atomic_base.h:1400-1402 | on an atomic_ref whose cell has a padding bit set, no call of any thread ever ends as long as nobody stores to the cell |
| FetchLoop.AloneEndsExactly | include/c++/17.0.0/bits/atomic_base.h:1400-1402 | exact condition: a call left alone ends if and only if the padding was clear at the start or somebody has stored since |
| SharedCount.NextInv | include/c++/17.0.0/bits/shared_ptr_base.h:158-246 | every atomic step of any thread keeps the invariant on counts, references and lives |
| SharedCount.CountsAreReferences | include/c++/17.0.0/bits/shared_ptr_base.h:307-309 | the use count is the number of owning references, the weak count that of weak ones plus one while there is an owner |
| SharedCount.LifeFollowsReferences | include/c++/17.0.0/bits/shared_ptr_base.h:183-207 | the object is disposed of at most once and not while an owner is left; the block is destroyed after it, at most once, and not while any reference is left |
| SharedCount.NothingLeaks | include/c++/17.0.0/bits/shared_ptr_base.h:450-504 | when all references are gone and no call is under way, both have been ended exactly once, with and without the double-word fast path |
| SharedCount.DeadIsFinal | include/c++/17.0.0/bits/shared_ptr_base.h:450-504 | no thread can step on a destroyed block |
| SharedCount.LockIsRight | include/c++/17.0.0/bits/shared_ptr_base.h:394-423 | promotion succeeds only while the object is alive and fails only when no owner is left |
| SharedCount.NoResurrection | include/c++/17.0.0/bits/shared_ptr_base.h:394-423 | an expired object never gets an owner again |
| SpAtomic.Linearizable | include/c++/17.0.0/bits/shared_ptr_atomic.h:700-750 | load, swap and compare-exchange are linearizable for the pair of pointer and control block: each call has exactly one access of its own while it runs and reports it, different calls have different ones, in real-time order, and every access is some call's |
| SpAtomic.MutualExclusion | include/c++/17.0.0/bits/shared_ptr_atomic.h:457-557 | at most one thread is between lock and unlock, and then the bit is set |
| SpAtomic.ReferenceIsHeld | include/c++/17.0.0/bits/shared_ptr_atomic.h:700-717 | a load takes its reference while the atomic itself still holds that control block |
| SpAtomic.WaitExact | include/c++/17.0.0/bits/shared_ptr_atomic.h:586-598 | exact condition over programs: no run misses a change from the value waited on if and only if no value that the calls may store is another pointer with its control block |
| SpAtomic.AliasMissed | include/c++/17.0.0/bits/shared_ptr_atomic.h:592-598 | for any such value, a run in which the change is missed |
| SpAtomic.AliasLeavesSleeper | include/c++/17.0.0/bits/shared_ptr_atomic.h:719-726 | storing it leaves the sleeper asleep |
| SpAtomic.WaiterSleeps | include/c++/17.0.0/bits/shared_ptr_atomic.h:752-762 | a waiter on an unchanged value does fall asleep |
| SpAtomic.WakeExact | include/c++/17.0.0/bits/shared_ptr_atomic.h:592-598 | exact condition: with no further call, a sleeper can be woken for nothing if and only if another call is under way that has not got the lock yet |
| SpAtomic.LoadWakesSleeper | include/c++/17.0.0/bits/shared_ptr_atomic.h:592-598 | and a further call, even a plain load, can do it |
| StringStorage.Heap.Deallocate | include/c++/17.0.0/bits/basic_string.h:332-334 | a buffer goes back once, to an equal allocator, with the size it was obtained with; every caller is proved to meet this |
| StringStorage.Str.CreatePlus | include/c++/17.0.0/bits/basic_string.tcc:144-165 | room for the wanted capacity and, when growing, for twice the old one if allowed |
| StringStorage.Str.AssignText | include/c++/17.0.0/bits/basic_string.tcc:344-364 | copies the text, keeping the allocator; the old buffer goes only after the new one is there |
| StringStorage.Str.Construct | include/c++/17.0.0/bits/basic_string.tcc:288-305 | fills a string under construction, inside itself or in one new buffer |
| StringStorage.Str.CopyOf | include/c++/17.0.0/bits/basic_string.h:857-860 | copy construction with a given allocator |
| StringStorage.Str.Moved | include/c++/17.0.0/bits/basic_string.h:795-817 | move construction: contents and buffer change hands, the source is a valid empty string |
| StringStorage.Str.MovedWith | include/c++/17.0.0/bits/basic_string.h:861-885 | the same with a given allocator: unequal allocators copy instead |
| StringStorage.Str.MovedPart | include/c++/17.0.0/bits/basic_string.tcc:312-337 | a part of a string given up: long parts take over the buffer and slide down |
| StringStorage.Str.MoveAssign | include/c++/17.0.0/bits/basic_string.h:997-1059 | target has the old contents of the source, source is valid and empty, self-move empties, allocator propagates or not, buffers of the pair are conserved |
| StringStorage.Str.Assign | include/c++/17.0.0/bits/basic_string.h:1806-1841 | copy assignment with and without allocator propagation |
| StringStorage.Str.Reserve | include/c++/17.0.0/bits/basic_string.tcc:371-386 | grows without changing the text, never shrinks |
| StringStorage.Str.AppendRange | include/c++/17.0.0/bits/basic_string.h:1663-1704 | appends characters that may lie in the string itself; too long a result changes nothing |
| StringStorage.Str.Swap | include/c++/17.0.0/bits/basic_string.tcc:65-136 | exchanges contents in all four combinations of local and heap storage; capacities are read before characters overwrite them |
| StringRuns.ActMoveAssign | include/c++/17.0.0/bits/basic_string.h:997-1059 | what a step says of the two strings, the heap and the texts |
| StringRuns.ActCopyAssign | include/c++/17.0.0/bits/basic_string.h:1806-1841 | the same for copy assignment |
| StringRuns.ActSwap | include/c++/17.0.0/bits/basic_string.tcc:65-136 | the same for a swap |
| StringRuns.ActAppend | include/c++/17.0.0/bits/basic_string.h:1663-1704 | the same for appending from another string |
| StringRuns.ActAppendSelf | include/c++/17.0.0/bits/basic_string.h:1663-1704 | and from the same string |
| StringRuns.ActAppendFails | include/c++/17.0.0/bits/basic_string.h:1682-1682 | too long a result throws and changes nothing |
| StringRuns.ActMove | include/c++/17.0.0/bits/basic_string.h:795-817 | the same for move construction |
| StringRuns.ActMoveWith | include/c++/17.0.0/bits/basic_string.h:861-885 | with an allocator too |
| StringRuns.TryMovePart | include/c++/17.0.0/bits/basic_string.h:708-725 | and of a part; a position behind the end throws and changes nothing |
| StringPool.Pool.Operate | include/c++/17.0.0/bits/basic_string.h:997-1059 | on a program's strings, every move assignment, copy assignment, append and swap is a step of the ownership machine, all other strings staying as they are; it fails exactly when the source throws, and then changes nothing |
| StringPool.Pool.Construct | include/c++/17.0.0/bits/basic_string.h:795-885 | so is every construction from another string |
| StringPool.Pool.Start | include/c++/17.0.0/bits/basic_string.h:852-855 | so is construction from characters |
| StringPool.Pool.Finish | include/c++/17.0.0/bits/basic_string.h:948-950 | so is destruction |
| StringPool.Pool.Perform | include/c++/17.0.0/bits/basic_string.h:285-334 | so is any call: it is a step of the machine exactly when it is possible, and changes nothing otherwise |
| StringPool.Execute | include/c++/17.0.0/bits/basic_string.h:285-334 | every program, a list of any calls from no strings on, takes the real strings through a run of the machine, made of exactly the calls that are possible where they stand, and ends in that run's last state |
| StringRuns.StepKeepsBooks | include/c++/17.0.0/bits/basic_string.h:285-334 | every step keeps: each live buffer has an owner that can free it, strings share nothing |
| StringRuns.RunsKeepBooks | include/c++/17.0.0/bits/basic_string.h:285-334 | so does every run |
| StringRuns.OneOwner | include/c++/17.0.0/bits/basic_string.h:285-334 | a live buffer has exactly one owner, whose allocator equals the one it came from |
| StringRuns.GoneForGood | include/c++/17.0.0/bits/basic_string.h:332-334 | in every run a buffer given back never becomes alive again, so none is freed twice |
| StringRuns.NothingLeaks | include/c++/17.0.0/bits/basic_string.h:324-329 | when all strings are gone no buffer is alive |
| Decimal.ToCharsLen | include/c++/17.0.0/bits/charconv.h:54-76 | the exact number of digits in any base from 2 to 36, four digits a round, without wrap-around of the powers |
| Decimal.NeedsUnique | include/c++/17.0.0/bits/charconv.h:54-76 | a value has only one exact digit count |
| Decimal.TablePairs | include/c++/17.0.0/bits/charconv.h:89-95 | the table holds the two digits of every number below 100 |
| Decimal.ToChars10 | include/c++/17.0.0/bits/charconv.h:81-112 | writes every index of the buffer with the decimal text and nothing outside it; the position never wraps |
| Decimal.DecLength | include/c++/17.0.0/bits/charconv.h:81-112 | the decimal text has exactly the counted number of digits |
| Decimal.ReadBack | include/c++/17.0.0/bits/charconv.h:81-112 | reading the text gives the number, which has no leading zero |
| Decimal.PrintBack | include/c++/17.0.0/bits/charconv.h:81-112 | printing what was read gives the same text |
| Decimal.ToStringSigned | include/c++/17.0.0/bits/basic_string.h:4648-4664 | the signed overloads, for every width and value including the minimum |
| Decimal.ToStringUnsigned | include/c++/17.0.0/bits/basic_string.h:4667-4680 | the unsigned overloads |
| Decimal.SignedRoundTrip | include/c++/17.0.0/bits/basic_string.h:4648-4664 | reading undoes to_string for every integer |
| Decimal.SignedRoundTripBack | include/c++/17.0.0/bits/basic_string.h:4648-4664 | to_string undoes reading for every canonical text |
| Decimal.FitsLocalBuffer | include/c++/17.0.0/bits/basic_string.h:4648-4652 | the text of any 32-bit value fits the local buffer of a string |
| Gcds.GcdLoop | include/c++/17.0.0/bits/chrono.h:532-549 | the do-while loop returns a common divisor that every common divisor divides |
| Gcds.Euclid | include/c++/17.0.0/bits/chrono.h:532-549 | Euclid's lemma, from the Bezout coefficients of the algorithm |
| Durations.Simplify | include/c++/17.0.0/ratio:270-285 | a ratio in lowest terms has the same value |
| Durations.QuotientExact | include/c++/17.0.0/bits/chrono.h:556-561 | the ratio computed from the two greatest common divisors is the quotient of the periods |
| Durations.CommonParts | include/c++/17.0.0/bits/chrono.h:87-102 | the numbers the common period is computed from are already in lowest terms |
| Durations.CommonLargest | include/c++/17.0.0/bits/chrono.h:87-102 | a period divides both given ones exactly when it divides the common period: the largest of which both are whole multiples |
| Durations.CommonSymmetric | include/c++/17.0.0/bits/chrono.h:108-126 | the order of the two does not matter, and a period shares itself with itself |
| Durations.CastForms | include/c++/17.0.0/bits/chrono.h:182-233 | all four specializations truncate count * num / den |
| Durations.CastTruncates | include/c++/17.0.0/bits/chrono.h:279-303 | conversion goes toward zero and loses less than one tick |
| Durations.HarmonicIsMultiple | include/c++/17.0.0/bits/chrono.h:563-567 | the test for an implicit conversion is whether one period is a whole multiple of the other |
| Durations.HarmonicExact | include/c++/17.0.0/bits/chrono.h:588-596 | and exactly then is the conversion exact for every count |
| Durations.ComparisonsExact | include/c++/17.0.0/bits/chrono.h:815-837 | mixed-period == and < agree with the exact lengths |
| Durations.MinusExact | include/c++/17.0.0/bits/chrono.h:708-721 | mixed-period subtraction is exact |
| Durations.FloorGreatest | include/c++/17.0.0/bits/chrono.h:388-397 | floor is the greatest target value not above the input |
| Durations.CeilLeast | include/c++/17.0.0/bits/chrono.h:408-417 | ceil is the least target value not below it |
| Durations.RoundNearest | include/c++/17.0.0/bits/chrono.h:430-452 | round is nearest, and even when two are as near |
| ForwardList.ReverseAfter | include/c++/17.0.0/bits/forward_list.h:107-120 | reverses the chain behind the head in place, with the same nodes |
| ForwardList.ReverseAfterTwice | include/c++/17.0.0/bits/forward_list.h:107-120 | twice is the identity on the links |
| ForwardList.TransferAfter | include/c++/17.0.0/bits/forward_list.h:91-105 | the pointer writes of a splice, including `this` being `begin` |
| ForwardList.TransferApart | include/c++/17.0.0/bits/forward_list.h:91-105 | between two lists the segment (begin, end] moves behind `this`; both remainders stay |
| ForwardList.TransferForward | include/c++/17.0.0/bits/forward_list.h:91-105 | inside one list, toward the front |
| ForwardList.TransferBackward | include/c++/17.0.0/bits/forward_list.h:91-105 | inside one list, toward the back |
| ForwardList.TransferNowhere | include/c++/17.0.0/bits/forward_list.h:91-105 | from `this` to itself nothing changes |
| ForwardList.TransferAll | include/c++/17.0.0/bits/forward_list.h:91-105 | with no end everything behind `begin` replaces what was behind `this` |
| ForwardList.TransferAllKeepsNodes | include/c++/17.0.0/bits/forward_list.h:91-105 | exact condition: then no node is lost if and only if nothing was behind `this` |
| ForwardList.TransferAllForward | include/c++/17.0.0/bits/forward_list.h:91-105 | with no end and `begin` further down the list of `this`, the nodes from behind `this` to `begin` are cut off |
| ForwardList.TransferAllForwardKeepsNodes | include/c++/17.0.0/bits/forward_list.h:91-105 | exact condition: all nodes are still reached if and only if `begin` was the next node |
| ForwardList.TransferAllBackward | include/c++/17.0.0/bits/forward_list.h:91-105 | with no end and `this` behind `begin`, the nodes between become a ring and the rest is cut off |
| ForwardList.TransferKeepsNodes | include/c++/17.0.0/bits/forward_list.h:91-105 | with an end every node is kept |
| Reversal.ReverseTwice | include/c++/17.0.0/bits/forward_list.h:107-120 | reversing twice is the identity |
| AlignBuffer.MaskClears | include/c++/17.0.0/bits/align.h:65-65 | and-ing with a negated power of two drops the remainder, and nothing else |
| AlignBuffer.MaskRoundsUp | include/c++/17.0.0/bits/align.h:65-66 | in wrapping arithmetic the masked sum is the next multiple and the difference the distance to it |
| AlignBuffer.Space.Align | include/c++/17.0.0/bits/align.h:60-74 | for every input: succeeds exactly when the storage fits behind the next multiple, then moves there keeping the end in place; otherwise changes nothing |
| AlignBuffer.AlignedFit | include/c++/17.0.0/bits/align.h:60-74 | that is the smallest aligned address at which the storage fits, and it is not the null address |
| AlignBuffer.NullMeansSuccess | include/c++/17.0.0/bits/align.h:67-73 | exact condition: a success that returns the null pointer |
| ExceptionPtr.Handle.Assign | include/c++/17.0.0/bits/exception_ptr.h:273-280 | copy assignment moves one reference from the old object to the new, and none for a self-assignment |
| ExceptionPtr.Handle.MoveAssign | include/c++/17.0.0/bits/exception_ptr.h:180-186 | move assignment gives up one reference, and nothing for a self-move |
| ExceptionPtr.Handle.Swap | include/c++/17.0.0/bits/exception_ptr.h:282-289 | exchanges without touching a count |
| ExceptionPtr.CountAfter | include/c++/17.0.0/bits/exception_ptr.h:113-129 | how each operation changes the number of handles of every object |
| ExceptionPtr.Program.PerformAdopt | include/c++/17.0.0/bits/exception_ptr.h:112-129 | a further handle for an object that is already referred to counts as one more reference |
| ExceptionPtr.Program.PerformGiveUp | include/c++/17.0.0/bits/exception_ptr.h:134-135 | a reference that is no handle's may be given up; with the last of all the object goes |
| ExceptionPtr.Program.PerformCopy | include/c++/17.0.0/bits/exception_ptr.h:237-254 | copying a handle keeps every count right |
| ExceptionPtr.Program.PerformMove | include/c++/17.0.0/bits/exception_ptr.h:164-170 | so does moving one |
| ExceptionPtr.Program.PerformAssign | include/c++/17.0.0/bits/exception_ptr.h:273-280 | so does assigning, to itself too |
| ExceptionPtr.Program.PerformMoveAssign | include/c++/17.0.0/bits/exception_ptr.h:180-186 | so does move assignment |
| ExceptionPtr.Program.PerformDestroy | include/c++/17.0.0/bits/exception_ptr.h:256-271 | so does destroying one; an object goes with its last reference |
| ExceptionPtr.Program.PerformHold | include/c++/17.0.0/bits/exception_ptr.h:112-129 | a new object starts with a handle and the given number of other references, and no other object's change |
| ExceptionPtr.Program.Perform | include/c++/17.0.0/bits/exception_ptr.h:237-289 | every operation of every run: the handles follow it, only a new object or a reference given up changes the other references, and each count is the handles that refer to the object plus its other references |
| ExceptionPtr.Program.NeverDangling | include/c++/17.0.0/bits/exception_ptr.h:164-186 | no handle refers to a destroyed object |

## Left out

- TableRuns.Run: its operations are those on one table; copying, assignment and comparison of two tables are proved one by one in `HashTable`, on the same invariant.
- HashTable.HashTable.EraseKey: the key passed in is a value, with the node that may hold it named beside it; key extraction is the `key` field of an entry and key equality is `==`.
- HashTable.HashTable.Resize: sizes and hashes are unbounded naturals, so the wrap-around of `_M_num_elements + 1` is not modelled.
- SharedCount.CountsAreReferences: after an increment past the largest 32-bit count the run stops, as `__builtin_trap` does; the block's deleter and allocator are the two counted calls.
- SpAtomic.WaitExact: models the waiter's check when it goes to sleep and whenever it is woken; whether a notification is sent is the writer's business.
- FetchLoop.Linearizes: rounded addition and subtraction are arbitrary functions on reals, so NaN and signed zero are not modelled.
- Durations.ComparisonsExact: counts and products never overflow and are signed integers; floating-point and unsigned representations are not modelled.
- StringStorage.Str.AppendRange: the range is a stretch of characters in some buffer, possibly the string's own; input ranges that can be read only once go through a temporary string and are not modelled.
- StringStorage.Heap.Allocate: never fails, and returns at most as many characters as the longest string needs.
- ExceptionPtr.Handle.Adopt: the bodies that change a count lie in the runtime library, which is not part of this model; they are taken to add one and to subtract one, destroying the object at zero.
- AlignBuffer.Space.Align: pointers are addresses below 2^64; the alignment is a power of two, as callers must pass.
- Decimal.ToStringSigned: the string that `__resize_and_overwrite` fills is an array of the counted length.
- Weak memory orders: every atomic access is one sequentially consistent step.
- The kernel's futex call is an atomic compare-and-sleep that may wake for no reason or time out; clocks and the variant that recomputes deadlines for other clocks are not modelled.
- Exceptions thrown by a hash, an equality or a constructor in the hash table (the `__catch` paths).
- Range insertion into the hash table and its `swap`, which add no new loop.
- The C++20 form of `_Sp_atomic` waiting, the single-threaded and mutex lock policies, `make_shared` storage, deleters, `enable_shared_from_this`, `owner_less`, out_ptr.
- The string members for searching, replacing, inserting, comparing, input and output; wide strings and floating-point `to_string`.
- `forward_list`'s `merge`, `sort` and `insert_after`, which are built on the two operations modelled here.
- Traits, concepts, thin wrappers over compiler built-ins and other headers that only declare.
