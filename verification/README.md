# HamDB in Dafny

HamDB is a relational engine written from scratch. This project models its five
state-heavy parts and proves what they promise:

- **B+ tree index** (`BTreePages`, `BTreeShape`, `BTreeInsert`, `BTreeRemove`,
  `BPlusTree`, `BTreeIterator`). Pages are a map from page ids to nodes. Beside it
  stands a ghost shape: the level of every live page and the key interval it is
  responsible for. Well-formedness is local to a page, its children and its
  neighbours; that the pages form one balanced search tree is proved from it. A
  split in progress is a tree with one pending separator, a removal in progress a
  tree with one underfull page. The tree refines a plain map from keys to records
  over every run of operations, and the leaf chain is the in-order traversal.
- **Lock manager** (`LockProtocol`, `LockSafety`, `LockManager`). A transition
  system with one step per latch-held region, a program counter per transaction,
  and outside changes of transaction states at any time. The class is the code,
  region by region, proved to take exactly the protocol's steps.
- **Buffer pool** (`LruKReplacer`, `BufferPool`, `PageGuards`, `PoolRuns`). The
  cache is invisible to readers, for every pattern of disk failures; pins are the
  live guards; the victim is the one LRU-K asks for.
- **Slotted page and table heap** (`PageBytes`, `SlotDirectory`, `SlottedPage`,
  `HeapChain`, `TableHeap`, `HeapIterator`). Bytes in a 4072-byte body refine a
  partial map from slot ids to tuples; a chain of such pages refines a map from
  record ids to tuples; the iterator lists it exactly.
- **Query rewrites and executors** (`Expressions`, `OperatorLaws`, `ConstantFolding`,
  `Plans`, `PlanFolding`, `Conjuncts`, `PredicatePushdown`, `JoinSelection`,
  `CostBasedJoin`, `TypedPlans`, `JoinExecutors`, `SortOrder`, `TopK`). Plans denote
  row sequences; rewrites keep them in order, and exact conditions say when executors
  raise before and after; the hash join agrees with the nested loops, and the bounded heap with
  sort-then-limit.

`dafny verify dfyconfig.toml` checks the project.

## How to read the model

- Page ids are naturals handed out in ascending order; the invalid id is kept
  apart from them (`INVALID` in the index and the pool, the 32-bit sentinel
  `NO_PAGE` in page headers, where ids are stored).
- Disk transfers of the buffer pool succeed or fail by flags that are inputs of
  its operations. Pins have ghost holders, so that "whoever writes a page unpins
  it dirty" can be said.
- A transaction's state is read once per latch-held region; the wait predicate
  and the test behind it do not see different states.
- Integers are 32-bit; a result outside that range, undefined in the source,
  raises. Counts of the limit executors are 64-bit and their sum wraps.
- Evaluation is strict: NULL on either side of an operator gives NULL, and the
  right operand of AND and OR must be a truth value only if the left one does not
  decide. A column that names no side reads from the left row of a join where
  there is one. The planner and the rules build no column that names one
  (`UnsidedLoops`).
- `Rows` is what a plan denotes, with columns as positions in the joined row; `Run` is
  what its executors do, exceptions included (`JoinExecutors.LoopRuns`, `HashRuns`).
  `Run` pulls both inputs of a join, and the input of an operator it does not look
  into, to exhaustion; the nested loops of the source do not pull the right input
  beside an empty left one, so the source may raise less there.
- A page of a heap's disk is a slotted page or was never written and reads as zeros.
- `std::stable_sort` and `std::priority_queue` are modelled by what they promise:
  a stable ordering, and some element that the comparator puts before no other.
- The rewrite rules work on trees that the source moves and mutates; here they
  build new trees.

## Where the code and its description differ

- The comment on the slotted page gives a body of 4080 bytes and a header of 8;
  the constants are 4072 and 16, and the model follows them.
- Folding documents three-valued logic; the evaluator is strict, so a constant that
  decides AND or OR hides a NULL or an exception of the other operand
  (`ConstantFolding.FoldChangesNull`, `FoldHidesErrors`; for such an operator the
  exact rows in `DecidedLeft` and `DecidedRight`, and without one nothing changes by
  `FoldExact`).
- Folding is meant never to abort a query, but throws on a constant operand of AND
  or OR that is no truth value, also where the expression has a value
  (`ConstantFolding.FoldThrowsOnValue`; exact condition in
  `ConstantFolding.FoldThrowsExactly`).
- Pushing a filter into a scan that has a limit or an offset changes the rows
  (`PredicatePushdown.ScanPushdownExact`).
- A pushed conjunct is evaluated on more rows than before, and no longer behind the
  conjuncts of the other input, and can raise where the original plan does not
  (`PredicatePushdown.PushdownCanRaise`, `PushdownCanRaiseMatched`; exact condition in
  `PushdownRunsExactly`).
- A join predicate counts its columns over the joined row, but the nested loops read
  every column from the left row, so a right column raises as soon as there is a pair
  (`JoinSelection.RightColumnRaises`, `TypedPlans.LessThanRaises`; exact conditions in
  `JoinExecutors.UnsidedLoopExactly` and `TypedPlans.WellTypedRuns`). Joins with an
  equality between their inputs can be run only because join selection makes hash joins
  of them (`JoinSelection.EquiLoopsRaise`, `TypedPlans.SelectedTypedRuns`).
- Join selection evaluates keys beside an empty input and nests conjuncts anew, and
  can raise where the original plan does not (`JoinSelection.LonelyKeyCanRaise`,
  `NestingCanRaise`; exact condition in `JoinSelectRunsExactly`).
- The cost-based join rule alone drops conjuncts (`CostBasedJoin.CostBasedAlone`;
  exact condition in `PromotionExact`); after join selection it has nothing to do.
- Where limit plus offset wraps in 64 bits, the bounded heap emits nothing
  (`TopK.TopKExact`).
- A tuple too long for an empty page leaves the heap without a readable chain
  (`HeapChain.BrokenChain`).
- A heap deletes records of other heaps on the same disk and counts them as its own
  (`TableHeap.DeleteAcross`; exact condition in `TableHeap.TableHeap.DeleteTuple`).
- A transaction that asks to upgrade a lock it already holds exclusively is aborted
  (`LockManager.ExclusiveUpgradeAborts`).

## Model

| member | source | states |
|---|---|---|
| `BTreePages.LeafPage.FindIndex` | src/index/btree_leaf_page.cpp:156-189 | finds the index of a key in the sorted entries, or -1 exactly when no entry has it |
| `BTreePages.LeafPage.Lookup` | src/index/btree_leaf_page.cpp:191-201 | the record of a key, or nothing exactly when no entry has the key |
| `BTreePages.LeafPage.Insert` | src/index/btree_leaf_page.cpp:203-245 | full, duplicate and Ok outcomes; on Ok the entry goes to the lower bound of its key and all others keep their order, otherwise nothing changes |
| `BTreePages.LeafPage.Remove` | src/index/btree_leaf_page.cpp:247-266 | takes out exactly the entry with the key, or reports NotFound and changes nothing |
| `BTreePages.LeafPage.MoveHalfTo` | src/index/btree_leaf_page.cpp:268-281 | the first half of the entries stays and the rest goes to the new page, none lost |
| `BTreePages.LeafPage.MoveFirstToEndOf` | src/index/btree_leaf_page.cpp:283-293 | the first entry becomes the last one of the recipient; indices stay in the array |
| `BTreePages.LeafPage.MoveLastToFrontOf` | src/index/btree_leaf_page.cpp:295-304 | the last entry becomes the first one of the recipient; indices stay in the array |
| `BTreePages.LeafPage.MoveAllTo` | src/index/btree_leaf_page.cpp:306-317 | the recipient ends with all entries of both pages, in order, and this page is empty |
| `BTreePages.InternalPage.Lookup` | src/index/btree_internal_page.cpp:67-93 | returns the child whose two separators bracket the key |
| `BTreePages.InternalPage.PopulateNewRoot` | src/index/btree_internal_page.cpp:95-102 | a page with exactly the two children and the separator between them |
| `BTreePages.InternalPage.Insert` | src/index/btree_internal_page.cpp:104-142 | full, repeated and Ok outcomes; on Ok the entry stands right behind the child that routes its key |
| `BTreePages.InternalPage.Remove` | src/index/btree_internal_page.cpp:144-185 | takes out exactly the entry whose separator is the key; never entry 0 |
| `BTreePages.InternalPage.MoveHalfTo` | src/index/btree_internal_page.cpp:283-299 | splits the entries at half the size and returns the separator at the cut |
| `BTreePages.InternalPage.MoveFirstToEndOf` | src/index/btree_internal_page.cpp:301-318 | the first child goes to the end of the recipient under the old parent separator; returns the new one |
| `BTreePages.InternalPage.MoveLastToFrontOf` | src/index/btree_internal_page.cpp:320-337 | the last child goes to the front of the recipient, the old parent separator above its former first child; returns the new one |
| `BTreePages.InternalPage.MoveAllTo` | src/index/btree_internal_page.cpp:339-352 | the recipient ends with the entries of both pages, the parent separator above the first moved child |
| `BTreePages.InternalPage.FindChildIndex` | src/index/btree_internal_page.cpp:354-364 | an index of the child, or -1 exactly when the page does not have it |
| `BTreeShape.UniqueOwner` | src/index/bplus_tree.cpp:26-82 | in a well-formed tree at most one page of each level is responsible for a key, by induction from the root |
| `BTreeShape.KeyInItsLeaf` | src/index/bplus_tree.cpp:26-82 | every stored pair is in the one leaf that is responsible for its key |
| `BTreeShape.KeysDistinct` | src/index/bplus_tree.cpp:168-171 | no key is stored twice anywhere in the tree |
| `BTreeShape.ParentsLeadToRoot` | src/index/bplus_tree.cpp:260-275 | from every page the parent pointers lead to the root in exactly as many steps as it is levels below the root |
| `BTreeShape.LeavesAtOneDepth` | src/index/bplus_tree.cpp:84-258 | all leaves are equally far from the root, and only leaves are at level 0 |
| `BTreeShape.DistinctChildren` | src/index/bplus_tree.cpp:592-596 | no page is two children of one page |
| `BTreeInsert.SplitLeaf` | src/index/bplus_tree.cpp:173-245 | splitting a full leaf leaves a well-formed tree that waits for exactly one separator in the parent; halves are in bounds and chained |
| `BTreeInsert.SplitInternal` | src/index/bplus_tree.cpp:354-430 | splitting an overfull internal page keeps every page but its parent in order and moves the one pending separator a level up; both halves hold the minimum |
| `BTreeInsert.RootGrown` | src/index/bplus_tree.cpp:277-326 | a new root above the two halves of the old one makes the tree well formed again |
| `BTreeRemove.RebalanceLeaves` | src/index/bplus_tree.cpp:602-742 | moving the boundary of two sibling leaves restores a well-formed tree |
| `BTreeRemove.RebalanceInternals` | src/index/bplus_tree.cpp:629-661 | moving one child between sibling internal pages, with its parent pointer and separators, restores a well-formed tree |
| `BTreeRemove.MergeLeaves` | src/index/bplus_tree.cpp:771-802 | merging sibling leaves repairs the chain and leaves at most the parent underfull |
| `BTreeRemove.MergeInternals` | src/index/bplus_tree.cpp:803-840 | merging sibling internal pages re-parents the moved children and leaves at most the parent underfull |
| `BTreeRemove.ShrinkRoot` | src/index/bplus_tree.cpp:542-565 | a root with one child gives way to that child and the tree is well formed |
| `BPlusTree.BPlusTree.Create` | src/index/bplus_tree.cpp:11-14 | the new tree is well formed and stands for the empty map |
| `BPlusTree.BPlusTree.FindLeaf` | src/index/bplus_tree.cpp:112-149 | the descent ends, in the leaf that is responsible for the key |
| `BPlusTree.BPlusTree.GetValue` | src/index/bplus_tree.cpp:26-82 | is lookup in the map that the tree stands for, at any depth |
| `BPlusTree.BPlusTree.Insert` | src/index/bplus_tree.cpp:84-258 | keeps the tree well formed; adds exactly one pair to the map, or returns AlreadyExists with no page changed; unless the leaf is full no other page changes |
| `BPlusTree.BPlusTree.InsertIntoParent` | src/index/bplus_tree.cpp:260-431 | files a pending separator, splitting upwards as far as needed; terminates by distance to the root, ends in a well-formed tree and stores the same pairs |
| `BPlusTree.BPlusTree.GrowRoot` | src/index/bplus_tree.cpp:277-326 | a root split ends in a well-formed tree with the same pairs |
| `BPlusTree.BPlusTree.SplitParent` | src/index/bplus_tree.cpp:354-430 | the split of a full parent leaves one pending separator on the next level and stores the same pairs |
| `BPlusTree.BPlusTree.HalveLeaf` | src/index/bplus_tree.cpp:173-235 | both halves are at or above the minimum and within capacity, together sorted, and hold the old entries and the new one |
| `BPlusTree.BPlusTree.Remove` | src/index/bplus_tree.cpp:433-525 | keeps the tree well formed; deletes exactly one pair from the map, or returns NotFound with no page changed; unless the leaf falls below the minimum no other page changes |
| `BPlusTree.BPlusTree.HandleUnderflow` | src/index/bplus_tree.cpp:527-864 | borrows, merges or shrinks the root until the tree is well formed; terminates by distance to the root, never returns Corruption, stores the same pairs |
| `BPlusTree.BPlusTree.RefillFromLeft` | src/index/bplus_tree.cpp:602-671 | borrowing from the left sibling ends the repair and stores the same pairs |
| `BPlusTree.BPlusTree.RefillFromRight` | src/index/bplus_tree.cpp:673-742 | borrowing from the right sibling ends the repair and stores the same pairs |
| `BPlusTree.BPlusTree.MergeSiblings` | src/index/bplus_tree.cpp:744-844 | a merge fits into one page, stores the same pairs and leaves at most the parent to repair |
| `BPlusTree.BPlusTree.ReplaceRoot` | src/index/bplus_tree.cpp:529-567 | a root with a single child is replaced; the tree is well formed and stores the same pairs |
| `BTreeIterator.InOrderLists` | src/index/bplus_tree.cpp:866-914 | the left-to-right traversal below a page lists exactly the stored pairs of its key interval, ascending |
| `BTreeIterator.AfterLast` | src/index/bplus_tree_iterator.cpp:67-78 | behind the last entry of a leaf comes the first entry of the next leaf, or the end, with no stored key in between |
| `BTreeIterator.Iterator.Next` | src/index/bplus_tree_iterator.cpp:56-81 | moves on to the smallest stored key above the current one, or to the end exactly when there is none |
| `BTreeIterator.Begin` | src/index/bplus_tree.cpp:866-914 | stands on the smallest stored key, or is the end of an empty tree |
| `BTreeIterator.BeginAt` | src/index/bplus_tree.cpp:916-984 | stands on the smallest stored key at or above the given one, or at the end |
| `BTreeIterator.ScanAll` | src/index/bplus_tree_iterator.cpp:47-96 | iteration from begin() ends, and yields every pair of the map once, ascending: the in-order traversal of the page graph |
| `BTreeIterator.ScanFrom` | src/index/bplus_tree_iterator.cpp:47-96 | iteration from begin(k) ends, and yields once, ascending, exactly the pairs with key at or above k |
| `BTreeIterator.LeafChain` | src/index/bplus_tree.cpp:187-206 | along next the leaf pages are the in-order list of all leaves of the tree, each once, and along prev its reverse |
| `BTreeIterator.RunFromEmpty` | src/index/bplus_tree.cpp:11-864 | every run of inserts, removes and lookups from create() answers as a plain map does, and a scan at its end lists that map |
| `LockSafety.StepKeeps` | src/transaction/lock_manager.cpp:68-240 | every latch-held region, call prologue, outside abort and release step keeps the lock invariant |
| `LockSafety.RunKeeps` | src/transaction/lock_manager.cpp:68-240 | the lock invariant holds after every interleaving of steps from the empty lock table |
| `LockSafety.MutualExclusion` | src/transaction/lock_manager.cpp:28-44 | after every run a granted exclusive request is at the queue front, is the only granted one, and its owner has no second request |
| `LockSafety.LockSetsAreGrants` | src/transaction/lock_manager.cpp:68-145 | after every run the lock sets of a transaction are exactly its granted requests, and an idle transaction has no other request |
| `LockSafety.ReleaseAllReleases` | src/transaction/lock_manager.cpp:227-240 | when releaseAll returns, no queue has a request of the transaction, whatever others did in between |
| `LockSafety.GrantEnablesNobody` | src/transaction/lock_manager.cpp:100-102 | granting a lock or completing an upgrade makes no other waiting request grantable |
| `LockSafety.DemoteEnablesNobody` | src/transaction/lock_manager.cpp:168-180 | starting an upgrade makes no other waiting request grantable |
| `LockSafety.NoLostWakeUp` | src/transaction/lock_manager.cpp:83-103 | any step that makes the wait predicate of another transaction true notifies the queue that transaction waits in |
| `LockSafety.GrantMeans` | src/transaction/lock_manager.cpp:8-44 | a shared request can be granted exactly if no exclusive one stands before it and no other transaction is upgrading, an exclusive one exactly if it is at the front and no other is granted |
| `LockSafety.EnterExactly` | src/transaction/lock_manager.cpp:79-103 | a new request goes to the end of the queue and is granted at once exactly if only shared requests stand there and no upgrade is pending, or, to be exclusive, the queue is empty; nothing else changes |
| `LockSafety.EnterAborted` | src/transaction/lock_manager.cpp:91-98 | asked while aborted, nothing is queued and nothing gained |
| `LockSafety.WakeExactly` | src/transaction/lock_manager.cpp:83-103 | looking again, an aborted waiter leaves the queue, and any other has the lock exactly if its request is clear; nothing else changes |
| `LockSafety.UpgradeExactly` | src/transaction/lock_manager.cpp:168-206 | an upgrade keeps its place and is granted at once exactly at the front of a queue with no other grant; aborted meanwhile, it loses its lock and its place |
| `LockSafety.UnlockExactly` | src/transaction/lock_manager.cpp:208-225 | unlock takes the one request out of the one queue and the record out of the lock sets, and changes nothing else |
| `LockManager.CheckShared` | src/transaction/lock_manager.cpp:8-26 | is true exactly when the request of the transaction has no exclusive one before it and no other upgrade is pending; false without a request |
| `LockManager.CheckExclusive` | src/transaction/lock_manager.cpp:28-44 | is true exactly when the request is at the front and no other is granted; false without a request |
| `LockManager.GrantLock` | src/transaction/lock_manager.cpp:46-56 | marks the first request of the transaction granted and changes nothing else |
| `LockManager.RemoveRequest` | src/transaction/lock_manager.cpp:58-66 | takes out the first request of the transaction and nothing else |
| `LockManager.LockManager.Ask` | src/transaction/lock_manager.cpp:68-77 | the prologues of the lock calls: true exactly for a lock that is held well enough, false exactly to an aborted transaction or one that asks for an exclusive lock over its shared one, which aborts it; else the call goes on |
| `LockManager.LockManager.Acquire` | src/transaction/lock_manager.cpp:79-206 | taking the latch and trying is a protocol step and keeps the invariant; true exactly if the request is clear, false exactly to a transaction that was aborted or asks for an upgrade without a shared lock or beside a pending one; else it waits |
| `LockManager.ExclusiveUpgradeAborts` | src/transaction/lock_manager.cpp:147-168 | asking to upgrade a lock held exclusively aborts the transaction, which keeps the lock; no queue changes |
| `LockManager.LockManager.Resume` | src/transaction/lock_manager.cpp:83-103 | a return from the condition variable: false exactly to an aborted transaction, true exactly if its request is clear by now |
| `LockManager.LockManager.Release` | src/transaction/lock_manager.cpp:208-225 | unlock is a protocol step, true exactly when the lock was held; only the lock sets of the transaction and the queue of the record change |
| `LockManager.LockManager.ReleaseAll` | src/transaction/lock_manager.cpp:227-240 | run alone, empties both lock sets of the transaction and changes no other transaction |
| `LruKReplacer.WinsIsPreferred` | src/buffer/lruk_replacer.cpp:84-107 | the comparison on the last K timestamps is the order by backward K-distance of the full access log; two frames never share a timestamp |
| `LruKReplacer.Replacer.RecordAccess` | src/buffer/lruk_replacer.cpp:12-27 | logs a new time for one frame and keeps its last K; unknown frames change nothing |
| `LruKReplacer.Replacer.SetEvictable` | src/buffer/lruk_replacer.cpp:29-55 | flips one frame with a history; size stays the number of evictable frames |
| `LruKReplacer.Replacer.Evict` | src/buffer/lruk_replacer.cpp:57-118 | returns the evictable frame with the largest backward K-distance over the full log, ties by oldest access, and nothing exactly when none is evictable |
| `LruKReplacer.Replacer.Remove` | src/buffer/lruk_replacer.cpp:120-141 | forgets one evictable frame; refuses a pinned one |
| `BufferPool.Pool.FindFreeFrame` | src/buffer/buffer_pool_manager.cpp:22-52 | an unused frame if there is one, else the LRU-K victim, never a pinned frame; BufferPoolFull exactly when all frames are pinned; no page content changes, failing write included |
| `BufferPool.Pool.FetchPage` | src/buffer/buffer_pool_manager.cpp:54-92 | pins the page with its logical content in the frame and logs the access, in the frame to be used next if the page was not cached; no page content changes, failures included; BufferPoolFull exactly when the page is not cached and all frames are pinned |
| `BufferPool.Pool.NewPage` | src/buffer/buffer_pool_manager.cpp:94-122 | adds one zeroed page in the frame to be used next, logs the access and disturbs no other page; succeeds if the disk does and some frame is not pinned; on failure no known page changes |
| `BufferPool.Pool.UnpinPage` | src/buffer/buffer_pool_manager.cpp:124-148 | gives back one pin, dirty flag sticky; makes the frame evictable exactly when it was the last one; no content changes |
| `BufferPool.Pool.FlushPage` | src/buffer/buffer_pool_manager.cpp:150-178 | writes a dirty frame to disk and marks it clean; no content changes |
| `BufferPool.Pool.FlushAllPages` | src/buffer/buffer_pool_manager.cpp:180-193 | on Ok no valid frame is dirty; no content changes, also when a write fails midway |
| `PoolRuns.Replay` | src/buffer/buffer_pool_manager.cpp:22-193 | for every pool size, run of operations and pattern of disk failures, every successful read of a page from 1 on returns what a plain map of pages holds; with at least one frame, an operation on existing pages whose own disk transfers succeed never fails |
| `PoolRuns.Serve` | src/buffer/buffer_pool_manager.cpp:22-193 | any deterministic client that reads, writes and allocates pages one at a time, deciding each request from the answers so far, gets from a pool of any size the answers of a plain list of pages |
| `PageGuards.PinsAreGuards` | src/buffer/page_guard.cpp:12-45 | if every pin belongs to one guard, the pin count of a frame is the number of guards on it |
| `PageGuards.Session.PinCount` | src/buffer/page_guard.cpp:77-90 | in every state of a session the pin count of a frame equals the number of live guards on it |
| `PageGuards.Session.Drop` | src/buffer/page_guard.cpp:77-90 | gives back the pin of the guard, if it has one, with its dirty flag, and empties it; dropping again does nothing; no page content changes |
| `PageGuards.Session.Move` | src/buffer/page_guard.cpp:27-45 | the target drops its own pin and takes over the other one, which is left empty; self-move does nothing |
| `PageGuards.Session.MarkDirty` | src/buffer/page_guard.cpp:72-75 | the guard reports its page dirty when dropped; ownership stays |
| `PageGuards.Session.Fetch` | src/buffer/buffer_pool_manager.cpp:195-217 | drops, then owns a pin on the page with its logical content; on failure the guard is empty |
| `PageGuards.Session.New` | src/buffer/buffer_pool_manager.cpp:219-231 | drops, then owns a pin on one new zeroed page; on failure the guard is empty and no known page changed |
| `PageBytes.HeaderRoundTrip` | src/storage/slotted_page.cpp:18-59 | reading back a written page header gives the header |
| `PageBytes.SlotRoundTrip` | src/storage/slotted_page.cpp:63-95 | reading back a written slot gives the slot |
| `PageBytes.HeaderLayout` | src/storage/slotted_page.cpp:19-58 | where each header field stands in the body, low byte first |
| `PageBytes.SlotLayout` | src/storage/slotted_page.cpp:62-93 | slot i stands 16 + 8i bytes into the body, its fields low byte first |
| `PageBytes.WriteSlotAndHeader` | src/storage/slotted_page.cpp:84-95 | writing a slot and the header changes that slot and the header, and no byte behind the directory |
| `SlotDirectory.PackedOk` | src/storage/slotted_page.cpp:324-344 | packing keeps tuples disjoint and in bounds, and leaves the tuple area exactly the sum of the live lengths |
| `SlottedPage.CompactedOk` | src/storage/slotted_page.cpp:312-364 | a packed page is well formed and stores the same tuple under every slot id |
| `SlottedPage.SlottedPage.Initialize` | src/storage/slotted_page.cpp:99-125 | makes a well-formed page that stores nothing, without neighbours |
| `SlottedPage.SlottedPage.InsertTuple` | src/storage/slotted_page.cpp:129-193 | stores the tuple under the first slot id that stores nothing and takes its bytes off the free end; IoError exactly if bytes and a new slot, needed only if no slot is free, do not fit; no other slot changes |
| `SlottedPage.SlottedPage.InsertTupleAtSlot` | src/storage/slotted_page.cpp:200-253 | stores the tuple under the given slot id and changes no other; slots made on the way are deleted ones; exact live count |
| `SlottedPage.SlottedPage.UpdateTuple` | src/storage/slotted_page.cpp:255-286 | replaces the tuple of one live slot and changes no other; all refusals change nothing |
| `SlottedPage.SlottedPage.DeleteTuple` | src/storage/slotted_page.cpp:288-310 | removes exactly one slot from the stored map; NotFound and InvalidArg change nothing |
| `SlottedPage.SlottedPage.Compact` | src/storage/slotted_page.cpp:312-364 | keeps every slot id and tuple; free space grows by exactly the reported bytes; the write pointer never underflows |
| `SlottedPage.SlottedPage.ReadTuple` | src/storage/slotted_page.cpp:368-385 | is lookup in the stored map, with NotFound and InvalidArg told apart by the slot count |
| `SlottedPage.SlottedPage.IsFull` | src/storage/slotted_page.cpp:405-425 | is true exactly when insertion of a tuple of that size would be refused |
| `SlottedPage.SlottedPage.SetLinks` | src/storage/slotted_page.cpp:429-451 | changes the two links and no tuple |
| `HeapChain.TotalCounts` | src/storage/table_heap.cpp:44-71 | the live counts along the chain add up to the number of records of the heap |
| `HeapChain.GrownBy` | src/storage/table_heap.cpp:119-161 | a linked and initialised new page lengthens the chain and adds exactly one record |
| `HeapChain.BrokenChain` | src/storage/table_heap.cpp:126-149 | linking the last page to one that is never initialised leaves no page chain at all |
| `HeapChain.HeapEntriesExact` | src/storage/heap_iterator.cpp:61-92 | page by page and slot by slot, every record of the chain is listed once |
| `TableHeap.HeaderCounts` | src/storage/slotted_page.cpp:400-403 | the live count in a page header is the number of tuples the page stores |
| `TableHeap.InsertInto` | src/storage/table_heap.cpp:90-106 | the fullness test and the insertion agree; a free slot of the page gets the tuple and nothing else changes |
| `TableHeap.TableHeap.Create` | src/storage/table_heap.cpp:14-32 | a heap of one empty page, stored without touching any other page |
| `TableHeap.TableHeap.CountsRecords` | src/storage/table_heap.cpp:217-220 | the cached tuple count is the number of records |
| `TableHeap.Bootstrap` | src/storage/table_heap.cpp:44-71 | following the links ends with IoError exactly if they lead to a page that cannot be read, else with the last page, the page count and the tuple count, over blank pages too |
| `TableHeap.TableHeap.Open` | src/storage/table_heap.cpp:34-42 | there is a heap exactly if the links lead to an end; a proper page chain gives a heap whose cached fields are right |
| `TableHeap.WayExactly` | src/storage/table_heap.cpp:44-71 | the links lead along a finite way exactly when the loop that follows them ends |
| `TableHeap.Reopen` | src/storage/table_heap.cpp:34-71 | opening the first page of a heap again gives the same cached fields and records |
| `TableHeap.TableHeap.InsertTuple` | src/storage/table_heap.cpp:73-162 | up to 4048 bytes: adds one fresh record in the first page with room, under its first free slot, else in slot 0 of one new page, and disturbs no record and no page outside the chain; longer tuples break the chain |
| `TableHeap.TableHeap.ReadTuple` | src/storage/table_heap.cpp:164-179 | for every record id: Ok exactly if the slot is live on the page it names, of whatever heap, and then its bytes; it is a record of this heap exactly if the page is in the chain, and then lookup in the map of records |
| `TableHeap.TableHeap.DeleteTuple` | src/storage/table_heap.cpp:181-205 | for every record id: Ok exactly if the slot is live on the page it names; then only that slot changes; the records of the heap lose exactly that one; the cached count stays right exactly if nothing was deleted or the page is in the chain |
| `TableHeap.DeleteAcross` | src/storage/table_heap.cpp:195-203 | two heaps on one disk: deleting a record of the second through the first wraps the count of the first and leaves the second with a stale one |
| `HeapIterator.HeapIterator.AdvanceToNextValid` | src/storage/heap_iterator.cpp:61-92 | skips deleted slots and exhausted pages and loses no live tuple; terminates |
| `HeapIterator.HeapIterator.Next` | src/storage/heap_iterator.cpp:28-38 | moves on by exactly one live tuple; stays at the end |
| `HeapIterator.HeapIterator.Current` | src/storage/heap_iterator.cpp:40-59 | the record and the bytes of the next live tuple |
| `HeapIterator.Scan` | src/storage/heap_iterator.cpp:7-92 | from begin to end the iterator yields every (record, tuple) of the heap once, and nothing else |
| `ConstantFolding.ConstantEverywhere` | src/optimizer/constant_folding_rule.cpp:40-52 | a constant expression has the same value on every row |
| `ConstantFolding.FoldRefines` | src/optimizer/constant_folding_rule.cpp:73-185 | wherever an expression has a non-null value, the folded expression has the same value; the rule gives one exactly when the expression has no clash |
| `ConstantFolding.FoldMeans` | src/optimizer/constant_folding_rule.cpp:73-185 | values, NULLs and exceptions of the folded expression on every row, told from the original expression without folding it |
| `ConstantFolding.FoldExact` | src/optimizer/constant_folding_rule.cpp:124-178 | if no AND or OR has a deciding constant beside an operand that is not constant, folding keeps every value, NULL included |
| `ConstantFolding.DecidedLeft` | src/optimizer/constant_folding_rule.cpp:126-163 | an AND or OR with a deciding constant on the left folds to that constant, which is right about a row exactly when the other operand has a value there and is not NULL |
| `ConstantFolding.DecidedRight` | src/optimizer/constant_folding_rule.cpp:139-178 | with the deciding constant on the right, exactly when the other operand is a truth value there |
| `ConstantFolding.FoldThrowsExactly` | src/optimizer/constant_folding_rule.cpp:124-178 | the rule throws exactly when some AND or OR has a constant operand that is neither NULL nor a truth value beside one that comes to no constant; which expressions fold to a constant, and to which, is read off the operands |
| `ConstantFolding.TruthOperandsFold` | src/optimizer/constant_folding_rule.cpp:124-178 | if every constant operand of AND and OR is NULL or a truth value, the rule never throws |
| `ConstantFolding.FoldThrowsOnValue` | src/optimizer/constant_folding_rule.cpp:139-149 | `x AND 5` is false where x is false, and the rule throws on it |
| `ConstantFolding.FoldIdempotent` | src/optimizer/constant_folding_rule.cpp:73-185 | folding a folded expression changes nothing |
| `ConstantFolding.ConstantFolds` | src/optimizer/constant_folding_rule.cpp:86-122 | a constant expression folds to its value, or to NULL where evaluating it raises |
| `ConstantFolding.RaisingConstantFolds` | src/optimizer/constant_folding_rule.cpp:20-37 | a constant expression that cannot be evaluated folds to NULL |
| `ConstantFolding.FoldKeeps` | src/optimizer/constant_folding_rule.cpp:230-236 | a filter predicate without deciding constants keeps the same rows when folded; any other does so on the rows where it is not NULL |
| `ConstantFolding.FoldChangesNull` | src/optimizer/constant_folding_rule.cpp:154-163 | an instance of the failing side of `DecidedLeft`: `true OR x` folds to true where the strict evaluator gives NULL |
| `ConstantFolding.FoldHidesErrors` | src/optimizer/constant_folding_rule.cpp:126-135 | another instance: `false AND x` folds to false where evaluating x raises |
| `PlanFolding.FoldPlanThrowsExactly` | src/optimizer/constant_folding_rule.cpp:194-330 | folding the expressions of a plan throws exactly when one of them has a clash |
| `PlanFolding.FoldPlanShape` | src/optimizer/constant_folding_rule.cpp:194-330 | the folded plan has the same nodes, tables, widths, limits and offsets, and its expressions are, in order, the folds of the original ones |
| `PlanFolding.FoldPlanRows` | src/optimizer/constant_folding_rule.cpp:194-330 | deciding constants or not, the filters, scans and joins of a folded plan keep exactly the rows of which short evaluation of the original expression is true |
| `PlanFolding.FoldPlanKeepsRuns` | src/optimizer/constant_folding_rule.cpp:194-330 | a plan without deciding constants and clashes whose executors raise nothing yields the same rows folded, limits of scans and NULLs included |
| `Expressions.SidedMeansConcatenated` | src/executor/column_value_expression.cpp:79-93 | a predicate whose columns name their side means on a pair of rows what the concatenated positions mean on the joined row |
| `OperatorLaws.OperandsDecide` | src/executor/value.cpp:42-155 | an operator sees the values of its operands only, and an exception of either is its own |
| `OperatorLaws.LeavesRead` | src/executor/column_value_expression.cpp:7-93 | columns read the row at their position or raise beyond it; constants and bound parameters give their value |
| `OperatorLaws.NullOperand` | src/executor/value.cpp:42-155 | NULL on either side of an operator gives NULL |
| `OperatorLaws.EqualityLaws` | src/executor/value.cpp:103-119 | values other than NULL are equal or not, of whatever types |
| `OperatorLaws.OrderLaws` | src/executor/value.cpp:121-155 | of less, equal and greater exactly one holds, the other two orderings follow from them, and values of different types raise |
| `OperatorLaws.NumbersAndTruth` | src/executor/value.cpp:121-128 | integers are in their usual order, false stands before true |
| `OperatorLaws.TextLaws` | src/executor/value.cpp:121-128 | strings are ordered at their first difference, or as a proper prefix |
| `OperatorLaws.SumLaws` | src/executor/value.cpp:42-51 | 0 is neutral, each successor adds one, results out of range raise |
| `OperatorLaws.DifferenceLaws` | src/executor/value.cpp:53-62 | what is taken away and added again gives back the original |
| `OperatorLaws.ProductLaws` | src/executor/value.cpp:64-73 | 0 absorbs, 1 is neutral, each successor adds the other operand, the order does not matter |
| `OperatorLaws.QuotientLaws` | src/executor/value.cpp:75-101 | a = q*b + r with r smaller than b and of the sign of a; division by zero and the one quotient out of range raise, and nothing else does |
| `OperatorLaws.ArithmeticOnOthers` | src/executor/value.cpp:42-101 | arithmetic on anything but integers and NULL raises |
| `OperatorLaws.LogicLaws` | include/executor/logical_expression.hpp:58-88 | the truth table of AND, NOT as its own inverse, and De Morgan for OR |
| `OperatorLaws.LogicOnOthers` | include/executor/logical_expression.hpp:58-88 | an operand that is no truth value raises under NOT and on the left, and on the right unless the left one decides |
| `Conjuncts.SplitKeeps` | src/optimizer/predicate_pushdown_rule.cpp:12-24 | under strict NULLs a predicate is true of a row exactly when all its conjuncts are |
| `Conjuncts.CombineKeeps` | src/optimizer/predicate_pushdown_rule.cpp:26-33 | the recombined conjuncts are true of a row exactly when each is |
| `Conjuncts.SplitCombine` | src/optimizer/predicate_pushdown_rule.cpp:12-33 | splitting a recombined conjunction gives the conjuncts back |
| `Conjuncts.CombineConjuncts` | src/optimizer/predicate_pushdown_rule.cpp:26-33 | the loop nests the conjuncts to the left in order, and gives nothing for none |
| `Conjuncts.TestSides` | src/optimizer/predicate_pushdown_rule.cpp:92-102 | the loop tells whether all columns are left, and whether all are right |
| `Conjuncts.RightLocal` | src/optimizer/predicate_pushdown_rule.cpp:45-57 | a re-based predicate means on the right row what it meant on the joined row |
| `Plans.RunIsRows` | src/executor/filter_executor.cpp:17-28 | if the executors of a plan raise nothing they yield the rows the plan denotes, where join predicates name no side |
| `Plans.RunScanIsSlice` | src/executor/seq_scan_executor.cpp:30-95 | a scan that skips and stops row by row yields the window of the rows that pass |
| `Plans.SliceRows` | src/executor/seq_scan_executor.cpp:30-95 | row i of a scan is the one at offset + i that passes, up to the limit |
| `Plans.RunSelectIsSelect` | src/executor/filter_executor.cpp:17-28 | a filter raises exactly when its predicate is not a truth value or NULL on some row, and otherwise selects |
| `Plans.RunJoinExactly` | src/executor/nested_loop_join_executor.cpp:34-79 | a join raises exactly when its predicate cannot be read on some pair of rows, or a key has no value on some row of its input |
| `Conjuncts.LoopsReadExactly` | src/executor/column_value_expression.cpp:79-93 | a predicate whose columns name no side can be read on all pairs exactly when there is no pair, or it has left columns only and can be read on every left row |
| `Plans.PushIntoJoin` | src/optimizer/predicate_pushdown_rule.cpp:82-134 | conjuncts that are equivalent pair by pair may move into the inputs of a join without changing a row or the order |
| `PredicatePushdown.Classify` | src/optimizer/predicate_pushdown_rule.cpp:92-111 | the loop sorts each conjunct to the left, re-based to the right, or to the rest |
| `PredicatePushdown.Apply` | src/optimizer/predicate_pushdown_rule.cpp:61-139 | the recursive rule terminates and computes the specified rewrite |
| `PredicatePushdown.PushdownSettles` | src/optimizer/predicate_pushdown_rule.cpp:61-139 | over a plan where nothing is left to push, the result has no filter on a scan and none on a join with a conjunct for one input alone: each conjunct goes as far down as it can |
| `PredicatePushdown.ClassifyInOrder` | src/optimizer/predicate_pushdown_rule.cpp:92-111 | conjuncts keep their order on each side |
| `PredicatePushdown.PushdownKeepsRows` | src/optimizer/predicate_pushdown_rule.cpp:61-139 | for every plan with right widths and scans without limit, the rewritten plan denotes the same rows in the same order |
| `PredicatePushdown.PushdownRunsExactly` | src/optimizer/predicate_pushdown_rule.cpp:61-139 | a plan whose executors raise nothing yields the same rows after pushdown exactly when the pushed conjuncts can be read on all rows of their input, those left over on the joined rows that passed, and those that reach a scan on its table; otherwise the rewritten plan raises |
| `PredicatePushdown.ScanPushdownExact` | src/optimizer/predicate_pushdown_rule.cpp:69-81 | moving a filter into a scan keeps the rows for all tables and predicates exactly when the scan has no limit and no offset, or limit 0 |
| `PredicatePushdown.LimitedScanDiffers` | src/optimizer/predicate_pushdown_rule.cpp:69-81 | for every other limit and offset there is a table on which the rewrite changes the rows |
| `PredicatePushdown.PushdownCanRaise` | src/optimizer/predicate_pushdown_rule.cpp:113-125 | a pushed conjunct can raise on a row that has no partner |
| `PredicatePushdown.PushdownCanRaiseMatched` | src/optimizer/predicate_pushdown_rule.cpp:113-125 | a pushed conjunct can raise on a row with a partner, where a false conjunct of the other input had hidden it |
| `JoinSelection.TakeEquiKey` | src/optimizer/join_selection_rule.cpp:87-131 | the loop takes out the first equality between the inputs, with its keys in order and the right one re-based |
| `JoinSelection.Apply` | src/optimizer/join_selection_rule.cpp:66-162 | the recursive rule computes the specified rewrite |
| `JoinSelection.EquiMeansKeys` | src/optimizer/join_selection_rule.cpp:97-127 | the equality is true of a joined row exactly when the two keys are equal and not NULL, sides swapped or not |
| `JoinSelection.JoinSelectKeepsRows` | src/optimizer/join_selection_rule.cpp:66-162 | for every plan with right widths, hash joins and residual filters denote the same rows in the same order |
| `JoinSelection.JoinSelectRunsExactly` | src/optimizer/join_selection_rule.cpp:66-162 | whatever the original plan does, after join selection its executors yield the rows it denotes exactly when hash keys have values on all rows of their input, residual conjuncts can be read on the joined rows, and what stays a nested loop meets no pair or has left columns only that can be read; otherwise they raise |
| `JoinSelection.RightColumnRaises` | src/executor/column_value_expression.cpp:79-93 | the nested loops raise on every predicate with a right column, if both inputs have rows |
| `JoinSelection.EquiLoopsRaise` | src/executor/nested_loop_join_executor.cpp:34-79 | so every equality between two inputs with rows can be run only after join selection |
| `JoinSelection.NestedJoinSafe` | src/optimizer/join_selection_rule.cpp:133-157 | if a predicate nested to the left can be read on every joined row, the hash join and residual filter made of it raise only on keys whose other input is empty |
| `JoinSelection.LonelyKeyCanRaise` | src/optimizer/join_selection_rule.cpp:133-146 | a key raises on a left row although there is no right row |
| `JoinSelection.NestingCanRaise` | src/optimizer/join_selection_rule.cpp:143-157 | `5 AND (x AND y)`, nested to the left, raises where y is NULL |
| `CostBasedJoin.JoinSelectTakesAll` | src/optimizer/join_selection_rule.cpp:87-157 | after join selection no nested loop join of the plan has an equality between its inputs left |
| `CostBasedJoin.NothingToExtract` | src/optimizer/cost_based_join_rule.cpp:86-167 | key extraction fails where no conjunct is such an equality |
| `CostBasedJoin.ExtractExactly` | src/optimizer/cost_based_join_rule.cpp:86-167 | keys are extracted exactly if some conjunct is an equality of two bare columns, one of each input |
| `CostBasedJoin.CostDecides` | src/optimizer/cost_based_join_rule.cpp:173-256 | a cost model that never prefers the hash join leaves the plan as it is; one that always does leaves no join with extractable keys |
| `CostBasedJoin.CostBasedAfterSelection` | src/optimizer/cost_based_join_rule.cpp:173-256 | after join selection the cost-based rule returns every plan unchanged, whatever the cost model says |
| `CostBasedJoin.CostBasedAlone` | src/optimizer/cost_based_join_rule.cpp:246-255 | on its own the rule loses the other conjuncts: a plan without rows gets rows |
| `CostBasedJoin.PromotionExact` | src/optimizer/cost_based_join_rule.cpp:246-255 | a promoted join keeps its rows exactly when the whole predicate holds of every pair that the extracted keys join |
| `CostBasedJoin.CostBasedKeepsRows` | src/optimizer/cost_based_join_rule.cpp:173-256 | if that holds of every join with extractable keys, the rule alone keeps rows, order and widths, whatever the cost model says |
| `CostBasedJoin.CostBasedSingle` | src/optimizer/cost_based_join_rule.cpp:173-256 | it holds on every database if each such join has a single conjunct |
| `CostBasedJoin.OptimizeKeepsRows` | src/optimizer/rule_executor.cpp:10-27 | the bottom-up pass of pushdown, join selection and the cost-based rule keeps rows, order and widths |
| `CostBasedJoin.OptimizeRunsExactly` | src/optimizer/rule_executor.cpp:10-27 | whatever the original plan does, after the pass its executors yield the rows it denotes exactly under the conditions of pushdown and join selection composed bottom-up; otherwise they raise |
| `CostBasedJoin.JoinSelectIdempotent` | src/optimizer/join_selection_rule.cpp:66-162 | join selection leaves nothing for itself to do |
| `TypedPlans.TypeSound` | src/executor/value.cpp:103-155 | an expression that passes a static type check has a value of its type on every row that conforms to the schema |
| `TypedPlans.WellTypedRows` | include/catalog/schema.hpp:13-19 | the rows of a well-typed plan over a database that conforms have the types of its schema |
| `TypedPlans.WellTypedRuns` | src/executor/nested_loop_join_executor.cpp:34-79 | the executors of a well-typed plan yield its rows exactly when no nested loop join that meets two inputs with rows has a column at or above its left width; otherwise they raise |
| `TypedPlans.SelectedTypedRuns` | src/optimizer/join_selection_rule.cpp:66-162 | after join selection they do so exactly when every such join has an equality between its inputs, or left columns only |
| `TypedPlans.OptimizeTyped` | src/optimizer/rule_executor.cpp:10-27 | pushdown, join selection and the cost-based rule keep a plan well typed, with the same schema |
| `TypedPlans.OptimizedTypedRuns` | src/optimizer/rule_executor.cpp:10-27 | after the pass they do so exactly when no nested loop join that is left meets a right column, and on every database if each nested loop join of the original has an equality between its inputs, or left columns only |
| `TypedPlans.LessThanRaises` | src/executor/column_value_expression.cpp:79-93 | a well-typed join on `c0 < c1` denotes a row, and neither it nor its optimized form can be run |
| `JoinExecutors.NestedLoopJoinExecutor.Init` | src/executor/nested_loop_join_executor.cpp:27-32 | everything is still to be emitted |
| `JoinExecutors.NestedLoopJoinExecutor.Next` | src/executor/nested_loop_join_executor.cpp:34-79 | emits the next row of the nested loops, ends exactly when none is left, throws only on a raising predicate |
| `JoinExecutors.RunNestedLoop` | src/executor/nested_loop_join_executor.cpp:27-79 | pulled to exhaustion, the executor emits all matching pairs, left-major; it throws exactly when some pair raises |
| `JoinExecutors.LoopItems` | src/executor/nested_loop_join_executor.cpp:34-79 | the emitted items are exactly the pairs on which the predicate is true, left row before right row, under the record of the left one |
| `JoinExecutors.HashJoinExecutor.Build` | src/executor/hash_join_executor.cpp:31-43 | files every right row with a non-null key under its key, in order; throws exactly when a right key raises |
| `JoinExecutors.HashJoinExecutor.Next` | src/executor/hash_join_executor.cpp:49-82 | emits the next partner of the current left row, ends exactly when none is left, throws only on a raising key |
| `JoinExecutors.RunHashJoin` | src/executor/hash_join_executor.cpp:28-82 | pulled to exhaustion, the executor emits each left row with its bucket; it throws exactly when some key raises |
| `JoinExecutors.JoinsAgree` | src/executor/hash_join_executor.cpp:28-82 | for all inputs, with duplicates, NULL keys and empty sides, the hash join and the nested loops over key equality emit the same sequence |
| `JoinExecutors.RunBoth` | src/executor/hash_join_executor.cpp:28-82 | where the hash join raises nothing the nested-loop executor emits the same sequence; with both sides nonempty neither raises alone |
| `JoinExecutors.NestedLoopDenotes` | src/executor/nested_loop_join_executor.cpp:34-79 | if every column named its side, the nested-loop executor would emit the rows that its plan node denotes |
| `JoinExecutors.UnsidedLoopExactly` | src/executor/nested_loop_join_executor.cpp:34-79 | on a predicate as the planner hands it over, naming no side, the executor raises nothing exactly when there is no pair, or all columns are left ones and it can be read on every left row; then it emits the rows that the plan node denotes |
| `JoinExecutors.LoopRuns` | src/executor/nested_loop_join_executor.cpp:27-79 | the run of a nested-loop plan node is what the executor does, exceptions included, for every predicate |
| `JoinExecutors.HashRuns` | src/executor/hash_join_executor.cpp:28-82 | the run of a hash-join plan node is what the executor does, exceptions included |
| `JoinExecutors.HashJoinDenotes` | src/executor/hash_join_executor.cpp:28-82 | the hash-join executor emits the rows that its plan node denotes |
| `SortOrder.KeysTotal` | src/executor/order_by_executor.cpp:26-47 | on non-null keys of one type the comparator is a total order, ascending and descending mixed |
| `SortOrder.KeysTransitive` | src/executor/order_by_executor.cpp:26-47 | the comparator is transitive on such keys |
| `SortOrder.OrderingsAgree` | src/executor/order_by_executor.cpp:49-49 | two orderings of the same rows show the same key sequence |
| `SortOrder.AtMostMeans` | src/executor/order_by_executor.cpp:26-47 | where two rows first differ in a sort expression, the smaller value comes first under ASC and the greater one under DESC |
| `TopK.SortContents` | src/executor/order_by_executor.cpp:49-49 | sorting keeps every row with its multiplicity |
| `TopK.SortOrdered` | src/executor/order_by_executor.cpp:49-49 | sorted rows are in the order of the comparator |
| `TopK.SortedRows` | src/executor/order_by_executor.cpp:26-49 | rows with comparable values come out sorted as ORDER BY says, expression by expression, ascending or descending |
| `TopK.SortStable` | src/executor/order_by_executor.cpp:49-49 | rows with equal keys stay in their order |
| `TopK.OrderByExecutor.Init` | src/executor/order_by_executor.cpp:13-50 | collects all rows of the child and sorts them stably, as ORDER BY says |
| `TopK.LimitExecutor.Init` | src/executor/limit_executor.cpp:11-25 | skips the offset, or everything if there is less |
| `TopK.LimitExecutor.Next` | src/executor/limit_executor.cpp:27-41 | emits the next row of the window and ends at the limit |
| `TopK.RunSortLimit` | src/executor/order_by_executor.cpp:13-63 | sort, offset and limit pulled to exhaustion give the window of the stably sorted rows |
| `TopK.PopKeeps` | src/executor/top_k_executor.cpp:52-57 | pushing into the full heap and popping keeps the best rows seen so far |
| `TopK.TopKExecutor.Init` | src/executor/top_k_executor.cpp:13-75 | the output is the window of the best rows, as many as limit plus offset in 64 bits, sorted as ORDER BY says; no dropped row had to come before a kept one |
| `TopK.BestIsPrefix` | src/executor/top_k_executor.cpp:59-68 | the best rows in order show the keys at the beginning of the stably sorted rows |
| `TopK.TopKExact` | src/executor/top_k_executor.cpp:13-75 | heap output is a sub-multiset of the input and shows the keys of sort-then-limit exactly when limit is 0, limit plus offset does not wrap, or nothing is behind the offset |
| `TopK.RunBothLimits` | src/executor/top_k_executor.cpp:13-75 | side by side, the two pipelines show the same key sequence exactly under that condition |

## Left out

- BPlusTree.BPlusTree.Insert: page fetch and allocation succeed; error returns in the middle of a split, and pages left behind by them, are not modelled.
- BPlusTree.BPlusTree.Remove: page fetch succeeds; pages emptied by a merge stay allocated, as in the source, and their reuse is not modelled.
- BTreePages.LeafPage.Insert: the byte layout of index pages is not modelled; serialisation keeps header, links and live entries.
- LockSafety.NoLostWakeUp: safety only; a shared waiter at the front and an upgrader behind it can block each other, and an outside abort notifies nobody.
- LockManager.LockManager.ReleaseAll: states the call run alone; interleaved with others it is `LockSafety.ReleaseAllReleases`.
- BufferPool.Pool.NewPage: page 0, which allocation rewrites behind the pool, is excluded from the logical contents.
- TableHeap.Bootstrap: links that lead in a circle are excluded; the loop of the source does not end there (`TableHeap.WayExactly`).
- TableHeap.TableHeap.Open: the same links are excluded.
- TableHeap.TableHeap.ReadTuple: pages of other kinds than slotted and blank ones are not on the modelled disk.
- TableHeap.TableHeap.DeleteTuple: a failing write of the page is not modelled.
- TableHeap.TableHeap.Create: allocation and write succeed.
- TableHeap.TableHeap.InsertTuple: disk reads and writes succeed.
- HeapIterator.Scan: no page changes during the scan.
- ConstantFolding.FoldLogic: before folding `x AND constant` the source evaluates x on an empty tuple and drops the result; for a composite x with a right-sided column that reads through a null pointer, which is not modelled.
- TypedPlans.WellTypedRuns: arithmetic fails the type check, since it can overflow and divide by zero.
- Plans.RunIsRows: join predicates whose columns name a side, which nothing builds, are excluded.
- PoolRuns.Serve: the client holds no pin between requests and the disk does not fail; the index itself is not rewritten as such a client.
- CostBasedJoin.OptimizeKeepsRows: the pass has the three join-related rules only, not projection pruning, constant folding, index selection, top-k and sort-limit rewriting.
- TopK.RunBothLimits: keys are non-null, of one type per column, and raise nothing.
- Transactions, MVCC, write-ahead logging and recovery.
- Disk manager file I/O, page-0 metadata, catalog serialisation.
- Folding of projections, sort keys, limits, inserted values and aggregates, which are not part of the modelled plans.
- Aggregation, HAVING, projection, insert, update, delete and index-scan executors.
- Planner, binder, cost model and cardinality estimates.
- Lexer, parser, shell, wire protocol and server.
