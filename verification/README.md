# Verified models of the HDF5 stream server

This project models the concurrent and data-handling core of a server that streams parts of HDF5 files,
and proves properties of it with Dafny 4.11. `dafny verify dfyconfig.toml` checks everything.

Five components are modelled. Each has a specification on values, on which the main results are
proved, and, where the program changes data in place, classes and loops that are proved to do what the
specification says.

## The ring in shared memory

`SharedData`, `Ring`, `RingInvariant`, `RingTheorems`, `RingSession`.

A reader process writes an answer into a ring of buffers in shared memory; the parent reads it. They
share two semaphores per buffer, a fill count per buffer and one cancel flag. `Ring` is the transition
system: writer steps claim, copy, check the flag, post, wait for the next buffer and end
(`src/hdf5/msgpack_chunkbuffer.c:37-146`), reader steps wait, take, give back and advance
(`src/lib/hdfstream.c:284-327`), and the parent may cancel (`src/lib/hdfstream.c:335-347`). The worker
may die at any point. The number of buffers, their size and the list of write calls are arbitrary. Since
equal indices do not tell a full ring from an empty one, a history variable counts the buffers in
flight. The results hold for every run over any number of requests: one owner per buffer, bytes in
order, one end block, prompt cancellation, no deadlock, termination, and that the code of success means
that everything has arrived. `RingSession.Session` executes the steps on arrays and semaphore counters.

## Caches

`AvlShape`, `AvlBalance`, `AvlHeap`, `AvlTree`, `LinkedList`, `OrderedMap` are the heap structures: an
AVL tree with parent pointers and a chain of its nodes, a doubly linked list, and the map that keeps
both in agreement. Their operations are proved to act on one sequence of distinct keys with values. The
proofs describe a tree on the heap by its value and a position in it by a context with a hole;
`AvlShape` has the algebra of these, `AvlHeap` relates them to the heap, `AvlBalance` says when a
deletion keeps the tree balanced.

`Lru` is one level of a least-recently-used cache, `CacheModel` the two levels of files and datasets
with ids, counters and access times, `CacheRuns` the parent's shadow copy next to the reader's cache over
runs of requests, failures and expiries, `CacheAnswers` what is read from and what is counted in a run.
`CacheOps` is what both levels do with their ordered map.
`DatasetCache` and `FileCache` are the caches on the heap: an ordered map of files, each with an ordered
map of datasets of its own. `CacheSession` is the reader with its parent.

## Slices of a dataset

`Words`, `Selection`, `MultiSlice`, `Msgpack`, `PackContents`, `PackDataset`.

A selection is a set of coordinates, and reading takes the selected elements in row-major order.
`MultiSlice.Cursor` is the resumable cursor over a list of slices, `Selection` the recursive union of
hyperslabs, `PackContents` the division of the bytes into bounded binary objects, `Msgpack` the tokens
of a MessagePack stream with a decoder. `PackDataset` puts them together: what a client decodes is the
requested slices, stacked along the first dimension. Sums and products are those of 64 bit words
(`Words`), so that it can be said of every request what becomes of it.

## Process pool

`PoolModel`, `PoolInvariant`, `PoolEffects`, `PoolTheorems`, `ProcessPool`.

A state machine over critical sections, semaphore operations and looks at a worker, with any number of
threads. `PoolEffects` says slot by slot what each critical section changes. `ProcessPool` has the critical
sections on the arrays.

## Trees

`PackGroup` packs a graph of groups, cyclic or not, down to a depth; a value and a graph are compared by
following the same path of links in both. `SliceDescriptor`, `SliceString` and `SliceInfo` read and write
slice descriptors. `VirtualTree`, `VirtualTheorems`, `VirtualEffects` and `VirtualDirectory` are the
virtual directories with access roles; `VirtualEffects` says path by path what an addition changes and
what a user can reach.

`Basics`, `Text` and `Wrappers` hold what several components use.

## Where the code and its comments differ

The models follow the code.

- `src/hdf5/msgpack_chunkbuffer.c:66` says that a nonzero return code discards buffered data. The code
  flushes it unless the request has been cancelled (`RingTheorems.FifoDelivery`, `StreamOutcome`,
  `AnyCodeIsDelivered`, `OneByteWithCode`).
- `src/hdf5/pack_contents.c:15` says that at least one bin is needed. Zero bytes need none.
- `src/util/process_pool.c:206-235` tries again after a dead worker, but releasing a dead worker posts
  nothing, so a waiting thread can be left behind until another one enters or stops the pool
  (`PoolTheorems.WaitersStuckIff`, `StrandedWaiter`, `NewcomerReleases`).
- `src/hdf5/multislice.c:43-45` adds in 64 bits and can wrap; the Java layer keeps starts and counts
  below 2^63 (`MultiSlice.AcceptedInBoundsIff`).
- `src/hdf5/pack_dataset.c:66-97` multiplies counts and sizes in 64 bits before the slices are checked.
  Where a product wraps, the code divides by zero, selects no rows for ever, reads more than the buffer
  holds or announces a wrong size (`PackDataset.HandledIff` and one witness for each).
- `src/util/avltree.c:383` rebalances after a deletion only above the parent of the target, and the loop
  (`src/util/avltree.c:168-199`) leaves a node alone when its higher side is even. The tree can lose its
  balance; exactly when is told by the heights before (`AvlBalance.DeletionDoes`, `DeletionUnbalances`).
- `src/hdf5/file_cache.c:159-197` removes from the tail as many entries as are too old anywhere. These
  are the same entries unless the clock steps back (`CacheModel.ExpiryExactIff`).
- The lengths of virtual files are not checked, and are added up in 64 bits. Totals grow with a user's
  roles if and only if negative lengths are kept out and all lengths together are below 2^63
  (`VirtualTheorems.TotalsGrowIff`, `OverflowShrinksTotal`).
- `virtual_directory/src/main/java/uk/ac/dur/cosma/virtual_directory/VirtualDirectory.java:25` says that
  all roles of the parent are inherited. They are copied when a directory is created; roles that the
  parent gets later are not passed on (`VirtualTheorems.InheritedIff`, `RoleNotInherited`).

## Definitions that follow the source

Functions without a contract of their own, and the lines they follow:

- `Ring.WReady`, `WClaim`, `WCopy`, `WCheck`, `WPost`, `WAwait`, `WEnd`, `WPostEnd`:
  `src/hdf5/msgpack_chunkbuffer.c:37-146`; `RWait`, `ROwn`, `RPost`: `src/lib/hdfstream.c:284-327`;
  `CloseStep`: `src/lib/hdfstream.c:337-343`; `StartRequest`: `src/lib/hdfstream.c:142-174`.
- `AvlShape.RotL`, `RotR`, `Fix`: `src/util/avltree.c:69-201`.
- `CacheModel.OpenFile`, `OpenDataset`, `Expire`, `Query`, `Score`: `src/hdf5/file_cache.c:77-197` and
  `src/lib/hdfstream.c:36-53`; `CacheRuns.ReaderDoes`, `ParentDoes`: `src/reader/hdfstream_reader.c:59-81`
  and `src/lib/hdfstream.c:180-189`.
- `MultiSlice.Accepted`: `src/hdf5/multislice.c:30-64`.
- `PoolModel.Start`, `Chosen`, `Assign`, `Retire`, `Return` and the steps: `src/util/process_pool.c:87-317`.
- `PackGroup.ObjectValue`, `GroupValue`, `MemberValue`: `src/hdf5/pack_object.c:10-46`,
  `src/hdf5/pack_group.c:30-159`.
- `SliceDescriptor.PackTokens`, `ReadSlices`, `Combine`: the `pack` method of `SliceInfo.java`,
  `DimensionArray.java`, `DimensionInfo.java`; `SliceString.ParseSlices`: the constructor of `SliceInfo`.
- `VirtualTree.AddFile`, `Resolve`, `Listing`, `TotalSize`: `VirtualDirectory.java:119-412`.

## Model

| member | source | states |
|---|---|---|
| SharedData.HeaderSize | src/lib/shared_data.c:4-12 | the size is a multiple of the alignment, at least the raw size and less than one alignment more |
| SharedData.SharedReaderData.Populate | src/lib/shared_data.c:15-45 | for any number of buffers and any size: all buffers lie inside the region, no two overlap, all semaphores are zero and all buffers empty |
| SharedData.SharedReaderData.InitSemaphores | src/lib/shared_data.c:60-88 | three passes of single waits and posts leave every buffer writable, not readable and empty, provided no semaphore was above one; the layout is untouched |
| SharedData.RearmedKeepsLayout | src/lib/shared_data.c:60-88 | re-arming keeps the buffers inside the region and disjoint |
| RingInvariant.WClaimKeepsRing | src/hdf5/msgpack_chunkbuffer.c:110-116 | claiming the first buffer keeps every semaphore in step with the owner of its buffer |
| RingInvariant.WCopyKeepsRing | src/hdf5/msgpack_chunkbuffer.c:119-136 | copying stays inside the claimed buffer and changes no other one |
| RingInvariant.WPostKeepsRing | src/hdf5/msgpack_chunkbuffer.c:45-56 | posting hands the buffer to the reader and to nobody else |
| RingInvariant.WAwaitKeepsRing | src/hdf5/msgpack_chunkbuffer.c:58-59 | the writer owns the next buffer only once the reader has given it back |
| RingInvariant.WPostEndKeepsRing | src/hdf5/msgpack_chunkbuffer.c:73-91 | the end block is one more posted buffer, in the writer's own slot |
| RingInvariant.ROwnKeepsRing | src/lib/hdfstream.c:301-318 | the reader empties only the buffer whose token it holds |
| RingInvariant.RPostKeepsRing | src/lib/hdfstream.c:320-324 | giving a buffer back and advancing keeps indices and owners in step |
| RingInvariant.WriterConserves | src/hdf5/msgpack_chunkbuffer.c:37-146 | no step of the writer loses, repeats or reorders a byte |
| RingInvariant.ReaderConserves | src/lib/hdfstream.c:284-327 | no step of the reader does either |
| RingInvariant.LiveStep | src/hdf5/msgpack_chunkbuffer.c:37-146 | every step of either process, a cancel and the death of the worker keep the invariant of a request in progress |
| RingTheorems.NextKeepsInv | src/lib/hdfstream.c:113-347 | the invariant survives opening, serving, failing and ending requests |
| RingTheorems.RunKeepsInv | src/lib/hdfstream.c:113-347 | it holds in every state of every run, over any number of requests |
| RingTheorems.OneOwner | src/hdf5/msgpack_chunkbuffer.c:37-146 | in every reachable state every buffer has exactly one owner: write token, writer, read token or reader |
| RingTheorems.InFlightIsReadable | src/lib/hdfstream.c:293-324 | the buffers in flight are exactly those with a read token and the one being read, which tells a full ring from an empty one |
| RingTheorems.FifoDelivery | src/hdf5/msgpack_chunkbuffer.c:106-146 | bytes delivered, then those in posted buffers in ring order, then those in the writer's buffer, then those dropped by a cancel, are the bytes accepted, a prefix of the bytes requested |
| RingTheorems.OneEndBlock | src/hdf5/msgpack_chunkbuffer.c:68-94 | a block in flight is empty if and only if it is the end block, which comes last |
| RingTheorems.HalfABufferIsFree | src/hdf5/msgpack_chunkbuffer.c:138-144 | in every run: between two writes half a buffer is free, and every block that a write posts is at least half full and not empty |
| RingTheorems.StreamOutcome | src/lib/hdfstream.c:304-312 | once the end block has been read: a caller that did not cancel has every byte and the code of the reader |
| RingTheorems.NoEndBlockIsError | src/lib/hdfstream.c:293-299 | a stream that ends without the end block, because the worker died, gives the error code, in every run |
| RingTheorems.SuccessMeansAll | src/lib/hdfstream.c:293-312 | from the code alone, in every run: a caller that did not cancel and gets the code of success has every byte requested; if the code is not the error code, it is the one that the worker passed on |
| RingTheorems.CancelIsPrompt | src/lib/hdfstream.c:335-347 | after a cancel at most as many blocks are read as there are buffers |
| RingTheorems.RearmRestores | src/lib/shared_data.c:60-88 | between requests re-arming gives one and the same state of every buffer, whatever the last request did |
| RingTheorems.NeverBothBlocked | src/lib/hdfstream.c:293-299 | while a stream is open and the worker alive, writer or reader can move |
| RingTheorems.RequestTerminates | src/hdf5/msgpack_chunkbuffer.c:106-146 | every interleaving of a request takes a bounded number of steps, and stops only when the stream has ended |
| RingTheorems.AnyCodeIsDelivered | src/hdf5/msgpack_chunkbuffer.c:62-94 | whatever the write calls and the code passed to destroy, zero or not: every run can go on to serve the request, and then the caller has every byte and that code |
| RingTheorems.OneByteWithCode | src/hdf5/msgpack_chunkbuffer.c:62-94 | for instance one byte and any code that is not zero: the byte arrives |
| RingSession.Session.CopyIn | src/hdf5/msgpack_chunkbuffer.c:131-136 | the copy in place changes exactly the bytes of shared memory and the fill that the model says |
| RingSession.Session.StepWriter | src/hdf5/msgpack_chunkbuffer.c:37-146 | each writer step on the shared structures is the step of the state machine |
| RingSession.Session.StepReader | src/lib/hdfstream.c:284-327 | each reader step is the step of the state machine, and returns the bytes of the block |
| RingSession.Session.Open | src/lib/hdfstream.c:145-174 | the stream is reset, the flag cleared and the ring re-armed for the request |
| RingSession.Session.Serve | src/lib/hdfstream.c:284-347 | one whole request under any schedule ends; what is received, which leaves out what is read after a cancel, is a prefix of what was written, and all of it if the caller gets the code of success and did not cancel |
| AvlHeap.NodeHeight | src/util/avltree.c:115-156 | the walk over parent pointers ends and returns the recursive height of the subtree |
| AvlHeap.Descend | src/util/avltree.c:136-141 | going down keeps the walk inside the subtree and loses no pending sibling |
| AvlHeap.Ascend | src/util/avltree.c:142-148 | going up stops at the next sibling to visit, or when the walk is over |
| AvlShape.FixUpKeeps | src/util/avltree.c:159-201 | rebalancing changes neither the entries, nor their order, nor the set of nodes |
| AvlShape.FixUpBalances | src/util/avltree.c:159-201 | after one insertion, rebalancing every node above restores the balance of the whole tree |
| AvlShape.InsertedBalanced | src/util/avltree.c:221-280 | inserting below any leaf position of a balanced tree and rebalancing gives a balanced tree |
| AvlShape.InsertedEntries | src/util/avltree.c:221-280 | inserting at the end of the search path gives the old entries and the new one, still sorted |
| AvlShape.RemovedEntries | src/util/avltree.c:300-386 | taking an entry out below any position and rebalancing leaves all other entries, sorted |
| AvlShape.PulledLeftDrops | src/util/avltree.c:327-346 | copying the largest key on the left over the target and splicing that node out drops the target's entry and one node |
| AvlShape.PulledRightDrops | src/util/avltree.c:347-367 | the same with the smallest key on the right |
| AvlTree.AVLTree.RotateLeft | src/util/avltree.c:69-90 | the pointer changes realise the rotation of the tree value at that place, parent links included |
| AvlTree.AVLTree.RotateRight | src/util/avltree.c:92-113 | the mirror image |
| AvlTree.AVLTree.FixAt | src/util/avltree.c:168-199 | one iteration of the loop does what Fix does at that node |
| AvlTree.AVLTree.Rebalance | src/util/avltree.c:159-201 | the loop up to the root does what FixUp does |
| AvlTree.AVLTree.Lookup | src/util/avltree.c:204-219 | returns the value of the key if and only if the tree has it |
| AvlTree.AVLTree.AddNode | src/util/avltree.c:221-280 | refuses a key that is there; otherwise adds exactly that entry, in place, as a leaf where the search for the key arrives, rebalanced from there up, and keeps a balanced tree balanced |
| AvlTree.AVLTree.DeleteNode | src/util/avltree.c:300-386 | removes exactly the entry of the key, or nothing; the tree stays a search tree with consistent parent links and the chain stays its set of nodes; a balanced tree stays balanced if and only if the effect told from its heights is not a break |
| AvlBalance.DeletionDoes | src/util/avltree.c:300-386 | for every deletion in a balanced tree: whether the whole tree loses its balance, keeps its height or shrinks is what the heights along the edge, at the target, at its parent and above say beforehand |
| AvlBalance.DeletionUnbalances | src/util/avltree.c:383-384 | a balanced tree, made by adding four keys to the empty one, that a deletion leaves unbalanced |
| AvlTree.AVLTree.DeallocNode | src/util/avltree.c:283-298 | takes exactly one node out of the allocation chain |
| AvlTree.AVLTree.NewNode | src/util/avltree.c:17-37 | appends a new node to the chain |
| AvlTree.AVLTree.Free | src/util/avltree.c:389-400 | following the chain visits every node of the tree, each once |
| LinkedList.LinkedList.AddItemHead | src/util/linked_list.c:48-66 | the sequence of items gets the new one in front, links and count right |
| LinkedList.LinkedList.AddItemTail | src/util/linked_list.c:70-93 | the sequence gets the new item at the end |
| LinkedList.LinkedList.MakeItemHead | src/util/linked_list.c:97-127 | the item moves to the front, all others keep their order |
| LinkedList.LinkedList.RemoveTail | src/util/linked_list.c:131-154 | removes and returns the last item of a list that is not empty |
| LinkedList.LinkedList.RemoveHead | src/util/linked_list.c:158-181 | removes and returns the first item of a list that is not empty |
| LinkedList.LinkedList.RemoveItem | src/util/linked_list.c:185-189 | removes exactly the given item |
| LinkedList.ToFrontLinked | src/util/linked_list.c:97-127 | the links after the move are those of the new order |
| OrderedMap.OrderedMap.KeysDistinct | src/util/ordered_map.c:19-62 | no key occurs twice |
| OrderedMap.OrderedMap.Lookup | src/util/ordered_map.c:146-153 | returns the value of the key if and only if it is in the sequence |
| OrderedMap.OrderedMap.AddItem | src/util/ordered_map.c:19-62 | puts the entry at the head or the tail of the sequence, or refuses a key that is there; tree, list and back-pointers agree afterwards |
| OrderedMap.OrderedMap.MakeItemHead | src/util/ordered_map.c:156-163 | moves exactly the entry of the key to the front, or reports that there is none |
| OrderedMap.OrderedMap.RemoveItem | src/util/ordered_map.c:65-86 | removes exactly the entry of the key |
| OrderedMap.OrderedMap.RemoveHead | src/util/ordered_map.c:89-112 | removes the first entry |
| OrderedMap.OrderedMap.RemoveTail | src/util/ordered_map.c:115-138 | removes the last entry |
| OrderedMap.OrderedMap.Iterate | src/util/ordered_map.c:189-212 | visits the entries in order and ends after the last |
| OrderedMap.OrderedMap.Size | src/util/ordered_map.c:141-143 | the number of entries |
| OrderedMap.SameItemsRemove | src/util/ordered_map.c:65-86 | removing one key from both structures leaves them with the same items |
| DatasetCache.StrCmpIsTotalOrder | src/hdf5/dataset_cache.c:10-12 | comparing by strcmp is a total order, as the tree needs |
| DatasetCache.DatasetCache.OpenDataset | src/hdf5/dataset_cache.c:62-99 | on the tree and list themselves: a name that is cached returns the id stored under it, another one the new id of the library; the names become those of one least-recently-used step and the ids stay with their names, or nothing changes on failure; no failed id is ever cached |
| CacheOps.MakeRoom | src/hdf5/dataset_cache.c:84-92 | removes entries from the tail until there is room for one more, and no others |
| Lru.LruIsRecency | src/hdf5/file_cache.c:77-124 | after any trace the cache holds the names most recently opened, without duplicates, in order of last use, up to its capacity |
| Lru.LargerCacheContainsSmaller | src/hdf5/file_cache.c:77-124 | for one trace a larger cache contains the smaller one as its most recent part |
| FileCache.FileCache.OpenFile | src/hdf5/file_cache.c:77-124 | on the ordered map of files, each with its own map of datasets: one least-recently-used step, ids, counters and access time included, returning the entry at the head, or no change if the file cannot be opened; all dataset caches stay separate, and those of files that stay open are unchanged |
| FileCache.FileCache.OpenDataset | src/hdf5/file_cache.c:127-129 | opens the dataset in the map of the entry at the head and returns the id stored there under that name, or else what the library returns (zero in a shadow); the maps of all other files are unchanged |
| FileCache.FileCache.ExpireEntries | src/hdf5/file_cache.c:159-197 | iterates over the map to count the old entries, then removes as many from its tail, whichever they are |
| FileCache.FileCache.Query | src/hdf5/file_cache.c:132-156 | looks the file up in the map and the dataset in the map of that file; a missing name counts as cached with its file |
| CacheModel.ExpiryExactIff | src/hdf5/file_cache.c:159-197 | that removes exactly the old entries if and only if the old entries are at the tail |
| CacheRuns.ExpiryIsExact | src/reader/hdfstream_reader.c:232-239 | over every run under a clock that never goes back, expiry removes exactly the entries older than the limit |
| CacheAnswers.ExpiryMeans | src/hdf5/file_cache.c:159-197 | under such a clock the files that stay open are exactly those used within the maximum age, or all if it is not positive |
| CacheRuns.ClockSteppingBack | src/hdf5/file_cache.c:159-197 | a run in which the clock steps back, a fresh file is closed and an old one kept |
| CacheRuns.FilesAged | src/hdf5/file_cache.c:82-120 | under such a clock access times never increase from head to tail |
| CacheRuns.StepShadows | src/lib/hdfstream.c:180-189 | every request, failed or not, and every expiry keeps the reader's files and datasets the most recent part of the parent's |
| CacheRuns.ShadowAlwaysHolds | src/lib/hdfstream.c:180-186 | in every state of every mix of requests, failures and expiries the reader's file names are a prefix of the shadow's, and so are the datasets of each common file |
| CacheRuns.ScoreNeverTooLow | src/lib/hdfstream.c:36-53 | the score that chooses a worker is never below what the reader's own cache would give |
| CacheAnswers.QueryMeans | src/hdf5/file_cache.c:132-156 | a query answers whether an entry of that name is in the cache, and has the dataset among its own; a missing name counts as cached with its file |
| CacheAnswers.ScoreMeans | src/lib/hdfstream.c:36-53 | the score is two if and only if what is asked for is open, one if only the file is, and zero otherwise |
| CacheAnswers.CountersMean | src/hdf5/file_cache.c:82-120 | after every run the hits are the requests for a file that was cached at the time, the misses those for another one that could be opened |
| CacheAnswers.CachedIdsRight | src/hdf5/dataset_cache.c:62-99 | after every run each open file and dataset has the id that the library gave when it was last asked for it |
| CacheAnswers.AnswersAreRight | src/reader/hdfstream_reader.c:59-81 | after every run, a request that can be answered reads from the handles that the library gave for that file, and for that dataset in it, when it was last asked: just now if they were not cached |
| CacheRuns.WithoutExpirySame | src/reader/hdfstream_reader.c:59-81 | without expiry both caches hold the same names, and their hit and miss counters are equal |
| CacheRuns.FilesAreMostRecent | src/hdf5/file_cache.c:77-124 | without expiry the open files are the most recent of all files ever opened successfully |
| CacheSession.Worker.Read | src/reader/hdfstream_reader.c:59-81 | the reader's handling of a request on its cache, the status it sends, and the handles of the file and dataset that it reads from |
| CacheSession.Worker.Note | src/lib/hdfstream.c:180-186 | the parent updates its shadow from the status alone |
| CacheSession.Worker.Handle | src/reader/hdfstream_reader.c:227-262 | a request or timeout is one step of the model, with the handles of the model, and the shadow relation survives it |
| CacheSession.NewWorker | src/hdf5/file_cache.c:50-60 | a reader and its parent start with empty caches that share no object |
| MultiSlice.AcceptedInBoundsIff | src/hdf5/multislice.c:35-64 | accepted slices lie within the dataset if and only if no start plus count wraps in 64 bits |
| MultiSlice.WrappingSliceAccepted | src/hdf5/multislice.c:43-45 | a slice far outside the dataset that is accepted because the sum wraps |
| MultiSlice.SignedNoWrap | jni/uk/ac/dur/cosma/libhdfstream/HDFStream.java:131-134 | with starts and counts below 2^63, as the Java layer makes sure, no sum wraps |
| MultiSlice.AcceptedRows | src/hdf5/multislice.c:36-83 | the rows of an accepted list are increasing, all different, within the dataset and no more than its first dimension |
| MultiSlice.AcceptedIff | src/hdf5/multislice.c:22-64 | below 2^63 a list is accepted if and only if there are at most 32 dimensions and 1 to 2^24 slices, all lie within the dataset, they agree beyond the first dimension, and each ends no later than any later one starts; so adjacent slices are accepted |
| MultiSlice.AcceptedRowsIff | src/hdf5/multislice.c:22-64 | the order of slices that have rows is that all rows of the list ascend strictly |
| MultiSlice.EmptySliceOutOfOrder | src/hdf5/multislice.c:52-56 | an empty slice in the wrong place is refused, although the rows of the list ascend |
| MultiSlice.Cursor.Init | src/hdf5/multislice.c:18-99 | succeeds if and only if the list is accepted (AcceptedIff); then the shape is right and all rows remain, or none if the result is empty |
| MultiSlice.Cursor.Advance | src/hdf5/multislice.c:145-176 | the next part of a slice comes off the front of the remaining rows, and the internal assertions hold |
| MultiSlice.Cursor.Gather | src/hdf5/multislice.c:136-180 | the ranges collected are exactly the first rows remaining; it ends, also over empty slices, with the buffer full, nothing left, or 10240 ranges, at the position that BufferEnd defines |
| MultiSlice.Cursor.SelectNextBufferData | src/hdf5/multislice.c:104-195 | code 1 if and only if nothing remains; otherwise between one and a buffer full of rows are selected, exactly those come off the front, the position becomes that after one more read, and the selection cannot fail |
| MultiSlice.ReadsBounded | src/hdf5/multislice.c:136-180 | every read returns a row as long as there are any, and at most a buffer full: so many reads return at least as many rows, and at most so many buffers, for any number of reads |
| MultiSlice.ReadsExact | src/hdf5/multislice.c:136-180 | with at most 10240 slices every read but the last one fills the buffer, whatever the lengths of the slices |
| Selection.InBox | src/hdf5/select.c:8-13 | a hyperslab enumerated in row-major order is the set of coordinates within its bounds |
| Selection.BoxSorted | src/hdf5/select.c:8-13 | the enumeration is sorted, and as long as the counts multiply to |
| Selection.SortedUnique | src/hdf5/pack_dataset.c:129-131 | a set of coordinates has only one row-major order |
| Selection.RowsReadInListOrder | src/hdf5/pack_dataset.c:129-131 | reading a selection of increasing rows in row-major order gives the rows in list order |
| Selection.UnionSplit | src/hdf5/select.c:39-54 | the union of two halves is the union of all |
| Selection.UnionIsStack | src/hdf5/select.c:3-15 | the union of the hyperslabs is the selection of their rows |
| Selection.StackPoints | src/hdf5/select.c:75-87 | a selection of rows has as many points as different rows times the size of a row |
| Selection.SelectSlicesDirect | src/hdf5/select.c:3-15 | the loop selects the union of the hyperslabs and changes only the first start and count |
| Selection.SelectSlicesRecursive | src/hdf5/select.c:18-62 | the recursive halving ends for any number of ranges and selects the same union |
| Selection.SelectSlices | src/hdf5/select.c:65-90 | the union is selected, and the debug check on the number of points succeeds if and only if the number listed and the number selected are the same 64 bit word |
| Selection.CountsAgreeIff | src/hdf5/select.c:75-87 | that is so if no row is listed twice or a row is empty, and only then if the number of points listed is below 2^64 |
| Msgpack.RoundTrip | src/hdf5/pack_contents.c:66-93 | decoding the tokens of any object gives it back and stops exactly behind it |
| PackContents.ArrayFitsIff | src/hdf5/pack_contents.c:59-98 | with bins that fit in the format: every length in the output is below 2^32 and every number is a 64 bit one if and only if those in the description of the type are, the shape and the size are words, and there are fewer than 2^32 bins |
| PackDataset.OutputFits | src/hdf5/pack_dataset.h:16-24 | with bins of 2^32-1 bytes, as the callers choose, this holds for every request that packs, if it does for the description of its type |
| PackContents.NrBins | src/hdf5/pack_contents.c:13-20 | the least number of bins that hold the bytes; zero bytes need none |
| PackContents.ChunkCount | src/hdf5/pack_contents.c:13-20 | as many bins are announced as the payload is cut into |
| PackContents.ChunksAreThePayload | src/hdf5/pack_contents.c:165-199 | the bins concatenate to the payload, none is empty, all but the last have the maximal size |
| PackContents.WrittenAll | src/hdf5/pack_contents.c:165-199 | when the announced bytes have been written, the output is exactly the announced bins, all complete |
| PackContents.PackContentsInfo.Header | src/hdf5/pack_contents.c:59-98 | the header tokens, with type, shape, the size as a signed 64 bit number and the number of bins that follows from it, and the counters for the body |
| PackContents.PackContentsInfo.Body | src/hdf5/pack_contents.c:165-199 | however the payload is divided among calls, the output so far is that of all bytes so far |
| PackContents.HeaderAndBody | src/hdf5/pack_contents.c:59-98 | header and body together are the tokens of one well-formed array object |
| PackDataset.AllIsRequested | src/hdf5/pack_dataset.c:93-106 | all rows of the cursor together are the requested slices, one after the other, and as many elements as the shape says |
| PackDataset.PartInListOrder | src/hdf5/pack_dataset.c:129-131 | what one read returns is the next part of the slices in list order |
| PackDataset.ReadSelected | src/hdf5/pack_dataset.c:121-131 | the bytes of one selection are read into the buffer, which is large enough |
| PackDataset.PackRows | src/hdf5/pack_dataset.c:108-147 | if the sizes do not wrap: the loop ends; what has been packed are exactly the rows that the reads before the failing one return, and it succeeds if and only if those are all |
| PackDataset.PackDatasetMultiSlice | src/hdf5/pack_dataset.c:33-165 | for every request: if read number failAt is the one that fails, what becomes of it is exactly Outcome. If it packs, the output is one array object with the requested slices stacked along the first dimension; if it is refused or divides by zero, nothing is written; if a size wraps, the header announces the wrapped size; if the read fails, the output is the header and exactly the bytes of the rows read before |
| PackDataset.PacksIff | src/hdf5/pack_dataset.c:33-165 | if the bytes of a row are below 2^64, those of the result below 2^63, and no read fails: the call packs if and only if a row fits in the buffer (or has no elements) and the slices are accepted, and refuses otherwise |
| PackDataset.FailsIff | src/hdf5/pack_dataset.c:108-147 | a request that would pack makes no more reads than it has rows; with at most 10240 slices it fails if and only if the reads before the failing one, times the rows in a buffer, are fewer than the rows; a scalar only if its first read fails |
| PackDataset.FirstBytes | src/hdf5/pack_dataset.c:129-136 | what is packed before a read fails are the first bytes of the result, as many as the rows read have |
| PackDataset.WithinWords | src/hdf5/pack_dataset.c:66-87 | if the bytes of a row are below 2^64 and those of the result below 2^63: such a request is one that packs if and only if a row fits in the buffer (or has no elements) and the slices are accepted, and one that is refused otherwise |
| PackDataset.HandledIff | src/hdf5/pack_dataset.c:66-147 | a request is one that packs or is refused, and nothing else, if and only if the divisor is not zero in 64 bits and the bytes of an accepted request that passes the check on the buffer are below 2^63, for every request with a slice |
| PackDataset.AnnouncesWrong | src/hdf5/pack_dataset.c:97-101 | whenever the loop does not advance, overruns the buffer or goes on with a wrapped size, the size in the header is not that of the result |
| PackDataset.OverrunIsReal | src/hdf5/pack_dataset.c:75-78 | a row that passes the check only because its size wraps is larger than the buffer |
| PackDataset.EmptyRound | src/hdf5/pack_dataset.c:108-147 | if the row size wraps to zero, a round of the loop selects nothing, returns the code to go on, and leaves the cursor where it was |
| PackDataset.DividesByZeroHappens | src/hdf5/pack_dataset.c:66-78 | a request with one row of 2^61 elements of eight bytes, whatever the dataset |
| PackDataset.EndlessHappens | src/hdf5/pack_dataset.c:66-147 | an accepted request for a whole dataset with rows of 2^64 elements |
| PackDataset.OverrunHappens | src/hdf5/pack_dataset.c:66-78 | an accepted request whose rows have 2^64 bytes and a few |
| PackDataset.MisannounceHappens | src/hdf5/pack_dataset.c:97-101 | an accepted request for 2^64 bytes, of which none are announced |
| PackDataset.ReceivesRequested | src/hdf5/pack_dataset.c:96-101 | a client decoding the output finds the type under "type", the kind under "kind", and gets the requested bytes; the shape and number of bytes in the header were right; every bin is within the limit |
| PackDataset.ElementAt | src/hdf5/pack_dataset.c:134-136 | element i of the payload is the value of the i-th requested coordinate |
| PoolInvariant.StartKeeps | src/util/process_pool.c:87-117 | starting a worker, successfully or not, keeps the invariant of the pool |
| PoolInvariant.ChooseKeeps | src/util/process_pool.c:143-197 | so does choosing a worker after the wait, with any scores, or giving up after the stop |
| PoolInvariant.ReapKeeps | src/util/process_pool.c:215-232 | so does removing a worker found dead |
| PoolInvariant.ReleaseKeeps | src/util/process_pool.c:240-270 | so does releasing a worker, dead or alive |
| PoolInvariant.FreeKeeps | src/util/process_pool.c:310-316 | so does the deallocation, slot by slot |
| PoolInvariant.RunKeepsInv | src/util/process_pool.c:87-317 | the invariant holds in every reachable state, for any number of threads and any deaths |
| PoolEffects.StartEffect | src/util/process_pool.c:87-117 | if the process can be started, fewer run than may and the pool is not stopped: one slot that was stopped has the new worker, free and announced, one more is running, and every other slot is unchanged; otherwise nothing changes |
| PoolEffects.AssignEffect | src/util/process_pool.c:183-189 | one free slot becomes busy, the next search starts one slot further on, and nothing else changes |
| PoolEffects.ReturnEffect | src/util/process_pool.c:247-259 | the slot of the worker becomes free, and nothing else changes |
| PoolEffects.RetireEffect | src/util/process_pool.c:222-231 | the slot of the worker is empty and stopped, one less is running, and nothing else changes |
| PoolEffects.FirstFreeIsChosen | src/util/process_pool.c:157-164 | without scores the choice is the first free worker, counted from the slot whose turn it is, and no other |
| PoolEffects.HighestScoreIsChosen | src/util/process_pool.c:157-176 | with scores it is the free worker with the highest one, the first in that order among equals |
| PoolTheorems.StarterCanStart | src/util/process_pool.c:87-117 | from every reachable state below the limit, a thread that found no free worker can start one, and then one more is free and announced |
| PoolTheorems.WaiterGets | src/util/process_pool.c:143-194 | from every reachable state with an open semaphore a waiting thread can get any free worker that is alive |
| PoolTheorems.StarterGetsWorker | src/util/process_pool.c:136-194 | so a thread that can start a worker can be the one that uses it |
| PoolTheorems.NewcomerGetsWorker | src/util/process_pool.c:136-194 | and so can a thread that enters, from every reachable state below the limit with a closed semaphore, however many workers are busy |
| PoolTheorems.TokensConserved | src/util/process_pool.c:107-107 | semaphore, threads past it and threads about to post account for exactly the free workers, and one more after the stop |
| PoolTheorems.ReservedFindsOne | src/util/process_pool.c:177-189 | a thread past the semaphore finds a free worker unless the pool was stopped, so the assertion cannot fail, and there is exactly one best one |
| PoolTheorems.GivesUpOnlyIf | src/util/process_pool.c:206-235 | in every run a thread that asks for a worker goes away without one only if the pool was stopped, or no worker runs although it tried to start one, or it has just removed one dead worker more than the limit on their number |
| PoolTheorems.HeldByOne | src/util/process_pool.c:183-189 | no worker is held by two threads; a held worker is busy and not freed |
| PoolTheorems.RunningWithinLimit | src/util/process_pool.c:92-106 | the running count equals the number of workers not stopped and never exceeds the limit; below it there is a free slot |
| PoolTheorems.NoneTakenAfterStop | src/util/process_pool.c:278-295 | after the stop no worker becomes busy, none is started, and the stop is final |
| PoolTheorems.WaitersAreReleased | src/util/process_pool.c:291-294 | after the stop, while a thread waits, the semaphore is open or some thread holds a token |
| PoolTheorems.TokenIsPosted | src/util/process_pool.c:146-151 | after the stop the next step of a thread with a token posts it and ends the call |
| PoolTheorems.AllFreedOnce | src/util/process_pool.c:310-316 | when the deallocation is complete, every worker ever started has been freed exactly once |
| PoolTheorems.NothingHeldAtDeallocation | src/util/process_pool.c:297-316 | during the deallocation no thread holds a worker |
| PoolTheorems.QuietSemaphore | src/util/process_pool.c:254-269 | with only waiting threads in the pool, the semaphore is closed if and only if no worker runs and the pool has not been stopped |
| PoolTheorems.WaitersStuckIff | src/util/process_pool.c:254-269 | if nobody is in the pool except to wait: over every continuation in which no thread enters or stops the pool, a waiting thread waits for ever, if and only if no worker runs and the pool has not been stopped |
| PoolTheorems.StrandedWaiter | src/util/process_pool.c:254-269 | a run that ends that way: the only worker dies while a second thread waits for it, and that thread waits for ever |
| PoolTheorems.NewcomerReleases | src/util/process_pool.c:87-117 | a continuation of it in which another thread enters, starts a new worker and releases the one that was left behind |
| ProcessPool.ProcessPool.StartWorker | src/util/process_pool.c:87-117 | the critical section on the arrays is the step of the model: one stopped slot gets the new worker if and only if there is room, the pool is not stopped and the process can be started |
| ProcessPool.ProcessPool.FindBest | src/util/process_pool.c:153-176 | the loop in rotation order finds an idle worker of maximal score, the first one in that order, or none if none is idle |
| ProcessPool.ProcessPool.TakeWorker | src/util/process_pool.c:146-194 | the best worker, and no other slot, becomes busy and the rotation advances; after the stop the token goes back |
| ProcessPool.ProcessPool.MarkDead | src/util/process_pool.c:222-231 | exactly the slot of the dead worker is cleared |
| ProcessPool.ProcessPool.ReleaseWorker | src/util/process_pool.c:240-270 | exactly the slot of the worker changes: idle if it is alive, cleared if not |
| ProcessPool.ProcessPool.Shutdown | src/util/process_pool.c:280-295 | stops the pool, posts once, and signals exactly the running workers |
| ProcessPool.ProcessPool.TryToFree | src/util/process_pool.c:297-316 | one round of the wait: the deallocation happens if and only if no worker is busy, and otherwise nothing does |
| ProcessPool.ProcessPool.FreeWorkers | src/util/process_pool.c:310-316 | every worker left is freed once and every slot is empty |
| PackGroup.PackObjectRecursive | src/hdf5/pack_object.c:10-46 | writes exactly one object or fails; the depth never exceeds max(1, max_depth) whatever cycles the links form |
| PackGroup.PackGroupRecursive | src/hdf5/pack_group.c:96-159 | writes the map of a group, whose members map has as many pairs as announced, or fails |
| PackGroup.VisitLink | src/hdf5/pack_group.c:30-75 | writes the name and the member that PackedIffDescribed is about, or nil if members are not encoded, or fails |
| PackGroup.PackObject | src/hdf5/pack_object.c:49-52 | succeeds if and only if everything that can be reached is readable; what was packed decodes, with nothing missing and nothing left over, to a value that along every path of links describes the object to which the path leads |
| PackGroup.PackedIffDescribed | src/hdf5/pack_group.c:30-159 | a value is what is packed if and only if along every path of hard and external links it describes the object reached: a group by its attributes and one member per link, in order, under its name; a soft link by its path; a dataset by its description; nil exactly for a group below the maximum depth and for the members of one that is at it or has more than 20 links, unless it is at the top |
| PackGroup.PackedIffReadable | src/hdf5/pack_object.c:10-46 | packing succeeds if and only if everything reached is there, its attributes and descriptions can be packed, and no link whose member is packed is broken |
| PackGroup.DeeperObject | src/hdf5/pack_group.c:104-122 | success with one more level implies success, and the result is the deeper one with some parts replaced by nil |
| PackGroup.DeeperOnlyAdds | src/hdf5/pack_group.c:104-122 | the same for any two depths from the top |
| SliceDescriptor.ReadBack | webapp/src/main/java/uk/ac/dur/cosma/hdfstream/DimensionArray.java:22-45 | a packed list can be read if and only if it is within the limits on dimensions and slices; what is read is described by what was sent |
| SliceDescriptor.CombinedAt | webapp/src/main/java/uk/ac/dur/cosma/hdfstream/DimensionArray.java:54-88 | every slice comes back with its own first dimension and the first slice's other dimensions |
| SliceDescriptor.RoundTripIff | webapp/src/main/java/uk/ac/dur/cosma/hdfstream/SliceInfo.java:158-194 | a packed list comes back unchanged if and only if it is within the limits and its slices agree beyond the first dimension (one slice, for scalars) |
| SliceInfo.SliceInfo.Pack | webapp/src/main/java/uk/ac/dur/cosma/hdfstream/SliceInfo.java:158-194 | the loops over arrays write exactly those tokens |
| SliceInfo.Unpacker.UnpackLongArrayOrScalar | webapp/src/main/java/uk/ac/dur/cosma/hdfstream/MsgpackUtils.java:28-51 | reads a number, or an array of at most so many numbers as the caller allows, or fails |
| SliceInfo.Unpacker.UnpackDimension | webapp/src/main/java/uk/ac/dur/cosma/hdfstream/DimensionInfo.java:28-51 | reads one dimension; counts must be one or as many as starts, and neither may be empty |
| SliceInfo.DimensionArray.Unpack | webapp/src/main/java/uk/ac/dur/cosma/hdfstream/DimensionArray.java:22-45 | reads at most eight dimensions, of which only the first has several starts, or fails |
| SliceInfo.GetSliceInfo | webapp/src/main/java/uk/ac/dur/cosma/hdfstream/DimensionArray.java:54-88 | the nested loops with a running offset fill the arrays with the starts and counts of all slices |
| SliceString.ParsedIsBounded | webapp/src/main/java/uk/ac/dur/cosma/hdfstream/SliceInfo.java:42-114 | whatever the string, an accepted list is within the limits, and no start, count or end is negative or above 2^63-1 |
| SliceString.ParsePrinted | webapp/src/main/java/uk/ac/dur/cosma/hdfstream/SliceInfo.java:42-114 | every bounded list within the limits, written as a string that is not too long, is parsed back to itself, whether single elements are written as ranges or as an index |
| SliceString.ParseIndex | webapp/src/main/java/uk/ac/dur/cosma/hdfstream/SliceInfo.java:87-94 | a plain index stands for the one element there; 2^63-1 is refused, as its end is no long |
| Text.SplitJoin | webapp/src/main/java/uk/ac/dur/cosma/hdfstream/SliceInfo.java:50-66 | splitting undoes joining if no part contains the separator |
| Text.ParseString | webapp/src/main/java/uk/ac/dur/cosma/hdfstream/SliceInfo.java:87-106 | parsing a decimal number gives the number |
| SliceInfo.FromString | webapp/src/main/java/uk/ac/dur/cosma/hdfstream/SliceInfo.java:42-114 | the constructor accepts exactly those strings and fills the arrays accordingly |
| SliceInfo.FromUnpacker | webapp/src/main/java/uk/ac/dur/cosma/hdfstream/SliceInfo.java:127-150 | a string or an array of dimensions is read, anything else refused |
| VirtualTree.SplitParts | virtual_directory/src/main/java/uk/ac/dur/cosma/virtual_directory/VirtualDirectory.java:119-147 | a path is one name, or a first name and a rest that neither is empty nor ends with a slash |
| VirtualTheorems.AddKeepsWellFormed | virtual_directory/src/main/java/uk/ac/dur/cosma/virtual_directory/VirtualDirectory.java:156-213 | adding, successful or not, keeps names distinct within and between files and directories, and sizes right at every level |
| VirtualTheorems.BuiltWellFormed | virtual_directory/src/main/java/uk/ac/dur/cosma/virtual_directory/VirtualDirectory.java:218-271 | so every tree built from the empty one is well formed, and its root is open to all |
| VirtualEffects.AddedIff | virtual_directory/src/main/java/uk/ac/dur/cosma/virtual_directory/VirtualDirectory.java:156-213 | an addition succeeds if and only if no component of the path is empty, no file is at the path or on the way to it, and no directory is at the path, or one without a real path if a directory is added |
| VirtualEffects.AddFileFiles | virtual_directory/src/main/java/uk/ac/dur/cosma/virtual_directory/VirtualDirectory.java:191-200 | after the addition of a file its path leads to a file with the real path, length, date and type of the item; every other path, and every path if a directory is added or the addition fails, leads to the file that it led to before |
| VirtualEffects.AddFileDirs | virtual_directory/src/main/java/uk/ac/dur/cosma/virtual_directory/VirtualDirectory.java:165-213 | directories that were there keep their real path and roles, except that the one added gets the real path and roles of the item; new ones are on the way to the path and have the roles of the nearest old one |
| VirtualEffects.BuiltFile | virtual_directory/src/main/java/uk/ac/dur/cosma/virtual_directory/VirtualDirectory.java:218-271 | every file in a tree that was built was added at its path, has the data of that item, and knows its own path |
| VirtualEffects.ResolvedIff | virtual_directory/src/main/java/uk/ac/dur/cosma/virtual_directory/VirtualDirectory.java:351-394 | resolving a path finds what is there if and only if the user has every role of every directory on the way, itself included: a directory as such, a file with the directory that it is in and its name |
| VirtualTheorems.ResolveIsLookup | virtual_directory/src/main/java/uk/ac/dur/cosma/virtual_directory/VirtualDirectory.java:351-394 | resolving finds the file at the path without one trailing slash, if all directories on the way are accessible |
| VirtualTheorems.ListedIffFound | virtual_directory/src/main/java/uk/ac/dur/cosma/virtual_directory/VirtualDirectory.java:322-345 | the listing has a path if and only if a file can be looked up there, and it has that file |
| VirtualTheorems.ResolveAgreesWithListing | virtual_directory/src/main/java/uk/ac/dur/cosma/virtual_directory/VirtualDirectory.java:351-394 | for every built tree and every user: resolving gives a file if and only if the path without one trailing slash is listed with that file |
| VirtualTheorems.ListingKeysDiffer | virtual_directory/src/main/java/uk/ac/dur/cosma/virtual_directory/VirtualDirectory.java:322-345 | no path is listed twice |
| VirtualTheorems.SizeIsSumOfListed | virtual_directory/src/main/java/uk/ac/dur/cosma/virtual_directory/VirtualDirectory.java:399-412 | the total size is the sum in 64 bits of the lengths of exactly the listed files |
| VirtualTheorems.BuiltListing | virtual_directory/src/main/java/uk/ac/dur/cosma/virtual_directory/VirtualDirectory.java:399-412 | both hold for every built tree and every user |
| VirtualTheorems.MoreRolesShowMore | virtual_directory/src/main/java/uk/ac/dur/cosma/virtual_directory/VirtualDirectory.java:29-34 | more roles resolve at least the same paths to the same files and list at least the same files |
| VirtualTheorems.TotalsGrowIff | virtual_directory/src/main/java/uk/ac/dur/cosma/virtual_directory/VirtualDirectory.java:399-412 | in every tree that can be built with lengths of at least a bound that amount to at most a limit: more roles never give a smaller total if and only if the bound is zero and the limit is below 2^63 (for bounds that are not positive) |
| VirtualTheorems.TwoFilesBuilt | virtual_directory/src/main/java/uk/ac/dur/cosma/virtual_directory/VirtualDirectory.java:218-271 | three additions build the tree with a file for everybody and one for members only, whatever their lengths |
| VirtualTheorems.OverflowShrinksTotal | virtual_directory/src/main/java/uk/ac/dur/cosma/virtual_directory/VirtualDirectory.java:399-412 | with lengths 2^63-1 and 1 the total is 2^63-1 without the role and -2^63 with it |
| VirtualTheorems.InheritedIff | virtual_directory/src/main/java/uk/ac/dur/cosma/virtual_directory/VirtualDirectory.java:164-213 | roles stay inherited throughout the tree if and only if the addition does not give an existing directory without a real path a role that one of its subdirectories does not require |
| VirtualTheorems.RoleNotInherited | virtual_directory/src/main/java/uk/ac/dur/cosma/virtual_directory/VirtualDirectory.java:182-190 | "a/b" is added, then "a" with a role: "a" requires it and "a/b" does not |
| VirtualDirectory.VirtualDirectory.AddItem | virtual_directory/src/main/java/uk/ac/dur/cosma/virtual_directory/VirtualDirectory.java:156-213 | the objects changed in place hold the tree that AddFile defines, whether adding succeeds or not |
| VirtualDirectory.VirtualDirectory.ResolvePath | virtual_directory/src/main/java/uk/ac/dur/cosma/virtual_directory/VirtualDirectory.java:351-394 | returns the object and file that Resolve defines |
| VirtualDirectory.VirtualDirectory.GetAllFiles | virtual_directory/src/main/java/uk/ac/dur/cosma/virtual_directory/VirtualDirectory.java:341-345 | the ordered map it fills is the listing, nothing overwritten |
| VirtualDirectory.VirtualDirectory.GetTotalSize | virtual_directory/src/main/java/uk/ac/dur/cosma/virtual_directory/VirtualDirectory.java:399-412 | the loop over subdirectories returns the total size, added up in 64 bits |

## Left out

- HDF5 and MessagePack libraries: selections are sets of coordinates, the output is a sequence of tokens;
  opening an object or reading from a dataset may fail. A write that fails, after a cancel, is part of
  the model of the ring only.
- Operating system: fork, pipes, signals, shared memory mapping, interrupted and timed waits. A wait
  blocks; a worker may die.
- Writer: stops at the first write that fails, as its callers do; single reads and writes of the flag
  are atomic. A ring whose worker has died is not used again.
- MultiSlice.Cursor.Init: the shape and position are stated for starts and counts below 2^63, the bound
  of the Java layer; acceptance is stated for all. A negative rank is not represented.
- PackDataset.PackDatasetMultiSlice: the rank of the request is that of the dataset. The code does not
  compare them. A request of rank 0 on an array is not modelled (the header of a scalar, then a read that
  fails unless the array has one element), nor are other ranks that differ, where entries that have not
  been set are used. Where a size wraps, the model stops at the fault, because what follows is not
  defined or does not end. Types have a fixed size; variable length data, attributes and the mapping of
  types are not modelled.
- AvlTree.AVLTree.Free: says which nodes are freed; releasing memory is not modelled.
- FileCache.FileCache.OpenFile: closing an evicted file frees its dataset cache; releasing memory and the
  library's handles are not modelled.
- PoolTheorems.RunKeepsInv: the pool is shut down by one thread, once, and each worker has an identity
  of its own, so reuse of a freed address is not represented.
- PoolTheorems.WaitersAreReleased: liveness in general is not claimed, because the death of a worker can
  leave a thread waiting.
- PackGroup.PackGroupRecursive: iteration visits as many links as the group reports; attributes and
  dataset descriptions are given, or fail.
- SliceInfo.Unpacker.UnpackDimension: dimensions are values, not objects; numbers outside 64 bits are not
  represented.
- SliceString.ParsePrinted: digits are ASCII digits; the length limit counts characters.
- Virtual directories: reading the configuration file, metadata and printing.
- Servlets, the viewer, configuration, tar files, stream copying, reference counts and request limits:
  easy or user interface.
