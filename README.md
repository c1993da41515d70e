# Fixed-size-chunk memory pool, modelled in Dafny

The repository holds a memory pool twice. Both versions hand out
equally sized chunks of a raw buffer in O(1) time. Free chunks sit on an
intrusive LIFO free list. The first pointer-sized bytes of each free chunk
hold the address of the next free chunk, and `m_freeList` is the head.

- `MemoryPool/MemoryPool.h` is the fixed pool. Its constructor links all
  `poolSize` chunks of one buffer. `allocate` pops the head or throws
  `bad_alloc` when the list is empty. `deallocate` pushes a chunk back.
  `clear` releases the buffer and the head. The move constructor and move
  assignment transfer the buffer and the head to the destination.
- `ThreadSafeExpandingMemoryPool/MemoryPool.h` is the expanding pool. Its
  constructor reserves a buffer but links none of its chunks. On an empty
  list, `allocate` takes a fresh buffer, links its chunks as the fixed
  constructor does, makes it the owned buffer (line 71) and then pops.

The model has five modules:

- `FreeList` (free_list.dfy) is the abstract free list, a sequence of
  chunks with the head first. It defines `Pop`, `Push`, the order the
  linking loop produces (`Descending`) and runs of pops (`PopMany`).
- `FixedPool` (fixed_pool.dfy) is a class over an `array<int>` of link
  fields. A chunk is its index in the buffer, and `-1` is null.
- `Slab` (slab.dfy) defines the expanding pool's handles. A `Chunk` is a
  (buffer, index) pair, and a link field holds `Null` or the next `Chunk`,
  which may lie in another buffer. The module also holds the growth
  loop, `NewLinkedSlab`.
- `ExpandingPool` (expanding_pool.dfy) is the expanding pool as written.
  It owns a single `memory` buffer, and growth replaces it.
- `SlabListPool` (slab_list_pool.dfy) is the corrected growth described
  under Findings: new buffers are appended to a list of owned buffers.

Each class keeps two ghost fields. `free` is the abstract free list and
`outstanding` is the set of chunks handed out and not yet returned.
`Valid()` ties `free` to the head and the link fields: the chain is
null-terminated, has no repeats and is disjoint from `outstanding`. In the
fixed pool, every chunk of the buffer is also either free or outstanding.
`deallocate` does not check its argument. The caller's obligation is the
precondition `p in outstanding`.

The model follows the code as written:

- The expanding constructor links no chunks, so the first `allocate`
  always grows.
- Growth replaces the owned buffer. `SlabListPool` is the appending
  alternative.
- A failed `malloc` is never detected: the `catch` cannot fire and a null
  result is not checked. Acquiring a buffer is taken to succeed.

## Model

| member | source | states |
|---|---|---|
| FreeList.Pop | MemoryPool/MemoryPool.h:50-56 | taking the head fails exactly when the list is empty; otherwise the list is the popped chunk followed by the rest |
| FreeList.Push | MemoryPool/MemoryPool.h:59-63 | a pushed chunk becomes the head, and popping it straight away gives back that chunk and the previous list (LIFO round trip) |
| FreeList.PushFresh | MemoryPool/MemoryPool.h:59-63 | pushing onto a duplicate-free list keeps it duplicate-free if and only if the chunk was not already free; a double free duplicates a chunk |
| FreeList.PopApart | ThreadSafeExpandingMemoryPool/MemoryPool.h:73-74 | popping a duplicate-free list that shares no chunk with the handed-out set leaves a duplicate-free rest that shares no chunk with the handed-out set plus the popped chunk |
| FreeList.PushApart | ThreadSafeExpandingMemoryPool/MemoryPool.h:82-83 | pushing a handed-out chunk onto such a list keeps it duplicate-free, and it shares no chunk with the handed-out set once that chunk leaves it |
| FreeList.Descending | MemoryPool/MemoryPool.h:18-22 | linking chunks 0..n-1 in turn onto an empty list leaves n chunks with chunk n-1-i at position i |
| FreeList.DescendingCovers | MemoryPool/MemoryPool.h:18-22 | that list holds every chunk below n exactly once and nothing else |
| FreeList.PopMany | MemoryPool/MemoryPool.h:54-56 | k pops with no push in between return the first k chunks in list order and leave the rest |
| FixedPool.Pool.constructor | MemoryPool/MemoryPool.h:12-23 | a new pool owns a fresh buffer of poolSize chunks; its free list is poolSize-1, ..., 0, then null, and no chunk is handed out |
| FixedPool.Pool.MoveFrom | MemoryPool/MemoryPool.h:30-37 | the new pool gets the source's sizes, buffer, head and free list; the source keeps its sizes but has no buffer and a null head |
| FixedPool.Pool.MoveAssign | MemoryPool/MemoryPool.h:39-48 | needs only the source pool to be valid; moving onto another pool transfers sizes, buffer and head and nulls the source; moving a pool onto itself changes nothing |
| FixedPool.Pool.Allocate | MemoryPool/MemoryPool.h:50-57 | on an empty list it returns bad_alloc and changes nothing; otherwise it returns the head, the list becomes the old tail, and the chunk lies in the buffer and was not already handed out; no link field is written |
| FixedPool.Pool.Deallocate | MemoryPool/MemoryPool.h:59-63 | p's link field gets the old head, p becomes the head, the list becomes p followed by the old list, and it stays duplicate-free and null-terminated; no other link changes |
| FixedPool.Pool.Clear | MemoryPool/MemoryPool.h:65-68 | the buffer is released, the list is empty, and no chunk remains valid |
| FixedPool.FreshPoolAllocations | MemoryPool/MemoryPool.h:18-57 | from a fresh pool, the first poolSize allocations return every chunk of the buffer exactly once, and the list is then empty, so the next one throws |
| FixedPool.DrainFreshPool | MemoryPool/MemoryPool.h:12-57 | on a new pool of n chunks, n calls of allocate return n distinct chunks, exactly the chunks below n, and the next call throws bad_alloc |
| FixedPool.ReuseAfterDeallocate | MemoryPool/MemoryPool.h:54-63 | deallocate(p) then allocate() returns p and restores the head, the free list and the handed-out set |
| FixedPool.AllocateAfterClear | MemoryPool/MemoryPool.h:50-68 | after clear, allocate throws bad_alloc |
| Slab.SlabChunks | ThreadSafeExpandingMemoryPool/MemoryPool.h:65-69 | defined as the loop builds the list, each chunk pushed in front of those linked before it; proved by induction to hold n items with chunk n-1-i at position i, the fixed constructor's order |
| Slab.SlabChunksCover | ThreadSafeExpandingMemoryPool/MemoryPool.h:65-69 | that list holds each chunk of the buffer exactly once and nothing else |
| Slab.GrowthAllocations | ThreadSafeExpandingMemoryPool/MemoryPool.h:56-74 | after a growth, poolSize allocations with no deallocation return distinct chunks, all of the new buffer, and leave the list empty, so the next one grows again |
| Slab.LinkFields | ThreadSafeExpandingMemoryPool/MemoryPool.h:67 | the link fields of a list of chunks, one per chunk, each the value stored in that chunk's first bytes |
| Slab.ChainPop | ThreadSafeExpandingMemoryPool/MemoryPool.h:73-74 | on a non-empty chain the head is the first chunk, that chunk lies in an owned buffer, and its link field starts the chain of the remaining chunks |
| Slab.ChainPush | ThreadSafeExpandingMemoryPool/MemoryPool.h:82-83 | a chunk whose link field holds the old head becomes the head of a chain of that chunk followed by the old chain |
| Slab.ChainWiden | ThreadSafeExpandingMemoryPool/MemoryPool.h:71 | a chain stays a chain when more buffers are counted as the pool's own |
| Slab.NewLinkedSlab | ThreadSafeExpandingMemoryPool/MemoryPool.h:58-69 | a fresh buffer of n chunks whose link fields form the chain n-1, ..., 0, then null |
| ExpandingPool.Pool.constructor | ThreadSafeExpandingMemoryPool/MemoryPool.h:20-25 | a new pool owns a fresh buffer of poolSize chunks, yet its free list is empty |
| ExpandingPool.Pool.MoveFrom | ThreadSafeExpandingMemoryPool/MemoryPool.h:34-41 | the new pool gets the source's sizes, buffer, head and free list; the source has no buffer and a null head |
| ExpandingPool.Pool.MoveAssign | ThreadSafeExpandingMemoryPool/MemoryPool.h:43-52 | needs only the source pool to be valid; moving onto another pool transfers sizes, buffer and head and nulls the source; moving a pool onto itself changes nothing |
| ExpandingPool.Pool.Grow | ThreadSafeExpandingMemoryPool/MemoryPool.h:56-72 | on an empty list, a fresh buffer of poolSize chunks is linked and becomes the owned buffer; the free list is all its chunks in linking order, and no chunk still handed out lies in the owned buffer (acquired storage is taken to be new; see Left out) |
| ExpandingPool.Pool.Allocate | ThreadSafeExpandingMemoryPool/MemoryPool.h:54-77 | always returns a chunk that was not handed out, given that acquired storage is new (see Left out). On a non-empty list it pops the head and keeps the buffer. On an empty list it links a fresh buffer, makes it the owned buffer and returns its chunk poolSize-1, and then no chunk handed out earlier lies in owned storage |
| ExpandingPool.Pool.Deallocate | ThreadSafeExpandingMemoryPool/MemoryPool.h:79-84 | p's link field gets the old head, p becomes the head, the list becomes p followed by the old list, and it stays duplicate-free; the owned buffer is unchanged |
| ExpandingPool.Pool.Clear | ThreadSafeExpandingMemoryPool/MemoryPool.h:86-90 | the buffer is released, the list is empty, and no chunk remains valid |
| ExpandingPool.ReuseAfterDeallocate | ThreadSafeExpandingMemoryPool/MemoryPool.h:73-84 | deallocate(p) then allocate() returns p without growing and restores the buffer, the head and the free list |
| ExpandingPool.AllocateAfterClear | ThreadSafeExpandingMemoryPool/MemoryPool.h:56-90 | after clear, the next allocate grows a fresh buffer and returns its chunk poolSize-1 |
| ExpandingPool.DrainAfterGrowth | ThreadSafeExpandingMemoryPool/MemoryPool.h:54-77 | on a new pool of n > 0 chunks, n calls of allocate return n distinct chunks, exactly the chunks of the one buffer the first call grew, and the next call grows into another buffer |
| ExpandingPool.RegrowthRelinksHeld | ThreadSafeExpandingMemoryPool/MemoryPool.h:60-74 | growth links every chunk of the buffer it acquires, so if that buffer is a released one, a chunk a caller still holds goes back on the free list; with one chunk per buffer it is the next chunk allocate returns |
| ExpandingPool.DanglingAfterGrowth | ThreadSafeExpandingMemoryPool/MemoryPool.h:71 | with one chunk per buffer, the second allocate grows and releases the buffer of the chunk the first one returned, while that chunk is still held |
| SlabListPool.Pool.constructor | ThreadSafeExpandingMemoryPool/MemoryPool.h:20-25 | a new pool owns one fresh buffer and has an empty free list |
| SlabListPool.BuffersListed | ThreadSafeExpandingMemoryPool/MemoryPool.h:71 | the set of owned buffers the invariant tracks holds exactly the buffers in the owned list |
| SlabListPool.GrowthConsistent | ThreadSafeExpandingMemoryPool/MemoryPool.h:56-72 | on an empty free list, appending a freshly linked buffer and making its chain the free list keeps the pool invariant, with the same chunks handed out |
| SlabListPool.Pool.Grow | ThreadSafeExpandingMemoryPool/MemoryPool.h:56-72 | the corrected growth: a fresh linked buffer is appended to the owned buffers, the older ones kept in order, and the free list is all its chunks in linking order |
| SlabListPool.Pool.Allocate | ThreadSafeExpandingMemoryPool/MemoryPool.h:54-77 | as ExpandingPool.Pool.Allocate, except that growth appends the new buffer and keeps the older ones in order, so every chunk handed out stays in an owned buffer |
| SlabListPool.Pool.Deallocate | ThreadSafeExpandingMemoryPool/MemoryPool.h:79-84 | pushes p as in ExpandingPool and keeps the owned buffers |
| SlabListPool.Pool.Clear | ThreadSafeExpandingMemoryPool/MemoryPool.h:86-90 | releases every owned buffer and empties the free list |
| SlabListPool.RetainedAfterGrowth | ThreadSafeExpandingMemoryPool/MemoryPool.h:71 | the same two allocations as DanglingAfterGrowth leave both chunks in owned buffers |

## Left out

- The mutex and all concurrency (ThreadSafeExpandingMemoryPool/MemoryPool.h:55, 75, 80, 87). Each operation is one atomic step.
- Raw bytes and pointer arithmetic. A buffer is modelled by its link fields only. A chunk is an index (fixed pool) or a (buffer, index) pair (expanding pool). The element type `T` and alignment are dropped.
- `chunkSize` only appears as the constructors' precondition `chunkSize >= LinkSize`, with LinkSize = 8 bytes, one pointer on a 64-bit target. The source assumes this without checking it. The size_t product `chunkSize * poolSize` is not checked for overflow.
- A failed `malloc` in growth (ThreadSafeExpandingMemoryPool/MemoryPool.h:58-63). Acquiring a buffer always succeeds.
- Freeing a `malloc`'d buffer through `delete[]` (line 71). This is a lifetime detail with no effect on the pool's logic.
- Destructors. They only call `clear`, and `Clear` models that.
- Copy construction and copy assignment. They are deleted in the source.
- ExpandingPool.Pool.Grow: the buffer growth acquires is modelled as storage never used before (`fresh`), and chunks compare by buffer identity. `malloc` at line 60 may return storage that line 71 released earlier, so "no held chunk lies in the owned buffer" is a property of the model, not a guarantee of the source. The model cannot show a later growth linking a dangling chunk's address again. `ExpandingPool.RegrowthRelinksHeld` states that consequence on its own.
- ExpandingPool.Pool.Allocate: `r !in old(outstanding)` holds only because acquired buffers are modelled as never used before. In the source, a growth whose `malloc` returns a released buffer can hand out an address a caller still holds, as `ExpandingPool.RegrowthRelinksHeld` shows.
- ExpandingPool.Pool.Allocate: requires a non-empty free list or `poolSize > 0`. With `poolSize` 0, growth links nothing and the source then dereferences a null head.
- SlabListPool: models only the operations whose behaviour the corrected growth affects. Moves and the rest are as in ExpandingPool.
- The demonstration program `main.cpp`. It constructs a pool and calls `allocate` once.

## Findings

| source | as written | input that shows it | evidently intended | confidence | as-written member | corrected member |
|---|---|---|---|---|---|---|
| ThreadSafeExpandingMemoryPool/MemoryPool.h:71 | growth replaces the one owned buffer, which releases the previous buffer while chunks from it are still held by callers; if a later `malloc` returns that storage, growth links the held chunks again and allocate hands the same address to a second caller (ExpandingPool.RegrowthRelinksHeld) | a pool with poolSize 1: allocate() twice; the second call grows and releases the buffer of the chunk the first call returned; a third call may get that storage back from `malloc` and return the first chunk's address again | growth adds capacity and keeps the existing buffers, so every handed-out chunk stays in owned storage | high; not executed | ExpandingPool.DanglingAfterGrowth | SlabListPool.Pool.Allocate |
