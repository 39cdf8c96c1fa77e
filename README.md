# Verified model of the double-linked-list benchmark core

The repository benchmarks several implementations of the same append-only
doubly-linked list of integers. Each list has `new`, `add(value)` and
`sum_all()`, and each starts with a sentinel node holding 0. Every heap
allocation in the process goes through a fixed-size bump allocator. This
project models that core in Dafny and proves its contracts:

- `index_impl.dfy` (module `IndexImpl`): nodes are held by value in a vector
  and linked by position. `INVALID_INDEX` (`usize::MAX`) means "none".
- `handle_impl.dfy` (module `HandleImpl`): nodes are held by value in a
  vector and linked by handles, an (index, unique id) pair. The node's stamped
  id is checked on every dereference. The process-wide id counter is an
  explicit `IdCounter` object passed to the list, so ids are deterministic.
- `rc_impl.dfy` (module `RcImpl`) and `nonnull_impl.dfy` (module
  `NonNullImpl`): heap `Node` objects with `next`/`prec` references. The list
  object carries ghost `nodes`, `contents` and `Repr`. Its invariant says the
  `next` chain from `head` walks `nodes` in order and ends at `tail`. It also
  says the nodes are pairwise distinct, so the chain has no cycle.
- `alloc.dfy` (module `Alloc`): the bump allocator. It checks the alignment,
  rounds the size up with `(size + 15) & 0usize.wrapping_sub(16)`, checks the
  capacity and advances the cursor. `dealloc` does nothing. A ghost history
  records every region handed out.
- `list_spec.dfy` (modules `Ints`, `Wrappers`, `ListSpec`): the machine
  integer ranges, `Option`, and the contract all lists share. That contract is
  the sum of the stored values, in insertion order with the sentinel first.
- `benchmark.dfy` (module `Benchmark`): the driver's correctness check. It
  appends `n, n - 1, ..., 1` to a fresh list and proves `sum_all` returns
  `n * (n + 1) / 2`.

Each `SumAll` is a method with no `modifies` clause, so it provably changes
nothing. Its loop follows the links, exactly as the source does. A ghost
position shows that the loop ends and that it visits each node once, in order.

Three behaviours of the code are easy to misread:

- Handle ids are not monotonically increasing. Each id is
  `(counter as u32) % 0xFFFF_FFFE`: the counter is first truncated to 32 bits
  and then reduced. Ids therefore repeat, and after the truncation wraps, ids
  0 and 1 repeat sooner than the others.
- The allocator's 16-byte alignment holds only relative to the buffer's start
  (see Findings).
- The `bench!` macro in src/main.rs:37-84 passes `(ITERATIONS + 1) as usize`
  to `new` (line 41), but only the handle list's `new`
  (src/solutions/handle_impl.rs:33) takes an argument; the index, shared-counted
  and owning-pointer lists' `new` take none (src/solutions/index_impl.rs:13,
  src/solutions/rc_impl.rs:18, src/solutions/nonnull_impl.rs:13). It also
  passes `u64` values to `add`, which the `i32` lists do not accept. As shown,
  the macro type-checks only for the handle list. `Benchmark.BenchIndex`,
  `Benchmark.BenchRc` and `Benchmark.BenchNonNull` model what the macro
  evidently means for the other lists: a list from `new()`, and for the `i32`
  lists every `n` whose sum fits in an `i32`.
- `bench!(rc_impl)` is commented out (src/main.rs:90), so the driver never
  builds a shared-counted list. `Benchmark.FillRc` and `Benchmark.BenchRc`
  model that disabled configuration.

## Model

| member | source | states |
|---|---|---|
| `HandleImpl.UniqueIdRange` | src/solutions/handle_impl.rs:15-19 | an issued id is below 0xFFFF_FFFE, so it never equals INVALID's id 0xFFFF_FFFF; below 0xFFFF_FFFE the id equals the counter |
| `HandleImpl.UniqueIdsInWindow` | src/solutions/handle_impl.rs:16-17 | two counter readings less than 0xFFFF_FFFE apart, before the 32-bit truncation wraps, give different ids |
| `HandleImpl.IdCounter.constructor` | src/solutions/handle_impl.rs:3 | the global counter starts at 0 |
| `HandleImpl.IdCounter.NewHandle` | src/solutions/handle_impl.rs:15-19 | the handle carries the requested index and the id derived from the counter's old value; the counter grows by exactly 1, wrapping at 2^64 |
| `HandleImpl.GetNode` | src/solutions/handle_impl.rs:63-75 | yields a node iff the index is in range and that slot's stamped id equals the handle's id; the node yielded is always the one at the handle's index, never another slot's |
| `HandleImpl.ResolveInWellLinked` | src/solutions/handle_impl.rs:11-14 | in a well-linked list INVALID resolves to None, even when slot 0xFFFF_FFFF exists; head resolves to the first node; each node's `next` resolves to the node after it, and the tail's to None, which is what ends `sum_all`'s loop |
| `HandleImpl.AppendKeepsWellLinked` | src/solutions/handle_impl.rs:49-60 | pushing a node that links back to the old tail, then pointing the old tail's `next` at the new handle, yields a well-linked list with the new handle as tail and the same head |
| `HandleImpl.AppendValues` | src/solutions/handle_impl.rs:51-57 | a push that leaves the existing nodes' values alone appends exactly the new value to the list's values |
| `HandleImpl.DoubleLinkedList.constructor` | src/solutions/handle_impl.rs:33-47 | one node with value 0 whose links are both INVALID; head and tail are the same handle, index 0, and the node's id is that handle's id; the counter advanced by one |
| `HandleImpl.DoubleLinkedList.Add` | src/solutions/handle_impl.rs:48-61 | grows the vector by one: the new node at the old length has the value, prec = old tail, next = INVALID and the new handle's id; the old tail's next becomes the new handle and the tail that handle; head and all other nodes are unchanged; the invariant (node i links to i + 1 and back to i - 1, the last links to INVALID) is kept; the values gain the new value at the end |
| `HandleImpl.DoubleLinkedList.SumAll` | src/solutions/handle_impl.rs:76-84 | follows checked handles from head until one resolves to None; the result is the sum of all stored values in insertion order; changes nothing |
| `IndexImpl.GetNode` | src/solutions/index_impl.rs:38-44 | yields a node iff the index is below the vector length, and then the node at that index |
| `IndexImpl.InvalidIndexResolvesToNothing` | src/solutions/index_impl.rs:12 | INVALID_INDEX never names a node of a well-linked list, so following it ends a traversal |
| `IndexImpl.DoubleLinkedList.constructor` | src/solutions/index_impl.rs:13-25 | one node with value 0 whose links are both INVALID_INDEX; head = tail = 0 |
| `IndexImpl.DoubleLinkedList.Add` | src/solutions/index_impl.rs:26-36 | appends a node with the value, prec = old tail and next = INVALID_INDEX; the old tail's next and the tail become the new last index; head and all other nodes are unchanged; keeps head = 0, tail = length - 1, next = i + 1, prec = i - 1 and the INVALID_INDEX ends |
| `IndexImpl.DoubleLinkedList.SumAll` | src/solutions/index_impl.rs:45-53 | follows indices from head until the lookup fails; the result is the sum of all stored values; the loop ends because INVALID_INDEX is never a valid index; changes nothing |
| `RcImpl.Node.constructor` | src/solutions/rc_impl.rs:30-34 | a node with the given value, no successor and the given predecessor |
| `RcImpl.DoubleLinkedList.constructor` | src/solutions/rc_impl.rs:18-28 | head and tail are the same fresh node, with value 0 and no links |
| `RcImpl.DoubleLinkedList.Add` | src/solutions/rc_impl.rs:29-37 | links a fresh node with the value, no successor and prec = old tail; the old tail's next is the new node, which becomes the tail; only the old tail and the list object are written; head unchanged; the acyclic chain invariant is kept and the contents gain the value at the end |
| `RcImpl.DoubleLinkedList.SumAll` | src/solutions/rc_impl.rs:38-56 | walks next from head until None and returns the sum of every node's value, each exactly once, provided no running sum overflows i32; writes no field |
| `NonNullImpl.Node.constructor` | src/solutions/nonnull_impl.rs:25-29 | a node with the given value and neither link set |
| `NonNullImpl.DoubleLinkedList.constructor` | src/solutions/nonnull_impl.rs:13-23 | head and tail are the same fresh node, with value 0 and no links |
| `NonNullImpl.DoubleLinkedList.Add` | src/solutions/nonnull_impl.rs:24-35 | allocates a fresh node with the value; old tail's next = new node, new node's prec = old tail, and tail = new node with next None; no other node is written; head unchanged; the chain invariant is kept |
| `NonNullImpl.DoubleLinkedList.SumAll` | src/solutions/nonnull_impl.rs:36-50 | follows next from head until None and returns the sum of all node values, each once, provided no running sum overflows i32; mutates nothing |
| `Alloc.CapacityUnusableTail` | src/alloc.rs:6-7 | the buffer length GB + GB * 8 / 10 is 1_932_735_283 bytes; a cursor on 16-byte granules never passes length - 3 |
| `Alloc.ClearLowFour` | src/alloc.rs:30 | masking with `0usize.wrapping_sub(16)` rounds down to a multiple of 16 |
| `Alloc.RoundedSize` | src/alloc.rs:30 | the reserved size is the smallest multiple of 16 not below the request: size <= r < size + 16 and r % 16 == 0 |
| `Alloc.AllocStep` | src/alloc.rs:26-37 | aborts iff the alignment exceeds 16, or the old offset plus the rounded size exceeds the buffer length; otherwise returns buffer base + old offset and reserves the rounded size, which fits the buffer |
| `Alloc.AllocatedPointerAligned` | src/alloc.rs:27-34 | with a 16-aligned buffer and cursor, every returned pointer is a multiple of the requested alignment |
| `Alloc.StructAlignedBufferMisalignsRequest` | src/alloc.rs:9-12 | as declared, with the buffer only 8-aligned, a 16-aligned request can receive an address that is not 16-aligned |
| `Alloc.RequestBeyondRemainingAborts` | src/alloc.rs:33 | asking for even one byte more than remains behind the cursor aborts |
| `Alloc.RequestWithinRemainingSucceeds` | src/alloc.rs:30-33 | a request within the whole 16-byte granules that remain succeeds |
| `Alloc.TiledRegionsBelowEnd` | src/alloc.rs:31-35 | every region handed out lies below the cursor |
| `Alloc.TiledRegionsDisjoint` | src/alloc.rs:31-35 | regions handed out one after another never overlap |
| `Alloc.TilesExtend` | src/alloc.rs:31-35 | reserving a region that starts at the cursor and moving the cursor past it keeps the history an unbroken run of regions from offset 0 up to the cursor |
| `Alloc.GranularExtend` | src/alloc.rs:30-35 | adding a rounded size to a 16-aligned offset keeps the offset 16-aligned, and every recorded region stays on whole 16-byte granules |
| `Alloc.MyAlloc.constructor` | src/alloc.rs:17-22 | a fresh allocator has offset 0 and has handed out nothing |
| `Alloc.MyAlloc.Alloc` | src/alloc.rs:26-37 | the outcome is AllocStep's; on success the offset advances by exactly the rounded size and the new region is recorded, so the offset never decreases, stays a multiple of 16 and stays within the buffer; the pointer satisfies the requested alignment; an abort changes nothing |
| `Alloc.MyAlloc.Dealloc` | src/alloc.rs:39 | the offset and the history are unchanged: memory is never reused |
| `ListSpec.DescendingSum` | src/main.rs:42-44 | the values n, n - 1, ..., 1 appended by the driver sum to n * (n + 1) / 2 |
| `ListSpec.BenchmarkSum` | src/main.rs:53 | with the sentinel 0 in front the sum is still n * (n + 1) / 2 |
| `Benchmark.FillIndex` | src/main.rs:41-44 | the fill loop leaves a fresh, well-formed index list whose values are 0, n, n - 1, ..., 1 |
| `Benchmark.FillHandle` | src/main.rs:41-44 | the same for the handle list, drawing ids from a fresh counter |
| `Benchmark.AddNextHandle` | src/main.rs:42-43 | one iteration of the fill loop on the handle list: the values grow from 0, n, ..., n - index + 1 by n - index and the list stays well linked |
| `Benchmark.FillRc` | src/main.rs:41-44 | the same fill for the shared-counted list, a configuration the driver has commented out (src/main.rs:90): its contents are 0, n, ..., 1 |
| `Benchmark.FillNonNull` | src/main.rs:41-44 | the same fill for the owning-pointer list |
| `Benchmark.BenchIndex` | src/main.rs:41-53 | building an index list from n, ..., 1 (n up to 10_000_000) and summing it yields n * (n + 1) / 2 |
| `Benchmark.BenchHandle` | src/main.rs:41-53 | the same for the handle list, with a fresh id counter |
| `Benchmark.BenchRc` | src/main.rs:41-53 | the same for the shared-counted list (disabled in the driver), for n up to 65_535, where the i32 sum cannot overflow |
| `Benchmark.BenchNonNull` | src/main.rs:41-53 | the same for the owning-pointer list, for n up to 65_535 |
| `Benchmark.RepeatedSumIndex` | src/solutions/index_impl.rs:45-53 | two successive sums of the same list return the same value |

## Left out

- Timing (`Instant`), the ASCII table, human-readable sizes, slowdown ratios and the `stats_alloc` region accounting in src/main.rs are left out. They are I/O, floating point and a foreign library. The zero-reallocations assertion at src/main.rs:54 depends on that library, so it is not modelled.
- src/solutions/std_linked_list.rs wraps the standard library's linked list, whose internals are not visible. `slotmap_impl` and `std_map_impl` are not part of this model.
- The atomic memory ordering of the global id counter is not modelled. It is a sequential counter here, passed explicitly.
- `Rc` strong and weak counts, `RefCell` borrow flags, `Box::into_raw` and raw-pointer unsafety are not modelled. Both link kinds are ordinary references. Node release is not modelled: nonnull_impl leaks its nodes; the other variants release them when the list is dropped (src/main.rs:57).
- Vector capacity hints and reallocation are not modelled, because they are not observable through the contract.
- The buffer's bytes, the `Send`/`Sync` impls and `Cell` interior mutability are not modelled. Only the cursor, the buffer's address and its length are.
- HandleImpl.DoubleLinkedList.SumAll, IndexImpl.DoubleLinkedList.SumAll: `sum += value` on `u64` is modelled under a no-overflow precondition, which is the debug build's panic. Release-build wrapping is not modelled.
- RcImpl.DoubleLinkedList.SumAll, NonNullImpl.DoubleLinkedList.SumAll: the `i32` accumulation likewise requires that no running sum overflows.
- HandleImpl.DoubleLinkedList.Add: requires that the old length fits in `u32`. The source's `as u32` would otherwise truncate the new index, and the resulting handle would not name the new node.
- IndexImpl.DoubleLinkedList.Add: requires that the new index stays below `INVALID_INDEX`. A Rust vector can never grow that long, so this excludes no real input.
- Alloc.MyAlloc.constructor: requires a 16-aligned buffer address. This is the corrected placement described under Findings; the declared placement is only 8-aligned.

## Findings

| source | as written | input that shows it | evidently intended | confidence | as-written member | corrected member |
|---|---|---|---|---|---|---|
| src/alloc.rs:9-34 | the buffer is a `[u8; TO_ALLOC]` field of a struct that is only 8-aligned, and `alloc` returns buffer start + offset; offsets are 16-aligned relative to the buffer, so the returned address is only guaranteed 8-aligned | buffer at address 8, first request with size 16 and alignment 16: the returned address is 8 | the buffer placed on a 16-byte boundary, so every pointer honours any alignment up to 16 that line 28 accepts | medium, not executed | `Alloc.StructAlignedBufferMisalignsRequest` | `Alloc.AllocatedPointerAligned` |
