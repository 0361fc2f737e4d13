# readPTU buffers in Dafny

A model of the two FIFO structures of timestamps in `readPTU/buffers.c`,
which feed the g2 (second-order intensity correlation) computation of
readPTU, plus the one-line record cursor reset from the same file.

- **Mirrored circular buffer** (`circular_buf_t`), module `CircularBuffer`,
  class `CircularBuf`. A buffer of capacity `size` owns an array of `2*size`
  slots, a write cursor `head` kept in the upper half `[size, 2*size)` and a
  `count` of puts that saturates at `size`. Each put writes its value twice,
  at `head` and at `head - size`. The lower half therefore always equals the
  upper half (the mirror invariant). As a result, the last `size` values put
  sit contiguously, oldest first, in the slots `[head - size, head)`. A ghost
  `history` records the values put since the last reset. `Valid()` ties the
  array and the fields to it through the value-level predicate `Inv`:
  - `head - size` is the number of puts modulo `size`;
  - `count` is that number capped at `size`;
  - the two halves are equal;
  - the `count` slots below `head` hold the last `count` values put.
- **Chained list buffer** (`node_t`, `head_init`, `push`, `pop`), module
  `ChainedListBuffer`, classes `Node` and `ChainedList`. This is a singly
  linked FIFO behind a permanent sentinel node. A ghost sequence `nodes` lists
  the chain from the sentinel, and a ghost `contents` lists the stored values.
  `Valid()` says the chain is acyclic, ends in `null`, and carries `contents`.
  It also says the `length` counter equals `|contents|`. `Push` walks to the
  tail with the source's `while` loop, and the loop invariant carries the
  walk. `Pop` unlinks the first real node. On an empty list it returns `0`
  and changes nothing.
- **Record buffer** (`record_buf_t`), module `RecordBuffer`: only the reset of
  its cursor.
- `CTypes` holds `u64` (the `uint64_t` payload), the C `INT_MAX` and `Min`.
  `ModArith` holds `Mod`, the remainder by repeated subtraction, and proves
  it equal to `%` (`ModIsRem`). Both operands are non-negative here, so `%`
  agrees with C's `%`.

Facts about the code that the model makes explicit:
- `head` is the next slot to write, so the last `size` values put sit in
  `[head - size, head)` and not in a window starting at `head`
  (`CircularBuf.Window`).
- `calloc` zeroes every slot and every put writes both twins. The mirror
  invariant therefore holds for every slot at all times, not only for slots
  written since the last reset (`CircularBuf.Valid`, `AllocatedInv`, `ResetInv`).
- `pop` tests `head->next == NULL` and never reads `length`. The model tests
  the link, and `Valid()` ties `length` to the number of stored values, so the
  two tests agree (`ChainedList.Pop`).
- A reset does not clear the array. Once one value has been put, the buffer
  behaves as a freshly allocated one with the same puts would
  (`SameHistorySameView`). With no put since the reset, `oldest` returns the
  stale value in slot 0 where a fresh buffer would give 0
  (`ScenarioStaleAfterReset`).

## Model

| member | source | states |
|---|---|---|
| `RecordBuffer.RecordBuf.Reset` | readPTU/buffers.c:13-15 | the record cursor `head` becomes 0; the object has no other state to change |
| `CircularBuffer.CircularBuf.Allocate` | readPTU/buffers.c:36-43 | a fresh array of `2*size` slots, all 0; `head == size`, `count == 0`, empty history; the invariant holds (needs `0 < size` and `2*size <= INT_MAX`) |
| `CircularBuffer.CircularBuf.Reset` | readPTU/buffers.c:45-51 | `head == size`, `count == 0`, history emptied, the array left untouched, and the invariant still holds |
| `CircularBuffer.CircularBuf.Put` | readPTU/buffers.c:53-61 | the new slots are the old ones with exactly slots `old(head)` and `old(head) - size` set to `v`; `head` moves to the next slot, or back to `size` after the last; `count` becomes `min(count + 1, size)`; `v` is appended to the history; the invariant is preserved |
| `CircularBuffer.CircularBuf.Oldest` | readPTU/buffers.c:63-76 | when saturated, the value put exactly `size` puts ago, which is the slot `head - size` the next put overwrites; below saturation, slot 0, which is the first value put since the reset when `count >= 1` and whatever slot 0 holds when `count == 0` |
| `CircularBuffer.CircularBuf.Window` | readPTU/buffers.c:53-57 | the contiguous slice `[head - size, head)` has `size` values and, once saturated, equals the last `size` values put, oldest first |
| `CircularBuffer.NextHead` | readPTU/buffers.c:57 | the new cursor stays in `[size, 2*size)`; `head - size` advances by one modulo `size`; equivalently `head + 1`, or `size` after the last slot |
| `CircularBuffer.MirroredIff` | readPTU/buffers.c:55-56 | lower half equal to upper half iff `b[i] == b[i + size]` for every `i < size` |
| `CircularBuffer.AllocatedInv` | readPTU/buffers.c:36-43 | all-zero slots with `head == size`, `count == 0` and an empty history satisfy the invariant |
| `CircularBuffer.ResetInv` | readPTU/buffers.c:45-51 | any mirrored slots with `head == size`, `count == 0` and an empty history satisfy the invariant, so a reset needs no clearing |
| `CircularBuffer.PutKeepsMirrored` | readPTU/buffers.c:55-56 | writing the same value at `head` and `head - size` keeps the two halves equal |
| `CircularBuffer.PutBelowHeadNoWrap` | readPTU/buffers.c:55-57 | without a wrap, the `k` slots below `head` are kept and `v` follows them at `head` |
| `CircularBuffer.PutBelowHeadWrap` | readPTU/buffers.c:55-57 | when `head` is the last slot, the new window below `size` is the old window read from the lower twins, followed by `v` |
| `CircularBuffer.PutExtendsWindow` | readPTU/buffers.c:55-60 | after a put, the new retained window is the old one, less its oldest value once saturated, followed by `v` |
| `CircularBuffer.PutPreservesInv` | readPTU/buffers.c:53-61 | a put maps a state satisfying the invariant for history `h` to one satisfying it for `h + [v]` |
| `CircularBuffer.OldestSlots` | readPTU/buffers.c:63-75 | under the invariant: when saturated, `b[head] == b[head - size] ==` the value put `size` puts ago; when `1 <= count < size`, `b[0]` is the first value put |
| `CircularBuffer.SameHistorySameView` | readPTU/buffers.c:45-61 | two buffers of one capacity with the same puts since their reset or allocation agree on `head` and `count`, on `Oldest` once anything was put, and on the window once saturated |
| `CircularBuffer.ScenarioCapacityThree` | readPTU/buffers.c:53-75 | capacity 3: after puts 10, 20, 30 the oldest is 10; after 40 it is 20 |
| `CircularBuffer.ScenarioStaleAfterReset` | readPTU/buffers.c:45-75 | put 7, reset, and `Oldest` still returns the stale 7 from slot 0 |
| `ChainedListBuffer.Node.constructor` | readPTU/buffers.c:109-111 | a new node holds the value and has no successor |
| `ChainedListBuffer.ChainedList.Init` | readPTU/buffers.c:93-99 | a sentinel holding 0 with no successor, an empty list, `length == 0` |
| `ChainedListBuffer.ChainedList.Push` | readPTU/buffers.c:101-113 | the value is appended after the earlier ones, which are unchanged; `length` grows by one; the invariant, including `length == |contents|`, is preserved |
| `ChainedListBuffer.ChainedList.Pop` | readPTU/buffers.c:115-133 | on a non-empty list, returns and removes the first value and decrements `length`; on an empty list, returns 0 and changes nothing; the invariant is preserved |
| `ChainedListBuffer.ScenarioFifoOrder` | readPTU/buffers.c:101-133 | push 5, push 7, pop gives 5, push 9, pop gives 7, pop gives 9, pop on the empty list gives 0, and `length` ends at 0 |

## Left out

- Memory management. `malloc`, `calloc` and allocation failure become Dafny
  `new`. `free` in `pop` has no counterpart: the unlinked node just leaves
  the list's footprint.
- The NULL guards `if(cbuf)` in `circular_buf_reset` and `if(cbuf && data)`
  in `circular_buf_oldest`. Receivers are non-null references. `Oldest`
  returns its value instead of writing through a pointer.
- C `int` overflow. The model assumes `2*size <= INT_MAX` for a buffer and
  `length < INT_MAX` before a push, and does not model wrap-around. With
  these bounds, `head + 1` and `count + 1` cannot overflow.
- The external `int *length` of the list. It is a field of the list object
  and not a separate caller variable. An exchange of counters between lists
  is therefore not modelled.
- Struct copies. `circular_buf_allocate` returns `circular_buf_t` by value,
  and a C copy would share `buffer` while keeping its own `head` and `count`.
  The model has one reference object per buffer, so this aliasing is not
  represented. No operation of the modelled code copies the struct.
- `record_buf_t`'s `records` array. No operation touches it; the reset only
  sets `head`.
- Nodes that are never popped, and the list having no bulk-destroy
  operation. Leaks are outside the logical contract.
- Concurrency. The structures are single-threaded by design.
- The g2 algorithms that use these buffers and the decoding of time-tag
  files. They are not part of this model.
