# SPSC byte ring buffer — Dafny model

This project models the fixed-capacity byte ring buffer of the `samplec`
repository: the `ring_buffer_t` struct of `src/ring_buffer_sample/ring_buffer.h`
and its four operations in `src/ring_buffer_sample/ring_buffer.c`
(`read_ring_buffer`, `write_ring_buffer`, `init_ring_buffer`,
`destory_ring_buffer`), and the line-for-line copy of the same queue in
`src/shm_sample/shm_sample.c` (`shm_queue_t`, `read_shm`, `write_shm`,
`init_shm`, `destory_shm`).

The struct holds a storage region of `len` bytes and two indices. `head` is
advanced only by the reader, `tail` only by the writer. The unread bytes are
those from `head` forward to `tail`, wrapping past the end of storage. `head ==
tail` means empty, so one byte is always left unused and at most `len - 1`
bytes are held. `read` and `write` are all-or-nothing. Each computes the
occupancy as `tail - head` (plus `len` when negative) and applies a single
acceptance test. It then copies one segment, or two when the range wraps,
advances its own index with one conditional subtraction, and returns the
requested length, or `-1` with no change.

Files:

- `memory.dfy` (module `Memory`): the effect of `memcpy` on a byte sequence (`Splice`) and a copy loop over arrays (`MemCopy`).
- `byte_ring.dfy` (module `ByteRing`): the logic the two C copies share, stated on values (`RingState`). It holds the occupancy and the index advance, the logical contents (`Window`), the one- or two-segment store and load, and `Write`/`Read` as functions. Lemmas say what a write and a read do to the logical contents.
- `ring_buffer.dfy` (module `RingBufferLib`): class `RingBuffer`, the struct and its operations as methods over an `array<bv8>`. Each method is proved to produce exactly the state and return value of `ByteRing.Write`/`ByteRing.Read`.
- `shm_sample.dfy` (module `ShmSample`): class `ShmQueue`, the same for the shared-memory copy. It also has methods that run both copies side by side, and the setup and teardown path of its ping-pong test program.
- `fifo.dfy` (module `Fifo`): any sequence of read and write calls, and the FIFO properties that the correctness test of `ring_buffer_sample.c` checks with its counter records.

`malloc`'s success or failure is a parameter of `Init`/`InitShm`. `free` sets the ghost field `released`, and `destroy` never clears `buf`. A NULL struct argument is a `null` reference.

## Model

| member | source | states |
|---|---|---|
| `ByteRing.Occupancy` | src/ring_buffer_sample/ring_buffer.c:14-18 | the occupancy `tail - head (+ len)` is again an index in `0..len-1` |
| `ByteRing.OccupancyIsMod` | src/ring_buffer_sample/ring_buffer.c:14-18 | for `len > 0` the occupancy equals `(tail - head) mod len` |
| `ByteRing.Advance` | src/ring_buffer_sample/ring_buffer.c:31-35 | the single conditional subtraction leaves an index in `0..len-1` |
| `ByteRing.AdvanceIsMod` | src/ring_buffer_sample/ring_buffer.c:31-35 | for a step `n < len` the advanced index equals `(i + n) mod len` (the same subtraction is at lines 77-81) |
| `ByteRing.Window` | src/ring_buffer_sample/ring_buffer.h:14 | the logical contents has exactly occupancy bytes, so never more than `len - 1` |
| `ByteRing.Write` | src/ring_buffer_sample/ring_buffer.c:51-95 | accepted exactly when `occupancy + n < len`; on success returns `n`, keeps `head` and the storage size and leaves a valid state (the new `tail` and contents are stated by `ByteRing.WriteAppends`); otherwise returns `-1` and the state is unchanged |
| `ByteRing.Read` | src/ring_buffer_sample/ring_buffer.c:5-49 | accepted exactly when `occupancy >= n`; on success returns `n` with `n` bytes, keeps storage and `tail` and leaves a valid state (the bytes and the new `head` are stated by `ByteRing.ReadTakesOldest`); otherwise returns `-1`, no bytes, state unchanged |
| `ByteRing.WriteFits` | src/ring_buffer_sample/ring_buffer.c:65 | the write path's acceptance test: `occupancy + n < len` |
| `ByteRing.ReadFits` | src/ring_buffer_sample/ring_buffer.c:19 | the read path's acceptance test: `occupancy >= n` |
| `ByteRing.StoreAt` | src/ring_buffer_sample/ring_buffer.c:67-76 | the one- or two-segment store of the write path (also src/shm_sample/shm_sample.c:93-102) keeps the storage length; its per-cell content is `ByteRing.StoreAtCell` |
| `ByteRing.LoadAt` | src/ring_buffer_sample/ring_buffer.c:21-30 | the one- or two-segment load of the read path (also src/shm_sample/shm_sample.c:47-56) yields exactly `n` bytes; which bytes is `ByteRing.LoadAtModular` |
| `ByteRing.WriteAppends` | src/ring_buffer_sample/ring_buffer.c:65-84 | an accepted write grows the logical contents by exactly the written bytes, at the end |
| `ByteRing.WriteSparesUnread` | src/ring_buffer_sample/ring_buffer.c:67-76 | an accepted write changes only cells fewer than `n` forward of `tail`, and no cell holding an unread byte |
| `ByteRing.StoreAtCell` | src/ring_buffer_sample/ring_buffer.c:67-76 | the split store puts `data[k]` in the cell `k` forward of `tail` and leaves every other cell alone |
| `ByteRing.StoreAtModular` | src/ring_buffer_sample/ring_buffer.c:72-76 | wraparound fidelity of the write path: the split at `len - tail` stores `data[k]` at `(tail + k) mod len` |
| `ByteRing.ReadTakesOldest` | src/ring_buffer_sample/ring_buffer.c:19-38 | an accepted read returns the `n` oldest unread bytes in order and removes exactly them from the logical contents |
| `ByteRing.LoadAtSplit` | src/ring_buffer_sample/ring_buffer.c:26-29 | the two `memcpy` calls of a wrapped read, `len - head` bytes from `head` and the rest from offset 0, lay exactly the split load over the destination |
| `ByteRing.LoadAtModular` | src/ring_buffer_sample/ring_buffer.c:21-30 | wraparound fidelity of the read path: the split at `len - head` returns the bytes at `(head + i) mod len` |
| `ByteRing.OversizeWriteFails` | src/ring_buffer_sample/ring_buffer.c:65-91 | a write of `len` or more bytes always returns `-1` and changes nothing |
| `ByteRing.ZeroLengthCalls` | src/ring_buffer_sample/ring_buffer.c:19-84 | a zero-length read returns 0 and changes nothing; a zero-length write does the same when `len > 0`, and fails when `len == 0` |
| `ByteRing.Int32` | src/ring_buffer_sample/ring_buffer.c:77 | conversion to a 32-bit `int` yields a value in `int` range congruent to its argument mod 2^32 |
| `ByteRing.AdvanceTailAsWritten` | src/ring_buffer_sample/ring_buffer.c:77-81 | the `int` tail advance as written agrees with `Advance` unless `tail + n` passes `INT_MAX` |
| `ByteRing.AdvanceTailAsWrittenAgrees` | src/ring_buffer_sample/ring_buffer.c:77-81 | for storage of at most 2^30 bytes, the `int` tail advance is exactly `(tail + n) mod len` |
| `ByteRing.AdvanceTailAsWrittenGoesNegative` | src/ring_buffer_sample/ring_buffer.c:54-83 | with `len = 2^31 - 2` and an empty ring at `len - 1`, a 16-byte write is accepted and publishes tail `-2147483635` instead of 15 |
| `Memory.Splice` | src/ring_buffer_sample/ring_buffer.c:23 | a `memcpy` into a region keeps its length |
| `Memory.SpliceAt` | src/ring_buffer_sample/ring_buffer.c:23 | after the copy, a cell inside the copied range holds the matching source byte and every other cell keeps its old byte |
| `Memory.SpliceAdjacent` | src/ring_buffer_sample/ring_buffer.c:27-29 | two copies into adjacent ranges equal one copy of the joined bytes |
| `Memory.MemCopy` | src/ring_buffer_sample/ring_buffer.c:69 | after the copy, the destination equals the old destination with exactly `count` source bytes laid over it at the offset |
| `RingBufferLib.RingBuffer.Zeroed` | src/ring_buffer_sample/ring_buffer_sample.c:204 | a zero-filled struct: `buf` NULL, `len`, `head` and `tail` zero |
| `RingBufferLib.RingBuffer.Init` | src/ring_buffer_sample/ring_buffer.c:100-119 | on allocation success returns 0 with fresh storage of `len` bytes, `head = tail = 0`, empty contents; on failure returns `-1` and leaves the struct untouched |
| `RingBufferLib.RingBuffer.Write` | src/ring_buffer_sample/ring_buffer.c:51-95 | returns and leaves exactly what `ByteRing.Write` gives for the old state; on success the contents grow by `src[..n]`; it may assign only the storage and `tail` |
| `RingBufferLib.RingBuffer.CopyIn` | src/ring_buffer_sample/ring_buffer.c:67-76 | the one or two `memcpy` calls leave the storage equal to `StoreAt` of the old storage |
| `RingBufferLib.RingBuffer.Read` | src/ring_buffer_sample/ring_buffer.c:5-49 | returns and leaves exactly what `ByteRing.Read` gives; on success `dst[..n]` holds the `n` oldest unread bytes and the contents lose them; it may assign only `dst` and `head` |
| `RingBufferLib.RingBuffer.CopyOut` | src/ring_buffer_sample/ring_buffer.c:21-30 | the one or two `memcpy` calls leave `dst` equal to its old bytes with `LoadAt` of the storage laid over the start |
| `RingBufferLib.RingBuffer.Destroy` | src/ring_buffer_sample/ring_buffer.c:121-127 | frees the storage exactly when the struct argument and its `buf` are non-NULL; no field changes, so a freed struct cannot be destroyed again |
| `ShmSample.ShmQueue.Zeroed` | src/shm_sample/shm_sample.c:293-294 | a zero-filled struct: `buf` NULL, `len`, `head` and `tail` zero |
| `ShmSample.ShmQueue.InitShm` | src/shm_sample/shm_sample.c:126-145 | as `init_ring_buffer`: success sets up an empty queue and returns 0; failure returns `-1` and changes nothing |
| `ShmSample.ShmQueue.WriteShm` | src/shm_sample/shm_sample.c:77-121 | returns and leaves exactly what `ByteRing.Write` gives; on success the contents grow by `src[..n]`; only storage and `tail` may change |
| `ShmSample.ShmQueue.CopyIn` | src/shm_sample/shm_sample.c:93-102 | the one or two `memcpy` calls leave the storage equal to `StoreAt` of the old storage |
| `ShmSample.ShmQueue.ReadShm` | src/shm_sample/shm_sample.c:31-75 | returns and leaves exactly what `ByteRing.Read` gives; on success `dst[..n]` holds the oldest `n` unread bytes; only `dst` and `head` may change |
| `ShmSample.ShmQueue.CopyOut` | src/shm_sample/shm_sample.c:47-56 | the one or two `memcpy` calls leave `dst` equal to its old bytes with `LoadAt` of the storage laid over the start |
| `ShmSample.ShmQueue.DestroyShm` | src/shm_sample/shm_sample.c:147-153 | frees the storage exactly when the struct argument and its `buf` are non-NULL; a no-op on a zero-filled struct |
| `ShmSample.WriteAgrees` | src/shm_sample/shm_sample.c:77-121 | `write_shm` and `write_ring_buffer` on equal states with the same bytes return the same value and leave equal states |
| `ShmSample.ReadAgrees` | src/shm_sample/shm_sample.c:31-75 | `read_shm` and `read_ring_buffer` on equal states return the same value, fill the destination alike and leave equal states |
| `ShmSample.PingpongSetupTeardown` | src/shm_sample/shm_sample.c:293-330 | on every allocation outcome, teardown frees exactly the storage that was obtained and frees nothing for a struct whose `init_shm` failed |
| `Fifo.Run` | src/ring_buffer_sample/ring_buffer_sample.c:157-182 | across any sequence of calls, `head` and `tail` stay valid indices of the unchanged storage size, because each call advances its index with the single subtraction of ring_buffer.c:77-83 and 31-35 |
| `Fifo.RunPreservesStream` | src/ring_buffer_sample/ring_buffer_sample.c:146-185 | bytes delivered followed by bytes still unread equal bytes unread at the start followed by bytes accepted: nothing lost, duplicated or reordered |
| `Fifo.ReadsArePrefixOfWrites` | src/ring_buffer_sample/ring_buffer_sample.c:157-182 | from an empty ring, the bytes read are, in order, a prefix of the bytes written |
| `Fifo.RecordsArriveInOrder` | src/ring_buffer_sample/ring_buffer_sample.c:177-182 | when every call moves one fixed-size record, the k-th successful read returns the k-th accepted record, which is what the counter assertion checks |

## Behaviour where the code decides

- Destroying is not idempotent. `destory_ring_buffer` and `destory_shm` free `buf` but never clear it, so a second call on an initialised struct would free it twice. The model's `Destroy` therefore requires that storage it would free has not been freed already. Destroying a zero-filled struct whose init failed or never ran is a no-op.
- Any storage size is accepted, including 0 and 1. With `len == 0` every write fails and only zero-length reads succeed. With `len == 1` only zero-length writes succeed.
- A zero-length read always succeeds with 0. A zero-length write succeeds with 0 whenever `len > 0`.
- A write of `len` or more bytes can never succeed, so a caller that retries it loops forever. The model states the failure and does not change it.

## Findings

| source | as written | input that shows it | evidently intended | confidence | as-written member | corrected member |
|---|---|---|---|---|---|---|
| src/ring_buffer_sample/ring_buffer.c:77-83 | `tail += len` is computed in `int`, so for storage larger than 2^30 bytes `tail + n` can exceed `INT_MAX` and wrap negative before the `tail >= rb_size` test | `len = 2^31 - 2`, `head = tail = len - 1`, write of 16 bytes: accepted, publishes tail `-2147483635` (the same holds for `write_shm`, src/shm_sample/shm_sample.c:103-109) | the new tail is `(tail + n) mod len` for every size `init_ring_buffer` accepts | medium; not executed | `ByteRing.AdvanceTailAsWritten`, `ByteRing.AdvanceTailAsWrittenGoesNegative` | `ByteRing.Advance`, used throughout, with `ByteRing.AdvanceIsMod` proving it is `(i + n) mod len`; `ByteRing.AdvanceTailAsWrittenAgrees` shows the two coincide up to 2^30 |

## Left out

- Memory ordering: the `mfence` before each index is published and the `volatile` qualifiers of `ring_buffer_t` are not modelled. Each read or write call is one sequential step, and in each method the index assignment is the last one.
- Threads: the ping-pong, correctness and producer/consumer threads, `pthread_create`/`join`, CPU affinity and `clock_gettime` timing. Their interleavings of whole calls are covered by `Fifo.Run` on arbitrary call sequences; concurrent overlap within a call is not.
- `src/shellcmd.c` and `src/volatile_sample/volatile_sample.c` are not part of this model.
- Storage contents after `malloc` are indeterminate in C; the model's fresh array has unspecified contents too, and no contract depends on them. Every byte is written before it can be read.
- `init` on an already initialised struct leaks the old storage in C; the model just replaces `buf` and records no leak.
- RingBufferLib.RingBuffer.Init: requires a size of at most 2^30 bytes, beyond which the source's `int` index arithmetic wraps (see Findings) or `int rb_size = q->len` truncates.
- ShmSample.ShmQueue.InitShm: requires a size of at most 2^30 bytes, for the same reason.
- RingBufferLib.RingBuffer.Write: requires `len + n <= SIZE_MAX`, because the source's `size_t` sum `count + len` would otherwise wrap and could pass the acceptance test.
- ShmSample.ShmQueue.WriteShm: requires `len + n <= SIZE_MAX`, for the same reason.
- RingBufferLib.RingBuffer.Read and RingBufferLib.RingBuffer.Write require the caller's buffer to hold `n` bytes and to be distinct from the queue's storage, as `memcpy` does; the same holds for `ReadShm` and `WriteShm`.
- Only the write path's `int` advance is modelled as written in the Findings. The read path compares `head` against a `size_t` `rb_size`, and its wrapped behaviour above 2^30 bytes is not modelled.
- The return value `ret = len` is an `int` in C. Under the bounds above, every accepted length is below `len` and fits.
