# USART transmit ring buffer (DMA path)

A Dafny model of the transmit path of `src/hw/usart_tx.c`. Producers enqueue bytes into a fixed ring buffer `buff` of `USART_TX_BUFFER_LEN` slots, here called the capacity C. DMA2 stream 7 carries the bytes to the USART data register. Each transfer covers one contiguous run of the array. The transfer-complete interrupt moves the read cursor `rd` past the finished run and schedules the next run while bytes remain.

Files:

- `tx_arith.dfy`, module `TxArith`. The pure part: the occupancy count, the clamp of an enqueue, the length of a run, the array seen as a circular queue (`RingView`), and the array after the split copy (`Stored`), and the chain of transfers the interrupt handler schedules until the queue is empty (`Transfers`). It also holds the lemmas showing that completions and writes keep the queued bytes in FIFO order, and that the chain of transfers carries exactly the queued bytes. `Transfers` and its lemmas are a standalone account of the chain of interrupt-driven runs. `DrainUntilIdle` reaches `emitted == written` through the FIFO invariant instead.
- `usart_tx.dfy`, module `UsartTx`. Class `TxBuffer` holds the module state: `buff` as an array, `rd`, `wr`, `xferLen`, and `dmaBusy`. `dmaBusy` stands for "stream enable bit set, or transfer-complete flag not yet serviced". The class has one method per C function.
  - Two ghost sequences record every byte accepted (`written`) and every byte carried out by a finished transfer (`emitted`).
  - `Valid()` holds the bounds every operation keeps: cursors inside the array, and a run in flight that is non-empty and ends at or before the array end.
  - `Coherent()` is the FIFO abstraction. The bytes written and not yet emitted lie in the ring from `rd` to `wr`, in order. `emitted` is a prefix of `written`. A run in flight carries only queued bytes. An idle stream means an empty queue.
- `scenarios.dfy`, module `UsartTxScenarios`. Two concrete runs at the capacity boundary, and the helper `FilledRing` that sets up their common start.

Behaviour at exact capacity. The free space of an enqueue is `C - pending` (line 181), so one write can fill all C slots. The write cursor then lands on the read cursor, and the occupancy reads 0 (`OccupancyAtCapacity`). With nothing more written, such a full buffer still drains correctly, and `Coherent()` survives it. A write that arrives while the buffer is full sees C free slots and overwrites bytes that were not yet sent. `WriteIntoFullBufferLosesBytes` shows that run to its end. The model keeps this behaviour as written. The comment at line 179 speaks of avoiding a buffer overflow, yet line 181 lets one write fill all C slots, and the next write then overwrites unsent bytes. The model follows the code, so `UsartWriteDma` promises FIFO coherence only when fewer than C bytes are queued before the call.

## Model

| member | source | states |
|---|---|---|
| `TxArith.Advance` | src/hw/usart_tx.c:161 | Moving a cursor forward by at most C slots gives a cursor below C equal to `(c + k) mod C`. |
| `TxArith.Occupancy` | src/hw/usart_tx.c:113-118 | The unread count is below C, and it is 0 exactly when the cursors are equal. |
| `TxArith.OccupancyIsDistance` | src/hw/usart_tx.c:113-118 | The two branches of the count agree with `(wr - rd) mod C`, and advancing `rd` by the count lands on `wr`. |
| `TxArith.OccupancyUnique` | src/hw/usart_tx.c:115-118 | The occupancy is the only count below C that leads from `rd` to `wr`. Equal cursors always read as 0, never as C. |
| `TxArith.Accepted` | src/hw/usart_tx.c:179-186 | The accepted count is at most the request and at most the free space `C - pending`, and equals one of the two. While the buffer is not counted full, it is 0 exactly when the request is 0. |
| `TxArith.OccupancyAfterWrite` | src/hw/usart_tx.c:181-195 | If `pending + accepted < C`, moving `wr` by `accepted` modulo C raises the occupancy by exactly `accepted`. |
| `TxArith.OccupancyAtCapacity` | src/hw/usart_tx.c:181-195 | If `pending + accepted == C`, the new `wr` equals `rd` and the occupancy reads 0. |
| `TxArith.StoredNothing` | src/hw/usart_tx.c:186 | Storing no bytes leaves the array as it was. |
| `TxArith.RunLength` | src/hw/usart_tx.c:135-145 | A scheduled run has at least one byte and ends at or before the end of the array. |
| `TxArith.RunWithinQueue` | src/hw/usart_tx.c:135-141 | A run never exceeds the bytes queued between the cursors. It covers all of them exactly when they do not wrap past the array end; otherwise it stops at the array end. |
| `TxArith.Transfers` | src/hw/usart_tx.c:135-164 | The chain of transfers that the interrupt handler keeps scheduling from `rd` until nothing is queued carries exactly as many bytes as were queued. |
| `TxArith.TransfersSplit` | src/hw/usart_tx.c:135-164 | That chain has at most two runs. It carries the queue as one slice when the queue does not pass the array end, and otherwise as the tail of the array followed by its head. |
| `TxArith.TransfersCarryQueue` | src/hw/usart_tx.c:152-164 | The chain of transfers carries exactly the queued bytes in ring order, with nothing skipped, repeated or reordered across the wrap. |
| `TxArith.RingViewSplit` | src/hw/usart_tx.c:198-205 | The queue from a cursor is one contiguous slice when it fits before the array end. Otherwise it is the tail of the array followed by its head, the same split as the two-part copy. |
| `TxArith.RingViewAdvance` | src/hw/usart_tx.c:160-161 | Finishing an in-array run of `x` bytes consumes exactly the first `x` queued bytes. The rest of the queue starts at `(rd + x) mod C`. |
| `TxArith.RingViewAppend` | src/hw/usart_tx.c:198-205 | Copying new bytes in after the write cursor appends them to the queue and leaves the queued bytes alone. |
| `TxArith.StoredPlacesData` | src/hw/usart_tx.c:198-205 | After the copy, byte `i` of the data sits in slot `(old_wr + i) mod C` for every `i < accepted`. Every slot at least `accepted` slots past `old_wr` keeps its old byte. |
| `TxArith.CompletionKeepsFifo` | src/hw/usart_tx.c:153-164 | A completed run emits exactly the next bytes in written order, and the queue stays laid out from the new read cursor. The cursors then meet exactly when the whole queue has been emitted. |
| `TxArith.WriteKeepsFifo` | src/hw/usart_tx.c:194-205 | When the queue plus the new bytes fit in C, an enqueue appends its bytes to the queue in order, with `wr` advanced past them. |
| `TxArith.QueueIsTransfers` | src/hw/usart_tx.c:152-164 | With the queue laid out, the written bytes are the emitted bytes followed by what the chain of transfers from `rd` carries out. |
| `TxArith.OccupancyOfQueue` | src/hw/usart_tx.c:115-118 | With the queue laid out, the occupancy equals the queue length when it is below C, and reads 0 when the queue holds exactly C bytes. |
| `UsartTx.TxBuffer.Setup` | src/hw/usart_tx.c:83 | Setup leaves both cursors at 0, occupancy 0, the stream idle, nothing written or emitted, and the FIFO abstraction holding. |
| `UsartTx.TxBuffer.NInBuff` | src/hw/usart_tx.c:108-123 | Returns the occupancy of the two cursors, always below C. Under the FIFO abstraction it equals the number of bytes waiting, except at exactly C waiting bytes, where it returns 0. |
| `UsartTx.TxBuffer.DmaSchedule` | src/hw/usart_tx.c:127-149 | Only an idle stream is scheduled. Afterwards the stream is busy and the recorded length is `RunLength(rd, wr)`, a run inside the array. Cursors, written and emitted bytes are unchanged, and the queue layout is kept. |
| `UsartTx.TxBuffer.Dma2Stream7Isr` | src/hw/usart_tx.c:152-169 | Any cause other than transfer complete halts and changes nothing. On transfer complete, `rd` becomes `(rd + xferLen) mod C`, the finished run `buff[rd..rd+xferLen)` is appended to the emitted bytes, and a new run is scheduled exactly when `wr != rd`. The FIFO abstraction is preserved. |
| `UsartTx.TxBuffer.Reserve` | src/hw/usart_tx.c:193-196 | Returns the old write cursor and moves `wr` to `(old wr + count) mod C`, changing nothing else. The occupancy rises by `count` when the result is below C; at exactly C the write cursor lands on the read cursor. |
| `UsartTx.TxBuffer.CopyIn` | src/hw/usart_tx.c:199 | The `memcpy` into the buffer: the `count` target slots get the source bytes in order, and every other slot is unchanged. |
| `UsartTx.TxBuffer.StoreWrapped` | src/hw/usart_tx.c:198-205 | The one- or two-part copy leaves the array equal to `Stored(old buff, w, data[..count])`. |
| `UsartTx.TxBuffer.RecordAccepted` | src/hw/usart_tx.c:194-205 | The bytes just stored after the old write cursor join the written bytes. When the queue plus these bytes fit in C, the queue stays laid out from `rd` to the new `wr`. Cursors and stream state are unchanged. |
| `UsartTx.TxBuffer.StartIfIdle` | src/hw/usart_tx.c:213-216 | A busy stream is left alone. An idle stream gets a run of `RunLength(rd, wr)`. With bytes queued and any run in flight inside the queue, the FIFO abstraction holds afterwards. |
| `UsartTx.TxBuffer.UsartWriteDma` | src/hw/usart_tx.c:178-219 | Returns `Accepted(n, pending)`. It sets `wr` to `(old wr + accepted) mod C`, leaves `rd` alone, and ties the array to `Stored` over the accepted bytes. The occupancy rises by `accepted` below C and reads 0 at exactly C. A transfer starts only if the stream was idle and some byte was accepted; a busy stream keeps its run. A zero-byte write changes neither the fields nor the array. Coherence is kept when fewer than C bytes were queued. |
| `UsartTx.TxBuffer.DrainUntilIdle` | src/hw/usart_tx.c:152-169 | Servicing transfer-complete interrupts until the stream goes idle leaves `wr` where it was, brings `rd` onto it, and ends with the emitted bytes equal to the written bytes, in the order written. |
| `UsartTxScenarios.ExactFillReadsEmpty` | src/hw/usart_tx.c:181-186 | With C = 8: writing 5 bytes accepts 5, and a 6-byte write then accepts 3. The occupancy afterwards reads 0, while the returned count of written but unsent bytes is 8. |
| `UsartTxScenarios.WriteIntoFullBufferLosesBytes` | src/hw/usart_tx.c:181-205 | Continuing from that full buffer, an 8-byte write is accepted in full and overwrites all eight unsent bytes: the five of the run in flight and the three queued. The next run takes 3 bytes starting with byte 25, and after it the stream is idle with equal cursors. Sixteen bytes were accepted, but only the eight of the later write were carried out; bytes 1 to 8 were never sent. |

## Left out

- The register programming in `usart_tx_dma_setup` (lines 41-81 and 86): clock enable, stream configuration, FIFO settings and NVIC enable. It is hardware configuration with nothing to state. Only the cursor reset of line 83 is modelled, by the constructor `Setup`.
- Interrupt masking (`usart_tx_di`/`usart_tx_ei` and the `CPSID`/`CPSIE` pair): each method runs as one atomic step. Preemption, and re-entrant enqueues racing for disjoint regions, are not modelled. In the source the copy at lines 198-205 runs with interrupts enabled, between the two masked sections (lines 193-196 and 213-216). A completion in that window can schedule slots that are reserved but not yet filled. `UsartWriteDma`'s FIFO result assumes no completion arrives there.
- `screaming_death()` is external (`../error.h`). In the interrupt handler it becomes the `Halted` outcome. In `dma_schedule` it becomes a precondition, and every call site is proved to meet it.
- UsartTx.TxBuffer.UsartWriteDma: promises to keep the FIFO abstraction only when fewer than C bytes are queued before the call. A full queue reads as empty, so the code then overwrites unsent bytes.
- UsartTx.TxBuffer.DmaSchedule: requires the stream to be neither enabled nor holding an unserviced completion flag. The source's check at line 130 tests only the enable bit. Both call sites also meet the stronger condition.
- UsartTx.TxBuffer.Dma2Stream7Isr: takes a single interrupt cause and requires a transfer in flight when that cause is transfer complete, because the stream raises that flag only after an armed transfer. When several status flags are set at once, the source services transfer complete first. The model does not represent simultaneous flags.
- DMA timing: a finished run is recorded as emitted when its completion interrupt is serviced, using the buffer contents at that moment. When a byte is read by the stream during the transfer is not modelled. In the scenario where a write overwrites bytes of a run in flight, the bytes it reports as carried out are the ones in the slots when the run completes. On the wire, the run in flight may have carried some of the older bytes instead.
- The flag clearing through `DMA2_HIFCR` and the address and count registers are represented only by `dmaBusy` and `xferLen`.
- The value of `USART_TX_BUFFER_LEN`: `usart.h` is not part of this model. The capacity is a parameter of `Setup`, limited to at most 65535. That bound keeps the longest run, the whole array, within the 16-bit item count register `DMA2_S7NDTR` from which line 145 reads `xfer_len` back. It also keeps every `u32` intermediate value (always below 2C) from wrapping. The request length `n` is bounded by the `u32` range.
