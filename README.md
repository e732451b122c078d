# TWI master driver (twid) — a verified model

This project models the two-wire interface (TWI, I²C) master driver of the
Atmel software package, `drivers/peripherals/twid.c`. The driver moves a
buffer to or from a slave device. It picks one of four transfer modes:

- **POLLING** runs byte loops that wait on status flags;
- **ASYNC** fills a slot of a round-robin table that the interrupt handler
  works through, one byte per interrupt;
- **DMA** hands a long buffer to a DMA channel and polls a short one;
- **FIFO** calls the controller's stream primitives.

A mutex in the descriptor marks a transfer in progress.

The model has five modules:

- `TwidTypes` (`types.dfy`): the data model.
  - `struct _twi_desc` is the `TwiDesc` datatype.
  - `struct _buffer` is the `Buffer` datatype.
  - A slot of `asyncdesc` is the `Slot` datatype.
  - Everything the driver does to the hardware or to a callback becomes an
    `Event` in a log.
  - A `Bus` oracle answers the status polls. It says whether the k-th byte
    wait sees its flag in time, whether the k-th NACK check reads NACK,
    what the k-th byte read returns, whether the k-th transfer-complete
    wait succeeds, and whether the k-th FIFO stream call succeeds.
- `TwidPoll` (`polling.dfy`): reference definitions and their properties.
  - It covers `twid_configure`, `_twid_wait_twi_transfer` and the SAMA5D4
    polling engines `_twid_poll_write` and `_twid_poll_read`.
  - Each engine's byte loop is a recursive function (`WriteLoop`,
    `ReadLoop`).
- `TwidAsync` (`async.dfy`): the slot table and `_twid_handler`.
  - `NextIndex` is the round-robin index.
  - `AsyncSlot` is the slot a submission writes.
  - `SlotStep` is one interrupt on one slot, and `HandlerSpec` is one
    interrupt on the whole table.
  - `TxRun` and `RxRun` are runs of interrupts.
- `TwidDispatch` (`dispatch.dfy`): `twid_transfert` as a function.
  - It covers mode selection, the arm of each mode and the lock policy.
  - It also covers the DMA completion, `_twid_xdmad_callback_wrapper`.
- `TwidDriver` (`driver.dfy`): the driver as imperative code.
  - The caller's descriptor is a `TwiDescRef` object, updated in place.
  - The driver's global state is the `Twid` class: the `slots` array
    (`asyncdesc`), `adescIndex` (`adesc_index`) and the event log.
  - The byte loops are `while` loops that store into the caller's array.
  - Every method is proved against the reference function it implements.

The model follows the code as written, including these behaviours a reader
might not expect:

- The DMA region (`region_start`, `region_length`) is set before a DMA
  transfer and never cleared afterwards.
- An asynchronous completion with `twid_finish_transfert_callback` frees
  the mutex of the slot's copy of the descriptor, not the caller's.
- The asynchronous slot's `transferred` count is never reset between uses.
- The ASYNC downgrade test reads `tx->size` always, and reads `rx->size`
  when `tx->size != 1`.
- In DMA mode, `tx` wins over `rx`, and the duplex error is reported only
  when both are missing.
- A mode with no arm (an unknown value, or FIFO when FIFO support is not
  built in) returns success and keeps the mutex held.
- On TXCOMP the handler makes one disable call whose mask names RXRDY twice
  (`RXRDY | RXRDY`), so TXRDY stays unmasked.

## Model

| member | source | states |
|---|---|---|
| TwidPoll.ConfiguredTimeout | drivers/peripherals/twid.c:309-310 | the timeout after configuration is never zero: a zero timeout becomes TWID_TIMEOUT (100) and any other value is kept |
| TwidPoll.ConfigureIdempotent | drivers/peripherals/twid.c:305-330 | configuring twice leaves the same descriptor as configuring once and issues the same clock/master/FIFO sequence |
| TwidPoll.WaitTransferSpec | drivers/peripherals/twid.c:72-84 | success exactly when completion is seen in time; otherwise TWID_ERROR_TRANSFER, with the controller reconfigured and the descriptor's timeout made non-zero |
| TwidDriver.Twid.Configure | drivers/peripherals/twid.c:305-330 | the descriptor becomes `Configured(old)` and the log grows by the configuration events (FIFO thresholds at half the depth only when FIFO is built in and the mode is FIFO) |
| TwidDriver.Twid.WaitTransfer | drivers/peripherals/twid.c:72-84 | status, descriptor and log are those of `WaitTransferSpec` |
| TwidDriver.CheckNack | drivers/peripherals/twid.c:185-192 | TWID_ERROR_ACK if and only if the k-th status read shows NACK, success otherwise |
| TwidDriver.CheckTimeOut | drivers/peripherals/twid.c:197-230 | TWID_ERROR_TIMEOUT if and only if the k-th byte wait does not see its flag in time |
| TwidDriver.IsBusy | drivers/peripherals/twid.c:641-644 | twid_is_busy: true exactly when the descriptor's mutex is held (FinishTransfert makes it false) |
| TwidDriver.Twid.FinishTransfert | drivers/peripherals/twid.c:636-644 | only the mutex changes; afterwards `IsBusy` (twid_is_busy) is false |
| TwidDriver.Twid.FinishTransfertCallback | drivers/peripherals/twid.c:630-634 | frees the mutex of the descriptor it is handed and ignores its argument |
| TwidDriver.Twid.RunCallback | drivers/peripherals/twid.c:528 | a NULL callback is skipped; otherwise one invocation on the caller's descriptor is logged and its effect applied |
| TwidDriver.Twid.CallbackAndUnlock | drivers/peripherals/twid.c:528-529 | the callback, then the unlock: the end of a successful synchronous arm |
| TwidPoll.Configured | drivers/peripherals/twid.c:309-310 | configuration changes nothing in a descriptor but its timeout, which it leaves non-zero |
| TwidPoll.ConfigureEvents | drivers/peripherals/twid.c:319-328 | the clock enable and the master set-up, in that order, then the FIFO thresholds at half the peripheral's FIFO depth (both levels) if and only if FIFO support is built in and the mode is FIFO |
| TwidPoll.WriteLoop | drivers/peripherals/twid.c:384-390 | the write loop stops at an index between its start and the buffer size, and it ran to completion if and only if it reached the size |
| TwidPoll.ReadLoop | drivers/peripherals/twid.c:349-355 | the read loop stops at an index between its start and `size - 1`, and it ran to completion if and only if it reached that bound |
| TwidPoll.PollWriteSpec | drivers/peripherals/twid.c:369-397 | a polled write begins with the start condition carrying byte 0, returns success, TWID_ERROR_ACK or TWID_ERROR_TRANSFER, stores nothing, and changes the descriptor only on the transfer error, where it is reconfigured |
| TwidPoll.PollReadSpec | drivers/peripherals/twid.c:338-367 | a polled read begins with the start condition, returns success, TWID_ERROR_ACK, TWID_ERROR_TIMEOUT or TWID_ERROR_TRANSFER, and stores at most `size` bytes |
| TwidPoll.WriteLoopSends | drivers/peripherals/twid.c:384-390 | the write loop sends bytes 1.. in order up to the first timeout (exclusive) or the first NACKed byte (inclusive); every earlier wait and NACK check passed; it completes if and only if it reaches `size` |
| TwidPoll.ReadLoopReceives | drivers/peripherals/twid.c:349-355 | the read loop reads bytes 0.. up to the first timeout (exclusive) or the first NACKed byte (inclusive); every earlier wait and NACK check passed; it completes if and only if it reaches `size - 1` |
| TwidPoll.ReadLoopAt | drivers/peripherals/twid.c:349-355 | how the loop ended, in closed form, from the index where it stopped and the reason |
| TwidPoll.PollWriteSegments | drivers/peripherals/twid.c:375-396 | the events of a polled write as start, early stop, loop bytes, late stop and reconfiguration; TWID_ERROR_ACK if and only if a NACK was read |
| TwidPoll.PollWriteSingleByteStop | drivers/peripherals/twid.c:377-380 | with one byte, the stop condition follows the start at once |
| TwidPoll.PollWriteStops | drivers/peripherals/twid.c:377-393 | exactly one stop condition, except none when a longer buffer is NACKed |
| TwidPoll.PollWriteNoByteAfterStop | drivers/peripherals/twid.c:375-396 | no data byte is written after a stop condition |
| TwidPoll.PollWriteNackStops | drivers/peripherals/twid.c:381-389 | n bytes are on the bus (1 <= n <= size); the result is TWID_ERROR_ACK if and only if the NACK check after byte n-1 failed; all earlier checks passed; on that error the events are exactly the start and bytes 1..n-1 |
| TwidDriver.Twid.SendBytes | drivers/peripherals/twid.c:384-390 | the `while` loop's NACK flag and log are those of `WriteLoop` from 1 |
| TwidDriver.Twid.PollWrite | drivers/peripherals/twid.c:369-397 | status, descriptor and log are those of `PollWriteSpec` |
| TwidPoll.ReadTailSpec | drivers/peripherals/twid.c:357-366 | the tail after the loop starts with the stop condition and stores the last byte or nothing |
| TwidPoll.PollReadSegments | drivers/peripherals/twid.c:338-367 | the events of a polled read segment by segment; the stored count; TWID_ERROR_ACK if and only if a NACK was read in or after the loop; a read that fails before its last byte leaves the descriptor unchanged |
| TwidPoll.PollReadStops | drivers/peripherals/twid.c:346-361 | exactly one stop condition, except none when a NACK came during the first `size - 1` bytes |
| TwidPoll.PollReadOneByteAfterStop | drivers/peripherals/twid.c:357-366 | at most one byte is read after the stop condition, and it comes right after the stop |
| TwidPoll.PollReadSuccess | drivers/peripherals/twid.c:346-366 | a successful read whose loop completed stored all `size` bytes: the loop bytes, the stop, then the last byte |
| TwidPoll.PollReadNackStops | drivers/peripherals/twid.c:353-361 | on TWID_ERROR_ACK the last event is either the NACKed byte or the stop after which NACK was read |
| TwidPoll.PollReadPartialSuccess | drivers/peripherals/twid.c:349-366 | a byte wait that times out ends the loop, yet the call can return success with only part of the buffer stored |
| TwidDriver.Twid.ReceiveBytes | drivers/peripherals/twid.c:349-355 | the `while` loop's index, timeout and NACK flags and log are those of `ReadLoop`; the array holds the received bytes in its first `Moved` cells and is otherwise unchanged |
| TwidDriver.Twid.ReceiveOne | drivers/peripherals/twid.c:352 | stores the k-th received byte at index k and logs the read |
| TwidDriver.Twid.ReadTail | drivers/peripherals/twid.c:357-366 | status, descriptor and log are those of `ReadTailSpec`; cell i is written exactly when the last byte is stored |
| TwidDriver.Twid.PollRead | drivers/peripherals/twid.c:338-367 | status, descriptor and log are those of `PollReadSpec`; the buffer holds its first `stored` received bytes and is otherwise unchanged |
| TwidAsync.NextIndex | drivers/peripherals/twid.c:512 | the next slot index stays below MAX_ADESC and wraps from 7 to 0 |
| TwidAsync.NextIndexCycle | drivers/peripherals/twid.c:512 | n submissions advance the index by n modulo 8; eight come back to the start |
| TwidAsync.Pred32 | drivers/peripherals/twid.c:495 | `size - 1` on a 32-bit unsigned count: 0 wraps to 0xFFFFFFFF |
| TwidAsync.AsyncSlotBinds | drivers/peripherals/twid.c:479-507 | the slot holds a copy of the descriptor and the peripheral id; for a write it points one byte into `tx` with one byte fewer, for a read at `rx` with as many; the stale `transferred` is kept; the pointer covers the bytes |
| TwidAsync.AsyncSlot | drivers/peripherals/twid.c:479-507 | the submitted slot holds the caller's descriptor and serves its peripheral, keeps the count of its last use, and points into a buffer if and only if one was given |
| TwidAsync.AsyncEvents | drivers/peripherals/twid.c:486-507 | a submission sets the interrupt vector and enables it first, then issues two more events (start and unmask) exactly when a buffer is given; for a read, RXRDY is unmasked before the start of read |
| TwidAsync.SlotStep | drivers/peripherals/twid.c:256-298 | one interrupt on a slot keeps its size, moves its count on by at most one, and stores a byte if and only if RXRDY is pending |
| TwidAsync.HandlerSpec | drivers/peripherals/twid.c:235-299 | the handler keeps the table's length, serves the first matching slot, and with no match leaves the table alone and stores nothing |
| TwidAsync.FirstMatch | drivers/peripherals/twid.c:242-247 | the first slot whose id matches, or the table length when none does |
| TwidAsync.HandlerTouchesOneSlot | drivers/peripherals/twid.c:240-299 | with no matching slot, only RXRDY and TXRDY are masked and the table is unchanged; otherwise only the first matching slot changes |
| TwidAsync.RxStep | drivers/peripherals/twid.c:260-273 | RXRDY stores the byte and counts it; the stop is issued if and only if one byte is left (size - 1 as a 32-bit count); RXRDY is masked and TXCOMP unmasked if and only if the count reaches `size` |
| TwidAsync.TxStepCounts | drivers/peripherals/twid.c:274-287 | one TXRDY keeps the slot's buffer, size and descriptor; the count moves on by one exactly when bytes were left and never past the size; the only byte written is `pdata[transferred]`; the stop and the TXCOMP unmask come exactly when the count had reached the size, and then no byte is written |
| TwidAsync.TxcompStep | drivers/peripherals/twid.c:289-297 | TXCOMP disables the line, masks RXRDY and TXCOMP (never TXRDY), runs the callback once on the slot's copy, and frees the slot |
| TwidAsync.StepKeepsCountInBounds | drivers/peripherals/twid.c:260-287 | one interrupt moves at most one byte; the count stays within the size as long as RXRDY only comes while a byte is expected |
| TwidAsync.RxPastEnd | drivers/peripherals/twid.c:260-262 | RXRDY on a slot whose count already equals its size counts one byte past the end |
| TwidAsync.TxRun | drivers/peripherals/twid.c:274-287 | n TXRDY interrupts keep the pointer and size and advance the count by n, capped at the size |
| TwidAsync.TxRunSendsRest | drivers/peripherals/twid.c:274-287 | a write handed over at count t sends exactly bytes t..size of the buffer in order, then masks TXRDY, unmasks TXCOMP and sends one stop |
| TwidAsync.RxRun | drivers/peripherals/twid.c:260-273 | one RXRDY per byte advances the count by the number of bytes |
| TwidAsync.RxRunStopsOnce | drivers/peripherals/twid.c:260-273 | a read of at least two bytes sends the stop exactly once, between the next-to-last and the last byte, and the last byte masks RXRDY and unmasks TXCOMP |
| TwidAsync.RxRunPrefix | drivers/peripherals/twid.c:260-273 | the same from any count that leaves at least two bytes |
| TwidDriver.Twid.FindSlot | drivers/peripherals/twid.c:242-247 | the `while` loop returns `FirstMatch`: the first matching slot, or 8 |
| TwidDriver.Twid.Handler | drivers/peripherals/twid.c:235-299 | the table and log become those of `HandlerSpec`; on RXRDY the byte is stored at `pdata[transferred]` of the serving slot, and no other memory changes |
| TwidDriver.Twid.StartAsync | drivers/peripherals/twid.c:479-512 | the slot at `adesc_index` becomes `AsyncSlot`, the index advances by `NextIndex`, and the log grows by the vector, enable, start and interrupt-unmask events |
| TwidDispatch.EffectiveMode | drivers/peripherals/twid.c:468-473 | the mode acted in is the requested one, except that ASYNC may become POLLING |
| TwidDispatch.PollArm | drivers/peripherals/twid.c:516-530 | the POLLING arm fills no slot and never reports a lock or duplex error; on success the mutex is free; bytes are stored only into `rx` without `tx`, at most `size` of them |
| TwidDispatch.DmaArm | drivers/peripherals/twid.c:532-589 | the DMA arm reports the duplex error if and only if both buffers are missing, fills no slot and never reports a lock error |
| TwidDispatch.DmaWriteArm | drivers/peripherals/twid.c:537-558 | a DMA write stores nothing; from the threshold on it succeeds, keeps the lock as it was and sets the cache region to the buffer |
| TwidDispatch.DmaReadArm | drivers/peripherals/twid.c:560-586 | a DMA read stores at most `size` bytes; from the threshold on it succeeds if and only if NACK 0 is clear, stores nothing itself, keeps the lock and sets the cache region to the buffer |
| TwidDispatch.FifoLeg | drivers/peripherals/twid.c:594-602 | a FIFO leg starts with its stream call and succeeds if and only if the stream call and the completion wait both succeed; a failed stream call gives TWID_ERROR_ACK with no completion wait and the descriptor unchanged; a failed wait gives TWID_ERROR_TRANSFER |
| TwidDispatch.FifoArm | drivers/peripherals/twid.c:592-617 | the FIFO arm stores nothing and fills no slot; it succeeds if and only if every leg it runs succeeds (the `tx` stream and wait as the 0th query, the `rx` stream and wait as the next one); on success the mutex is free |
| TwidDispatch.Arm | drivers/peripherals/twid.c:475-622 | an arm fills a slot if and only if its mode is ASYNC, and never reports the lock error |
| TwidDispatch.TransfertSpec | drivers/peripherals/twid.c:455-628 | TWID_ERROR_LOCK if and only if the mutex was held, and then no event, no slot, and the mutex still held |
| TwidDispatch.LockedTransfert | drivers/peripherals/twid.c:464-626 | once the lock is taken the call never reports the lock error, and every failure leaves the mutex free |
| TwidDispatch.EffectiveModeDowngrades | drivers/peripherals/twid.c:468-473 | the mode changes if and only if it is ASYNC and a buffer has one byte, and then it becomes POLLING |
| TwidDispatch.TransfertLock | drivers/peripherals/twid.c:461-466 | the callback and its argument are installed in every outcome; TWID_ERROR_LOCK if and only if the mutex was held, and then nothing else happens |
| TwidDispatch.ArmKeepsCallback | drivers/peripherals/twid.c:475-622 | no arm changes the callback or its argument, and none returns TWID_ERROR_LOCK |
| TwidDispatch.TransfertUnlocksOnFailure | drivers/peripherals/twid.c:624-625 | every failure other than the lock error leaves the mutex free |
| TwidDispatch.TransfertLockAfterSuccess | drivers/peripherals/twid.c:475-625 | after a success the mutex is held if and only if the mode is ASYNC, DMA from the threshold on, unknown, or FIFO without FIFO support |
| TwidDispatch.UnknownModeKeepsLock | drivers/peripherals/twid.c:620-622 | a mode with no arm succeeds, does nothing and keeps the lock |
| TwidDispatch.TransfertAsync | drivers/peripherals/twid.c:477-513 | a slot is written if and only if the effective mode is ASYNC; it is always the write branch, the call succeeds with the lock held, and the exact hardware events are given |
| TwidDispatch.DmaDuplex | drivers/peripherals/twid.c:533-536 | in DMA mode the duplex error comes if and only if both buffers are missing, with no hardware access and the lock freed |
| TwidDispatch.DmaSmallIsPolling | drivers/peripherals/twid.c:537-565 | below the DMA threshold the DMA arm is the polling arm without its interrupt-unmask event |
| TwidDispatch.DmaLarge | drivers/peripherals/twid.c:543-586 | from the threshold on the region is the buffer; success if and only if it is a write or the NACK check passes; on success the lock is held and the channel is set up, the cache cleaned and the channel started, in that order |
| TwidDispatch.SyncCallbackOnSuccess | drivers/peripherals/twid.c:516-530 | in POLLING mode a user callback runs if and only if the call succeeds, as the last event and on the caller's descriptor, and the lock is then free |
| TwidDispatch.PollWriteNoInvoke | drivers/peripherals/twid.c:369-397 | the write engine never invokes a callback |
| TwidDispatch.PollReadNoInvoke | drivers/peripherals/twid.c:338-367 | the read engine never invokes a callback |
| TwidDispatch.StoredOnlyByRead | drivers/peripherals/twid.c:455-628 | a transfer stores into a buffer only through the read engine, into `rx` without `tx`, and within its size |
| TwidDispatch.DmaDoneEvents | drivers/peripherals/twid.c:86-98 | the DMA completion frees the channel first, and invalidates the cache if and only if the region is set and non-empty |
| TwidDispatch.DmaCompletionOrder | drivers/peripherals/twid.c:86-98 | for any callback, a successful DMA transfer from the threshold on leaves the caller locked, and its completion frees the channel, invalidates the cache over the transfer's buffer, then runs the callback on the caller's descriptor |
| TwidDispatch.AsyncWriteSendsFromStaleCount | drivers/peripherals/twid.c:479-512 | an asynchronous write whose slot kept count t from its last use sends only bytes `1 + t .. size` of `tx` (all of `1 .. size` when t is 0), then masks TXRDY, unmasks TXCOMP and sends one stop |
| TwidDispatch.DmaCompletionUnlocks | drivers/peripherals/twid.c:86-98 | a DMA transfer started with twid_finish_transfert_callback: the completion frees the channel, invalidates the region and unlocks the caller |
| TwidDispatch.AsyncCompletionLeavesCallerLocked | drivers/peripherals/twid.c:289-297 | with twid_finish_transfert_callback in ASYNC mode, TXCOMP unlocks the slot's copy and never the caller's descriptor |
| TwidDriver.Twid.PolledWrite | drivers/peripherals/twid.c:517-521 | unmask TXRDY, then the write engine, then callback and unlock on success |
| TwidDriver.Twid.PolledRead | drivers/peripherals/twid.c:522-529 | unmask RXRDY, then the read engine, then callback and unlock on success; the buffer holds the stored bytes |
| TwidDriver.Twid.RunPolling | drivers/peripherals/twid.c:516-530 | status, descriptor, log and `rx` contents are those of `PollArm` |
| TwidDriver.Twid.StartDma | drivers/peripherals/twid.c:124-180 | channel set up for the buffer, cache cleaned over the descriptor's region, channel started |
| TwidDriver.Twid.DmaWrite | drivers/peripherals/twid.c:537-558 | status, descriptor and log are those of `DmaWriteArm` |
| TwidDriver.Twid.DmaRead | drivers/peripherals/twid.c:560-586 | status, descriptor, log and buffer are those of `DmaReadArm` |
| TwidDriver.Twid.RunDma | drivers/peripherals/twid.c:532-589 | status, descriptor, log and `rx` contents are those of `DmaArm` |
| TwidDriver.Twid.FifoStream | drivers/peripherals/twid.c:593-602 | a stream call, then the completion wait unless the stream failed, as `FifoLeg` |
| TwidDriver.Twid.RunFifo | drivers/peripherals/twid.c:592-617 | status, descriptor and log are those of `FifoArm` |
| TwidDriver.Twid.RunArm | drivers/peripherals/twid.c:475-622 | the arm of the given mode, as `Arm`, including the slot write and index advance of ASYNC |
| TwidDriver.Twid.TransfertLocked | drivers/peripherals/twid.c:464-628 | takes the lock, downgrades ASYNC, runs the arm and frees the lock on failure, as `LockedTransfert` |
| TwidDriver.Twid.Transfert | drivers/peripherals/twid.c:455-628 | status, descriptor, log, slot table, index and `rx` contents are those of `TransfertSpec` |
| TwidDriver.Twid.DmaCallback | drivers/peripherals/twid.c:86-98 | frees the channel, invalidates the region when it has one, and runs the callback on the caller's descriptor |
| TwidDriver.Twid.constructor | drivers/peripherals/twid.c:59-61 | the table starts with eight zeroed slots and index 0 |

## Left out

- The TWI, PMC, AIC, XDMAC and cache primitives are not modelled beyond the events they stand for. Their register-level behaviour lies outside the driver.
- `timer_start_timeout` / `timer_timeout_reached` spin loops are collapsed to one oracle answer per wait (`Bus.ready`, `Bus.complete`). The clock is an input.
- FIFO stream and DMA transfers do not move data in the model: only the events and the success of each stream call are kept. Neither the DMA channel nor the FIFO writes into `rx` in the model.
- Client callbacks are opaque: their invocation is logged, and only the library's own `twid_finish_transfert_callback` has a modelled effect.
- The non-SAMA5D4 polling engines (the `#else` branch of `_twid_poll_read` and `_twid_poll_write`) are not part of this model; the SAMA5D4 variant is.
- `twid_wait_transfert` (a busy wait on the mutex) is left out. Without concurrency it either returns at once or never returns.
- Interrupt preemption and concurrent callers are left out. The handler and the submissions are modelled as atomic steps on the shared table.
- The FLEXCOM operating-mode selection of twid_configure (`flexcom_select`, under `CONFIG_HAVE_FLEXCOM`) has no event: the model is built without FLEXCOM, and `ConfigureEvents` starts at the clock enable. The `assert` on the peripheral id is left out too.
- `CONFIG_HAVE_TWI_ALTERNATE_CMD` (the command setup before a DMA transfer) is left out. The model is built without it.
- `get_twi_id_from_addr` and `get_twi_addr_from_id` are modelled as the identity: one number serves as both bus address and peripheral id.
- `twid.h` is not part of this model. Buffer sizes and `transferred` are taken as unbounded naturals, except for the `size - 1` of the asynchronous paths, which wraps as a 32-bit unsigned value (`Pred32`).
- TwidDriver.Twid.PollWrite: requires at least one byte, like TwidPoll.PollWriteSpec. A polled write of size 0 (start with `data[0]`, no loop, a stop, the completion wait) is not modelled.
- TwidDriver.Twid.PollRead: requires at least one byte. With size 0 the C loop bound `size - 1` wraps and the loop writes past the buffer.
- TwidDriver.Twid.DmaWrite: a size-0 buffer below the DMA threshold is excluded, for the same reason as PollWrite.
- TwidDriver.Twid.Transfert: requires that the ASYNC downgrade test can read `tx->size` (and `rx->size` when `tx->size != 1`), since the C code dereferences them. It also requires what the chosen arm reads.
- TwidDriver.Twid.Handler: requires that the serving slot's pointer covers `pdata[transferred]` whenever the handler reads or writes it; a stale count would otherwise make the C code touch memory past the buffer.
