/** Reference definition of twid_transfert: the lock, the choice of mode and
    the four transfer arms (polling, asynchronous, DMA, FIFO), and the
    completion of a DMA transfer. */
module TwidDispatch {
  import opened TwidTypes
  import opened TwidPoll
  import opened TwidAsync

  // ---------------------------------------------------------------------
  // Mode selection
  // ---------------------------------------------------------------------

  /** The ASYNC test reads `tx->size` and, unless that is 1, `rx->size`:
      both buffers it reads must exist. */
  predicate AsyncDerefs(m: Mode, rx: Option<Buffer>, tx: Option<Buffer>)
  {
    m == Async ==> tx.Some? && (tx.value.size != 1 ==> rx.Some?)
  }

  /** The mode twid_transfert acts in: ASYNC on a one-byte buffer is done by
      polling; every other mode is kept. */
  function EffectiveMode(m: Mode, rx: Option<Buffer>, tx: Option<Buffer>): (r: Mode)
    requires AsyncDerefs(m, rx, tx)
    ensures r == m || (m == Async && r == Polling)
  {
    if m == Async && (tx.value.size == 1 || rx.value.size == 1) then Polling else m
  }

  lemma EffectiveModeDowngrades(m: Mode, rx: Option<Buffer>, tx: Option<Buffer>)
    requires AsyncDerefs(m, rx, tx)
    ensures var e := EffectiveMode(m, rx, tx);
      (e != m <==> m == Async && (tx.value.size == 1 || rx.value.size == 1))
      && (e != m ==> e == Polling)
      && (e == Async ==> tx.value.size != 1 && rx.Some? && rx.value.size != 1)
  {
  }

  /** A buffer an engine can walk: it holds `size` bytes, at least one. */
  predicate Usable(b: Buffer)
  {
    Fits(b) && b.size >= 1
  }

  /** The buffer an arm works on: `tx` whenever it is given. */
  function Chosen(rx: Option<Buffer>, tx: Option<Buffer>): Option<Buffer>
  {
    if tx.Some? then tx else rx
  }

  /** What the arm of mode `m` needs of the buffer it uses: the engines read
      `data[0]` and count to `size - 1`, the asynchronous arm reads
      `data[0]`, and DMA below the threshold is the polling engine. */
  predicate ArmDemands(m: Mode, rx: Option<Buffer>, tx: Option<Buffer>)
  {
    var b := Chosen(rx, tx);
    match m
    case Async => tx.Some? && tx.value.data.Length >= 1
    case Polling => b.Some? ==> Usable(b.value)
    case Dma => b.Some? ==> Fits(b.value) && (b.value.size < DmaThreshold ==> b.value.size >= 1)
    case _ => true
  }

  /** What twid_transfert demands of its caller: nothing once the lock is
      taken, otherwise what the chosen mode reads. */
  predicate Demands(d: TwiDesc, rx: Option<Buffer>, tx: Option<Buffer>)
  {
    !d.locked ==> AsyncDerefs(d.mode, rx, tx) && ArmDemands(EffectiveMode(d.mode, rx, tx), rx, tx)
  }

  function TxFrame(tx: Option<Buffer>): set<array<Byte>>
  {
    if tx.Some? then {tx.value.data} else {}
  }

  /** The caller buffer twid_transfert may write: `rx`, when there is no
      `tx`. */
  function RxFrame(rx: Option<Buffer>, tx: Option<Buffer>): set<array<Byte>>
  {
    if tx.None? && rx.Some? then {rx.value.data} else {}
  }

  // ---------------------------------------------------------------------
  // The arms
  // ---------------------------------------------------------------------

  /** The result of twid_transfert: status, the caller's descriptor
      afterwards, events, how many leading bytes of `rx` were stored, and
      the slot written at `adesc_index` (asynchronous arm only). */
  datatype Outcome = Outcome(status: Status, desc: TwiDesc, events: seq<Event>, stored: nat, slot: Option<Slot>)

  /** A synchronous arm that succeeded: the callback runs on the caller's
      descriptor, then its mutex is freed. */
  function Finish(d: TwiDesc, events: seq<Event>, stored: nat): Outcome
  {
    Outcome(Success, AfterCallback(d.callback, d).(locked := false),
            events + CallbackEvents(d.callback, Caller, d.cbArgs), stored, None)
  }

  /** A polling engine's result inside twid_transfert, after `pre`: on
      success the arm finishes, otherwise it stops with that status. */
  function AfterEngine(pre: seq<Event>, o: PollOut): Outcome
  {
    if o.status == Success then Finish(o.desc, pre + o.events, o.stored)
    else Outcome(o.status, o.desc, pre + o.events, o.stored, None)
  }

  /** The POLLING arm: the write engine on `tx` with TXRDY unmasked first,
      else the read engine on `rx` with RXRDY unmasked first, else nothing;
      then the callback and the unlock on success. */
  function PollArm(p: Platform, d: TwiDesc, rx: Option<Buffer>, tx: Option<Buffer>, hw: Bus): (o: Outcome)
    requires ArmDemands(Polling, rx, tx)
    reads TxFrame(tx)
    ensures o.slot.None? && o.status != ErrorLock && o.status != ErrorDuplex
    ensures o.status == Success ==> !o.desc.locked
    ensures o.stored > 0 ==> tx.None? && rx.Some? && o.stored <= rx.value.size
  {
    if tx.Some? then
      AfterEngine([EnableIt(d.addr, {Txrdy})], PollWriteSpec(p, d, tx.value.data[..tx.value.size], hw))
    else if rx.Some? then
      AfterEngine([EnableIt(d.addr, {Rxrdy})], PollReadSpec(p, d, rx.value.size, hw))
    else Finish(d, [], 0)
  }

  /** Channel set-up, cache clean of the descriptor's region and start of a
      DMA transfer of `b`. */
  function DmaEvents(d: TwiDesc, dir: DmaDir, b: Buffer): seq<Event>
  {
    [DmaSetup(d.addr, dir, b.data, b.size), CacheClean(d.regionStart, d.regionLength), DmaStart(d.addr, dir)]
  }

  /** The descriptor with its cache region set to buffer `b`. */
  function WithRegion(d: TwiDesc, b: Buffer): TwiDesc
  {
    d.(regionStart := b.data, regionLength := b.size)
  }

  /** The DMA arm: no buffer is the duplex error; `tx` wins over `rx`; below
      the threshold the polling engine runs (no interrupt unmasked); from it
      the region is set and the DMA started, a read first checking NACK.
      The lock stays held while DMA runs. */
  function DmaArm(p: Platform, d: TwiDesc, rx: Option<Buffer>, tx: Option<Buffer>, hw: Bus): (o: Outcome)
    requires ArmDemands(Dma, rx, tx)
    reads TxFrame(tx)
    ensures o.status == ErrorDuplex <==> rx.None? && tx.None?
    ensures o.slot.None? && o.status != ErrorLock
  {
    if rx.None? && tx.None? then Outcome(ErrorDuplex, d, [], 0, None)
    else if tx.Some? then DmaWriteArm(p, d, tx.value, hw)
    else DmaReadArm(p, d, rx.value, hw)
  }

  /** The DMA arm on a transmit buffer: a short one is polled. */
  function DmaWriteArm(p: Platform, d: TwiDesc, tx: Buffer, hw: Bus): (o: Outcome)
    requires Fits(tx) && (tx.size < DmaThreshold ==> tx.size >= 1)
    reads tx.data
    ensures o.stored == 0 && o.slot.None? && o.status != ErrorLock && o.status != ErrorDuplex
    ensures tx.size >= DmaThreshold ==>
      o.status == Success && o.desc.locked == d.locked
      && o.desc.regionStart == tx.data && o.desc.regionLength == tx.size
  {
    if tx.size < DmaThreshold then
      AfterEngine([], PollWriteSpec(p, d, tx.data[..tx.size], hw))
    else
      var dr := WithRegion(d, tx);
      Outcome(Success, dr, DmaEvents(dr, MemToPeriph, tx), 0, None)
  }

  /** The DMA arm on a receive buffer: a short one is polled, a long one
      checks NACK before the channel starts. */
  function DmaReadArm(p: Platform, d: TwiDesc, rx: Buffer, hw: Bus): (o: Outcome)
    requires Fits(rx) && (rx.size < DmaThreshold ==> rx.size >= 1)
    ensures o.stored <= rx.size && o.slot.None? && o.status != ErrorLock && o.status != ErrorDuplex
    ensures rx.size >= DmaThreshold ==>
      (o.status == Success <==> !hw.nack(0)) && o.stored == 0 && o.desc.locked == d.locked
      && o.desc.regionStart == rx.data && o.desc.regionLength == rx.size
  {
    if rx.size < DmaThreshold then
      AfterEngine([], PollReadSpec(p, d, rx.size, hw))
    else
      var dr := WithRegion(d, rx);
      if hw.nack(0) then Outcome(ErrorAck, dr, [], 0, None)
      else Outcome(Success, dr, DmaEvents(dr, PeriphToMem, rx), 0, None)
  }

  /** One FIFO stream call (`k`-th of the transfer) and the wait for
      completion that follows it. */
  function FifoLeg(p: Platform, d: TwiDesc, ev: Event, k: nat, hw: Bus): (o: PollOut)
    ensures o.status == Success <==> hw.streamOk(k) && hw.complete(k)
    ensures |o.events| >= 1 && o.events[0] == ev && o.stored == 0
    ensures !hw.streamOk(k) ==> o.status == ErrorAck && o.events == [ev] && o.desc == d
    ensures hw.streamOk(k) && !hw.complete(k) ==> o.status == ErrorTransfer
  {
    if !hw.streamOk(k) then PollOut([ev], ErrorAck, d, 0)
    else
      var w := WaitTransferSpec(p, d, hw.complete(k));
      PollOut([ev] + w.events, w.status, w.desc, 0)
  }

  /** The FIFO arm: stream `tx` out, then stream `rx` in, each followed by a
      completion wait; the first failure stops the arm. */
  function FifoArm(p: Platform, d: TwiDesc, rx: Option<Buffer>, tx: Option<Buffer>, hw: Bus): (o: Outcome)
    ensures o.stored == 0 && o.slot.None? && o.status != ErrorLock
    ensures var k := if tx.Some? then 1 else 0;
      o.status == Success <==>
        (tx.None? || (hw.streamOk(0) && hw.complete(0))) && (rx.None? || (hw.streamOk(k) && hw.complete(k)))
    ensures o.status == Success ==> !o.desc.locked
  {
    var w := if tx.Some? then
               FifoLeg(p, d, WriteStream(d.addr, tx.value.data, tx.value.size, d.timeout), 0, hw)
             else PollOut([], Success, d, 0);
    if w.status != Success then Outcome(w.status, w.desc, w.events, 0, None)
    else if rx.None? then Finish(w.desc, w.events, 0)
    else
      var k := if tx.Some? then 1 else 0;
      var r := FifoLeg(p, w.desc, ReadStream(d.addr, rx.value.data, rx.value.size, w.desc.timeout), k, hw);
      if r.status != Success then Outcome(r.status, r.desc, w.events + r.events, 0, None)
      else Finish(r.desc, w.events + r.events, 0)
  }

  /** The arm of mode `m` on the locked descriptor `d`; `prev` is the slot
      at `adesc_index`. A mode without an arm (FIFO when not built in, or
      an unknown value) does nothing and succeeds. */
  function Arm(p: Platform, m: Mode, d: TwiDesc, rx: Option<Buffer>, tx: Option<Buffer>, hw: Bus, prev: Slot): (o: Outcome)
    requires ArmDemands(m, rx, tx)
    reads TxFrame(tx)
    ensures o.slot.Some? <==> m == Async
    ensures o.status != ErrorLock
  {
    match m
    case Async => Outcome(Success, d, AsyncEvents(d, rx, tx), 0, Some(AsyncSlot(prev, d, rx, tx)))
    case Polling => PollArm(p, d, rx, tx, hw)
    case Dma => DmaArm(p, d, rx, tx, hw)
    case Fifo => if p.haveFifo then FifoArm(p, d, rx, tx, hw) else Outcome(Success, d, [], 0, None)
    case Unknown(_) => Outcome(Success, d, [], 0, None)
  }

  /** twid_transfert: install the callback, try the lock, run the arm of the
      effective mode, and free the lock on any failure. */
  function TransfertSpec(p: Platform, d0: TwiDesc, rx: Option<Buffer>, tx: Option<Buffer>,
                         cb: CallbackFn, args: nat, hw: Bus, prev: Slot): (o: Outcome)
    requires Demands(d0, rx, tx)
    reads TxFrame(tx)
    ensures o.status == ErrorLock <==> d0.locked
    ensures o.status == ErrorLock ==> o.events == [] && o.slot.None? && o.desc.locked
  {
    var d := d0.(callback := cb, cbArgs := args);
    if d.locked then Outcome(ErrorLock, d, [], 0, None)
    else LockedTransfert(p, d, rx, tx, hw, prev)
  }

  /** twid_transfert once the lock is free: take it, run the arm of the
      effective mode, and free it again when the arm fails. */
  function LockedTransfert(p: Platform, d: TwiDesc, rx: Option<Buffer>, tx: Option<Buffer>,
                           hw: Bus, prev: Slot): (o: Outcome)
    requires AsyncDerefs(d.mode, rx, tx) && ArmDemands(EffectiveMode(d.mode, rx, tx), rx, tx)
    reads TxFrame(tx)
    ensures o.status != ErrorLock
    ensures o.status != Success ==> !o.desc.locked
  {
    var o := Arm(p, EffectiveMode(d.mode, rx, tx), d.(locked := true), rx, tx, hw, prev);
    if o.status != Success then o.(desc := o.desc.(locked := false)) else o
  }

  // ---------------------------------------------------------------------
  // Properties of twid_transfert
  // ---------------------------------------------------------------------

  /** A stored count only comes from the read engine, on `rx`, within its
      size. */
  lemma StoredOnlyByRead(p: Platform, d0: TwiDesc, rx: Option<Buffer>, tx: Option<Buffer>,
                         cb: CallbackFn, args: nat, hw: Bus, prev: Slot)
    requires Demands(d0, rx, tx)
    ensures var o := TransfertSpec(p, d0, rx, tx, cb, args, hw, prev);
      o.stored > 0 ==> rx.Some? && tx.None? && Fits(rx.value) && o.stored <= rx.value.size
  {
    var d := d0.(callback := cb, cbArgs := args, locked := true);
    if !d0.locked && tx.None? && rx.Some? && rx.value.size >= 1 {
      PollReadSegments(p, d, rx.value.size, hw);
    }
  }

  /** The callback and its argument are installed before the lock is
      tried, so every outcome carries them; a held lock is reported without
      any hardware access and stays held. */
  lemma TransfertLock(p: Platform, d0: TwiDesc, rx: Option<Buffer>, tx: Option<Buffer>,
                      cb: CallbackFn, args: nat, hw: Bus, prev: Slot)
    requires Demands(d0, rx, tx)
    ensures var o := TransfertSpec(p, d0, rx, tx, cb, args, hw, prev);
      o.desc.callback == cb && o.desc.cbArgs == args
      && (o.status == ErrorLock <==> d0.locked)
      && (d0.locked ==> o.events == [] && o.desc == d0.(callback := cb, cbArgs := args)
                        && o.slot.None? && o.stored == 0)
  {
    var d := d0.(callback := cb, cbArgs := args, locked := true);
    if !d0.locked {
      var m := EffectiveMode(d0.mode, rx, tx);
      ArmKeepsCallback(p, m, d, rx, tx, hw, prev);
    }
  }

  /** No arm changes the callback or its argument, and only the lock
      error reports ErrorLock. */
  lemma ArmKeepsCallback(p: Platform, m: Mode, d: TwiDesc, rx: Option<Buffer>, tx: Option<Buffer>, hw: Bus, prev: Slot)
    requires ArmDemands(m, rx, tx)
    ensures var o := Arm(p, m, d, rx, tx, hw, prev);
      o.desc.callback == d.callback && o.desc.cbArgs == d.cbArgs && o.status != ErrorLock
  {
    var b := Chosen(rx, tx);
    if b.Some? && (m == Polling || (m == Dma && b.value.size < DmaThreshold)) {
      if tx.Some? {
        EngineKeepsCallback(p, d, tx.value.data[..tx.value.size], hw);
      } else {
        EngineKeepsCallback(p, d, [0], hw);
        PollReadKeepsCallback(p, d, rx.value.size, hw);
      }
    }
  }

  lemma EngineKeepsCallback(p: Platform, d: TwiDesc, data: seq<Byte>, hw: Bus)
    requires |data| >= 1
    ensures var o := PollWriteSpec(p, d, data, hw);
      o.desc.callback == d.callback && o.desc.cbArgs == d.cbArgs && o.status != ErrorLock
  {
  }

  lemma PollReadKeepsCallback(p: Platform, d: TwiDesc, size: nat, hw: Bus)
    requires size >= 1
    ensures var o := PollReadSpec(p, d, size, hw);
      o.desc.callback == d.callback && o.desc.cbArgs == d.cbArgs && o.status != ErrorLock
  {
  }

  /** Every failure other than the lock error leaves the mutex free. */
  lemma TransfertUnlocksOnFailure(p: Platform, d0: TwiDesc, rx: Option<Buffer>, tx: Option<Buffer>,
                                  cb: CallbackFn, args: nat, hw: Bus, prev: Slot)
    requires Demands(d0, rx, tx)
    ensures var o := TransfertSpec(p, d0, rx, tx, cb, args, hw, prev);
      o.status != Success && o.status != ErrorLock ==> !o.desc.locked
  {
  }

  /** A successful call leaves the mutex held exactly when the work goes on
      after the call returns (an asynchronous or DMA transfer) or when the
      mode has no arm; the synchronous arms free it. */
  lemma TransfertLockAfterSuccess(p: Platform, d0: TwiDesc, rx: Option<Buffer>, tx: Option<Buffer>,
                                  cb: CallbackFn, args: nat, hw: Bus, prev: Slot)
    requires Demands(d0, rx, tx)
    requires !d0.locked
    ensures var o := TransfertSpec(p, d0, rx, tx, cb, args, hw, prev);
      var m := EffectiveMode(d0.mode, rx, tx);
      o.status == Success ==>
        (o.desc.locked <==>
           m == Async || m.Unknown? || (m == Fifo && !p.haveFifo)
           || (m == Dma && Chosen(rx, tx).value.size >= DmaThreshold))
  {
  }

  /** A mode with no arm returns success, does nothing, and keeps the lock. */
  lemma UnknownModeKeepsLock(p: Platform, d0: TwiDesc, rx: Option<Buffer>, tx: Option<Buffer>,
                             cb: CallbackFn, args: nat, hw: Bus, prev: Slot)
    requires Demands(d0, rx, tx)
    requires !d0.locked && (d0.mode.Unknown? || (d0.mode == Fifo && !p.haveFifo))
    ensures var o := TransfertSpec(p, d0, rx, tx, cb, args, hw, prev);
      o.status == Success && o.desc.locked && o.events == [] && o.slot.None?
  {
  }

  /** The asynchronous arm writes the slot at `adesc_index` (and no other
      arm writes any) with a copy of the locked descriptor, always through
      the write branch (the ASYNC test needed `tx`), and reports success
      with the lock held. */
  lemma TransfertAsync(p: Platform, d0: TwiDesc, rx: Option<Buffer>, tx: Option<Buffer>,
                       cb: CallbackFn, args: nat, hw: Bus, prev: Slot)
    requires Demands(d0, rx, tx)
    ensures var o := TransfertSpec(p, d0, rx, tx, cb, args, hw, prev);
      var d := d0.(callback := cb, cbArgs := args, locked := true);
      (o.slot.Some? <==> !d0.locked && EffectiveMode(d0.mode, rx, tx) == Async)
      && (o.slot.Some? ==>
            o.status == Success && o.desc == d && o.desc.locked
            && o.slot == Some(AsyncSlot(prev, d, rx, tx))
            && o.slot.value.pdata == Some(Ptr(tx.value.data, 1))
            && o.events == [AicSetVector(d.addr), AicEnable(d.addr),
                            StartWrite(d.addr, d.slaveAddr, d.iaddr, d.isize, tx.value.data[0]),
                            EnableIt(d.addr, {Txrdy})])
  {
  }

  /** In DMA mode without any buffer the call fails with the duplex error
      and does nothing else. */
  lemma DmaDuplex(p: Platform, d0: TwiDesc, rx: Option<Buffer>, tx: Option<Buffer>,
                  cb: CallbackFn, args: nat, hw: Bus, prev: Slot)
    requires Demands(d0, rx, tx)
    requires !d0.locked && d0.mode == Dma
    ensures var o := TransfertSpec(p, d0, rx, tx, cb, args, hw, prev);
      (o.status == ErrorDuplex <==> rx.None? && tx.None?)
      && (o.status == ErrorDuplex ==> o.events == [] && !o.desc.locked)
  {
    var d := d0.(callback := cb, cbArgs := args, locked := true);
    var b := Chosen(rx, tx);
    if b.Some? && b.value.size < DmaThreshold {
      if tx.Some? {
        PollWriteStatus(p, d, tx.value.data[..tx.value.size], hw);
      } else {
        PollReadStatus(p, d, rx.value.size, hw);
      }
    }
  }

  lemma PollWriteStatus(p: Platform, d: TwiDesc, data: seq<Byte>, hw: Bus)
    requires |data| >= 1
    ensures PollWriteSpec(p, d, data, hw).status != ErrorDuplex
  {
  }

  lemma PollReadStatus(p: Platform, d: TwiDesc, size: nat, hw: Bus)
    requires size >= 1
    ensures PollReadSpec(p, d, size, hw).status != ErrorDuplex
  {
  }

  /** In DMA mode below the threshold the buffer (`tx` when given) goes
      through the polling engine, exactly as POLLING mode would except that
      no interrupt is unmasked first. */
  lemma DmaSmallIsPolling(p: Platform, d0: TwiDesc, rx: Option<Buffer>, tx: Option<Buffer>,
                          cb: CallbackFn, args: nat, hw: Bus, prev: Slot)
    requires Demands(d0, rx, tx)
    requires !d0.locked && d0.mode == Dma
    requires Chosen(rx, tx).Some? && Chosen(rx, tx).value.size < DmaThreshold
    ensures var o := TransfertSpec(p, d0, rx, tx, cb, args, hw, prev);
      var d := d0.(callback := cb, cbArgs := args, locked := true);
      var q := PollArm(p, d, rx, tx, hw);
      o.status == q.status && o.stored == q.stored
      && o.desc == q.desc.(locked := false) && !o.desc.locked
      && q.events == [EnableIt(d.addr, if tx.Some? then {Txrdy} else {Rxrdy})] + o.events
  {
    var d := d0.(callback := cb, cbArgs := args, locked := true);
    var e := EnableIt(d.addr, if tx.Some? then {Txrdy} else {Rxrdy});
    var po := if tx.Some? then PollWriteSpec(p, d, tx.value.data[..tx.value.size], hw)
              else PollReadSpec(p, d, rx.value.size, hw);
    assert PollArm(p, d, rx, tx, hw) == AfterEngine([e], po);
    assert EffectiveMode(d.mode, rx, tx) == Dma;
    assert Arm(p, Dma, d, rx, tx, hw, prev) == AfterEngine([], po);
    AfterEnginePrefix(e, po);
  }

  /** An engine run after one extra event: the same outcome, with that event
      in front of its log. */
  lemma AfterEnginePrefix(e: Event, po: PollOut)
    ensures var a := AfterEngine([], po);
      AfterEngine([e], po) == a.(events := [e] + a.events)
  {
  }

  /** In DMA mode from the threshold on, the region is the buffer, the cache
      is cleaned before the DMA starts, and the lock is held until the DMA
      completes; a read that finds NACK fails without starting the DMA. */
  lemma DmaLarge(p: Platform, d0: TwiDesc, rx: Option<Buffer>, tx: Option<Buffer>,
                 cb: CallbackFn, args: nat, hw: Bus, prev: Slot)
    requires Demands(d0, rx, tx)
    requires !d0.locked && d0.mode == Dma
    requires Chosen(rx, tx).Some? && Chosen(rx, tx).value.size >= DmaThreshold
    ensures var o := TransfertSpec(p, d0, rx, tx, cb, args, hw, prev);
      var b := Chosen(rx, tx).value;
      var dir := if tx.Some? then MemToPeriph else PeriphToMem;
      o.desc.regionStart == b.data && o.desc.regionLength == b.size
      && (o.status == Success <==> tx.Some? || !hw.nack(0))
      && (o.status == Success ==>
            o.desc.locked
            && o.events == [DmaSetup(d0.addr, dir, b.data, b.size), CacheClean(b.data, b.size),
                            DmaStart(d0.addr, dir)])
      && (o.status != Success ==>
            o.status == ErrorAck && !o.desc.locked && o.events == [])
  {
  }

  /** In the synchronous arms the callback runs exactly once, on the
      caller's descriptor, and only on success; it is the last event. */
  lemma SyncCallbackOnSuccess(p: Platform, d0: TwiDesc, rx: Option<Buffer>, tx: Option<Buffer>,
                              hw: Bus, prev: Slot, fn: nat, args: nat)
    requires Demands(d0, rx, tx)
    requires !d0.locked && EffectiveMode(d0.mode, rx, tx) == Polling
    ensures var o := TransfertSpec(p, d0, rx, tx, User(fn), args, hw, prev);
      (o.status == Success <==> Invoke(User(fn), Caller, args) in o.events)
      && (o.status == Success ==> o.events[|o.events| - 1] == Invoke(User(fn), Caller, args)
                                  && !o.desc.locked)
  {
    var d := d0.(callback := User(fn), cbArgs := args, locked := true);
    if tx.Some? {
      PollWriteNoInvoke(p, d, tx.value.data[..tx.value.size], hw);
    } else if rx.Some? {
      PollReadNoInvoke(p, d, rx.value.size, hw);
    }
  }

  lemma PollWriteNoInvoke(p: Platform, d: TwiDesc, data: seq<Byte>, hw: Bus)
    requires |data| >= 1
    ensures forall e :: e in PollWriteSpec(p, d, data, hw).events ==> !e.Invoke?
  {
    WriteLoopNoInvoke(d.addr, data, hw, 1);
    PollWriteCases(p, d, data, hw);
  }

  lemma PollReadNoInvoke(p: Platform, d: TwiDesc, size: nat, hw: Bus)
    requires size >= 1
    ensures forall e :: e in PollReadSpec(p, d, size, hw).events ==> !e.Invoke?
  {
    ReadLoopNoInvoke(d.addr, hw, 0, size - 1);
    PollReadTail(p, d, size, hw);
  }

  lemma {:induction false} WriteLoopNoInvoke(id: nat, data: seq<Byte>, hw: Bus, i: nat)
    requires 1 <= i <= |data|
    ensures forall e :: e in WriteLoop(id, data, hw, i).events ==> !e.Invoke?
    decreases |data| - i
  {
    if i < |data| && hw.ready(i - 1) && !hw.nack(i) {
      WriteLoopNoInvoke(id, data, hw, i + 1);
    }
  }

  lemma {:induction false} ReadLoopNoInvoke(id: nat, hw: Bus, i: nat, last: nat)
    requires i <= last
    ensures forall e :: e in ReadLoop(id, hw, i, last).events ==> !e.Invoke?
    decreases last - i
  {
    if i < last && hw.ready(i) && !hw.nack(i) {
      ReadLoopNoInvoke(id, hw, i + 1, last);
    }
  }

  // ---------------------------------------------------------------------
  // Completion of a DMA transfer: _twid_xdmad_callback_wrapper
  // ---------------------------------------------------------------------

  /** What the DMA completion does: free the channel, invalidate the cache
      over the region when it has one, and run the callback on the caller's
      descriptor. */
  function DmaDoneEvents(d: TwiDesc): (r: seq<Event>)
    ensures |r| >= 1 && r[0] == DmaFree(d.addr)
    ensures CacheInvalidate(d.regionStart, d.regionLength) in r <==> d.regionStart != null && d.regionLength != 0
  {
    [DmaFree(d.addr)]
    + (if d.regionStart != null && d.regionLength != 0
       then [CacheInvalidate(d.regionStart, d.regionLength)] else [])
    + CallbackEvents(d.callback, Caller, d.cbArgs)
  }

  /** A DMA transfer started with twid_finish_transfert_callback frees the
      caller's lock when it completes; the region of the transfer is
      invalidated after the DMA, and the caller's descriptor keeps it. */
  lemma DmaCompletionUnlocks(p: Platform, d0: TwiDesc, rx: Option<Buffer>, tx: Option<Buffer>,
                             args: nat, hw: Bus, prev: Slot)
    requires Demands(d0, rx, tx)
    requires !d0.locked && d0.mode == Dma
    requires Chosen(rx, tx).Some? && Chosen(rx, tx).value.size >= DmaThreshold
    ensures var o := TransfertSpec(p, d0, rx, tx, FinishTransfert, args, hw, prev);
      var b := Chosen(rx, tx).value;
      o.status == Success ==>
        o.desc.locked && !AfterCallback(o.desc.callback, o.desc).locked
        && DmaDoneEvents(o.desc)
           == [DmaFree(d0.addr)]
              + (if b.size != 0 then [CacheInvalidate(b.data, b.size)] else [])
              + [Invoke(FinishTransfert, Caller, args)]
  {
  }

  /** The asynchronous arm hands the slot a copy of the descriptor, so the
      completion callback twid_finish_transfert_callback frees the copy's
      mutex: the caller's descriptor stays locked after the transfer has
      completed. */
  lemma AsyncCompletionLeavesCallerLocked(p: Platform, d0: TwiDesc, rx: Option<Buffer>, tx: Option<Buffer>,
                                          args: nat, hw: Bus, prev: Slot, index: nat, rxByte: Byte)
    requires Demands(d0, rx, tx)
    requires !d0.locked && EffectiveMode(d0.mode, rx, tx) == Async
    ensures var o := TransfertSpec(p, d0, rx, tx, FinishTransfert, args, hw, prev);
      var s := o.slot.value;
      var st := SlotStep(s, index, d0.addr, {Txcomp}, rxByte);
      o.desc.locked && s.desc.locked
      && !st.slot.desc.locked
      && Invoke(FinishTransfert, SlotCopy(index), args) in st.events
      && Invoke(FinishTransfert, Caller, args) !in st.events
  {
    var st := SlotStep(TransfertSpec(p, d0, rx, tx, FinishTransfert, args, hw, prev).slot.value,
                       index, d0.addr, {Txcomp}, rxByte);
    assert st.events[3] == Invoke(FinishTransfert, SlotCopy(index), args);
  }

  /** Whatever the callback, the completion of a DMA transfer from the
      threshold on frees the channel, then invalidates the cache over the
      transfer's buffer, then runs the callback on the caller's descriptor,
      which is still locked when the completion starts. */
  lemma DmaCompletionOrder(p: Platform, d0: TwiDesc, rx: Option<Buffer>, tx: Option<Buffer>,
                           cb: CallbackFn, args: nat, hw: Bus, prev: Slot)
    requires Demands(d0, rx, tx)
    requires !d0.locked && d0.mode == Dma
    requires Chosen(rx, tx).Some? && Chosen(rx, tx).value.size >= DmaThreshold
    ensures var o := TransfertSpec(p, d0, rx, tx, cb, args, hw, prev);
      var b := Chosen(rx, tx).value;
      o.status == Success ==>
        o.desc.locked
        && DmaDoneEvents(o.desc)
           == [DmaFree(d0.addr), CacheInvalidate(b.data, b.size)] + CallbackEvents(cb, Caller, args)
  {
  }

  /** End to end for an asynchronous write: the slot twid_transfert fills
      starts from the count the slot kept from its last use, so the
      interrupts that follow send only bytes `1 + t .. size` of `tx` (all
      of `1 .. size` when the count is 0), then mask TXRDY, unmask TXCOMP
      and issue the stop condition. */
  lemma {:induction false} AsyncWriteSendsFromStaleCount(p: Platform, d0: TwiDesc, rx: Option<Buffer>,
                                                         tx: Option<Buffer>, cb: CallbackFn, args: nat,
                                                         hw: Bus, prev: Slot, index: nat, id: nat)
    requires Demands(d0, rx, tx)
    requires !d0.locked && EffectiveMode(d0.mode, rx, tx) == Async
    requires tx.Some? && Fits(tx.value) && prev.transferred < tx.value.size
    ensures var d := d0.(callback := cb, cbArgs := args, locked := true);
      var s := AsyncSlot(prev, d, rx, tx);
      var a := d0.addr;
      TransfertSpec(p, d0, rx, tx, cb, args, hw, prev).slot == Some(s)
      && s.pdata.Some? && SlotFits(s) && s.transferred <= s.size
      && TxRun(s, index, id, s.size - s.transferred + 1).events
         == WriteBytes(a, tx.value.data[1 + prev.transferred .. tx.value.size])
            + [DisableIt(a, {Txrdy}), EnableIt(a, {Txcomp}), Stop(a)]
  {
    var d := d0.(callback := cb, cbArgs := args, locked := true);
    var s := AsyncSlot(prev, d, rx, tx);
    TransfertAsync(p, d0, rx, tx, cb, args, hw, prev);
    AsyncSlotBinds(prev, d, rx, tx);
    TxRunSendsRest(s, index, id);
    assert s.pdata.value.offset + s.size == tx.value.size;
  }
}
