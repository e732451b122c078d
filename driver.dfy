/** The TWI master driver as stateful code: the caller's descriptor in
    memory, and the driver's global state (the asynchronous slot table and
    its round-robin index) together with the log of what it did to the
    hardware. Every method is proved against the reference definitions of
    TwidPoll, TwidAsync and TwidDispatch. */
module TwidDriver {
  import opened TwidTypes
  import opened TwidPoll
  import opened TwidAsync
  import opened TwidDispatch

  /** A caller's `struct _twi_desc`, updated in place by the driver. */
  class TwiDescRef {
    var val: TwiDesc

    constructor (d: TwiDesc)
      ensures val == d
    {
      val := d;
    }
  }

  /** twid_is_busy: whether the descriptor's mutex is held. */
  predicate IsBusy(d: TwiDescRef)
    reads d
  {
    d.val.locked
  }

  /** `_check_nack`: the acknowledgement error when the `k`-th status read
      shows NACK. */
  function CheckNack(hw: Bus, k: nat): (r: Status)
    ensures r == ErrorAck <==> hw.nack(k)
    ensures r == Success <==> !hw.nack(k)
  {
    if hw.nack(k) then ErrorAck else Success
  }

  /** `_check_rx_time_out` / `_check_tx_time_out`: the timeout error when the
      `k`-th byte-level wait does not see its flag before the deadline. */
  function CheckTimeOut(hw: Bus, k: nat): (r: Status)
    ensures r == ErrorTimeout <==> !hw.ready(k)
    ensures r == Success <==> hw.ready(k)
  {
    if hw.ready(k) then Success else ErrorTimeout
  }

  lemma FilledNext(a: seq<Byte>, hw: Bus, n: nat)
    requires n < |a|
    ensures Filled(a, hw, n)[n := hw.rxData(n)] == Filled(a, hw, n + 1)
  {
  }

  /** A buffer nothing was stored into. */
  lemma FilledNothing(a: seq<Byte>, hw: Bus)
    ensures Filled(a, hw, 0) == a
  {
  }

  class Twid {
    /** Build configuration. */
    const platform: Platform
    /** `asyncdesc`: the asynchronous slot table. */
    const slots: array<Slot>
    /** `adesc_index`: the slot the next asynchronous submission takes. */
    var adescIndex: nat
    /** Everything done to the hardware and to callbacks so far. */
    var log: seq<Event>

    predicate Valid()
      reads this
    {
      slots.Length == MaxAdesc && adescIndex < MaxAdesc
    }

    /** The state at start-up: eight zeroed slots, index 0. */
    constructor (p: Platform)
      ensures Valid()
      ensures platform == p && fresh(slots)
      ensures slots[..] == seq(MaxAdesc, _ => ZeroSlot)
      ensures adescIndex == 0 && log == []
    {
      platform := p;
      slots := new Slot[MaxAdesc](_ => ZeroSlot);
      adescIndex := 0;
      log := [];
    }

    // -------------------------------------------------------------------
    // twid_configure, the waits, the callbacks
    // -------------------------------------------------------------------

    /** twid_configure. */
    method Configure(d: TwiDescRef)
      modifies this`log, d
      ensures d.val == Configured(old(d.val))
      ensures log == old(log) + ConfigureEvents(platform, old(d.val))
    {
      if d.val.timeout == 0 {
        d.val := d.val.(timeout := DefaultTimeout);
      }
      var id := d.val.addr;
      log := log + [PmcEnable(id), ConfigureMaster(id, d.val.freq)];
      if platform.haveFifo && d.val.mode == Fifo {
        var depth := platform.fifoDepth(id);
        log := log + [FifoConfigure(id, depth / 2, depth / 2)];
      }
    }

    /** `_twid_wait_twi_transfer`; `completed` is whether the controller
        reports the transfer complete before the descriptor's timeout. */
    method WaitTransfer(d: TwiDescRef, completed: bool) returns (status: Status)
      modifies this`log, d
      ensures var w := WaitTransferSpec(platform, old(d.val), completed);
        status == w.status && d.val == w.desc && log == old(log) + w.events
    {
      if !completed {
        Configure(d);
        return ErrorTransfer;
      }
      return Success;
    }

    /** twid_finish_transfert: free the descriptor's mutex. */
    method FinishTransfert(d: TwiDescRef)
      modifies d
      ensures d.val == old(d.val).(locked := false)
      ensures !IsBusy(d)
    {
      d.val := d.val.(locked := false);
    }

    /** twid_finish_transfert_callback: the library's own completion
        callback, which frees the mutex of the descriptor it is handed. */
    method FinishTransfertCallback(d: TwiDescRef, args: nat)
      modifies d
      ensures d.val == AfterCallback(CallbackFn.FinishTransfert, old(d.val))
      ensures !IsBusy(d)
    {
      FinishTransfert(d);
    }

    /** `if (desc->callback) desc->callback(desc, desc->cb_args)`. */
    method RunCallback(d: TwiDescRef)
      modifies this`log, d
      ensures log == old(log) + CallbackEvents(old(d.val).callback, Caller, old(d.val).cbArgs)
      ensures d.val == AfterCallback(old(d.val).callback, old(d.val))
    {
      var fn := d.val.callback;
      if !fn.NoCallback? {
        log := log + [Invoke(fn, Caller, d.val.cbArgs)];
        if fn == CallbackFn.FinishTransfert {
          FinishTransfertCallback(d, d.val.cbArgs);
        }
      }
    }

    /** The end of a synchronous arm that succeeded: callback, then unlock. */
    method CallbackAndUnlock(d: TwiDescRef)
      modifies this`log, d
      ensures var f := Finish(old(d.val), [], 0);
        d.val == f.desc && log == old(log) + f.events
    {
      RunCallback(d);
      FinishTransfert(d);
    }

    // -------------------------------------------------------------------
    // The polling engines
    // -------------------------------------------------------------------

    /** The byte loop of `_twid_poll_write`: for each byte from 1, wait for
        the previous one to be sent, write it, check NACK. */
    method SendBytes(d: TwiDescRef, tx: Buffer, hw: Bus) returns (nacked: bool)
      requires Usable(tx)
      modifies this`log
      ensures var r := WriteLoop(d.val.addr, tx.data[..tx.size], hw, 1);
        (nacked <==> r.halt == Nacked) && log == old(log) + r.events
    {
      ghost var data := tx.data[..tx.size];
      var id := d.val.addr;
      var i := 1;
      nacked := false;
      assert data[1..1] == [];
      while i < tx.size
        invariant 1 <= i <= tx.size
        invariant log == old(log) + WriteBytes(id, data[1..i])
        invariant forall k :: 0 <= k < i - 1 ==> hw.ready(k)
        invariant forall k :: 1 <= k < i ==> !hw.nack(k)
        decreases tx.size - i
      {
        if CheckTimeOut(hw, i - 1) != Success {
          break;
        }
        AppendAssoc(old(log), WriteBytes(id, data[1..i]), [WriteByte(id, data[i])]);
        log := log + [WriteByte(id, tx.data[i])];
        assert data[1..i + 1] == data[1..i] + [data[i]];
        WriteBytesSnoc(id, data[1..i], data[i]);
        if CheckNack(hw, i) != Success {
          nacked := true;
          break;
        }
        i := i + 1;
      }
      WriteLoopPrefix(id, data, hw, i);
    }

    /** `_twid_poll_write` on the `size` bytes of `tx`. */
    method PollWrite(d: TwiDescRef, tx: Buffer, hw: Bus) returns (status: Status)
      requires Usable(tx)
      modifies this`log, d
      ensures var o := PollWriteSpec(platform, old(d.val), tx.data[..tx.size], hw);
        status == o.status && d.val == o.desc && log == old(log) + o.events
    {
      ghost var data := tx.data[..tx.size];
      ghost var d0 := d.val;
      ghost var l0 := log;
      PollWriteCases(platform, d0, data, hw);
      var id := d.val.addr;
      log := log + [StartWrite(id, d.val.slaveAddr, d.val.iaddr, d.val.isize, tx.data[0])];
      if tx.size == 1 {
        log := log + [Stop(id)];
      }
      ghost var acc := WriteHead(d0, data);
      assert log == l0 + acc;
      if CheckNack(hw, 0) != Success {
        return ErrorAck;
      }
      ghost var r := WriteLoop(id, data, hw, 1);
      var nacked := SendBytes(d, tx, hw);
      AppendAssoc(l0, acc, r.events);
      acc := acc + r.events;
      if nacked {
        return ErrorAck;
      }
      ghost var stop: seq<Event> := if tx.size != 1 then [Stop(id)] else [];
      if tx.size != 1 {
        log := log + [Stop(id)];
      }
      AppendAssoc(l0, acc, stop);
      acc := acc + stop;
      status := WaitTransfer(d, hw.complete(0));
      ghost var w := WaitTransferSpec(platform, d0, hw.complete(0));
      AppendAssoc(l0, acc, w.events);
    }

    /** The byte loop of `_twid_poll_read`: for each byte but the last, wait
        for it, store it, check NACK. */
    method ReceiveBytes(d: TwiDescRef, rx: Buffer, hw: Bus) returns (i: nat, timedOut: bool, nacked: bool)
      requires Usable(rx)
      modifies this`log, rx.data
      ensures var r := ReadLoop(d.val.addr, hw, 0, rx.size - 1);
        i == r.next && i <= rx.size - 1
        && (timedOut <==> r.halt == TimedOut) && (nacked <==> r.halt == Nacked)
        && log == old(log) + r.events
        && Moved(r) <= rx.size && rx.data[..] == Filled(old(rx.data[..]), hw, Moved(r))
    {
      ghost var a0 := rx.data[..];
      ghost var l0 := log;
      var id := d.val.addr;
      i := 0;
      timedOut, nacked := false, false;
      while i < rx.size - 1
        invariant 0 <= i <= rx.size - 1
        invariant log == l0 + ReadBytes(id, hw, 0, i)
        invariant forall k :: 0 <= k < i ==> hw.ready(k) && !hw.nack(k)
        invariant rx.data[..] == Filled(a0, hw, i)
        decreases rx.size - 1 - i
      {
        if CheckTimeOut(hw, i) != Success {
          timedOut := true;
          break;
        }
        FilledNext(a0, hw, i);
        AppendAssoc(l0, ReadBytes(id, hw, 0, i), [ReadByte(id, hw.rxData(i))]);
        ReceiveOne(id, rx, hw, i);
        ReadBytesSnoc(id, hw, 0, i);
        if CheckNack(hw, i) != Success {
          nacked := true;
          break;
        }
        i := i + 1;
      }
      ReadLoopAt(id, hw, i, rx.size - 1, timedOut, nacked);
    }

    /** One step of the byte loop of `_twid_poll_read`: store byte `i`. */
    method ReceiveOne(id: nat, rx: Buffer, hw: Bus, i: nat)
      requires i < rx.data.Length
      modifies this`log, rx.data
      ensures log == old(log) + [ReadByte(id, hw.rxData(i))]
      ensures rx.data[..] == old(rx.data[..])[i := hw.rxData(i)]
    {
      rx.data[i] := hw.rxData(i);
      log := log + [ReadByte(id, hw.rxData(i))];
    }

    /** The end of `_twid_poll_read` after its byte loop stopped at `i`. */
    method ReadTail(d: TwiDescRef, rx: Buffer, hw: Bus, i: nat, waits: nat) returns (status: Status)
      requires i < rx.data.Length
      modifies this`log, d, rx.data
      ensures var t := ReadTailSpec(platform, old(d.val), hw, i, waits);
        status == t.status && d.val == t.desc && log == old(log) + t.events
        && rx.data[..] == if t.stored == i + 1 then old(rx.data[..])[i := hw.rxData(i)] else old(rx.data[..])
    {
      var id := d.val.addr;
      log := log + [Stop(id)];
      if CheckNack(hw, i) != Success {
        return ErrorAck;
      }
      if CheckTimeOut(hw, waits) != Success {
        return ErrorTimeout;
      }
      rx.data[i] := hw.rxData(i);
      log := log + [ReadByte(id, hw.rxData(i))];
      ghost var before := log;
      status := WaitTransfer(d, hw.complete(0));
      assert log == before + WaitTransferSpec(platform, old(d.val), hw.complete(0)).events;
    }

    /** `_twid_poll_read` into the `size` bytes of `rx`. */
    method PollRead(d: TwiDescRef, rx: Buffer, hw: Bus) returns (status: Status)
      requires Usable(rx)
      modifies this`log, d, rx.data
      ensures var o := PollReadSpec(platform, old(d.val), rx.size, hw);
        status == o.status && d.val == o.desc && log == old(log) + o.events
        && o.stored <= rx.data.Length && rx.data[..] == Filled(old(rx.data[..]), hw, o.stored)
    {
      ghost var a0 := rx.data[..];
      ghost var d0 := d.val;
      var id := d.val.addr;
      ghost var start := [StartRead(id, d.val.slaveAddr, d.val.iaddr, d.val.isize)];
      ghost var r := ReadLoop(id, hw, 0, rx.size - 1);
      ghost var o := PollReadSpec(platform, d0, rx.size, hw);
      log := log + [StartRead(id, d.val.slaveAddr, d.val.iaddr, d.val.isize)];
      PollReadTail(platform, d0, rx.size, hw);
      var i, timedOut, nacked := 0, false, false;
      if rx.size != 1 {
        i, timedOut, nacked := ReceiveBytes(d, rx, hw);
        AppendAssoc(old(log), start, r.events);
        if nacked {
          assert o.events == start + r.events && o.stored == i + 1;
          return ErrorAck;
        }
      } else {
        assert start + r.events == start;
      }
      ghost var acc := start + r.events;
      assert log == old(log) + acc;
      assert rx.data[..] == Filled(a0, hw, i);
      FilledNext(a0, hw, i);
      status := ReadTail(d, rx, hw, i, if timedOut then i + 1 else i);
      ghost var t := ReadTailSpec(platform, d0, hw, i, if timedOut then i + 1 else i);
      AppendAssoc(old(log), acc, t.events);
      assert o == PollOut(acc + t.events, t.status, t.desc, t.stored);
    }

    // -------------------------------------------------------------------
    // The asynchronous mode: slot table and interrupt handler
    // -------------------------------------------------------------------

    /** The slot search of `_twid_handler`: the first slot whose identifier
        is `id`, or MaxAdesc when none is. */
    method FindSlot(id: nat) returns (i: nat)
      requires Valid()
      ensures i == FirstMatch(slots[..], id, 0)
      ensures i <= MaxAdesc && (i < MaxAdesc ==> slots[i].twiId == id)
      ensures forall k :: 0 <= k < i ==> slots[k].twiId != id
    {
      i := 0;
      while i != MaxAdesc && slots[i].twiId != id
        invariant 0 <= i <= MaxAdesc
        invariant forall k :: 0 <= k < i ==> slots[k].twiId != id
        decreases MaxAdesc - i
      {
        i := i + 1;
      }
    }

    /** `_twid_handler` for the interrupt of peripheral `id`, whose masked
        status shows the sources `masked`; `rxByte` is what the receive
        register holds. */
    method Handler(id: nat, masked: set<Irq>, rxByte: Byte)
      requires Valid() && HandlerSafe(slots[..], id, masked)
      modifies this`log, slots, StoreTarget(slots[..], id, masked)
      ensures Valid()
      ensures var h := old(HandlerSpec(slots[..], id, masked, rxByte));
        slots[..] == h.slots && log == old(log) + h.events
      ensures var i := old(FirstMatch(slots[..], id, 0));
        i < MaxAdesc && Rxrdy in masked ==>
          var p := old(slots[i].pdata.value);
          p.buf[..] == old(p.buf[..])[p.offset + old(slots[i].transferred) := rxByte]
    {
      var i := FindSlot(id);
      if i == MaxAdesc {
        log := log + [DisableIt(id, {Rxrdy, Txrdy})];
        return;
      }
      var s := slots[i];
      var a := s.desc.addr;
      if Rxrdy in masked {
        var p := s.pdata.value;
        p.buf[p.offset + s.transferred] := rxByte;
        var t := s.transferred + 1;
        slots[i] := s.(transferred := t);
        log := log + [ReadByte(a, rxByte)];
        if t == s.size {
          log := log + [DisableIt(a, {Rxrdy}), EnableIt(a, {Txcomp})];
        } else if t == Pred32(s.size) {
          log := log + [Stop(a)];
        }
      } else if Txrdy in masked {
        if s.transferred == s.size {
          log := log + [DisableIt(a, {Txrdy}), EnableIt(a, {Txcomp}), Stop(a)];
        } else {
          var p := s.pdata.value;
          log := log + [WriteByte(a, p.buf[p.offset + s.transferred])];
          slots[i] := s.(transferred := s.transferred + 1);
        }
      } else if Txcomp in masked {
        log := log + [AicDisable(id), DisableIt(a, {Rxrdy}), DisableIt(a, {Txcomp})];
        var desc := s.desc;
        if !desc.callback.NoCallback? {
          log := log + [Invoke(desc.callback, SlotCopy(i), desc.cbArgs)];
          if desc.callback == CallbackFn.FinishTransfert {
            desc := desc.(locked := false);
          }
        }
        slots[i] := Slot(desc, None, s.transferred, s.size, 0);
      }
    }

    /** The ASYNC arm of twid_transfert: copy the descriptor into the slot at
        `adesc_index`, bind the slot to the buffer, install and enable the
        interrupt, start the transfer, and move the index on. */
    method StartAsync(d: TwiDescRef, rx: Option<Buffer>, tx: Option<Buffer>)
      requires Valid() && (tx.Some? ==> tx.value.data.Length >= 1)
      modifies this`log, this`adescIndex, slots
      ensures Valid()
      ensures slots[..] == old(slots[..])[old(adescIndex) := AsyncSlot(old(slots[adescIndex]), d.val, rx, tx)]
      ensures adescIndex == NextIndex(old(adescIndex))
      ensures log == old(log) + AsyncEvents(d.val, rx, tx)
    {
      var k := adescIndex;
      var id := d.val.addr;
      slots[k] := slots[k].(desc := d.val, pdata := None, twiId := id);
      log := log + [AicSetVector(id), AicEnable(id)];
      if tx.Some? {
        slots[k] := slots[k].(pdata := Some(Ptr(tx.value.data, 1)), size := Pred32(tx.value.size));
        log := log + [StartWrite(id, d.val.slaveAddr, d.val.iaddr, d.val.isize, tx.value.data[0]),
                      EnableIt(id, {Txrdy})];
      } else if rx.Some? {
        slots[k] := slots[k].(pdata := Some(Ptr(rx.value.data, 0)), size := rx.value.size);
        log := log + [EnableIt(id, {Rxrdy}), StartRead(id, d.val.slaveAddr, d.val.iaddr, d.val.isize)];
      }
      adescIndex := (adescIndex + 1) % MaxAdesc;
    }

    // -------------------------------------------------------------------
    // The synchronous arms of twid_transfert
    // -------------------------------------------------------------------

    /** The POLLING arm of twid_transfert on the locked descriptor. */
    method RunPolling(d: TwiDescRef, rx: Option<Buffer>, tx: Option<Buffer>, hw: Bus) returns (status: Status)
      requires ArmDemands(Polling, rx, tx)
      modifies this`log, d, RxFrame(rx, tx)
      ensures var o := old(PollArm(platform, d.val, rx, tx, hw));
        status == o.status && d.val == o.desc && log == old(log) + o.events
        && (tx.None? && rx.Some? ==>
              o.stored <= rx.value.data.Length
              && rx.value.data[..] == Filled(old(rx.value.data[..]), hw, o.stored))
    {
      if tx.Some? {
        status := PolledWrite(d, tx.value, hw);
      } else if rx.Some? {
        status := PolledRead(d, rx.value, hw);
      } else {
        CallbackAndUnlock(d);
        status := Success;
      }
    }

    /** The POLLING arm on a transmit buffer: unmask TXRDY, run the write
        engine, and on success call back and unlock. */
    method PolledWrite(d: TwiDescRef, tx: Buffer, hw: Bus) returns (status: Status)
      requires Usable(tx)
      modifies this`log, d
      ensures var o := old(AfterEngine([EnableIt(d.val.addr, {Txrdy})],
                                       PollWriteSpec(platform, d.val, tx.data[..tx.size], hw)));
        status == o.status && d.val == o.desc && log == old(log) + o.events
    {
      ghost var pre := [EnableIt(d.val.addr, {Txrdy})];
      ghost var po := PollWriteSpec(platform, d.val, tx.data[..tx.size], hw);
      log := log + [EnableIt(d.val.addr, {Txrdy})];
      status := PollWrite(d, tx, hw);
      assert log == old(log) + (pre + po.events);
      if status != Success {
        return;
      }
      CallbackAndUnlock(d);
      assert log == old(log) + (pre + po.events) + CallbackEvents(po.desc.callback, Caller, po.desc.cbArgs);
    }

    /** The POLLING arm on a receive buffer: unmask RXRDY, run the read
        engine, and on success call back and unlock. */
    method PolledRead(d: TwiDescRef, rx: Buffer, hw: Bus) returns (status: Status)
      requires Usable(rx)
      modifies this`log, d, rx.data
      ensures var o := old(AfterEngine([EnableIt(d.val.addr, {Rxrdy})],
                                       PollReadSpec(platform, d.val, rx.size, hw)));
        status == o.status && d.val == o.desc && log == old(log) + o.events
        && o.stored <= rx.data.Length && rx.data[..] == Filled(old(rx.data[..]), hw, o.stored)
    {
      ghost var pre := [EnableIt(d.val.addr, {Rxrdy})];
      ghost var po := PollReadSpec(platform, d.val, rx.size, hw);
      log := log + [EnableIt(d.val.addr, {Rxrdy})];
      status := PollRead(d, rx, hw);
      assert log == old(log) + (pre + po.events);
      if status != Success {
        return;
      }
      CallbackAndUnlock(d);
      assert log == old(log) + (pre + po.events) + CallbackEvents(po.desc.callback, Caller, po.desc.cbArgs);
    }

    /** `_twid_dma_write` / `_twid_dma_read`: set the channel up for `b`,
        clean the cache over the descriptor's region, start the channel. */
    method StartDma(d: TwiDescRef, dir: DmaDir, b: Buffer)
      modifies this`log
      ensures log == old(log) + DmaEvents(d.val, dir, b)
    {
      log := log + [DmaSetup(d.val.addr, dir, b.data, b.size)];
      log := log + [CacheClean(d.val.regionStart, d.val.regionLength)];
      log := log + [DmaStart(d.val.addr, dir)];
    }

    /** The DMA arm of twid_transfert on the locked descriptor. */
    method RunDma(d: TwiDescRef, rx: Option<Buffer>, tx: Option<Buffer>, hw: Bus) returns (status: Status)
      requires ArmDemands(Dma, rx, tx)
      modifies this`log, d, RxFrame(rx, tx)
      ensures var o := old(DmaArm(platform, d.val, rx, tx, hw));
        status == o.status && d.val == o.desc && log == old(log) + o.events
        && (tx.None? && rx.Some? ==>
              o.stored <= rx.value.data.Length
              && rx.value.data[..] == Filled(old(rx.value.data[..]), hw, o.stored))
    {
      if rx.None? && tx.None? {
        return ErrorDuplex;
      }
      if tx.Some? {
        status := DmaWrite(d, tx.value, hw);
      } else {
        status := DmaRead(d, rx.value, hw);
      }
    }

    /** The DMA arm on a transmit buffer. */
    method DmaWrite(d: TwiDescRef, tx: Buffer, hw: Bus) returns (status: Status)
      requires Fits(tx) && (tx.size < DmaThreshold ==> tx.size >= 1)
      modifies this`log, d
      ensures var o := old(DmaWriteArm(platform, d.val, tx, hw));
        status == o.status && d.val == o.desc && log == old(log) + o.events
    {
      if tx.size < DmaThreshold {
        status := PollWrite(d, tx, hw);
        if status != Success {
          return;
        }
        CallbackAndUnlock(d);
      } else {
        d.val := d.val.(regionStart := tx.data, regionLength := tx.size);
        StartDma(d, MemToPeriph, tx);
        status := Success;
      }
    }

    /** The DMA arm on a receive buffer. */
    method DmaRead(d: TwiDescRef, rx: Buffer, hw: Bus) returns (status: Status)
      requires Fits(rx) && (rx.size < DmaThreshold ==> rx.size >= 1)
      modifies this`log, d, rx.data
      ensures var o := old(DmaReadArm(platform, d.val, rx, hw));
        status == o.status && d.val == o.desc && log == old(log) + o.events
        && o.stored <= rx.data.Length
        && rx.data[..] == Filled(old(rx.data[..]), hw, o.stored)
    {
      if rx.size < DmaThreshold {
        status := PollRead(d, rx, hw);
        if status != Success {
          return;
        }
        CallbackAndUnlock(d);
      } else {
        FilledNothing(rx.data[..], hw);
        d.val := d.val.(regionStart := rx.data, regionLength := rx.size);
        if CheckNack(hw, 0) != Success {
          return ErrorAck;
        }
        StartDma(d, PeriphToMem, rx);
        status := Success;
      }
    }

    /** One FIFO stream call of twid_transfert (the `k`-th) followed by the
        wait for completion. */
    method FifoStream(d: TwiDescRef, ev: Event, k: nat, hw: Bus) returns (status: Status)
      modifies this`log, d
      ensures var o := old(FifoLeg(platform, d.val, ev, k, hw));
        status == o.status && d.val == o.desc && log == old(log) + o.events
    {
      log := log + [ev];
      if !hw.streamOk(k) {
        return ErrorAck;
      }
      status := WaitTransfer(d, hw.complete(k));
    }

    /** The FIFO arm of twid_transfert on the locked descriptor. */
    method RunFifo(d: TwiDescRef, rx: Option<Buffer>, tx: Option<Buffer>, hw: Bus) returns (status: Status)
      modifies this`log, d
      ensures var o := old(FifoArm(platform, d.val, rx, tx, hw));
        status == o.status && d.val == o.desc && log == old(log) + o.events
    {
      var id := d.val.addr;
      if tx.Some? {
        status := FifoStream(d, WriteStream(id, tx.value.data, tx.value.size, d.val.timeout), 0, hw);
        if status != Success {
          return;
        }
      }
      if rx.Some? {
        var k := if tx.Some? then 1 else 0;
        status := FifoStream(d, ReadStream(id, rx.value.data, rx.value.size, d.val.timeout), k, hw);
        if status != Success {
          return;
        }
      }
      CallbackAndUnlock(d);
      status := Success;
    }

    // -------------------------------------------------------------------
    // twid_transfert and the DMA completion
    // -------------------------------------------------------------------

    /** The `switch` of twid_transfert: the arm of mode `mode`, on the
        locked descriptor. */
    method RunArm(d: TwiDescRef, mode: Mode, rx: Option<Buffer>, tx: Option<Buffer>, hw: Bus)
      returns (status: Status)
      requires Valid() && ArmDemands(mode, rx, tx)
      modifies this`log, this`adescIndex, slots, d, RxFrame(rx, tx)
      ensures Valid()
      ensures var o := old(Arm(platform, mode, d.val, rx, tx, hw, slots[adescIndex]));
        status == o.status && d.val == o.desc && log == old(log) + o.events
        && (o.slot.Some? ==> slots[..] == old(slots[..])[old(adescIndex) := o.slot.value]
                             && adescIndex == NextIndex(old(adescIndex)))
        && (o.slot.None? ==> slots[..] == old(slots[..]) && adescIndex == old(adescIndex))
        && (tx.None? && rx.Some? ==>
              o.stored <= rx.value.data.Length
              && rx.value.data[..] == Filled(old(rx.value.data[..]), hw, o.stored))
    {
      if rx.Some? {
        FilledNothing(rx.value.data[..], hw);
      }
      match mode {
        case Async =>
          StartAsync(d, rx, tx);
          status := Success;
        case Polling =>
          status := RunPolling(d, rx, tx, hw);
        case Dma =>
          status := RunDma(d, rx, tx, hw);
        case Fifo =>
          if platform.haveFifo {
            status := RunFifo(d, rx, tx, hw);
          } else {
            status := Success;
          }
        case Unknown(_) =>
          status := Success;
      }
    }

    /** twid_transfert: install the callback, try the lock, pick the mode,
        run its arm, and free the lock when the arm fails. */
    method Transfert(d: TwiDescRef, rx: Option<Buffer>, tx: Option<Buffer>, cb: CallbackFn, args: nat, hw: Bus)
      returns (status: Status)
      requires Valid() && Demands(d.val, rx, tx)
      modifies this`log, this`adescIndex, slots, d, RxFrame(rx, tx)
      ensures Valid()
      ensures var o := old(TransfertSpec(platform, d.val, rx, tx, cb, args, hw, slots[adescIndex]));
        status == o.status && d.val == o.desc && log == old(log) + o.events
        && (o.slot.Some? ==> slots[..] == old(slots[..])[old(adescIndex) := o.slot.value]
                             && adescIndex == NextIndex(old(adescIndex)))
        && (o.slot.None? ==> slots[..] == old(slots[..]) && adescIndex == old(adescIndex))
        && (tx.None? && rx.Some? ==>
              o.stored <= rx.value.data.Length
              && rx.value.data[..] == Filled(old(rx.value.data[..]), hw, o.stored))
    {
      d.val := d.val.(callback := cb, cbArgs := args);
      if d.val.locked {
        return ErrorLock;
      }
      status := TransfertLocked(d, rx, tx, hw);
    }

    /** twid_transfert past the lock test: take the lock, pick the mode, run
        its arm, and free the lock when the arm fails. */
    method TransfertLocked(d: TwiDescRef, rx: Option<Buffer>, tx: Option<Buffer>, hw: Bus)
      returns (status: Status)
      requires Valid() && AsyncDerefs(d.val.mode, rx, tx)
      requires ArmDemands(EffectiveMode(d.val.mode, rx, tx), rx, tx)
      modifies this`log, this`adescIndex, slots, d, RxFrame(rx, tx)
      ensures Valid()
      ensures var o := old(LockedTransfert(platform, d.val, rx, tx, hw, slots[adescIndex]));
        status == o.status && d.val == o.desc && log == old(log) + o.events
        && (o.slot.Some? ==> slots[..] == old(slots[..])[old(adescIndex) := o.slot.value]
                             && adescIndex == NextIndex(old(adescIndex)))
        && (o.slot.None? ==> slots[..] == old(slots[..]) && adescIndex == old(adescIndex))
        && (tx.None? && rx.Some? ==>
              o.stored <= rx.value.data.Length
              && rx.value.data[..] == Filled(old(rx.value.data[..]), hw, o.stored))
    {
      d.val := d.val.(locked := true);
      var mode := d.val.mode;
      if mode == Async && (tx.value.size == 1 || rx.value.size == 1) {
        mode := Polling;
      }
      status := RunArm(d, mode, rx, tx, hw);
      if status != Success {
        FinishTransfert(d);
      }
    }

    /** `_twid_xdmad_callback_wrapper`: the DMA channel of a transfer of
        `d` completed. */
    method DmaCallback(d: TwiDescRef)
      modifies this`log, d
      ensures log == old(log) + DmaDoneEvents(old(d.val))
      ensures d.val == AfterCallback(old(d.val).callback, old(d.val))
    {
      log := log + [DmaFree(d.val.addr)];
      if d.val.regionStart != null && d.val.regionLength != 0 {
        log := log + [CacheInvalidate(d.val.regionStart, d.val.regionLength)];
      }
      RunCallback(d);
    }
  }
}
