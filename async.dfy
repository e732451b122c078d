/** Reference definitions for the asynchronous (interrupt-driven) mode: the
    round-robin slot table filled by twid_transfert and the interrupt handler
    _twid_handler that moves one byte per interrupt. */
module TwidAsync {
  import opened TwidTypes

  // ---------------------------------------------------------------------
  // Submission: asyncdesc[adesc_index] and adesc_index
  // ---------------------------------------------------------------------

  /** adesc_index after a submission: the next slot, wrapping round. */
  function NextIndex(i: nat): (r: nat)
    ensures r < MaxAdesc
    ensures i < MaxAdesc - 1 ==> r == i + 1
    ensures i == MaxAdesc - 1 ==> r == 0
  {
    (i + 1) % MaxAdesc
  }

  /** Eight submissions in a row come back to the slot they started from. */
  lemma {:induction false} NextIndexCycle(i: nat, n: nat)
    requires i < MaxAdesc
    ensures Iterate(i, n) == (i + n) % MaxAdesc
    ensures Iterate(i, MaxAdesc) == i
  {
    IterateMod(i, n);
    IterateMod(i, MaxAdesc);
  }

  /** `n` submissions starting at slot `i`. */
  function Iterate(i: nat, n: nat): nat
  {
    if n == 0 then i else NextIndex(Iterate(i, n - 1))
  }

  lemma {:induction false} IterateMod(i: nat, n: nat)
    requires i < MaxAdesc
    ensures Iterate(i, n) == (i + n) % MaxAdesc
  {
    if n > 0 {
      IterateMod(i, n - 1);
    }
  }

  /** `n - 1` on a 32-bit unsigned count: 0 wraps round to the largest value. */
  function Pred32(n: nat): (r: nat)
    ensures n >= 1 ==> r + 1 == n
    ensures n == 0 ==> r == 0xFFFF_FFFF
  {
    if n == 0 then 0xFFFF_FFFF else n - 1
  }

  /** The slot written by an asynchronous submission of descriptor `d`: a
      copy of the descriptor, the peripheral it serves, and the bytes the
      handler is to move (a write skips byte 0, sent with the start
      condition). `transferred` keeps whatever the slot held before. */
  function AsyncSlot(prev: Slot, d: TwiDesc, rx: Option<Buffer>, tx: Option<Buffer>): (r: Slot)
    ensures r.desc == d && r.twiId == d.addr && r.transferred == prev.transferred
    ensures r.pdata.Some? <==> tx.Some? || rx.Some?
  {
    if tx.Some? then Slot(d, Some(Ptr(tx.value.data, 1)), prev.transferred, Pred32(tx.value.size), d.addr)
    else if rx.Some? then Slot(d, Some(Ptr(rx.value.data, 0)), prev.transferred, rx.value.size, d.addr)
    else Slot(d, None, prev.transferred, prev.size, d.addr)
  }

  /** What an asynchronous submission binds: the slot serves `d`'s
      peripheral with a copy of `d`, points one byte into a write buffer
      (or at the start of a read buffer) for one byte fewer (or as many),
      and keeps the stale `transferred` count of the slot's last use. */
  lemma AsyncSlotBinds(prev: Slot, d: TwiDesc, rx: Option<Buffer>, tx: Option<Buffer>)
    ensures var s := AsyncSlot(prev, d, rx, tx);
      s.desc == d && s.twiId == d.addr && s.transferred == prev.transferred
      && (tx.Some? ==> s.pdata == Some(Ptr(tx.value.data, 1))
                       && (tx.value.size >= 1 ==> s.size + 1 == tx.value.size))
      && (tx.None? && rx.Some? ==> s.pdata == Some(Ptr(rx.value.data, 0)) && s.size == rx.value.size)
      && (tx.Some? && Fits(tx.value) && tx.value.size >= 1 ==> SlotFits(s))
      && (tx.None? && rx.Some? && Fits(rx.value) ==> SlotFits(s))
  {
  }

  /** The hardware events of an asynchronous submission: interrupt vector
      and enable, then either a start of write carrying byte 0 and the TXRDY
      interrupt, or the RXRDY interrupt and a start of read. */
  function AsyncEvents(d: TwiDesc, rx: Option<Buffer>, tx: Option<Buffer>): (r: seq<Event>)
    requires tx.Some? ==> tx.value.data.Length >= 1
    reads if tx.Some? then {tx.value.data} else {}
    ensures |r| == if tx.Some? || rx.Some? then 4 else 2
    ensures r[..2] == [AicSetVector(d.addr), AicEnable(d.addr)]
    ensures tx.None? && rx.Some? ==>
      r[2..] == [EnableIt(d.addr, {Rxrdy}), StartRead(d.addr, d.slaveAddr, d.iaddr, d.isize)]
  {
    [AicSetVector(d.addr), AicEnable(d.addr)]
    + (if tx.Some? then
         [StartWrite(d.addr, d.slaveAddr, d.iaddr, d.isize, tx.value.data[0]), EnableIt(d.addr, {Txrdy})]
       else if rx.Some? then
         [EnableIt(d.addr, {Rxrdy}), StartRead(d.addr, d.slaveAddr, d.iaddr, d.isize)]
       else [])
  }

  // ---------------------------------------------------------------------
  // _twid_handler
  // ---------------------------------------------------------------------

  /** The first slot at or after `from` serving interrupt `id`, or the
      table's length when there is none. */
  function FirstMatch(slots: seq<Slot>, id: nat, from: nat): (r: nat)
    requires from <= |slots|
    ensures from <= r <= |slots|
    ensures r < |slots| ==> slots[r].twiId == id
    ensures forall k :: from <= k < r ==> slots[k].twiId != id
    decreases |slots| - from
  {
    if from == |slots| then from
    else if slots[from].twiId == id then from
    else FirstMatch(slots, id, from + 1)
  }

  /** The outcome of one interrupt on one slot: the slot afterwards, the
      events, and the byte stored at `pdata[transferred]` (on RXRDY). */
  datatype Step = Step(slot: Slot, events: seq<Event>, store: Option<Byte>)

  /** The handler touches `pdata[transferred]` on RXRDY, and on TXRDY unless
      the count is complete: that element must exist. */
  predicate StepSafe(s: Slot, masked: set<Irq>)
  {
    (Rxrdy in masked || (Txrdy in masked && s.transferred != s.size)) ==>
      s.pdata.Some? && s.pdata.value.offset + s.transferred < s.pdata.value.buf.Length
  }

  function SlotBuffers(s: Slot): set<array<Byte>>
  {
    if s.pdata.Some? then {s.pdata.value.buf} else {}
  }

  /** One interrupt of the masked status `masked` on slot number `index`,
      matched for interrupt `id`; `rxByte` is what the receive register
      holds. RXRDY takes precedence over TXRDY, which takes precedence over
      TXCOMP. */
  function SlotStep(s: Slot, index: nat, id: nat, masked: set<Irq>, rxByte: Byte): (r: Step)
    requires StepSafe(s, masked)
    reads SlotBuffers(s)
    ensures r.slot.size == s.size && s.transferred <= r.slot.transferred <= s.transferred + 1
    ensures r.store.Some? <==> Rxrdy in masked
  {
    var a := s.desc.addr;
    if Rxrdy in masked then
      var t := s.transferred + 1;
      Step(s.(transferred := t),
           [ReadByte(a, rxByte)]
           + (if t == s.size then [DisableIt(a, {Rxrdy}), EnableIt(a, {Txcomp})]
              else if t == Pred32(s.size) then [Stop(a)]
              else []),
           Some(rxByte))
    else if Txrdy in masked then
      if s.transferred == s.size then
        Step(s, [DisableIt(a, {Txrdy}), EnableIt(a, {Txcomp}), Stop(a)], None)
      else
        Step(s.(transferred := s.transferred + 1),
             [WriteByte(a, s.pdata.value.buf[s.pdata.value.offset + s.transferred])], None)
    else if Txcomp in masked then
      Step(Slot(AfterCallback(s.desc.callback, s.desc), None, s.transferred, s.size, 0),
           [AicDisable(id), DisableIt(a, {Rxrdy}), DisableIt(a, {Txcomp})]
           + CallbackEvents(s.desc.callback, SlotCopy(index), s.desc.cbArgs),
           None)
    else Step(s, [], None)
  }

  /** The handler's requirement on the whole table: the slot it picks can be
      served. */
  predicate HandlerSafe(slots: seq<Slot>, id: nat, masked: set<Irq>)
  {
    var i := FirstMatch(slots, id, 0);
    i < |slots| ==> StepSafe(slots[i], masked)
  }

  function TableBuffers(slots: seq<Slot>): set<array<Byte>>
  {
    set k, b | 0 <= k < |slots| && b in SlotBuffers(slots[k]) :: b
  }

  /** The caller buffer an interrupt may write: the one the serving slot
      points into, on RXRDY. */
  function StoreTarget(slots: seq<Slot>, id: nat, masked: set<Irq>): set<array<Byte>>
  {
    var i := FirstMatch(slots, id, 0);
    if i < |slots| && Rxrdy in masked then SlotBuffers(slots[i]) else {}
  }

  /** The outcome of one interrupt for the table: new table, events, the
      slot that served it (the table's length when none did) and the stored
      byte. */
  datatype HandlerOut = HandlerOut(slots: seq<Slot>, events: seq<Event>, matched: nat, store: Option<Byte>)

  /** _twid_handler for interrupt `id` with masked status `masked`. */
  function HandlerSpec(slots: seq<Slot>, id: nat, masked: set<Irq>, rxByte: Byte): (r: HandlerOut)
    requires HandlerSafe(slots, id, masked)
    reads TableBuffers(slots)
    ensures |r.slots| == |slots| && r.matched == FirstMatch(slots, id, 0)
    ensures r.matched == |slots| ==> r.slots == slots && r.store.None?
  {
    var i := FirstMatch(slots, id, 0);
    if i == |slots| then HandlerOut(slots, [DisableIt(id, {Rxrdy, Txrdy})], i, None)
    else
      assert SlotBuffers(slots[i]) <= TableBuffers(slots);
      var st := SlotStep(slots[i], i, id, masked, rxByte);
      HandlerOut(slots[i := st.slot], st.events, i, st.store)
  }

  /** An interrupt no slot serves only masks RXRDY and TXRDY of that
      peripheral and leaves the table alone; otherwise only the first slot
      serving it changes. */
  lemma HandlerTouchesOneSlot(slots: seq<Slot>, id: nat, masked: set<Irq>, rxByte: Byte)
    requires HandlerSafe(slots, id, masked)
    ensures var r := HandlerSpec(slots, id, masked, rxByte);
      |r.slots| == |slots|
      && ((forall k :: 0 <= k < |slots| ==> slots[k].twiId != id) <==> r.matched == |slots|)
      && (r.matched == |slots| ==>
            r.slots == slots && r.events == [DisableIt(id, {Rxrdy, Txrdy})] && r.store.None?)
      && (r.matched < |slots| ==>
            slots[r.matched].twiId == id
            && (forall k :: 0 <= k < r.matched ==> slots[k].twiId != id)
            && (forall k :: 0 <= k < |slots| && k != r.matched ==> r.slots[k] == slots[k]))
  {
  }

  /** RXRDY: the received byte is stored at `pdata[transferred]`, the count
      grows by one, and the stop condition is issued exactly when one byte
      is left to come; on the last byte RXRDY is masked and TXCOMP
      unmasked. */
  lemma RxStep(s: Slot, index: nat, id: nat, masked: set<Irq>, rxByte: Byte)
    requires StepSafe(s, masked)
    requires Rxrdy in masked
    ensures var r := SlotStep(s, index, id, masked, rxByte);
      var a := s.desc.addr;
      r.store == Some(rxByte)
      && r.slot == s.(transferred := s.transferred + 1)
      && r.events[0] == ReadByte(a, rxByte)
      && (Stop(a) in r.events <==> s.transferred + 1 == Pred32(s.size))
      && (DisableIt(a, {Rxrdy}) in r.events <==> s.transferred + 1 == s.size)
      && (EnableIt(a, {Txcomp}) in r.events <==> s.transferred + 1 == s.size)
      && (forall k :: 1 <= k < |r.events| ==> !r.events[k].ReadByte? && !r.events[k].WriteByte?)
  {
  }

  /** TXRDY: with bytes left, the next one (`pdata[transferred]`) is written
      and counted; with none left, TXRDY is masked, TXCOMP unmasked and the
      stop condition issued, and no byte is written. */
  lemma TxStep(s: Slot, index: nat, id: nat, masked: set<Irq>, rxByte: Byte)
    requires StepSafe(s, masked)
    requires Rxrdy !in masked && Txrdy in masked
    ensures var r := SlotStep(s, index, id, masked, rxByte);
      var a := s.desc.addr;
      r.store.None?
      && (s.transferred == s.size ==>
            r.slot == s && r.events == [DisableIt(a, {Txrdy}), EnableIt(a, {Txcomp}), Stop(a)])
      && (s.transferred != s.size ==>
            r.slot == s.(transferred := s.transferred + 1)
            && r.events == [WriteByte(a, s.pdata.value.buf[s.pdata.value.offset + s.transferred])])
  {
  }

  /** What one TXRDY means for the transfer: the slot keeps its buffer, size
      and descriptor; the count moves on by one exactly when bytes were left,
      and never past the size; the only byte written is the one at the
      count; the stop condition and the TXCOMP unmask come exactly when the
      count had reached the size, and then no byte is written. */
  lemma TxStepCounts(s: Slot, index: nat, id: nat, masked: set<Irq>, rxByte: Byte)
    requires StepSafe(s, masked)
    requires Rxrdy !in masked && Txrdy in masked
    ensures var r := SlotStep(s, index, id, masked, rxByte);
      r.store.None? && r.slot == s.(transferred := r.slot.transferred)
      && (r.slot.transferred == s.transferred + 1 <==> s.transferred != s.size)
      && (s.transferred <= s.size ==> r.slot.transferred <= s.size)
    ensures var r := SlotStep(s, index, id, masked, rxByte);
      var a := s.desc.addr;
      (Stop(a) in r.events <==> s.transferred == s.size)
      && (EnableIt(a, {Txcomp}) in r.events <==> s.transferred == s.size)
      && (forall e | e in r.events && e.WriteByte? ::
            s.transferred != s.size
            && e == WriteByte(a, s.pdata.value.buf[s.pdata.value.offset + s.transferred]))
  {
    TxStep(s, index, id, masked, rxByte);
  }

  /** TXCOMP: the interrupt line is disabled, the slot's callback (if any)
      runs exactly once, on the slot's own copy of the descriptor, and the
      slot is freed (no pointer, identifier 0). TXRDY is left unmasked: the
      handler's one disable call names RXRDY twice in its mask. */
  lemma TxcompStep(s: Slot, index: nat, id: nat, masked: set<Irq>, rxByte: Byte)
    requires StepSafe(s, masked)
    requires Rxrdy !in masked && Txrdy !in masked && Txcomp in masked
    ensures var r := SlotStep(s, index, id, masked, rxByte);
      r.store.None?
      && r.slot.pdata.None? && r.slot.twiId == 0
      && r.slot.transferred == s.transferred && r.slot.size == s.size
      && r.slot.desc == AfterCallback(s.desc.callback, s.desc)
    ensures var r := SlotStep(s, index, id, masked, rxByte);
      var a := s.desc.addr;
      && r.events[..3] == [AicDisable(id), DisableIt(a, {Rxrdy}), DisableIt(a, {Txcomp})]
      && r.events[3..] == CallbackEvents(s.desc.callback, SlotCopy(index), s.desc.cbArgs)
      && (forall k :: 0 <= k < |r.events| && r.events[k].DisableIt? ==> Txrdy !in r.events[k].irqs)
  {
  }

  /** Each interrupt moves at most one byte, and a slot whose count is within
      its size stays so, provided RXRDY is only taken while a byte is still
      expected (the handler masks it when the last one arrives). */
  lemma StepKeepsCountInBounds(s: Slot, index: nat, id: nat, masked: set<Irq>, rxByte: Byte)
    requires StepSafe(s, masked)
    ensures var r := SlotStep(s, index, id, masked, rxByte);
      s.transferred <= r.slot.transferred <= s.transferred + 1
      && r.slot.size == s.size
      && (s.transferred <= s.size && (Rxrdy in masked ==> s.transferred < s.size) ==>
            r.slot.transferred <= r.slot.size)
  {
  }

  /** The counterpart of that proviso: RXRDY on a slot whose count already
      equals its size stores one byte past the end of the transfer. */
  lemma RxPastEnd(s: Slot, index: nat, id: nat, rxByte: Byte)
    requires StepSafe(s, {Rxrdy})
    requires s.transferred == s.size
    ensures SlotStep(s, index, id, {Rxrdy}, rxByte).slot.transferred == s.size + 1
  {
  }

  // ---------------------------------------------------------------------
  // Runs of interrupts on one slot
  // ---------------------------------------------------------------------

  /** `n` TXRDY interrupts on a slot that points into its buffer. */
  function TxRun(s: Slot, index: nat, id: nat, n: nat): (r: Step)
    requires s.pdata.Some? && SlotFits(s) && s.transferred <= s.size
    requires s.transferred + n <= s.size + 1
    reads s.pdata.value.buf
    ensures r.slot.pdata == s.pdata && r.slot.size == s.size
    ensures r.slot.transferred == if s.transferred + n <= s.size then s.transferred + n else s.size
    decreases n
  {
    if n == 0 then Step(s, [], None)
    else
      var st := SlotStep(s, index, id, {Txrdy}, 0);
      var rest := TxRun(st.slot, index, id, n - 1);
      Step(rest.slot, st.events + rest.events, None)
  }

  /** A write handed to the interrupt handler with its count at `t` sends
      exactly the buffer bytes `t..size` in order, one per TXRDY, then masks
      TXRDY, unmasks TXCOMP and issues one stop condition. */
  lemma {:induction false} TxRunSendsRest(s: Slot, index: nat, id: nat)
    requires s.pdata.Some? && SlotFits(s) && s.transferred <= s.size
    ensures var p := s.pdata.value;
      var a := s.desc.addr;
      TxRun(s, index, id, s.size - s.transferred + 1).events
      == WriteBytes(a, p.buf[p.offset + s.transferred .. p.offset + s.size])
         + [DisableIt(a, {Txrdy}), EnableIt(a, {Txcomp}), Stop(a)]
    decreases s.size - s.transferred
  {
    var p := s.pdata.value;
    var a := s.desc.addr;
    if s.transferred < s.size {
      var st := SlotStep(s, index, id, {Txrdy}, 0);
      TxRunSendsRest(st.slot, index, id);
      var bytes := p.buf[p.offset + s.transferred .. p.offset + s.size];
      assert bytes == [bytes[0]] + p.buf[p.offset + s.transferred + 1 .. p.offset + s.size];
      assert st.events == [WriteByte(a, bytes[0])];
    } else {
      assert p.buf[p.offset + s.transferred .. p.offset + s.size] == [];
      var st := SlotStep(s, index, id, {Txrdy}, 0);
      assert TxRun(s, index, id, 1).events == st.events + [];
    }
  }

  /** One RXRDY interrupt per byte of `bytes`, on a slot that points into
      its buffer. */
  function RxRun(s: Slot, index: nat, id: nat, bytes: seq<Byte>): (r: Step)
    requires s.pdata.Some? && s.pdata.value.offset + s.transferred + |bytes| <= s.pdata.value.buf.Length
    reads s.pdata.value.buf
    ensures r.slot == s.(transferred := s.transferred + |bytes|)
    decreases |bytes|
  {
    if bytes == [] then Step(s, [], None)
    else
      var st := SlotStep(s, index, id, {Rxrdy}, bytes[0]);
      var rest := RxRun(st.slot, index, id, bytes[1..]);
      Step(rest.slot, st.events + rest.events, None)
  }

  /** A read of `size >= 2` bytes handed to the interrupt handler with its
      count at 0: the stop condition comes exactly once, between the
      next-to-last and the last byte, and the last byte masks RXRDY and
      unmasks TXCOMP. */
  lemma RxRunStopsOnce(s: Slot, index: nat, id: nat, bytes: seq<Byte>)
    requires s.pdata.Some? && SlotFits(s) && s.transferred == 0
    requires |bytes| == s.size >= 2
    ensures var a := s.desc.addr;
      RxRun(s, index, id, bytes).events
      == ReadSeq(a, bytes[..s.size - 1]) + [Stop(a), ReadByte(a, bytes[s.size - 1]),
                                           DisableIt(a, {Rxrdy}), EnableIt(a, {Txcomp})]
  {
    RxRunPrefix(s, index, id, bytes);
  }

  /** The bytes `bytes` read one after the other on peripheral `id`. */
  function ReadSeq(id: nat, bytes: seq<Byte>): (r: seq<Event>)
    ensures |r| == |bytes|
    ensures forall k :: 0 <= k < |r| ==> r[k] == ReadByte(id, bytes[k])
  {
    if bytes == [] then [] else [ReadByte(id, bytes[0])] + ReadSeq(id, bytes[1..])
  }

  lemma {:induction false} RxRunPrefix(s: Slot, index: nat, id: nat, bytes: seq<Byte>)
    requires s.pdata.Some? && s.pdata.value.offset + s.transferred + |bytes| <= s.pdata.value.buf.Length
    requires s.transferred + |bytes| == s.size && |bytes| >= 2
    ensures var a := s.desc.addr;
      RxRun(s, index, id, bytes).events
      == ReadSeq(a, bytes[..|bytes| - 1]) + [Stop(a), ReadByte(a, bytes[|bytes| - 1]),
                                            DisableIt(a, {Rxrdy}), EnableIt(a, {Txcomp})]
    decreases |bytes|
  {
    var a := s.desc.addr;
    var st := SlotStep(s, index, id, {Rxrdy}, bytes[0]);
    if |bytes| == 2 {
      var st2 := SlotStep(st.slot, index, id, {Rxrdy}, bytes[1]);
      assert st.events == [ReadByte(a, bytes[0]), Stop(a)];
      assert st2.events == [ReadByte(a, bytes[1]), DisableIt(a, {Rxrdy}), EnableIt(a, {Txcomp})];
      assert RxRun(st.slot, index, id, bytes[1..]).events == st2.events + RxRun(st2.slot, index, id, []).events;
      assert bytes[..1] == [bytes[0]];
    } else {
      assert st.events == [ReadByte(a, bytes[0])];
      RxRunPrefix(st.slot, index, id, bytes[1..]);
      assert bytes[1..][..|bytes| - 2] == bytes[1..|bytes| - 1];
      assert bytes[..|bytes| - 1] == [bytes[0]] + bytes[1..|bytes| - 1];
    }
  }
}
