/** Reference definitions for the synchronous parts of the driver:
    twid_configure, _twid_wait_twi_transfer and the SAMA5D4 polling engines
    _twid_poll_write / _twid_poll_read, with the properties they promise. */
module TwidPoll {
  import opened TwidTypes

  // ---------------------------------------------------------------------
  // twid_configure and _twid_wait_twi_transfer
  // ---------------------------------------------------------------------

  /** The timeout twid_configure leaves in a descriptor: a zero timeout is
      replaced by the default, any other value is kept. */
  function ConfiguredTimeout(t: nat): (r: nat)
    ensures r != 0
    ensures t != 0 ==> r == t
    ensures t == 0 ==> r == DefaultTimeout
  {
    if t == 0 then DefaultTimeout else t
  }

  /** The descriptor after twid_configure: only the timeout can change. */
  function Configured(d: TwiDesc): (r: TwiDesc)
    ensures r.timeout != 0 && r == d.(timeout := r.timeout)
  {
    d.(timeout := ConfiguredTimeout(d.timeout))
  }

  /** What twid_configure does to the hardware: clock on, master timing, and
      FIFO thresholds at half the depth when FIFO mode is built in and chosen. */
  function ConfigureEvents(p: Platform, d: TwiDesc): (r: seq<Event>)
    ensures 2 <= |r| <= 3 && r[..2] == [PmcEnable(d.addr), ConfigureMaster(d.addr, d.freq)]
    ensures |r| == 3 <==> p.haveFifo && d.mode == Fifo
    ensures |r| == 3 ==> r[2] == FifoConfigure(d.addr, p.fifoDepth(d.addr) / 2, p.fifoDepth(d.addr) / 2)
  {
    [PmcEnable(d.addr), ConfigureMaster(d.addr, d.freq)]
    + (if p.haveFifo && d.mode == Fifo
       then [FifoConfigure(d.addr, p.fifoDepth(d.addr) / 2, p.fifoDepth(d.addr) / 2)]
       else [])
  }

  /** Events that put nothing on the bus (no start, byte or stop). */
  predicate OffBus(e: Event)
  {
    !(e.StartWrite? || e.StartRead? || e.WriteByte? || e.ReadByte? || e.Stop?)
  }

  lemma ConfigureIsOffBus(p: Platform, d: TwiDesc)
    ensures forall k :: 0 <= k < |ConfigureEvents(p, d)| ==> OffBus(ConfigureEvents(p, d)[k])
  {
  }

  /** Configuring twice is configuring once: the second call finds a non-zero
      timeout, keeps it, and repeats the same hardware sequence. */
  lemma ConfigureIdempotent(p: Platform, d: TwiDesc)
    ensures Configured(Configured(d)) == Configured(d)
    ensures ConfigureEvents(p, Configured(d)) == ConfigureEvents(p, d)
  {
  }

  /** The result of one synchronous engine: its events, its status, the
      descriptor afterwards and how many leading buffer bytes it stored. */
  datatype PollOut = PollOut(events: seq<Event>, status: Status, desc: TwiDesc, stored: nat)

  /** _twid_wait_twi_transfer: success when the transfer-complete flag is
      seen in time; otherwise the controller is reconfigured and the transfer
      error returned. */
  function WaitTransferSpec(p: Platform, d: TwiDesc, completed: bool): (o: PollOut)
    ensures o.status == Success <==> completed
    ensures o.status != Success ==>
      o.status == ErrorTransfer && o.desc == Configured(d) && o.desc.timeout != 0
      && o.events == ConfigureEvents(p, d)
    ensures o.status == Success ==> o.desc == d && o.events == []
    ensures o.stored == 0
  {
    if completed then PollOut([], Success, d, 0)
    else PollOut(ConfigureEvents(p, d), ErrorTransfer, Configured(d), 0)
  }

  // ---------------------------------------------------------------------
  // Byte sequences on the bus
  // ---------------------------------------------------------------------

  /** The `n` reads of the receive register numbered `from` onwards. */
  function ReadBytes(id: nat, hw: Bus, from: nat, n: nat): (r: seq<Event>)
    decreases n
    ensures |r| == n
    ensures forall k :: 0 <= k < n ==> r[k] == ReadByte(id, hw.rxData(from + k))
  {
    if n == 0 then [] else [ReadByte(id, hw.rxData(from))] + ReadBytes(id, hw, from + 1, n - 1)
  }

  // ---------------------------------------------------------------------
  // The byte loops of the polling engines
  // ---------------------------------------------------------------------

  /** Why a byte loop stopped: it ran to its bound, a wait timed out (the
      `break`), or a NACK was read (the early `return`). */
  datatype Halt = Completed | TimedOut | Nacked

  /** The events of a byte loop, why it stopped, and the loop index `i` at
      that moment. */
  datatype LoopOut = LoopOut(events: seq<Event>, halt: Halt, next: nat)

  /** Number of bytes a loop moved: the NACKed byte was moved before the
      check that returned. */
  function Moved(r: LoopOut): nat
  {
    if r.halt == Nacked then r.next + 1 else r.next
  }

  /** The write loop of _twid_poll_write from index `i`: wait (the (i-1)-th
      wait) for "byte sent", write byte i, check NACK (the i-th check). */
  function WriteLoop(id: nat, data: seq<Byte>, hw: Bus, i: nat): (r: LoopOut)
    requires 1 <= i <= |data|
    ensures i <= r.next <= |data| && (r.halt == Completed <==> r.next == |data|)
    decreases |data| - i
  {
    if i == |data| then LoopOut([], Completed, i)
    else if !hw.ready(i - 1) then LoopOut([], TimedOut, i)
    else if hw.nack(i) then LoopOut([WriteByte(id, data[i])], Nacked, i)
    else
      var r := WriteLoop(id, data, hw, i + 1);
      r.(events := [WriteByte(id, data[i])] + r.events)
  }

  /** The write loop sends the bytes from i up to the first timeout or the
      first NACKed byte (included), and no further. */
  lemma {:induction false} WriteLoopSends(id: nat, data: seq<Byte>, hw: Bus, i: nat)
    requires 1 <= i <= |data|
    ensures var r := WriteLoop(id, data, hw, i);
      i <= r.next <= |data|
      && (r.halt == Completed <==> r.next == |data|)
      && Moved(r) <= |data|
      && r.events == WriteBytes(id, data[i..Moved(r)])
      && (forall k :: i - 1 <= k < r.next - 1 ==> hw.ready(k))
      && (forall k :: i <= k < r.next ==> !hw.nack(k))
      && (r.halt == TimedOut ==> !hw.ready(r.next - 1))
      && (r.halt == Nacked ==> hw.ready(r.next - 1) && hw.nack(r.next))
    decreases |data| - i
  {
    var r := WriteLoop(id, data, hw, i);
    if i < |data| && hw.ready(i - 1) && !hw.nack(i) {
      WriteLoopSends(id, data, hw, i + 1);
      var r' := WriteLoop(id, data, hw, i + 1);
      var m := Moved(r');
      assert r == r'.(events := [WriteByte(id, data[i])] + r'.events);
      assert Moved(r) == m;
      assert data[i..m][1..] == data[i + 1..m];
      assert WriteBytes(id, data[i..m]) == [WriteByte(id, data[i])] + WriteBytes(id, data[i + 1..m]);
    } else if i < |data| && hw.ready(i - 1) {
      assert data[i..i + 1] == [data[i]];
      assert WriteBytes(id, data[i..i + 1]) == [WriteByte(id, data[i])];
    }
  }

  /** The read loop of _twid_poll_read from index `i` up to `last`: wait (the
      i-th wait) for "byte received", read byte i, check NACK (the i-th check). */
  function ReadLoop(id: nat, hw: Bus, i: nat, last: nat): (r: LoopOut)
    requires i <= last
    ensures i <= r.next <= last && (r.halt == Completed <==> r.next == last)
    decreases last - i
  {
    if i == last then LoopOut([], Completed, i)
    else if !hw.ready(i) then LoopOut([], TimedOut, i)
    else if hw.nack(i) then LoopOut([ReadByte(id, hw.rxData(i))], Nacked, i)
    else
      var r := ReadLoop(id, hw, i + 1, last);
      r.(events := [ReadByte(id, hw.rxData(i))] + r.events)
  }

  /** The read loop receives the bytes from i up to the first timeout or the
      first NACKed byte (included), and no further. */
  lemma {:induction false} ReadLoopReceives(id: nat, hw: Bus, i: nat, last: nat)
    requires i <= last
    ensures var r := ReadLoop(id, hw, i, last);
      i <= r.next <= last
      && (r.halt == Completed <==> r.next == last)
      && r.events == ReadBytes(id, hw, i, Moved(r) - i)
      && (forall k :: i <= k < r.next ==> hw.ready(k))
      && (forall k :: i <= k < r.next ==> !hw.nack(k))
      && (r.halt == TimedOut ==> !hw.ready(r.next))
      && (r.halt == Nacked ==> hw.ready(r.next) && hw.nack(r.next))
    decreases last - i
  {
    if i < last && hw.ready(i) && !hw.nack(i) {
      ReadLoopReceives(id, hw, i + 1, last);
    }
  }

  /** Writing one more byte extends the written events by one. */
  lemma {:induction false} WriteBytesSnoc(id: nat, a: seq<Byte>, x: Byte)
    ensures WriteBytes(id, a + [x]) == WriteBytes(id, a) + [WriteByte(id, x)]
    decreases |a|
  {
    if a == [] {
      assert a + [x] == [x];
    } else {
      assert (a + [x])[1..] == a[1..] + [x];
      WriteBytesSnoc(id, a[1..], x);
    }
  }

  /** Reading one more byte extends the read events by one. */
  lemma {:induction false} ReadBytesSnoc(id: nat, hw: Bus, from: nat, n: nat)
    ensures ReadBytes(id, hw, from, n + 1) == ReadBytes(id, hw, from, n) + [ReadByte(id, hw.rxData(from + n))]
    decreases n
  {
    if n > 0 {
      ReadBytesSnoc(id, hw, from + 1, n - 1);
    }
  }

  /** When the first iterations of the write loop, up to index `i`, all
      passed their wait and their NACK check, the loop from 1 is those
      bytes followed by the loop from `i`. */
  lemma {:induction false} WriteLoopPrefix(id: nat, data: seq<Byte>, hw: Bus, i: nat)
    requires 1 <= i <= |data|
    requires forall k :: 0 <= k < i - 1 ==> hw.ready(k)
    requires forall k :: 1 <= k < i ==> !hw.nack(k)
    ensures WriteLoop(id, data, hw, 1)
            == WriteLoop(id, data, hw, i).(events := WriteBytes(id, data[1..i]) + WriteLoop(id, data, hw, i).events)
    decreases i
  {
    if i == 1 {
      assert data[1..1] == [];
    } else {
      WriteLoopPrefix(id, data, hw, i - 1);
      var r := WriteLoop(id, data, hw, i);
      var x := WriteByte(id, data[i - 1]);
      assert hw.ready(i - 2) && !hw.nack(i - 1);
      assert WriteLoop(id, data, hw, i - 1) == r.(events := [x] + r.events);
      assert data[1..i] == data[1..i - 1] + [data[i - 1]];
      WriteBytesSnoc(id, data[1..i - 1], data[i - 1]);
      AppendAssoc(WriteBytes(id, data[1..i - 1]), [x], r.events);
    }
  }

  /** How the read loop from 0 ended, given how the iterations went: all
      of the first `i` passed, and the `i`-th timed out, was NACKed, or was
      the loop's bound. */
  lemma ReadLoopAt(id: nat, hw: Bus, i: nat, last: nat, timedOut: bool, nacked: bool)
    requires i <= last
    requires forall k :: 0 <= k < i ==> hw.ready(k) && !hw.nack(k)
    requires timedOut ==> !nacked && i < last && !hw.ready(i)
    requires nacked ==> !timedOut && i < last && hw.ready(i) && hw.nack(i)
    requires !timedOut && !nacked ==> i == last
    ensures ReadLoop(id, hw, 0, last)
            == LoopOut(ReadBytes(id, hw, 0, if nacked then i + 1 else i),
                       if nacked then Nacked else if timedOut then TimedOut else Completed, i)
  {
    ReadLoopPrefix(id, hw, i, last);
    if nacked {
      ReadBytesSnoc(id, hw, 0, i);
    } else {
      assert ReadBytes(id, hw, 0, i) + [] == ReadBytes(id, hw, 0, i);
    }
  }

  /** The same for the read loop from 0. */
  lemma {:induction false} ReadLoopPrefix(id: nat, hw: Bus, i: nat, last: nat)
    requires i <= last
    requires forall k :: 0 <= k < i ==> hw.ready(k) && !hw.nack(k)
    ensures ReadLoop(id, hw, 0, last)
            == ReadLoop(id, hw, i, last).(events := ReadBytes(id, hw, 0, i) + ReadLoop(id, hw, i, last).events)
    decreases i
  {
    if i > 0 {
      ReadLoopPrefix(id, hw, i - 1, last);
      var r := ReadLoop(id, hw, i, last);
      var x := ReadByte(id, hw.rxData(i - 1));
      assert hw.ready(i - 1) && !hw.nack(i - 1);
      assert ReadLoop(id, hw, i - 1, last) == r.(events := [x] + r.events);
      ReadBytesSnoc(id, hw, 0, i - 1);
      AppendAssoc(ReadBytes(id, hw, 0, i - 1), [x], r.events);
    }
  }

  // ---------------------------------------------------------------------
  // _twid_poll_write (SAMA5D4 variant)
  // ---------------------------------------------------------------------

  /** The start of a polled write: start condition with byte 0 staged, and
      the stop condition at once when there is no other byte. */
  function WriteHead(d: TwiDesc, data: seq<Byte>): seq<Event>
    requires |data| >= 1
  {
    [StartWrite(d.addr, d.slaveAddr, d.iaddr, d.isize, data[0])]
    + (if |data| == 1 then [Stop(d.addr)] else [])
  }

  /** _twid_poll_write on the `size` bytes `data`. */
  function PollWriteSpec(p: Platform, d: TwiDesc, data: seq<Byte>, hw: Bus): (o: PollOut)
    requires |data| >= 1
    ensures |o.events| >= 1 && o.events[0] == StartWrite(d.addr, d.slaveAddr, d.iaddr, d.isize, data[0])
    ensures o.status == Success || o.status == ErrorAck || o.status == ErrorTransfer
    ensures o.desc == if o.status == ErrorTransfer then Configured(d) else d
    ensures o.stored == 0
  {
    var head := WriteHead(d, data);
    if hw.nack(0) then PollOut(head, ErrorAck, d, 0)
    else
      var r := WriteLoop(d.addr, data, hw, 1);
      if r.halt == Nacked then PollOut(head + r.events, ErrorAck, d, 0)
      else
        var w := WaitTransferSpec(p, d, hw.complete(0));
        PollOut(head + r.events + (if |data| != 1 then [Stop(d.addr)] else []) + w.events,
                w.status, w.desc, 0)
  }

  /** Number of bytes put on the bus by a sequence of events (the byte staged
      with the start condition included). */
  function BytesSent(e: seq<Event>): nat
  {
    if e == [] then 0
    else (if e[0].StartWrite? || e[0].WriteByte? then 1 else 0) + BytesSent(e[1..])
  }

  lemma {:induction false} BytesSentAppend(a: seq<Event>, b: seq<Event>)
    ensures BytesSent(a + b) == BytesSent(a) + BytesSent(b)
  {
    if a == [] {
      assert a + b == b;
    } else {
      assert (a + b)[0] == a[0];
      assert (a + b)[1..] == a[1..] + b;
      BytesSentAppend(a[1..], b);
    }
  }

  lemma {:induction false} BytesSentWrites(id: nat, bytes: seq<Byte>)
    ensures BytesSent(WriteBytes(id, bytes)) == |bytes|
  {
    if bytes != [] {
      BytesSentWrites(id, bytes[1..]);
    }
  }

  /** No byte is written after a stop condition in `e`. */
  predicate NoWriteAfterStop(e: seq<Event>)
  {
    forall j, k :: 0 <= j < k < |e| && e[j].Stop? ==> !e[k].WriteByte?
  }

  lemma NoWriteAfterStopSplit(a: seq<Event>, b: seq<Event>)
    requires forall k :: 0 <= k < |a| ==> !a[k].Stop?
    requires forall k :: 0 <= k < |b| ==> !b[k].WriteByte?
    ensures NoWriteAfterStop(a + b)
  {
  }

  /** The events of a polled write, segment by segment: start, early stop,
      loop bytes, late stop, reconfiguration on a complete-wait timeout. */
  lemma PollWriteSegments(p: Platform, d: TwiDesc, data: seq<Byte>, hw: Bus)
    requires |data| >= 1
    ensures var r := WriteLoop(d.addr, data, hw, 1);
      var w := WaitTransferSpec(p, d, hw.complete(0));
      var o := PollWriteSpec(p, d, data, hw);
      o.events == [StartWrite(d.addr, d.slaveAddr, d.iaddr, d.isize, data[0])]
                  + (if |data| == 1 then [Stop(d.addr)] else [])
                  + (if hw.nack(0) then [] else r.events)
                  + (if hw.nack(0) || r.halt == Nacked then []
                     else (if |data| != 1 then [Stop(d.addr)] else []) + w.events)
      && (o.status == ErrorAck <==> hw.nack(0) || r.halt == Nacked)
  {
  }

  /** With a single byte, the stop condition follows the start at once. */
  lemma PollWriteSingleByteStop(p: Platform, d: TwiDesc, data: seq<Byte>, hw: Bus)
    requires |data| == 1
    ensures PollWriteSpec(p, d, data, hw).events[..2]
            == [StartWrite(d.addr, d.slaveAddr, d.iaddr, d.isize, data[0]), Stop(d.addr)]
  {
    PollWriteSegments(p, d, data, hw);
  }

  /** Number of stop conditions in `e`. */
  function Stops(e: seq<Event>): nat
  {
    if e == [] then 0 else (if e[0].Stop? then 1 else 0) + Stops(e[1..])
  }

  lemma {:induction false} StopsAppend(a: seq<Event>, b: seq<Event>)
    ensures Stops(a + b) == Stops(a) + Stops(b)
  {
    if a == [] {
      assert a + b == b;
    } else {
      assert (a + b)[0] == a[0];
      assert (a + b)[1..] == a[1..] + b;
      StopsAppend(a[1..], b);
    }
  }

  lemma {:induction false} NoStops(e: seq<Event>)
    requires forall k :: 0 <= k < |e| ==> !e[k].Stop?
    ensures Stops(e) == 0
  {
    if e != [] {
      NoStops(e[1..]);
    }
  }

  lemma StopsOfOne(e: Event)
    ensures Stops([e]) == if e.Stop? then 1 else 0
  {
    assert [e][1..] == [];
  }

  /** A polled write puts the stop condition on the bus exactly once (right
      after the start when there is one byte, after the loop otherwise),
      except that a NACK in a longer buffer returns before any stop. */
  lemma PollWriteStops(p: Platform, d: TwiDesc, data: seq<Byte>, hw: Bus)
    requires |data| >= 1
    ensures var o := PollWriteSpec(p, d, data, hw);
      Stops(o.events) == (if |data| > 1 && o.status == ErrorAck then 0 else 1)
  {
    var head := WriteHead(d, data);
    var r := WriteLoop(d.addr, data, hw, 1);
    PollWriteCases(p, d, data, hw);
    HeadStops(d, data);
    if !hw.nack(0) {
      WriteLoopNoStops(d.addr, data, hw, 1);
      StopsAppend(head, r.events);
      if r.halt != Nacked {
        var w := WaitTransferSpec(p, d, hw.complete(0));
        var stop: seq<Event> := if |data| != 1 then [Stop(d.addr)] else [];
        StopsOfOne(Stop(d.addr));
        assert Stops(w.events) == 0 by {
          ConfigureIsOffBus(p, d);
          NoStops(w.events);
        }
        StopsAppend(head + r.events, stop);
        StopsAppend(head + r.events + stop, w.events);
      }
    }
  }

  lemma HeadStops(d: TwiDesc, data: seq<Byte>)
    requires |data| >= 1
    ensures Stops(WriteHead(d, data)) == if |data| == 1 then 1 else 0
  {
    var start := [StartWrite(d.addr, d.slaveAddr, d.iaddr, d.isize, data[0])];
    StopsOfOne(start[0]);
    StopsOfOne(Stop(d.addr));
    StopsAppend(start, if |data| == 1 then [Stop(d.addr)] else []);
  }

  lemma {:induction false} WriteLoopNoStops(id: nat, data: seq<Byte>, hw: Bus, i: nat)
    requires 1 <= i <= |data|
    ensures Stops(WriteLoop(id, data, hw, i).events) == 0
    decreases |data| - i
  {
    var r := WriteLoop(id, data, hw, i);
    if i < |data| && hw.ready(i - 1) {
      StopsOfOne(WriteByte(id, data[i]));
      if !hw.nack(i) {
        var q := WriteLoop(id, data, hw, i + 1);
        WriteLoopNoStops(id, data, hw, i + 1);
        StopsAppend([WriteByte(id, data[i])], q.events);
      }
    }
  }

  /** No byte of a polled write is put on the bus after its stop condition. */
  lemma PollWriteNoByteAfterStop(p: Platform, d: TwiDesc, data: seq<Byte>, hw: Bus)
    requires |data| >= 1
    ensures NoWriteAfterStop(PollWriteSpec(p, d, data, hw).events)
  {
    var o := PollWriteSpec(p, d, data, hw);
    var id := d.addr;
    var start := [StartWrite(id, d.slaveAddr, d.iaddr, d.isize, data[0])];
    var head := WriteHead(d, data);
    var r := WriteLoop(id, data, hw, 1);
    var w := WaitTransferSpec(p, d, hw.complete(0));
    var stop: seq<Event> := if |data| != 1 then [Stop(id)] else [];
    PollWriteCases(p, d, data, hw);
    WriteLoopWrites(id, data, hw, 1);
    assert forall k :: 0 <= k < |w.events| ==> !w.events[k].WriteByte? by {
      ConfigureIsOffBus(p, d);
    }
    if hw.nack(0) {
      NoWriteAfterStopSplit([], head);
    } else if r.halt == Nacked {
      NoWriteAfterStopSplit(head + r.events, []);
    } else if |data| == 1 {
      assert r.events == [];
      assert o.events == start + ([Stop(id)] + w.events);
      NoWriteAfterStopSplit(start, [Stop(id)] + w.events);
    } else {
      assert o.events == (head + r.events) + (stop + w.events);
      NoWriteAfterStopSplit(head + r.events, stop + w.events);
    }
  }

  /** The write loop puts nothing but data bytes on the bus. */
  lemma {:induction false} WriteLoopWrites(id: nat, data: seq<Byte>, hw: Bus, i: nat)
    requires 1 <= i <= |data|
    ensures forall k :: 0 <= k < |WriteLoop(id, data, hw, i).events| ==>
      WriteLoop(id, data, hw, i).events[k].WriteByte?
    decreases |data| - i
  {
    if i < |data| && hw.ready(i - 1) && !hw.nack(i) {
      var r := WriteLoop(id, data, hw, i + 1);
      WriteLoopWrites(id, data, hw, i + 1);
      var e := WriteLoop(id, data, hw, i).events;
      assert e == [WriteByte(id, data[i])] + r.events;
      forall k | 1 <= k < |e|
        ensures e[k].WriteByte?
      {
        assert e[k] == r.events[k - 1];
      }
    }
  }

  /** A NACK makes a polled write return the acknowledgement error at once:
      the NACK was read after the last byte on the bus, every earlier check
      passed, and nothing but the start and those bytes was sent. */
  lemma PollWriteNackStops(p: Platform, d: TwiDesc, data: seq<Byte>, hw: Bus)
    requires |data| >= 1
    ensures var o := PollWriteSpec(p, d, data, hw);
      var n := BytesSent(o.events);
      1 <= n <= |data|
      && (o.status == ErrorAck <==> hw.nack(n - 1))
      && (forall k :: 0 <= k < n - 1 ==> !hw.nack(k))
      && (o.status == ErrorAck ==> o.events == WriteHead(d, data) + WriteBytes(d.addr, data[1..n]))
  {
    var r := WriteLoop(d.addr, data, hw, 1);
    if hw.nack(0) {
      NackStopsFirst(p, d, data, hw);
    } else if r.halt == Nacked {
      NackStopsInLoop(p, d, data, hw);
    } else {
      NackStopsNone(p, d, data, hw);
    }
  }

  lemma NackStopsFirst(p: Platform, d: TwiDesc, data: seq<Byte>, hw: Bus)
    requires |data| >= 1 && hw.nack(0)
    ensures var o := PollWriteSpec(p, d, data, hw);
      var n := BytesSent(o.events);
      1 <= n <= |data|
      && (o.status == ErrorAck <==> hw.nack(n - 1))
      && (forall k :: 0 <= k < n - 1 ==> !hw.nack(k))
      && (o.status == ErrorAck ==> o.events == WriteHead(d, data) + WriteBytes(d.addr, data[1..n]))
  {
    PollWriteCases(p, d, data, hw);
    HeadSendsOne(d, data);
    assert data[1..1] == [];
    assert WriteHead(d, data) + WriteBytes(d.addr, data[1..1]) == WriteHead(d, data);
  }

  lemma NackStopsInLoop(p: Platform, d: TwiDesc, data: seq<Byte>, hw: Bus)
    requires |data| >= 1 && !hw.nack(0) && WriteLoop(d.addr, data, hw, 1).halt == Nacked
    ensures var o := PollWriteSpec(p, d, data, hw);
      var n := BytesSent(o.events);
      1 <= n <= |data|
      && (o.status == ErrorAck <==> hw.nack(n - 1))
      && (forall k :: 0 <= k < n - 1 ==> !hw.nack(k))
      && (o.status == ErrorAck ==> o.events == WriteHead(d, data) + WriteBytes(d.addr, data[1..n]))
  {
    var r := WriteLoop(d.addr, data, hw, 1);
    PollWriteCases(p, d, data, hw);
    var o := PollWriteSpec(p, d, data, hw);
    assert o == PollOut(WriteHead(d, data) + r.events, ErrorAck, d, 0);
    NackedLoopSent(d, data, hw);
  }

  /** A write loop stopped by a NACK sent the bytes up to the refused one. */
  lemma NackedLoopSent(d: TwiDesc, data: seq<Byte>, hw: Bus)
    requires |data| >= 1 && !hw.nack(0) && WriteLoop(d.addr, data, hw, 1).halt == Nacked
    ensures var r := WriteLoop(d.addr, data, hw, 1);
      var m := r.next + 1;
      BytesSent(WriteHead(d, data) + r.events) == m
      && 1 <= m <= |data| && hw.nack(m - 1)
      && (forall k :: 0 <= k < m - 1 ==> !hw.nack(k))
      && r.events == WriteBytes(d.addr, data[1..m])
  {
    var r := WriteLoop(d.addr, data, hw, 1);
    HeadSendsOne(d, data);
    WriteLoopSends(d.addr, data, hw, 1);
    var m := Moved(r);
    assert m == r.next + 1;
    BytesSentWrites(d.addr, data[1..m]);
    BytesSentAppend(WriteHead(d, data), r.events);
  }

  lemma NackStopsNone(p: Platform, d: TwiDesc, data: seq<Byte>, hw: Bus)
    requires |data| >= 1 && !hw.nack(0) && WriteLoop(d.addr, data, hw, 1).halt != Nacked
    ensures var o := PollWriteSpec(p, d, data, hw);
      var n := BytesSent(o.events);
      1 <= n <= |data|
      && (o.status == ErrorAck <==> hw.nack(n - 1))
      && (forall k :: 0 <= k < n - 1 ==> !hw.nack(k))
      && (o.status == ErrorAck ==> o.events == WriteHead(d, data) + WriteBytes(d.addr, data[1..n]))
  {
    var id := d.addr;
    var head := WriteHead(d, data);
    var r := WriteLoop(id, data, hw, 1);
    var w := WaitTransferSpec(p, d, hw.complete(0));
    var stop: seq<Event> := if |data| != 1 then [Stop(id)] else [];
    PollWriteCases(p, d, data, hw);
    var o := PollWriteSpec(p, d, data, hw);
    assert o == PollOut(head + r.events + stop + w.events, w.status, w.desc, 0);
    CompletedLoopSent(d, data, hw);
    ConfigureIsOffBus(p, d);
    OffBusSendsNothing(stop);
    OffBusSendsNothing(w.events);
    BytesSentAppend(head + r.events, stop);
    BytesSentAppend(head + r.events + stop, w.events);
    assert BytesSent(o.events) == r.next;
  }

  /** A write loop that was not stopped by a NACK sent every byte it met. */
  lemma CompletedLoopSent(d: TwiDesc, data: seq<Byte>, hw: Bus)
    requires |data| >= 1 && !hw.nack(0) && WriteLoop(d.addr, data, hw, 1).halt != Nacked
    ensures var r := WriteLoop(d.addr, data, hw, 1);
      BytesSent(WriteHead(d, data) + r.events) == r.next
      && 1 <= r.next <= |data|
      && forall k :: 0 <= k < r.next ==> !hw.nack(k)
  {
    var r := WriteLoop(d.addr, data, hw, 1);
    HeadSendsOne(d, data);
    WriteLoopSends(d.addr, data, hw, 1);
    BytesSentWrites(d.addr, data[1..r.next]);
    BytesSentAppend(WriteHead(d, data), r.events);
  }

  /** PollWriteSpec case by case, in the order the code meets them. */
  lemma PollWriteCases(p: Platform, d: TwiDesc, data: seq<Byte>, hw: Bus)
    requires |data| >= 1
    ensures var o := PollWriteSpec(p, d, data, hw);
      var r := WriteLoop(d.addr, data, hw, 1);
      var w := WaitTransferSpec(p, d, hw.complete(0));
      var head := WriteHead(d, data);
      (hw.nack(0) ==> o == PollOut(head, ErrorAck, d, 0))
      && (!hw.nack(0) && r.halt == Nacked ==> o == PollOut(head + r.events, ErrorAck, d, 0))
      && (!hw.nack(0) && r.halt != Nacked ==>
            o == PollOut(head + r.events + (if |data| != 1 then [Stop(d.addr)] else []) + w.events,
                         w.status, w.desc, 0))
  {
  }

  lemma HeadSendsOne(d: TwiDesc, data: seq<Byte>)
    requires |data| >= 1
    ensures BytesSent(WriteHead(d, data)) == 1
  {
    var start := [StartWrite(d.addr, d.slaveAddr, d.iaddr, d.isize, data[0])];
    var early: seq<Event> := if |data| == 1 then [Stop(d.addr)] else [];
    assert BytesSent(start) == 1 by {
      assert start[1..] == [];
    }
    OffBusSendsNothing(early);
    BytesSentAppend(start, early);
  }

  lemma {:induction false} OffBusSendsNothing(e: seq<Event>)
    requires forall k :: 0 <= k < |e| ==> OffBus(e[k]) || e[k].Stop?
    ensures BytesSent(e) == 0
  {
    if e != [] {
      OffBusSendsNothing(e[1..]);
    }
  }

  // ---------------------------------------------------------------------
  // _twid_poll_read (SAMA5D4 variant)
  // ---------------------------------------------------------------------

  /** _twid_poll_read of `size` bytes. `stored` counts the leading buffer
      bytes written; byte k receives `hw.rxData(k)`. */
  function PollReadSpec(p: Platform, d: TwiDesc, size: nat, hw: Bus): (o: PollOut)
    requires size >= 1
    ensures |o.events| >= 1 && o.events[0] == StartRead(d.addr, d.slaveAddr, d.iaddr, d.isize)
    ensures o.status == Success || o.status == ErrorAck || o.status == ErrorTimeout
            || o.status == ErrorTransfer
    ensures o.stored <= size
  {
    var start := [StartRead(d.addr, d.slaveAddr, d.iaddr, d.isize)];
    var r := ReadLoop(d.addr, hw, 0, size - 1);
    if r.halt == Nacked then PollOut(start + r.events, ErrorAck, d, r.next + 1)
    else
      var i := r.next;
      var waits := if r.halt == TimedOut then i + 1 else i;
      var mid := start + r.events + [Stop(d.addr)];
      if hw.nack(i) then PollOut(mid, ErrorAck, d, i)
      else if !hw.ready(waits) then PollOut(mid, ErrorTimeout, d, i)
      else
        var w := WaitTransferSpec(p, d, hw.complete(0));
        PollOut(mid + [ReadByte(d.addr, hw.rxData(i))] + w.events, w.status, w.desc, i + 1)
  }

  /** The end of _twid_poll_read once its byte loop stopped at index `i`
      without a NACK: stop, NACK check, wait for the last byte (`waits`-th
      wait), store it, wait for completion. */
  function ReadTailSpec(p: Platform, d: TwiDesc, hw: Bus, i: nat, waits: nat): (o: PollOut)
    ensures o.stored == i || o.stored == i + 1
    ensures |o.events| >= 1 && o.events[0] == Stop(d.addr)
  {
    var stop := [Stop(d.addr)];
    if hw.nack(i) then PollOut(stop, ErrorAck, d, i)
    else if !hw.ready(waits) then PollOut(stop, ErrorTimeout, d, i)
    else
      var w := WaitTransferSpec(p, d, hw.complete(0));
      PollOut(stop + [ReadByte(d.addr, hw.rxData(i))] + w.events, w.status, w.desc, i + 1)
  }

  /** A polled read that was not NACKed in its loop is its start, its loop,
      and its tail. */
  lemma PollReadTail(p: Platform, d: TwiDesc, size: nat, hw: Bus)
    requires size >= 1
    ensures var o := PollReadSpec(p, d, size, hw);
      var start := [StartRead(d.addr, d.slaveAddr, d.iaddr, d.isize)];
      var r := ReadLoop(d.addr, hw, 0, size - 1);
      var t := ReadTailSpec(p, d, hw, r.next, if r.halt == TimedOut then r.next + 1 else r.next);
      (size == 1 ==> r == LoopOut([], Completed, 0))
      && (r.halt == Nacked ==> o == PollOut(start + r.events, ErrorAck, d, Moved(r)))
      && (r.halt != Nacked ==> o == PollOut(start + r.events + t.events, t.status, t.desc, t.stored))
  {
    var start := [StartRead(d.addr, d.slaveAddr, d.iaddr, d.isize)];
    var r := ReadLoop(d.addr, hw, 0, size - 1);
    var stop := [Stop(d.addr)];
    var w := WaitTransferSpec(p, d, hw.complete(0));
    var x := [ReadByte(d.addr, hw.rxData(r.next))];
    assert start + r.events + stop + x + w.events == start + r.events + (stop + x + w.events);
  }

  function FilledAt(a: seq<Byte>, hw: Bus, n: nat, k: nat): Byte
    requires k < |a|
  {
    if k < n then hw.rxData(k) else a[k]
  }

  /** The buffer after a polled read stored its first `n` bytes. */
  function Filled(a: seq<Byte>, hw: Bus, n: nat): (r: seq<Byte>)
    requires n <= |a|
    ensures |r| == |a|
  {
    seq<Byte>(|a|, k requires 0 <= k < |a| => FilledAt(a, hw, n, k))
  }

  /** The events of a polled read, segment by segment: start, loop bytes,
      stop, final byte and reconfiguration on a complete-wait timeout. */
  lemma PollReadSegments(p: Platform, d: TwiDesc, size: nat, hw: Bus)
    requires size >= 1
    ensures var r := ReadLoop(d.addr, hw, 0, size - 1);
      var waits := if r.halt == TimedOut then r.next + 1 else r.next;
      var fin := r.halt != Nacked && !hw.nack(r.next) && hw.ready(waits);
      var w := WaitTransferSpec(p, d, hw.complete(0));
      var o := PollReadSpec(p, d, size, hw);
      o.events == [StartRead(d.addr, d.slaveAddr, d.iaddr, d.isize)] + r.events
                  + (if r.halt == Nacked then [] else [Stop(d.addr)])
                  + (if fin then [ReadByte(d.addr, hw.rxData(r.next))] + w.events else [])
      && o.stored == (if r.halt == Nacked || fin then r.next + 1 else r.next)
      && (o.status == ErrorAck <==> r.halt == Nacked || hw.nack(r.next))
      && (fin ==> o.status == w.status && o.desc == w.desc)
      && (!fin ==> o.desc == d && o.status != Success)
      && o.stored <= size
  {
    ReadLoopReceives(d.addr, hw, 0, size - 1);
  }

  /** At most one byte is read after a stop condition in `e`, right after it. */
  predicate OneReadAfterStop(e: seq<Event>)
  {
    forall j, k :: 0 <= j < k < |e| && e[j].Stop? && e[k].ReadByte? ==> k == j + 1
  }

  lemma OneReadAfterStopSplit(a: seq<Event>, id: nat, c: seq<Event>)
    requires forall k :: 0 <= k < |a| ==> !a[k].Stop?
    requires forall k :: 1 <= k < |c| ==> OffBus(c[k])
    ensures OneReadAfterStop(a + [Stop(id)] + c)
  {
  }

  /** A polled read issues the stop condition
      exactly once unless a NACK came during the first `size - 1` bytes. */
  lemma PollReadStops(p: Platform, d: TwiDesc, size: nat, hw: Bus)
    requires size >= 1
    ensures var o := PollReadSpec(p, d, size, hw);
      var r := ReadLoop(d.addr, hw, 0, size - 1);
      Stops(o.events) == (if r.halt == Nacked then 0 else 1)
  {
    var start := [StartRead(d.addr, d.slaveAddr, d.iaddr, d.isize)];
    var r := ReadLoop(d.addr, hw, 0, size - 1);
    PollReadTail(p, d, size, hw);
    StopsOfOne(start[0]);
    ReadLoopNoStops(d.addr, hw, 0, size - 1);
    StopsAppend(start, r.events);
    if r.halt != Nacked {
      var waits := if r.halt == TimedOut then r.next + 1 else r.next;
      ReadTailStops(p, d, hw, r.next, waits);
      StopsAppend(start + r.events, ReadTailSpec(p, d, hw, r.next, waits).events);
    }
  }

  lemma {:induction false} ReadLoopNoStops(id: nat, hw: Bus, i: nat, last: nat)
    requires i <= last
    ensures Stops(ReadLoop(id, hw, i, last).events) == 0
    decreases last - i
  {
    if i < last && hw.ready(i) {
      StopsOfOne(ReadByte(id, hw.rxData(i)));
      if !hw.nack(i) {
        var q := ReadLoop(id, hw, i + 1, last);
        ReadLoopNoStops(id, hw, i + 1, last);
        StopsAppend([ReadByte(id, hw.rxData(i))], q.events);
      }
    }
  }

  /** The tail of a polled read issues exactly one stop condition. */
  lemma ReadTailStops(p: Platform, d: TwiDesc, hw: Bus, i: nat, waits: nat)
    ensures Stops(ReadTailSpec(p, d, hw, i, waits).events) == 1
  {
    var t := ReadTailSpec(p, d, hw, i, waits);
    var rest := t.events[1..];
    assert t.events == [Stop(d.addr)] + rest;
    StopsOfOne(Stop(d.addr));
    assert Stops(rest) == 0 by {
      ConfigureIsOffBus(p, d);
      NoStops(rest);
    }
    StopsAppend([Stop(d.addr)], rest);
  }

  /** After the stop condition of a polled read, at most one byte is read:
      the final one, right after the stop. */
  lemma PollReadOneByteAfterStop(p: Platform, d: TwiDesc, size: nat, hw: Bus)
    requires size >= 1
    ensures OneReadAfterStop(PollReadSpec(p, d, size, hw).events)
  {
    var id := d.addr;
    var o := PollReadSpec(p, d, size, hw);
    var r := ReadLoop(id, hw, 0, size - 1);
    var waits := if r.halt == TimedOut then r.next + 1 else r.next;
    var fin := r.halt != Nacked && !hw.nack(r.next) && hw.ready(waits);
    var w := WaitTransferSpec(p, d, hw.complete(0));
    var a := [StartRead(id, d.slaveAddr, d.iaddr, d.isize)] + r.events;
    var c: seq<Event> := if fin then [ReadByte(id, hw.rxData(r.next))] + w.events else [];
    assert forall k :: 0 <= k < |a| ==> !a[k].Stop? by {
      ReadLoopReceives(id, hw, 0, size - 1);
    }
    assert forall k :: 1 <= k < |c| ==> OffBus(c[k]) by {
      ConfigureIsOffBus(p, d);
    }
    if r.halt == Nacked {
      assert o.events == a by {
        PollReadSegments(p, d, size, hw);
      }
    } else {
      OneReadAfterStopSplit(a, id, c);
      assert o.events == a + [Stop(id)] + c by {
        PollReadSegments(p, d, size, hw);
      }
    }
  }

  /** A successful polled read whose loop ran to its end stored the whole
      buffer: every byte but the last, then the stop, then the last byte. */
  lemma PollReadSuccess(p: Platform, d: TwiDesc, size: nat, hw: Bus)
    requires size >= 1
    ensures var o := PollReadSpec(p, d, size, hw);
      o.status == Success && ReadLoop(d.addr, hw, 0, size - 1).halt == Completed ==>
        o.stored == size
        && o.events == [StartRead(d.addr, d.slaveAddr, d.iaddr, d.isize)]
                       + ReadBytes(d.addr, hw, 0, size - 1)
                       + [Stop(d.addr), ReadByte(d.addr, hw.rxData(size - 1))]
  {
    var r := ReadLoop(d.addr, hw, 0, size - 1);
    ReadLoopReceives(d.addr, hw, 0, size - 1);
    PollReadSegments(p, d, size, hw);
  }

  /** A NACK makes a polled read return the acknowledgement error at once:
      the last event is the byte whose NACK was read or the stop after which
      it was read, and no byte is read after it. */
  lemma PollReadNackStops(p: Platform, d: TwiDesc, size: nat, hw: Bus)
    requires size >= 1
    ensures var o := PollReadSpec(p, d, size, hw);
      o.status == ErrorAck ==>
        |o.events| >= 2
        && (var last := o.events[|o.events| - 1];
            (o.stored >= 1 && last == ReadByte(d.addr, hw.rxData(o.stored - 1)) && hw.nack(o.stored - 1))
            || (last == Stop(d.addr) && hw.nack(o.stored)))
  {
    ReadLoopReceives(d.addr, hw, 0, size - 1);
  }

  /** The documented consequence of the byte-level timeout policy: a byte
      wait that times out ends the loop, yet the call can still report
      success with only part of the buffer received. */
  lemma PollReadPartialSuccess(p: Platform, d: TwiDesc)
    ensures var hw := Bus(k => k != 0, k => false, k => 0, k => true, k => true);
      var o := PollReadSpec(p, d, 2, hw);
      o.status == Success && o.stored == 1
  {
  }
}
