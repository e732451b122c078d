/** Data model of the two-wire (TWI) master driver: transfer descriptors,
    buffers, asynchronous slots, the hardware event log and the hardware
    oracle that answers the driver's status polls. */
module TwidTypes {

  type Byte = b: int | 0 <= b < 256

  datatype Option<T> = None | Some(value: T)

  /** TWID_DMA_THRESHOLD: buffers at least this long go through DMA. */
  const DmaThreshold: nat := 16
  /** TWID_TIMEOUT: the timeout a descriptor gets when it has none. */
  const DefaultTimeout: nat := 100
  /** MAX_ADESC: capacity of the asynchronous slot table. */
  const MaxAdesc: nat := 8

  /** The status codes returned to the caller (TWID_SUCCESS, TWID_ERROR_*). */
  datatype Status = Success | ErrorLock | ErrorAck | ErrorTimeout | ErrorTransfer | ErrorDuplex

  /** transfert_mode; any other value of the C field is `Unknown`. */
  datatype Mode = Polling | Async | Dma | Fifo | Unknown(code: nat)

  /** Interrupt sources of the controller (TWI_IER_* / TWI_IDR_* bits). */
  datatype Irq = Rxrdy | Txrdy | Txcomp

  /** A completion callback: none (NULL), the library's own
      twid_finish_transfert_callback (which frees the mutex of the descriptor
      it is handed), or client code the model cannot see. */
  datatype CallbackFn = NoCallback | FinishTransfert | User(fn: nat)

  /** Which descriptor a callback is handed: the caller's own, or the copy
      held in an asynchronous slot. */
  datatype DescRef = Caller | SlotCopy(index: nat)

  datatype DmaDir = MemToPeriph | PeriphToMem

  /** The contents of `struct _twi_desc`. The bus address and the peripheral
      identifier derived from it are the same number `addr` in this model;
      `cbArgs` stands for the opaque user pointer; `locked` is the mutex. */
  datatype TwiDesc = TwiDesc(
    addr: nat,
    freq: nat,
    mode: Mode,
    timeout: nat,
    slaveAddr: nat,
    iaddr: nat,
    isize: nat,
    callback: CallbackFn,
    cbArgs: nat,
    regionStart: array?<Byte>,
    regionLength: nat,
    locked: bool)

  /** The zero-initialised descriptor held by a slot never used so far. */
  const ZeroDesc: TwiDesc :=
    TwiDesc(0, 0, Polling, 0, 0, 0, 0, NoCallback, 0, null, 0, false)

  /** `struct _buffer`: caller-owned bytes and the number of them to move. */
  datatype Buffer = Buffer(data: array<Byte>, size: nat)

  predicate Fits(b: Buffer)
  {
    b.size <= b.data.Length
  }

  /** A pointer into a caller's buffer (`pdata`). */
  datatype Ptr = Ptr(buf: array<Byte>, offset: nat)

  /** `struct _async_desc`: one entry of the asynchronous slot table. */
  datatype Slot = Slot(desc: TwiDesc, pdata: Option<Ptr>, transferred: nat, size: nat, twiId: nat)

  const ZeroSlot: Slot := Slot(ZeroDesc, None, 0, 0, 0)

  /** A slot whose pointer, if any, covers `size` bytes of its buffer. */
  predicate SlotFits(s: Slot)
  {
    s.pdata.Some? ==> s.pdata.value.offset + s.size <= s.pdata.value.buf.Length
  }

  /** What the driver does to the hardware and to its collaborators, in order. */
  datatype Event =
    | PmcEnable(id: nat)
    | ConfigureMaster(id: nat, freq: nat)
    | FifoConfigure(id: nat, rxThreshold: nat, txThreshold: nat)
    | StartWrite(id: nat, slave: nat, iaddr: nat, isize: nat, first: Byte)
    | StartRead(id: nat, slave: nat, iaddr: nat, isize: nat)
    | WriteByte(id: nat, value: Byte)
    | ReadByte(id: nat, value: Byte)
    | Stop(id: nat)
    | EnableIt(id: nat, irqs: set<Irq>)
    | DisableIt(id: nat, irqs: set<Irq>)
    | AicSetVector(id: nat)
    | AicEnable(id: nat)
    | AicDisable(id: nat)
    | CacheClean(start: array?<Byte>, length: nat)
    | CacheInvalidate(start: array?<Byte>, length: nat)
    | DmaSetup(id: nat, dir: DmaDir, buf: array<Byte>, size: nat)
    | DmaStart(id: nat, dir: DmaDir)
    | DmaFree(id: nat)
    | WriteStream(id: nat, buf: array<Byte>, size: nat, timeout: nat)
    | ReadStream(id: nat, buf: array<Byte>, size: nat, timeout: nat)
    | Invoke(fn: CallbackFn, target: DescRef, args: nat)

  /** The bytes `bytes` written one after the other on peripheral `id`. */
  function WriteBytes(id: nat, bytes: seq<Byte>): (r: seq<Event>)
    ensures |r| == |bytes|
  {
    if bytes == [] then [] else [WriteByte(id, bytes[0])] + WriteBytes(id, bytes[1..])
  }

  /** What the hardware and the timer answer during one driver call. Each
      function is indexed by how many queries of its kind the call has made
      before: `ready(k)` is whether the k-th byte-level wait sees its flag
      before the deadline, `nack(k)` whether the k-th NACK check reads the
      NACK bit set, `rxData(k)` the k-th byte read from the receive register,
      `complete(k)` whether the k-th transfer-complete wait succeeds, and
      `streamOk(k)` whether the k-th FIFO stream call reports success. */
  datatype Bus = Bus(
    ready: nat -> bool,
    nack: nat -> bool,
    rxData: nat -> Byte,
    complete: nat -> bool,
    streamOk: nat -> bool)

  /** Build configuration: CONFIG_HAVE_TWI_FIFO and the FIFO depth of each
      peripheral (get_peripheral_fifo_depth). */
  datatype Platform = Platform(haveFifo: bool, fifoDepth: nat -> nat)

  /** The events of invoking callback `fn` on descriptor `target`; a NULL
      callback is skipped. */
  function CallbackEvents(fn: CallbackFn, target: DescRef, args: nat): seq<Event>
  {
    if fn.NoCallback? then [] else [Invoke(fn, target, args)]
  }

  /** The descriptor after callback `fn` ran on it: only the library's own
      finishing callback has an effect the model knows, freeing the mutex. */
  function AfterCallback(fn: CallbackFn, d: TwiDesc): TwiDesc
  {
    if fn.FinishTransfert? then d.(locked := false) else d
  }

  /** Concatenation is associative (stated once for the proofs that build
      event logs piece by piece). */
  lemma AppendAssoc<T>(a: seq<T>, b: seq<T>, c: seq<T>)
    ensures a + b + c == a + (b + c)
  {
  }
}
