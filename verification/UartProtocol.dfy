/** The JTAG UART fast driver as a concurrent protocol.  A writer thread, a reader thread, the
    interrupt routine, the timeout alarm and the device take turns; one label is one access to
    shared memory or to the device.  Threads and the timeout only run while the interrupt
    routine is idle (one CPU, no nesting); the device acts at any time.

    Device assumptions: RI implies RE and a non-empty receive FIFO; WI implies WE and free
    transmit space; a DATA read of an empty FIFO returns RVALID = 0 and RAVAIL = 0. */
module UartProtocol {
  import opened Common
  import opened RingBuffer

  type byte = bv8

  const EIO := 5
  const EWOULDBLOCK := 11

  /** A write call in progress: its arguments, the bytes taken so far (`ptr - start`), the last
      snapshot of tx_out, and three history values: the accepted stream at the call, whether
      tx_in was stored since the last interrupt kick, and whether host_inactive was seen set. */
  datatype WriteCall = WriteCall(src: seq<byte>, nonblock: bool, done: nat, out: nat,
                                 base: seq<byte>, stored: bool, sawInactive: bool)

  datatype WriterPc =
    | WSnap                               // test count, snapshot the indices
    | WCopy(wr: nat, n: nat, j: nat)      // inside memcpy, j of n bytes stored
    | WKick                               // interrupts off: set WE
    | WSpinOut | WSpinHost                // the two reads of the busy wait
    | WCheck                              // test host_inactive
    | WDone(rc: int)

  datatype Writer = WIdle | WActive(call: WriteCall, pc: WriterPc)

  /** A read call in progress: its arguments, the bytes taken so far, the last snapshot of rx_in,
      and history: the delivered stream at the call, whether rx_out was stored and RE not yet
      set again, whether the wait was seen to time out. */
  datatype ReadCall = ReadCall(space: nat, nonblock: bool, got: seq<byte>, snapIn: nat,
                               base: seq<byte>, moved: bool, sawTimeout: bool)

  datatype ReaderPc =
    | RSnap
    | RCopy(rd: nat, n: nat, part: seq<byte>)   // inside memcpy, |part| of n bytes copied
    | RSpinIn | RSpinHost
    | RCheck
    | RKick
    | RDone(rc: int)

  datatype Reader = RIdle | RActive(call: ReadCall, pc: ReaderPc)

  /** The interrupt routine: `wi` and `space` are the fields of the control word it read. */
  datatype Isr =
    | IIdle
    | IControl
    | IRx(wi: bool, space: nat, ravail: nat)
    | IRxMask(wi: bool, space: nat)       // clear RE in irq_enable
    | IRxPost(wi: bool, space: nat)       // write irq_enable to the device
    | ITx(space: nat)
    | ITxPost

  /** Transmit half: tx_buf, tx_in, tx_out, the writer, and the streams of bytes accepted from
      write calls and pushed to the device. */
  datatype Tx = Tx(buf: seq<byte>, wr: nat, rd: nat, writer: Writer,
                   accepted: seq<byte>, sent: seq<byte>)

  /** Receive half: rx_buf, rx_in, rx_out, the device's FIFO, the reader, and the streams of
      bytes arrived at the device, popped from its FIFO, and delivered to read calls. */
  datatype Rx = Rx(buf: seq<byte>, wr: nat, rd: nat, fifo: seq<byte>, reader: Reader,
                   arrived: seq<byte>, popped: seq<byte>, delivered: seq<byte>)

  /** host_inactive, timeout, and the device's AC bit. */
  datatype Host = Host(inactive: nat, timeout: nat, activity: bool)

  /** The enable bits in irq_enable and in the device's control register. */
  datatype Enables = Enables(re: bool, we: bool, devRe: bool, devWe: bool)

  datatype State = State(tx: Tx, rx: Rx, host: Host, en: Enables, txSpace: nat, isr: Isr)

  datatype Label =
    | WriteCalled(src: seq<byte>, nonblock: bool)
    | WriteStep
    | WriteReturn
    | ReadCalled(space: nat, nonblock: bool)
    | ReadStep
    | ReadReturn
    | IsrEnter
    | IsrControl(ri: bool, wi: bool)
    | IsrStep
    | Timeout
    | HwArrive(b: byte)
    | HwDrain
    | HwActivity

  predicate BuffersOk(txBuf: seq<byte>, rxBuf: seq<byte>) {
    |txBuf| == |rxBuf| >= 2
  }

  /** The state left by the driver's initialisation, for buffers of any contents. */
  function Init(txBuf: seq<byte>, rxBuf: seq<byte>, timeout: nat, txSpace: nat): State {
    State(Tx(txBuf, 0, 0, WIdle, [], []), Rx(rxBuf, 0, 0, [], RIdle, [], [], []),
          Host(0, timeout, false), Enables(true, false, true, false), txSpace, IIdle)
  }

  /** Return value of either call: bytes moved, or the error when there are none. */
  function Result(moved: nat, nonblock: bool): int {
    if moved != 0 then moved else if nonblock then -EWOULDBLOCK else -EIO
  }

  function Min(a: nat, b: nat): nat {
    if a < b then a else b
  }

  // ---------------------------------------------------------------- the writer thread

  predicate TxShape(tx: Tx) {
    && |tx.buf| >= 2 && tx.wr < |tx.buf| && tx.rd < |tx.buf|
    && (tx.writer.WActive? ==>
          var (c, pc) := (tx.writer.call, tx.writer.pc);
          && c.done <= |c.src|
          && (pc.WCopy? ==> pc.j <= pc.n && pc.wr + pc.n <= |tx.buf| && c.done + pc.n <= |c.src|))
  }

  predicate WriterRuns(tx: Tx) {
    tx.writer.WActive? && !tx.writer.pc.WDone?
  }

  function StepWriter(tx: Tx, host: Host): Tx
    requires TxShape(tx) && WriterRuns(tx)
  {
    var c := tx.writer.call;
    match tx.writer.pc
    case WSnap =>
      if c.done == |c.src| then tx.(writer := WActive(c, WKick))
      else
        var n := WriteRun(|tx.buf|, tx.rd, tx.wr);
        var c' := c.(out := tx.rd);
        if n == 0 then tx.(writer := WActive(c', WKick))
        else tx.(writer := WActive(c', WCopy(tx.wr, Min(n, |c.src| - c.done), 0)))
    case WCopy(wr, n, j) =>
      if j < n then
        tx.(buf := tx.buf[wr + j := c.src[c.done + j]], writer := WActive(c, WCopy(wr, n, j + 1)))
      else
        tx.(wr := (wr + n) % |tx.buf|,
            accepted := tx.accepted + c.src[c.done..c.done + n],
            writer := WActive(c.(done := c.done + n, stored := true), WSnap))
    case WKick =>
      tx.(writer := WActive(c.(stored := false),
                            if c.done == |c.src| || c.nonblock then WDone(Result(c.done, c.nonblock))
                            else WSpinOut))
    case WSpinOut =>
      tx.(writer := WActive(c, if c.out != tx.rd then WCheck else WSpinHost))
    case WSpinHost =>
      tx.(writer := WActive(c, if host.inactive < host.timeout then WSpinOut else WCheck))
    case WCheck =>
      if host.inactive != 0 then
        tx.(writer := WActive(c.(sawInactive := true), WDone(Result(c.done, c.nonblock))))
      else tx.(writer := WActive(c, WSnap))
  }

  // ---------------------------------------------------------------- the reader thread

  predicate RxShape(rx: Rx) {
    && |rx.buf| >= 2 && rx.wr < |rx.buf| && rx.rd < |rx.buf|
    && (rx.reader.RActive? ==>
          var (c, pc) := (rx.reader.call, rx.reader.pc);
          && |c.got| <= c.space
          && (pc.RCopy? ==> |pc.part| <= pc.n && pc.rd + pc.n <= |rx.buf| && |c.got| + pc.n <= c.space))
  }

  predicate ReaderRuns(rx: Rx) {
    rx.reader.RActive? && !rx.reader.pc.RDone?
  }

  function StepReader(rx: Rx, host: Host): Rx
    requires RxShape(rx) && ReaderRuns(rx)
  {
    var c := rx.reader.call;
    match rx.reader.pc
    case RSnap =>
      if |c.got| == c.space then
        rx.(reader := RActive(c, if c.got != [] then RKick else RDone(Result(0, c.nonblock))))
      else
        var n := ReadRun(|rx.buf|, rx.rd, rx.wr);
        var c' := c.(snapIn := rx.wr);
        if n != 0 then rx.(reader := RActive(c', RCopy(rx.rd, Min(n, c.space - |c.got|), [])))
        else if c.got != [] then rx.(reader := RActive(c', RKick))
        else if c.nonblock then rx.(reader := RActive(c', RDone(Result(0, true))))
        else rx.(reader := RActive(c', RSpinIn))
    case RCopy(rd, n, part) =>
      if |part| < n then
        rx.(reader := RActive(c, RCopy(rd, n, part + [rx.buf[rd + |part|]])))
      else
        rx.(rd := (rd + n) % |rx.buf|,
            delivered := rx.delivered + part,
            reader := RActive(c.(got := c.got + part, moved := true), RSnap))
    case RSpinIn =>
      rx.(reader := RActive(c, if c.snapIn != rx.wr then RCheck else RSpinHost))
    case RSpinHost =>
      if host.inactive < host.timeout then rx.(reader := RActive(c, RSpinIn))
      else rx.(reader := RActive(c.(sawTimeout := true), RCheck))
    case RCheck =>
      rx.(reader := RActive(c, if c.snapIn == rx.wr then RDone(Result(0, c.nonblock)) else RSnap))
    case RKick =>
      rx.(reader := RActive(c.(moved := false), RDone(Result(|c.got|, c.nonblock))))
  }

  // ---------------------------------------------------------------- the interrupt routine

  /** Moving the head of the device's FIFO into the receive ring. */
  function PopFifo(rx: Rx): Rx
    requires RxShape(rx) && rx.fifo != []
  {
    rx.(buf := rx.buf[rx.wr := rx.fifo[0]], wr := (rx.wr + 1) % |rx.buf|,
        fifo := rx.fifo[1..], popped := rx.popped + [rx.fifo[0]])
  }

  /** Writing the oldest byte of the transmit ring to the device; a full device drops it. */
  function PushByte(tx: Tx, txSpace: nat): Tx
    requires TxShape(tx)
  {
    tx.(rd := (tx.rd + 1) % |tx.buf|,
        sent := if txSpace > 0 then tx.sent + [tx.buf[tx.rd]] else tx.sent)
  }

  /** The write of irq_enable to the control register. */
  function Post(en: Enables): Enables {
    en.(devRe := en.re, devWe := en.we)
  }

  function AfterRx(wi: bool, space: nat): Isr {
    if wi then ITx(space) else IControl
  }

  function StepIsr(s: State): State
    requires TxShape(s.tx) && RxShape(s.rx) && !s.isr.IIdle? && !s.isr.IControl?
  {
    match s.isr
    case IRx(wi, space, ravail) =>
      if (s.rx.wr + 1) % |s.rx.buf| == s.rx.rd then
        s.(isr := if ravail > 0 then IRxMask(wi, space) else AfterRx(wi, space))
      else if s.rx.fifo == [] then
        s.(isr := AfterRx(wi, space))
      else
        s.(rx := PopFifo(s.rx), isr := IRx(wi, space, |s.rx.fifo| - 1))
    case IRxMask(wi, space) => s.(en := s.en.(re := false), isr := IRxPost(wi, space))
    case IRxPost(wi, space) => s.(en := Post(s.en), isr := AfterRx(wi, space))
    case ITx(space) =>
      if space > 0 && s.tx.rd != s.tx.wr then
        s.(tx := PushByte(s.tx, s.txSpace),
           txSpace := if s.txSpace > 0 then s.txSpace - 1 else 0,
           isr := ITx(space - 1))
      else if space > 0 then s.(en := s.en.(we := false), isr := ITxPost)
      else s.(isr := IControl)
    case ITxPost => s.(en := Post(s.en), isr := IControl)
  }

  /** The once-a-second alarm. */
  function StepTimeout(s: State): State {
    if s.host.activity then s.(en := Post(s.en), host := s.host.(inactive := 0, activity := false))
    else if s.host.inactive < INT_MAX - 2 then s.(host := s.host.(inactive := s.host.inactive + 1))
    else s
  }

  // ---------------------------------------------------------------- the transition system

  predicate Enabled(s: State, l: Label) {
    TxShape(s.tx) && RxShape(s.rx) &&
    match l
    case WriteCalled(_, _) => s.isr.IIdle? && s.tx.writer.WIdle?
    case WriteStep => s.isr.IIdle? && WriterRuns(s.tx)
    case WriteReturn => s.isr.IIdle? && s.tx.writer.WActive? && s.tx.writer.pc.WDone?
    case ReadCalled(_, _) => s.isr.IIdle? && s.rx.reader.RIdle?
    case ReadStep => s.isr.IIdle? && ReaderRuns(s.rx)
    case ReadReturn => s.isr.IIdle? && s.rx.reader.RActive? && s.rx.reader.pc.RDone?
    case IsrEnter => s.isr.IIdle?
    case IsrControl(ri, wi) =>
      && s.isr.IControl?
      && (ri ==> s.en.devRe && s.rx.fifo != [])
      && (wi ==> s.en.devWe && s.txSpace > 0)
    case IsrStep => !s.isr.IIdle? && !s.isr.IControl?
    case Timeout => s.isr.IIdle?
    case HwArrive(_) => true
    case HwDrain => true
    case HwActivity => true
  }

  function Step(s: State, l: Label): State
    requires Enabled(s, l)
  {
    match l
    case WriteCalled(src, nonblock) =>
      s.(tx := s.tx.(writer := WActive(WriteCall(src, nonblock, 0, 0, s.tx.accepted, false, false), WSnap)))
    case WriteStep =>
      s.(tx := StepWriter(s.tx, s.host),
         en := if s.tx.writer.pc.WKick? then Post(s.en.(we := true)) else s.en)
    case WriteReturn => s.(tx := s.tx.(writer := WIdle))
    case ReadCalled(space, nonblock) =>
      s.(rx := s.rx.(reader := RActive(ReadCall(space, nonblock, [], 0, s.rx.delivered, false, false), RSnap)))
    case ReadStep =>
      s.(rx := StepReader(s.rx, s.host),
         en := if s.rx.reader.pc.RKick? then Post(s.en.(re := true)) else s.en)
    case ReadReturn => s.(rx := s.rx.(reader := RIdle))
    case IsrEnter => s.(isr := IControl)
    case IsrControl(ri, wi) =>
      s.(isr := if ri then IRx(wi, s.txSpace, 1) else if wi then ITx(s.txSpace) else IIdle)
    case IsrStep => StepIsr(s)
    case Timeout => StepTimeout(s)
    case HwArrive(b) => s.(rx := s.rx.(fifo := s.rx.fifo + [b], arrived := s.rx.arrived + [b]))
    case HwDrain => s.(txSpace := s.txSpace + 1)
    case HwActivity => s.(host := s.host.(activity := true))
  }

  /** `run` can be executed from s, label by label. */
  predicate CanRun(s: State, run: seq<Label>)
    decreases |run|
  {
    run == [] || (Enabled(s, run[0]) && CanRun(Step(s, run[0]), run[1..]))
  }

  function Exec(s: State, run: seq<Label>): State
    requires CanRun(s, run)
    decreases |run|
  {
    if run == [] then s else Exec(Step(s, run[0]), run[1..])
  }

  // ---------------------------------------------------------------- the invariant

  function TxRing(tx: Tx): (q: seq<byte>)
    requires TxShape(tx)
    ensures |q| == Used(|tx.buf|, tx.rd, tx.wr)
  {
    Contents(tx.buf, tx.rd, tx.wr)
  }

  function RxRing(rx: Rx): (q: seq<byte>)
    requires RxShape(rx)
    ensures |q| == Used(|rx.buf|, rx.rd, rx.wr)
  {
    Contents(rx.buf, rx.rd, rx.wr)
  }

  predicate TxFull(tx: Tx)
    requires TxShape(tx)
  {
    |TxRing(tx)| == |tx.buf| - 1
  }

  predicate RxFull(rx: Rx)
    requires RxShape(rx)
  {
    |RxRing(rx)| == |rx.buf| - 1
  }

  /** Transmit direction: no accepted byte is lost, duplicated, reordered or overwritten. */
  predicate TxStream(tx: Tx)
    requires TxShape(tx)
  {
    tx.accepted == tx.sent + TxRing(tx)
  }

  /** Receive direction: what the device took in is what readers got, then the ring, then the FIFO. */
  predicate RxStream(rx: Rx)
    requires RxShape(rx)
  {
    && rx.popped == rx.delivered + RxRing(rx)
    && rx.arrived == rx.popped + rx.fifo
  }

  predicate WriterInv(tx: Tx)
    requires TxShape(tx)
  {
    tx.writer.WActive? ==>
      var c := tx.writer.call;
      && tx.accepted == c.base + c.src[..c.done]
      && match tx.writer.pc
         case WSnap => true
         case WCopy(wr, n, j) =>
           && wr == tx.wr
           && 1 <= n <= |tx.buf| - 1 - |TxRing(tx)|
           && tx.buf[wr..wr + j] == c.src[c.done..c.done + j]
         case WKick => c.done < |c.src| ==> FoundFull(tx, c)
         case WSpinOut => WaitsForSpace(tx, c)
         case WSpinHost => WaitsForSpace(tx, c)
         case WCheck => WaitsForSpace(tx, c)
         case WDone(rc) =>
           && !c.stored
           && rc == Result(c.done, c.nonblock)
           && (c.done < |c.src| ==> c.nonblock || c.sawInactive)
  }

  /** At the writer's snapshot of tx_out the ring was full, and tx_in has not moved since. */
  predicate FoundFull(tx: Tx, c: WriteCall)
    requires TxShape(tx)
  {
    c.out < |tx.buf| && Used(|tx.buf|, c.out, tx.wr) == |tx.buf| - 1
  }

  predicate WaitsForSpace(tx: Tx, c: WriteCall)
    requires TxShape(tx)
  {
    !c.stored && !c.nonblock && c.done < |c.src| && FoundFull(tx, c)
  }

  predicate ReaderInv(rx: Rx)
    requires RxShape(rx)
  {
    rx.reader.RActive? ==>
      var c := rx.reader.call;
      && rx.delivered == c.base + c.got
      && match rx.reader.pc
         case RSnap => c.moved <==> c.got != []
         case RCopy(rd, n, part) =>
           && rd == rx.rd
           && 1 <= n <= |RxRing(rx)|
           && part == rx.buf[rd..rd + |part|]
           && (c.moved <==> c.got != [])
         case RSpinIn => WaitsForByte(rx, c)
         case RSpinHost => WaitsForByte(rx, c)
         case RCheck => WaitsForByte(rx, c) && (c.sawTimeout || RxRing(rx) != [])
         case RKick => c.got != [] && c.moved
         case RDone(rc) =>
           && !c.moved
           && rc == Result(|c.got|, c.nonblock)
           && (c.got == [] && !c.nonblock && c.space > 0 ==> c.sawTimeout)
  }

  /** The reader has found the ring empty and moved nothing yet. */
  predicate WaitsForByte(rx: Rx, c: ReadCall)
    requires RxShape(rx)
  {
    c.got == [] && !c.nonblock && !c.moved && c.snapIn == rx.rd && c.space > 0
  }

  predicate TxInv(tx: Tx) {
    TxShape(tx) && TxStream(tx) && WriterInv(tx)
  }

  predicate RxInv(rx: Rx) {
    RxShape(rx) && RxStream(rx) && ReaderInv(rx)
  }

  /** The writer has stored tx_in and not yet set WE. */
  predicate OwesTxKick(tx: Tx) {
    tx.writer.WActive? && tx.writer.call.stored
  }

  /** The reader has stored rx_out and not yet set RE. */
  predicate OwesRxKick(rx: Rx) {
    rx.reader.RActive? && rx.reader.call.moved
  }

  /** No lost wake-up: queued bytes keep WE set, and RE is clear only while the ring is full. */
  predicate WakeUp(s: State)
    requires TxShape(s.tx) && RxShape(s.rx)
  {
    && (TxRing(s.tx) != [] ==> s.en.we || OwesTxKick(s.tx))
    && (!s.en.re ==> RxFull(s.rx) || OwesRxKick(s.rx))
  }

  /** The device's enable bits equal irq_enable, except between the two halves of an update. */
  predicate EnablesAgree(s: State) {
    && (!s.isr.IRxPost? ==> s.en.devRe == s.en.re)
    && (!s.isr.ITxPost? ==> s.en.devWe == s.en.we)
  }

  predicate IsrInv(s: State)
    requires TxShape(s.tx) && RxShape(s.rx)
  {
    match s.isr
    case IIdle => true
    case IControl => true
    case IRx(wi, space, _) => space <= s.txSpace
    case IRxMask(wi, space) => space <= s.txSpace && RxFull(s.rx)
    case IRxPost(wi, space) => space <= s.txSpace && RxFull(s.rx) && !s.en.re
    case ITx(space) => space <= s.txSpace
    case ITxPost => TxRing(s.tx) == [] && !s.en.we
  }

  predicate Inv(s: State) {
    TxInv(s.tx) && RxInv(s.rx) && WakeUp(s) && EnablesAgree(s) && IsrInv(s)
  }

  lemma InitInv(txBuf: seq<byte>, rxBuf: seq<byte>, timeout: nat, txSpace: nat)
    requires BuffersOk(txBuf, rxBuf)
    ensures Inv(Init(txBuf, rxBuf, timeout, txSpace))
  {
  }

  /** A stream is unchanged when the front of its queued part joins its consumed part. */
  lemma MoveFront<T>(stream: seq<T>, out: seq<T>, queue: seq<T>, x: seq<T>, queue': seq<T>)
    requires stream == out + queue && queue == x + queue'
    ensures stream == (out + x) + queue'
  {
  }

  lemma AppendBack<T>(stream: seq<T>, out: seq<T>, queue: seq<T>, x: seq<T>)
    requires stream == out + queue
    ensures stream + x == out + (queue + x)
  {
  }

  lemma WriterCopiesByte(tx: Tx, host: Host)
    requires TxInv(tx) && WriterRuns(tx) && tx.writer.pc.WCopy? && tx.writer.pc.j < tx.writer.pc.n
    ensures var t := StepWriter(tx, host); TxInv(t) && TxRing(t) == TxRing(tx)
  {
    hide Contents;
    var c := tx.writer.call;
    var WCopy(wr, n, j) := tx.writer.pc;
    var t := StepWriter(tx, host);
    FreeCellWrite(tx.buf, tx.rd, tx.wr, j, c.src[c.done + j]);
    assert t.buf[wr..wr + j + 1] == tx.buf[wr..wr + j] + [c.src[c.done + j]];
  }

  lemma WriterPublishes(tx: Tx, host: Host)
    requires TxInv(tx) && WriterRuns(tx) && tx.writer.pc.WCopy? && tx.writer.pc.j == tx.writer.pc.n
    ensures TxInv(StepWriter(tx, host))
    ensures var (c, n) := (tx.writer.call, tx.writer.pc.n);
            TxRing(StepWriter(tx, host)) == TxRing(tx) + c.src[c.done..c.done + n]
  {
    hide Contents;
    var c := tx.writer.call;
    var n := tx.writer.pc.n;
    var x := c.src[c.done..c.done + n];
    var t := StepWriter(tx, host);
    assert TxShape(t) && TxRing(t) == TxRing(tx) + x by {
      Extend(tx.buf, tx.rd, tx.wr, n);
    }
    AppendBack(tx.accepted, tx.sent, TxRing(tx), x);
    AppendBack(tx.accepted, c.base, c.src[..c.done], x);
    assert c.src[..c.done + n] == c.src[..c.done] + x;
  }

  lemma WriterKeepsTxInv(tx: Tx, host: Host)
    requires TxInv(tx) && WriterRuns(tx)
    ensures var t := StepWriter(tx, host);
            TxInv(t) && (TxRing(t) == TxRing(tx) || OwesTxKick(t))
    ensures tx.writer.pc.WKick? || (OwesTxKick(tx) ==> OwesTxKick(StepWriter(tx, host)))
  {
    if tx.writer.pc.WCopy? {
      if tx.writer.pc.j < tx.writer.pc.n {
        WriterCopiesByte(tx, host);
      } else {
        WriterPublishes(tx, host);
      }
    }
  }

  /** Releasing n cells of a ring moves them from the queued part of its stream to the consumed. */
  lemma ReleaseFront<T>(buf: seq<T>, rd: nat, wr: nat, n: nat, stream: seq<T>, out: seq<T>)
    requires rd < |buf| && wr < |buf| && rd + n <= |buf| && n <= Used(|buf|, rd, wr)
    requires stream == out + Contents(buf, rd, wr)
    ensures Contents(buf, rd, wr) == buf[rd..rd + n] + Contents(buf, (rd + n) % |buf|, wr)
    ensures stream == (out + buf[rd..rd + n]) + Contents(buf, (rd + n) % |buf|, wr)
  {
    hide Contents, Used;
    Release(buf, rd, wr, n);
    MoveFront(stream, out, Contents(buf, rd, wr), buf[rd..rd + n], Contents(buf, (rd + n) % |buf|, wr));
  }

  lemma ReaderReleases(rx: Rx, host: Host)
    requires RxInv(rx) && ReaderRuns(rx) && rx.reader.pc.RCopy? && |rx.reader.pc.part| == rx.reader.pc.n
    ensures RxInv(StepReader(rx, host))
    ensures RxRing(rx) == rx.reader.pc.part + RxRing(StepReader(rx, host))
  {
    hide Contents, Used;
    ReleaseFront(rx.buf, rx.rd, rx.wr, rx.reader.pc.n, rx.popped, rx.delivered);
    assert StepReader(rx, host).delivered == rx.reader.call.base + StepReader(rx, host).reader.call.got;
  }

  lemma ReaderCopiesByte(rx: Rx, host: Host)
    requires RxInv(rx) && ReaderRuns(rx) && rx.reader.pc.RCopy? && |rx.reader.pc.part| < rx.reader.pc.n
    ensures RxInv(StepReader(rx, host))
  {
  }

  lemma ReaderSnaps(rx: Rx, host: Host)
    requires RxInv(rx) && ReaderRuns(rx) && rx.reader.pc.RSnap?
    ensures RxInv(StepReader(rx, host))
  {
  }

  lemma ReaderKeepsRxInv(rx: Rx, host: Host)
    requires RxInv(rx) && ReaderRuns(rx)
    ensures RxInv(StepReader(rx, host))
  {
    match rx.reader.pc
    case RSnap => ReaderSnaps(rx, host);
    case RCopy(_, n, part) =>
      if |part| < n {
        ReaderCopiesByte(rx, host);
      } else {
        ReaderReleases(rx, host);
      }
    case _ =>
  }

  /** Until its kick, a reader that has moved the ring owes the device the RE bit. */
  lemma ReaderKeepsDebt(rx: Rx, host: Host)
    requires RxInv(rx) && ReaderRuns(rx) && !rx.reader.pc.RKick?
    ensures var t := StepReader(rx, host);
            && RxShape(t)
            && (OwesRxKick(rx) ==> OwesRxKick(t))
            && (RxRing(t) == RxRing(rx) || OwesRxKick(t))
  {
    if rx.reader.pc.RCopy? {
      ModWrap(rx.reader.pc.rd + rx.reader.pc.n, |rx.buf|);
    }
  }

  lemma PopExtendsRing(rx: Rx)
    requires RxShape(rx) && rx.fifo != [] && (rx.wr + 1) % |rx.buf| != rx.rd
    ensures RxShape(PopFifo(rx))
    ensures RxRing(PopFifo(rx)) == RxRing(rx) + [rx.fifo[0]]
  {
    var t := PopFifo(rx);
    ModWrap(rx.wr + 1, |rx.buf|);
    FreeCellWrite(rx.buf, rx.rd, rx.wr, 0, rx.fifo[0]);
    Extend(t.buf, rx.rd, rx.wr, 1);
    assert t.buf[rx.wr..rx.wr + 1] == [rx.fifo[0]];
  }

  lemma PopKeepsRxInv(rx: Rx)
    requires RxInv(rx) && rx.fifo != [] && (rx.wr + 1) % |rx.buf| != rx.rd
    ensures RxInv(PopFifo(rx))
  {
    var t := PopFifo(rx);
    PopExtendsRing(rx);
    assert rx.fifo == [rx.fifo[0]] + rx.fifo[1..];
    if rx.reader.RActive? && rx.reader.pc.RCopy? {
      var RCopy(rd, n, part) := rx.reader.pc;
      assert t.buf[rd..rd + |part|] == rx.buf[rd..rd + |part|];
    }
  }

  lemma PushReleases(tx: Tx, txSpace: nat)
    requires TxShape(tx) && tx.rd != tx.wr
    ensures TxShape(PushByte(tx, txSpace))
    ensures TxRing(tx) == [tx.buf[tx.rd]] + TxRing(PushByte(tx, txSpace))
  {
    Release(tx.buf, tx.rd, tx.wr, 1);
    assert tx.buf[tx.rd..tx.rd + 1] == [tx.buf[tx.rd]];
  }

  lemma PushKeepsTxInv(tx: Tx, txSpace: nat)
    requires TxInv(tx) && tx.rd != tx.wr && txSpace > 0
    ensures TxInv(PushByte(tx, txSpace))
    ensures TxRing(tx) == [tx.buf[tx.rd]] + TxRing(PushByte(tx, txSpace))
  {
    hide Contents, Used;
    var t := PushByte(tx, txSpace);
    PushReleases(tx, txSpace);
    MoveFront(tx.accepted, tx.sent, TxRing(tx), [tx.buf[tx.rd]], TxRing(t));
  }

  lemma IsrReceivesKeepsInv(s: State)
    requires Inv(s) && Enabled(s, IsrStep) && s.isr.IRx?
    ensures Inv(StepIsr(s))
  {
    ModWrap(s.rx.wr + 1, |s.rx.buf|);
    if (s.rx.wr + 1) % |s.rx.buf| != s.rx.rd && s.rx.fifo != [] {
      PopKeepsRxInv(s.rx);
    }
  }

  lemma IsrSendsKeepsInv(s: State)
    requires Inv(s) && Enabled(s, IsrStep) && s.isr.ITx?
    ensures Inv(StepIsr(s))
  {
    if s.isr.space > 0 && s.tx.rd != s.tx.wr {
      PushKeepsTxInv(s.tx, s.txSpace);
    }
  }

  lemma IsrKeepsInv(s: State)
    requires Inv(s) && Enabled(s, IsrStep)
    ensures Inv(StepIsr(s))
  {
    hide Contents, Used;
    match s.isr
    case IRx(_, _, _) => IsrReceivesKeepsInv(s);
    case ITx(_) => IsrSendsKeepsInv(s);
    case _ =>
  }

  lemma WriteStepKeepsInv(s: State)
    requires Inv(s) && Enabled(s, WriteStep)
    ensures Inv(Step(s, WriteStep))
  {
    WriterKeepsTxInv(s.tx, s.host);
  }

  lemma ReadStepKeepsInv(s: State)
    requires Inv(s) && Enabled(s, ReadStep)
    ensures Inv(Step(s, ReadStep))
  {
    ReaderKeepsRxInv(s.rx, s.host);
    if !s.rx.reader.pc.RKick? {
      ReaderKeepsDebt(s.rx, s.host);
    }
  }

  lemma CallOrReturnKeepsInv(s: State, l: Label)
    requires Inv(s) && Enabled(s, l)
    requires l.WriteCalled? || l.WriteReturn? || l.ReadCalled? || l.ReadReturn?
    ensures Inv(Step(s, l))
  {
  }

  lemma IsrEntersKeepsInv(s: State, l: Label)
    requires Inv(s) && Enabled(s, l) && (l.IsrEnter? || l.IsrControl?)
    ensures Inv(Step(s, l))
  {
    hide Contents, Used;
  }

  lemma TimeoutKeepsInv(s: State)
    requires Inv(s) && Enabled(s, Timeout)
    ensures Inv(Step(s, Timeout))
  {
    hide Contents, Used;
  }

  lemma DeviceKeepsInv(s: State, l: Label)
    requires Inv(s) && Enabled(s, l) && (l.HwArrive? || l.HwDrain? || l.HwActivity?)
    ensures Inv(Step(s, l))
  {
    hide Contents, Used;
  }

  lemma StepKeepsInv(s: State, l: Label)
    requires Inv(s) && Enabled(s, l)
    ensures Inv(Step(s, l))
  {
    match l
    case WriteStep => WriteStepKeepsInv(s);
    case ReadStep => ReadStepKeepsInv(s);
    case IsrStep => IsrKeepsInv(s);
    case WriteCalled(_, _) => CallOrReturnKeepsInv(s, l);
    case WriteReturn => CallOrReturnKeepsInv(s, l);
    case ReadCalled(_, _) => CallOrReturnKeepsInv(s, l);
    case ReadReturn => CallOrReturnKeepsInv(s, l);
    case IsrEnter => IsrEntersKeepsInv(s, l);
    case IsrControl(_, _) => IsrEntersKeepsInv(s, l);
    case Timeout => TimeoutKeepsInv(s);
    case _ => DeviceKeepsInv(s, l);
  }

  lemma {:induction false} RunKeepsInv(s: State, run: seq<Label>)
    requires Inv(s) && CanRun(s, run)
    ensures Inv(Exec(s, run))
    decreases |run|
  {
    if run != [] {
      StepKeepsInv(s, run[0]);
      RunKeepsInv(Step(s, run[0]), run[1..]);
    }
  }
}
