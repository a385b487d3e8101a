/** The JTAG UART fast driver as code.  Every shared access is preceded by `Preempt`, which runs
    any number of device events, timeout alarms and interrupts, and is recorded as a label of
    UartProtocol: the driver's history is a run of that protocol, so what UartTheorems proves of
    runs holds here. */
module UartDriver {
  import opened Common
  import opened RingBuffer
  import opened UartProtocol
  import opened UartTheorems

  /** A call that busy-waits either returns or is still waiting when its polls are used up. */
  datatype Outcome = Returned(rc: int) | Waiting

  /** What one turn of a busy wait saw: the ring index it waits for, and host_inactive. */
  datatype Look = Look(index: nat, inactive: nat)

  /** Every turn found the index where it was and the host below its timeout. */
  predicate AllInVain(looks: seq<Look>, index: nat, timeout: nat) {
    forall k :: 0 <= k < |looks| ==> looks[k].index == index && looks[k].inactive < timeout
  }

  /** run extends run0 and no call returned in between. */
  predicate Continues(run0: seq<Label>, run: seq<Label>) {
    && run0 <= run
    && forall k :: |run0| <= k < |run| ==> run[k] != WriteReturn && run[k] != ReadReturn
  }

  /** Nothing that belongs to a thread differs: its calls, the indices it owns, its streams. */
  predicate SameThreads(s: State, t: State) {
    && t.tx.writer == s.tx.writer && t.tx.wr == s.tx.wr && t.tx.accepted == s.tx.accepted
    && |s.tx.sent| <= |t.tx.sent|
    && t.rx.reader == s.rx.reader && t.rx.rd == s.rx.rd && t.rx.delivered == s.rx.delivered
    && t.host.timeout == s.host.timeout
  }

  /** Only the device acted between s and t, and n bytes arrived. */
  predicate DeviceActed(s: State, t: State, n: nat) {
    && t.tx == s.tx && t.en == s.en && t.isr == s.isr && s.txSpace <= t.txSpace
    && t.host == s.host.(activity := t.host.activity)
    && t.rx == s.rx.(fifo := t.rx.fifo, arrived := t.rx.arrived)
    && |t.rx.fifo| == |s.rx.fifo| + n
  }

  lemma AfterDevice(s: State, t: State, n: nat)
    requires TxShape(s.tx) && RxShape(s.rx) && DeviceActed(s, t, n)
    ensures TxShape(t.tx) && RxShape(t.rx) && SameThreads(s, t)
    ensures Work(t) == Work(s) + n
    ensures forall work: nat :: PassInv(s, work) ==> PassInv(t, work + n)
  {
  }

  // The interrupt routine's step at each of its program points.

  lemma AtPush(s: State)
    requires Inv(s) && s.isr.ITx? && s.isr.space > 0 && s.tx.rd != s.tx.wr
    ensures s.txSpace > 0 && Enabled(s, IsrStep)
    ensures StepIsr(s) == s.(tx := s.tx.(rd := (s.tx.rd + 1) % |s.tx.buf|, sent := s.tx.sent + [s.tx.buf[s.tx.rd]]),
                             txSpace := s.txSpace - 1, isr := ITx(s.isr.space - 1))
  {
  }

  lemma AtLeave(s: State)
    requires TxShape(s.tx) && RxShape(s.rx) && s.isr.IRx?
    requires (s.rx.wr + 1) % |s.rx.buf| == s.rx.rd || s.rx.fifo == []
    ensures Enabled(s, IsrStep)
    ensures StepIsr(s) == s.(isr := if (s.rx.wr + 1) % |s.rx.buf| == s.rx.rd && s.isr.ravail > 0
                                    then IRxMask(s.isr.wi, s.isr.space) else AfterRx(s.isr.wi, s.isr.space))
  {
  }

  lemma AtMask(s: State)
    requires TxShape(s.tx) && RxShape(s.rx)
    requires s.isr.IRxMask? || (s.isr.ITx? && s.isr.space > 0 && s.tx.rd == s.tx.wr)
    ensures Enabled(s, IsrStep)
    ensures StepIsr(s) == if s.isr.IRxMask? then s.(en := s.en.(re := false), isr := IRxPost(s.isr.wi, s.isr.space))
                          else s.(en := s.en.(we := false), isr := ITxPost)
  {
  }

  lemma AtPost(s: State)
    requires TxShape(s.tx) && RxShape(s.rx)
    requires s.isr.IRxPost? || s.isr.ITxPost?
    ensures Enabled(s, IsrStep)
    ensures StepIsr(s) == s.(en := Post(s.en),
                             isr := if s.isr.IRxPost? then AfterRx(s.isr.wi, s.isr.space) else IControl)
  {
  }

  /** A reader that waits keeps the snapshot at which it found the ring empty. */
  lemma AtWait(s: State)
    requires Inv(s) && WaitsInRead(s.rx)
    ensures s.rx.reader.call.snapIn == s.rx.rd
  {
  }

  lemma AtFailedRead(s: State)
    requires Inv(s) && s.rx.reader.RActive? && s.rx.reader.pc.RDone?
    requires s.rx.reader.call.got == [] && !s.rx.reader.call.nonblock && s.rx.reader.call.space > 0
    ensures s.rx.reader.call.sawTimeout
  {
  }

  // The threads' steps at their snapshots.

  lemma AtWriteSnap(tx: Tx, host: Host)
    requires TxShape(tx) && WriterRuns(tx) && tx.writer.pc.WSnap?
    ensures var (c, n) := (tx.writer.call, WriteRun(|tx.buf|, tx.rd, tx.wr));
            StepWriter(tx, host) == tx.(writer :=
              if c.done == |c.src| then WActive(c, WKick)
              else WActive(c.(out := tx.rd), if n == 0 then WKick else WCopy(tx.wr, Min(n, |c.src| - c.done), 0)))
  {
  }

  lemma AtReadSnap(rx: Rx, host: Host)
    requires RxShape(rx) && ReaderRuns(rx) && rx.reader.pc.RSnap?
    ensures var (c, n) := (rx.reader.call, ReadRun(|rx.buf|, rx.rd, rx.wr));
            StepReader(rx, host) == rx.(reader :=
              if |c.got| == c.space then RActive(c, if c.got != [] then RKick else RDone(Result(0, c.nonblock)))
              else RActive(c.(snapIn := rx.wr),
                           if n != 0 then RCopy(rx.rd, Min(n, c.space - |c.got|), [])
                           else if c.got != [] then RKick
                           else if c.nonblock then RDone(Result(0, true)) else RSpinIn))
  {
  }

  class JtagUart {
    // altera_avalon_jtag_uart_state
    const timeout: nat
    var irqRe: bool
    var irqWe: bool
    var hostInactive: nat
    var rxIn: nat
    var rxOut: nat
    var txIn: nat
    var txOut: nat
    const rxBuf: array<byte>
    const txBuf: array<byte>

    // the device
    var devRe: bool
    var devWe: bool
    var devAc: bool
    var devFifo: seq<byte>
    var devSpace: nat
    var devSent: seq<byte>

    // history
    ghost const start: State
    ghost var run: seq<Label>
    ghost var st: State
    ghost var mark: seq<Label>

    /** st is the protocol state after the labels recorded so far; `mark` is the history at the
        start of the current call, and no call has returned since. */
    ghost predicate Recorded()
      reads this
    {
      && Inv(start) && CanRun(start, run) && st == Exec(start, run)
      && Inv(st) && TxShape(st.tx) && RxShape(st.rx)
      && Continues(mark, run)
    }

    ghost predicate Valid()
      reads this, rxBuf, txBuf
    {
      && Recorded()
      && rxBuf != txBuf
      && st.tx.buf == txBuf[..] && st.tx.wr == txIn && st.tx.rd == txOut && st.tx.sent == devSent
      && st.rx.buf == rxBuf[..] && st.rx.wr == rxIn && st.rx.rd == rxOut && st.rx.fifo == devFifo
      && st.host == Host(hostInactive, timeout, devAc)
      && st.en == Enables(irqRe, irqWe, devRe, devWe)
      && st.txSpace == devSpace
    }

    /** No call is in progress in the given thread and no interrupt is being served. */
    ghost predicate CanWrite() reads this { st.isr.IIdle? && st.tx.writer.WIdle? }

    ghost predicate CanRead() reads this { st.isr.IIdle? && st.rx.reader.RIdle? }

    constructor (bufLen: nat, timeout: nat, space: nat)
      requires bufLen >= 2
      ensures Valid() && CanWrite() && CanRead() && run == [] && start == Init(txBuf[..], rxBuf[..], timeout, space)
      ensures fresh(rxBuf) && fresh(txBuf) && rxBuf.Length == txBuf.Length == bufLen
    {
      this.timeout := timeout;
      irqRe, irqWe := true, false;
      hostInactive := 0;
      rxIn, rxOut, txIn, txOut := 0, 0, 0, 0;
      var rx := new byte[bufLen];
      var tx := new byte[bufLen];
      rxBuf, txBuf := rx, tx;
      devRe, devWe, devAc, devFifo, devSpace, devSent := true, false, false, [], space, [];
      start := Init(tx[..], rx[..], timeout, space);
      run, mark := [], [];
      st := Init(tx[..], rx[..], timeout, space);
      new;
      InitInv(txBuf[..], rxBuf[..], timeout, space);
    }

    /** Record one step of the protocol. */
    ghost method Take(l: Label)
      requires Recorded() && Enabled(st, l) && l != WriteReturn && l != ReadReturn
      modifies this`st, this`run
      ensures Recorded()
      ensures st == Step(old(st), l) && run == old(run) + [l]
    {
      StepKeepsInv(st, l);
      RunAppend(start, run, l);
      st, run := Step(st, l), run + [l];
    }

    // -------------------------------------------------------------- the device and the alarm

    /** One device event; a byte arrives only if the budget allows it. */
    method DeviceEvent(budget: nat) returns (rest: nat)
      requires Valid()
      modifies this`devFifo, this`devSpace, this`devAc, this`st, this`run
      ensures Valid() && mark == old(mark)
      ensures rest <= budget && DeviceActed(old(st), st, budget - rest)
    {
      hide Inv, CanRun, Exec, Continues;
      rest := budget;
      ghost var l := HwActivity;
      var event: nat := *;
      if event == 0 && budget > 0 {
        var b: byte := *;
        devFifo := devFifo + [b];
        rest := budget - 1;
        l := HwArrive(b);
      } else if event == 1 {
        devSpace := devSpace + 1;
        l := HwDrain;
      } else {
        devAc := true;
      }
      Take(l);
    }

    /** Device events; at most `budget` bytes arrive, and what is left of it is returned. */
    method Device(budget: nat) returns (rest: nat)
      requires Valid()
      modifies this`devFifo, this`devSpace, this`devAc, this`st, this`run
      ensures Valid() && mark == old(mark)
      ensures rest <= budget && DeviceActed(old(st), st, budget - rest)
    {
      hide Valid;
      rest := budget;
      var events: nat := *;
      while events > 0
        invariant Valid() && mark == old(mark)
        invariant rest <= budget && DeviceActed(old(st), st, budget - rest)
      {
        rest := DeviceEvent(rest);
        events := events - 1;
      }
    }

    /** Device events during a pass of the interrupt routine. */
    method DeviceInPass(budget: nat, ghost total: nat) returns (rest: nat)
      requires Valid() && budget <= total && PassInv(st, total - budget)
      modifies this`devFifo, this`devSpace, this`devAc, this`st, this`run
      ensures Valid() && mark == old(mark) && SameThreads(old(st), st)
      ensures rest <= total && PassInv(st, total - rest)
      ensures st.isr == old(st.isr) && |devFifo| + rest == |old(devFifo)| + budget
    {
      hide Inv, CanRun, Exec, Continues, PassInv, Work;
      rest := Device(budget);
      AfterDevice(old(st), st, budget - rest);
    }

    /** altera_avalon_jtag_uart_timeout */
    method TimeoutAlarm()
      requires Valid() && st.isr.IIdle?
      modifies this`devRe, this`devWe, this`devAc, this`hostInactive, this`st, this`run
      ensures Valid() && st.isr.IIdle? && mark == old(mark)
      ensures st.tx == old(st.tx) && st.rx == old(st.rx)
      ensures !devAc && (old(devAc) ==> devRe == irqRe && devWe == irqWe)
      ensures hostInactive == if old(devAc) then 0
                              else if old(hostInactive) < INT_MAX - 2 then old(hostInactive) + 1
                              else old(hostInactive)
    {
      hide Inv, CanRun, Exec, Continues;
      if devAc {
        devRe, devWe, devAc := irqRe, irqWe, false;
        hostInactive := 0;
      } else if hostInactive < INT_MAX - 2 {
        hostInactive := hostInactive + 1;
      }
      Take(Timeout);
    }

    // -------------------------------------------------------------- the interrupt routine

    /** altera_avalon_jtag_uart_irq, while at most `arrivals` more bytes reach the device.  It
        terminates: each pass does some of the remaining work. */
    method Irq(arrivals: nat)
      requires Valid() && st.isr.IIdle?
      modifies this, rxBuf
      ensures Valid() && st.isr.IIdle? && mark == old(mark)
      ensures SameThreads(old(st), st)
    {
      hide Inv, CanRun, Exec, Continues, PassInv, Work;
      var budget := arrivals;
      Take(IsrEnter);
      var more := true;
      while more
        invariant Valid() && mark == old(mark)
        invariant st.isr == if more then IControl else IIdle
        invariant SameThreads(old(st), st)
        decreases more, Work(st) + budget
      {
        ghost var s := st;
        var rest := Device(budget);
        AfterDevice(s, st, budget - rest);
        more, budget := IrqPass(rest);
      }
    }

    /** One pass of the outer loop; it does some of the work, or finds none and exits. */
    method IrqPass(budget0: nat) returns (more: bool, budget: nat)
      requires Valid() && st.isr.IControl?
      modifies this, rxBuf
      ensures Valid() && mark == old(mark)
      ensures st.isr == if more then IControl else IIdle
      ensures SameThreads(old(st), st)
      ensures more ==> Work(st) + budget < old(Work(st)) + budget0
    {
      hide Inv, CanRun, Exec, Continues, PassInv, Work;
      budget := budget0;
      var ri, wi := ReadControl();
      var space := devSpace;
      ghost var total := Work(st) + budget;
      more := ri || wi;
      if more {
        PassStarts(st, ri, wi);
      }
      Take(IsrControl(ri, wi));
      if ri {
        budget := IrqReceive(wi, space, budget, total);
      }
      if wi {
        budget := IrqTransmit(space, budget, total);
      }
      if more {
        PassEnds(st, total - budget);
      }
    }

    /** The RI and WI bits of the control register. */
    method ReadControl() returns (ri: bool, wi: bool)
      ensures ri ==> devRe && devFifo != []
      ensures wi ==> devWe && devSpace > 0
    {
      ri, wi := *, *;
      ri := ri && devRe && devFifo != [];
      wi := wi && devWe && devSpace > 0;
    }

    /** One step of the interrupt routine, in a pass that started with `work` to do. */
    ghost method TakeIsr(work: nat)
      requires Recorded() && Enabled(st, IsrStep) && PassInv(st, work)
      modifies this`st, this`run
      ensures Recorded() && mark == old(mark)
      ensures st == StepIsr(old(st)) && PassInv(st, work) && SameThreads(old(st), st)
    {
      hide Inv, CanRun, Exec, Continues, PassInv, Work;
      PassAdvances(st, IsrStep, work);
      Take(IsrStep);
    }

    /** Move one byte from the device to the receive ring. */
    method PopByte(ghost work: nat)
      requires Valid() && st.isr.IRx? && PassInv(st, work)
      requires devFifo != [] && (rxIn + 1) % rxBuf.Length != rxOut
      modifies this`devFifo, this`rxIn, this`st, this`run, rxBuf
      ensures Valid() && mark == old(mark) && PassInv(st, work) && SameThreads(old(st), st)
      ensures devFifo == old(devFifo)[1..]
      ensures st.isr == old(st.isr).(ravail := |devFifo|)
    {
      hide Inv, CanRun, Exec, Continues, PassInv, Work;
      var data := devFifo[0];
      devFifo := devFifo[1..];
      rxBuf[rxIn] := data;
      rxIn := (rxIn + 1) % rxBuf.Length;
      TakeIsr(work);
    }

    /** Move bytes to the receive ring until it is full or the device has none left. */
    method PopAll(wi: bool, space: nat, budget0: nat, ghost total: nat) returns (budget: nat, ravail: nat)
      requires Valid() && st.isr == IRx(wi, space, 1)
      requires budget0 <= total && PassInv(st, total - budget0)
      modifies this, rxBuf
      ensures Valid() && mark == old(mark)
      ensures budget <= total && PassInv(st, total - budget)
      ensures st.isr.IRx? && st.isr.wi == wi && st.isr.space == space
      ensures if (rxIn + 1) % rxBuf.Length == rxOut then st.isr.ravail == ravail else ravail == 0 && devFifo == []
      ensures SameThreads(old(st), st)
    {
      hide Inv, CanRun, Exec, Continues, PassInv, Work, StepIsr;
      budget := budget0;
      ravail := 1;
      while true
        invariant Valid() && mark == old(mark)
        invariant st.isr == IRx(wi, space, ravail)
        invariant budget <= total && PassInv(st, total - budget)
        invariant SameThreads(old(st), st)
        decreases |devFifo| + budget
      {
        budget := DeviceInPass(budget, total);
        if (rxIn + 1) % rxBuf.Length == rxOut {
          break;
        }
        if devFifo == [] {
          ravail := 0;
          break;
        }
        PopByte(total - budget);
        ravail := |devFifo|;
      }
    }

    method IrqReceive(wi: bool, space: nat, budget0: nat, ghost total: nat) returns (budget: nat)
      requires Valid() && st.isr == IRx(wi, space, 1)
      requires budget0 <= total && PassInv(st, total - budget0)
      modifies this, rxBuf
      ensures Valid() && mark == old(mark)
      ensures budget <= total && PassInv(st, total - budget)
      ensures st.isr == AfterRx(wi, space)
      ensures SameThreads(old(st), st)
    {
      hide Inv, CanRun, Exec, Continues, PassInv, Work, StepIsr;
      var ravail;
      budget, ravail := PopAll(wi, space, budget0, total);
      AtLeave(st);
      TakeIsr(total - budget);
      if ravail != 0 {
        // the ring is full: no receive interrupts until some space becomes available
        ClearEnable(true, total - budget);
        budget := DeviceInPass(budget, total);
        PostEnables(total - budget);
      }
    }

    /** Move one byte from the transmit ring to the device. */
    method PushNext(ghost work: nat)
      requires Valid() && st.isr.ITx? && PassInv(st, work)
      requires st.isr.space > 0 && txOut != txIn
      modifies this`devSent, this`devSpace, this`txOut, this`st, this`run
      ensures Valid() && mark == old(mark) && PassInv(st, work) && SameThreads(old(st), st)
      ensures st.isr == ITx(old(st.isr).space - 1)
    {
      hide Inv, CanRun, Exec, Continues, PassInv, Work, StepIsr;
      AtPush(st);
      devSent := devSent + [txBuf[txOut]];
      devSpace := devSpace - 1;
      txOut := (txOut + 1) % txBuf.Length;
      TakeIsr(work);
    }

    method IrqTransmit(space0: nat, budget0: nat, ghost total: nat) returns (budget: nat)
      requires Valid() && st.isr == ITx(space0)
      requires budget0 <= total && PassInv(st, total - budget0)
      modifies this
      ensures Valid() && mark == old(mark)
      ensures budget <= total && PassInv(st, total - budget)
      ensures st.isr.IControl?
      ensures SameThreads(old(st), st)
    {
      hide Inv, CanRun, Exec, Continues, PassInv, Work;
      budget := budget0;
      var space := space0;
      while space > 0 && txOut != txIn
        invariant Valid() && mark == old(mark)
        invariant st.isr == ITx(space)
        invariant budget <= total && PassInv(st, total - budget)
        invariant SameThreads(old(st), st)
        decreases space
      {
        budget := DeviceInPass(budget, total);
        PushNext(total - budget);
        space := space - 1;
      }
      if space > 0 {
        // nothing is left to send
        ClearEnable(false, total - budget);
        budget := DeviceInPass(budget, total);
        PostEnables(total - budget);
      } else {
        TakeIsr(total - budget);
      }
    }

    /** Clear RE when the receive ring is full, or WE when there is nothing left to send. */
    method ClearEnable(inReceive: bool, ghost work: nat)
      requires Valid() && PassInv(st, work)
      requires if inReceive then st.isr.IRxMask? else (st.isr.ITx? && st.isr.space > 0 && txOut == txIn)
      modifies this`irqRe, this`irqWe, this`st, this`run
      ensures Valid() && mark == old(mark) && PassInv(st, work) && SameThreads(old(st), st)
      ensures st.isr == if old(st.isr).IRxMask? then IRxPost(old(st.isr).wi, old(st.isr).space) else ITxPost
    {
      hide Inv, CanRun, Exec, Continues, PassInv, Work, StepIsr;
      if inReceive {
        irqRe := false;
      } else {
        irqWe := false;
      }
      AtMask(st);
      TakeIsr(work);
    }

    /** Write irq_enable to the control register. */
    method PostEnables(ghost work: nat)
      requires Valid() && PassInv(st, work)
      requires st.isr.IRxPost? || st.isr.ITxPost?
      modifies this`devRe, this`devWe, this`st, this`run
      ensures Valid() && mark == old(mark) && PassInv(st, work) && SameThreads(old(st), st)
      ensures st.isr == if old(st.isr).IRxPost? then AfterRx(old(st.isr).wi, old(st.isr).space) else IControl
    {
      hide Inv, CanRun, Exec, Continues, PassInv, Work, StepIsr;
      devRe, devWe := irqRe, irqWe;
      AtPost(st);
      TakeIsr(work);
    }

    /** What may happen before any shared access of a thread. */
    method Preempt()
      requires Valid() && st.isr.IIdle?
      modifies this, rxBuf
      ensures Valid() && st.isr.IIdle? && mark == old(mark)
      ensures SameThreads(old(st), st)
    {
      hide Inv, CanRun, Exec, Continues;
      var events: nat := *;
      while events > 0
        invariant Valid() && st.isr.IIdle? && mark == old(mark)
        invariant SameThreads(old(st), st)
      {
        var event: nat := *;
        var arrivals: nat := *;
        if event == 0 {
          TimeoutAlarm();
        } else if event == 1 {
          Irq(arrivals);
        } else {
          var _ := Device(arrivals);
        }
        events := events - 1;
      }
    }

    // -------------------------------------------------------------- altera_avalon_jtag_uart_write

    /** A write call with these arguments is in progress, `done` bytes into its data. */
    ghost predicate Writing(src: seq<byte>, nonblock: bool, done: nat)
      reads this
    {
      && st.isr.IIdle? && st.tx.writer.WActive?
      && st.tx.writer.call.src == src && st.tx.writer.call.nonblock == nonblock
      && st.tx.writer.call.done == done
    }

    ghost method TakeWrite()
      requires Recorded() && st.isr.IIdle? && WriterRuns(st.tx)
      modifies this`st, this`run
      ensures Recorded()
      ensures st == old(st).(tx := StepWriter(old(st).tx, old(st).host), en := st.en)
      ensures st.en == if old(st).tx.writer.pc.WKick? then Post(old(st).en.(we := true)) else old(st).en
    {
      hide Inv, CanRun, Exec, Continues, StepWriter;
      Take(WriteStep);
    }

    /** Snapshot the indices and compute the length of the next copy. */
    method SnapWrite(src: seq<byte>, ghost nonblock: bool, done: nat) returns (wr: nat, out: nat, n: nat)
      requires done < |src| && Valid() && Writing(src, nonblock, done) && st.tx.writer.pc.WSnap?
      modifies this, rxBuf
      ensures Valid() && mark == old(mark) && Writing(src, nonblock, done) && done + n <= |src|
      ensures st.tx.writer.call.out == out
      ensures st.tx.writer.pc == if n == 0 then WKick else WCopy(wr, n, 0)
      ensures st.rx.reader == old(st.rx.reader)
    {
      hide Inv, CanRun, Exec, Continues, StepWriter;
      Preempt();
      wr, out := txIn, txOut;
      n := if wr < out then out - 1 - wr
           else if out > 0 then txBuf.Length - wr
           else txBuf.Length - 1 - wr;
      n := if n > |src| - done then |src| - done else n;
      AtWriteSnap(st.tx, st.host);
      TakeWrite();
    }

    /** The test that ends the copying when no data is left. */
    ghost method AllTaken(src: seq<byte>, nonblock: bool)
      requires Valid() && Writing(src, nonblock, |src|) && st.tx.writer.pc.WSnap?
      modifies this`st, this`run
      ensures Valid() && Writing(src, nonblock, |src|) && st.tx.writer.pc.WKick?
      ensures st.rx.reader == old(st.rx.reader)
    {
      hide Inv, CanRun, Exec, Continues, StepWriter;
      AtWriteSnap(st.tx, st.host);
      TakeWrite();
    }

    /** Copy bytes into the transmit ring until the data or the space runs out.  `out` is the
        last snapshot of tx_out. */
    method FillRing(src: seq<byte>, ghost nonblock: bool, done0: nat) returns (done: nat, out: nat)
      requires done0 <= |src| && Valid() && Writing(src, nonblock, done0) && st.tx.writer.pc.WSnap?
      modifies this, rxBuf, txBuf
      ensures Valid() && mark == old(mark)
      ensures done <= |src| && Writing(src, nonblock, done) && st.tx.writer.pc.WKick?
      ensures done < |src| ==> st.tx.writer.call.out == out
      ensures st.rx.reader == old(st.rx.reader)
    {
      hide Valid;
      done, out := done0, 0;
      var full := false;
      while done < |src| && !full
        invariant Valid() && mark == old(mark)
        invariant done <= |src| && Writing(src, nonblock, done)
        invariant if full then st.tx.writer.pc.WKick? && st.tx.writer.call.out == out else st.tx.writer.pc.WSnap?
        invariant st.rx.reader == old(st.rx.reader)
        decreases |src| - done, !full
      {
        var wr, n;
        wr, out, n := SnapWrite(src, nonblock, done);
        if n == 0 {
          full := true;
        } else {
          CopyIn(src, nonblock, done, wr, n);
          Publish(src, nonblock, done, wr, n);
          done := done + n;
        }
      }
      if !full {
        AllTaken(src, nonblock);
      }
    }

    /** memcpy(sp->tx_buf + wr, ptr, n) */
    method CopyIn(src: seq<byte>, ghost nonblock: bool, done: nat, wr: nat, n: nat)
      requires Valid() && Writing(src, nonblock, done) && st.tx.writer.pc == WCopy(wr, n, 0)
      modifies this, rxBuf, txBuf
      ensures Valid() && mark == old(mark)
      ensures Writing(src, nonblock, done) && st.tx.writer.pc == WCopy(wr, n, n)
      ensures st.rx.reader == old(st.rx.reader)
    {
      hide Inv, CanRun, Exec, Continues;
      for j := 0 to n
        invariant Valid() && mark == old(mark)
        invariant Writing(src, nonblock, done) && st.tx.writer.pc == WCopy(wr, n, j)
        invariant st.rx.reader == old(st.rx.reader)
      {
        Preempt();
        txBuf[wr + j] := src[done + j];
        TakeWrite();
      }
    }

    /** sp->tx_in = (wr + n) % BUF_LEN */
    method Publish(src: seq<byte>, ghost nonblock: bool, done: nat, wr: nat, n: nat)
      requires Valid() && Writing(src, nonblock, done) && st.tx.writer.pc == WCopy(wr, n, n)
      modifies this, rxBuf
      ensures Valid() && mark == old(mark)
      ensures Writing(src, nonblock, done + n) && st.tx.writer.pc.WSnap?
      ensures st.rx.reader == old(st.rx.reader)
    {
      hide Inv, CanRun, Exec, Continues;
      Preempt();
      txIn := (wr + n) % txBuf.Length;
      TakeWrite();
    }

    /** With interrupts off, enable the transmit interrupt. */
    method KickTransmit(src: seq<byte>, nonblock: bool, done: nat)
      requires Valid() && Writing(src, nonblock, done) && st.tx.writer.pc.WKick?
      modifies this, rxBuf
      ensures Valid() && mark == old(mark)
      ensures Writing(src, nonblock, done) && st.tx.writer.call.out == old(st.tx.writer.call.out)
      ensures st.tx.writer.pc == if done == |src| || nonblock then WDone(Result(done, nonblock)) else WSpinOut
      ensures st.rx.reader == old(st.rx.reader)
    {
      hide Inv, CanRun, Exec, Continues;
      Preempt();
      irqWe := true;
      devRe, devWe := irqRe, irqWe;
      TakeWrite();
    }

    /** out == sp->tx_out, in the busy wait. */
    method PollSpace(src: seq<byte>, ghost nonblock: bool, ghost done: nat, out: nat) returns (over: bool)
      requires Valid() && Writing(src, nonblock, done) && st.tx.writer.pc.WSpinOut? && st.tx.writer.call.out == out
      modifies this, rxBuf
      ensures Valid() && mark == old(mark) && Writing(src, nonblock, done)
      ensures st.rx.reader == old(st.rx.reader) && st.tx.writer.call.out == out
      ensures st.tx.writer.pc == if over then WCheck else WSpinHost
      ensures over <==> txOut != out
    {
      hide Inv, CanRun, Exec, Continues;
      Preempt();
      over := out != txOut;
      TakeWrite();
    }

    /** sp->host_inactive < sp->timeout, in the busy wait. */
    method PollHost(src: seq<byte>, ghost nonblock: bool, ghost done: nat) returns (over: bool)
      requires Valid() && Writing(src, nonblock, done) && st.tx.writer.pc.WSpinHost?
      modifies this, rxBuf
      ensures Valid() && mark == old(mark) && Writing(src, nonblock, done)
      ensures st.rx.reader == old(st.rx.reader) && st.tx.writer.call.out == old(st.tx.writer.call.out)
      ensures st.tx.writer.pc == if over then WCheck else WSpinOut
      ensures over <==> hostInactive >= timeout
    {
      hide Inv, CanRun, Exec, Continues;
      Preempt();
      over := hostInactive >= timeout;
      TakeWrite();
    }

    /** The test of host_inactive after the busy wait. */
    method HostGone(src: seq<byte>, ghost nonblock: bool, ghost done: nat) returns (inactive: bool)
      requires Valid() && Writing(src, nonblock, done) && st.tx.writer.pc.WCheck?
      modifies this, rxBuf
      ensures Valid() && mark == old(mark) && Writing(src, nonblock, done)
      ensures st.rx.reader == old(st.rx.reader)
      ensures st.tx.writer.pc == if inactive then WDone(Result(done, nonblock)) else WSnap
      ensures inactive <==> hostInactive != 0
      ensures st.tx.writer.call.out == old(st.tx.writer.call.out)
    {
      hide Inv, CanRun, Exec, Continues;
      Preempt();
      inactive := hostInactive != 0;
      TakeWrite();
    }

    /** Spin until tx_out moves or the host times out; then test host_inactive. */
    method AwaitSpace(src: seq<byte>, ghost nonblock: bool, done: nat, out: nat, polls: nat)
      returns (over: bool, inactive: bool, left: nat, ghost looks: seq<Look>)
      requires Valid() && Writing(src, nonblock, done) && st.tx.writer.pc.WSpinOut?
      requires st.tx.writer.call.out == out
      modifies this, rxBuf
      ensures Valid() && mark == old(mark) && Writing(src, nonblock, done)
      ensures st.rx.reader == old(st.rx.reader)
      ensures if over then left < polls else |looks| == polls && st.tx.writer.pc.WSpinOut? && AllInVain(looks, out, timeout)
      ensures st.tx.writer.call.out == out
      ensures over ==> st.tx.writer.pc == if inactive then WDone(Result(done, nonblock)) else WSnap
    {
      hide Valid;
      left, looks := polls, [];
      over, inactive := false, false;
      while !over && left > 0
        invariant Valid() && mark == old(mark) && Writing(src, nonblock, done)
        invariant st.rx.reader == old(st.rx.reader) && st.tx.writer.call.out == out
        invariant if over then left < polls else left + |looks| == polls && AllInVain(looks, out, timeout)
        invariant st.tx.writer.pc == if over then WCheck else WSpinOut
        decreases left
      {
        over := PollSpace(src, nonblock, done, out);
        if !over {
          ghost var seen := txOut;
          over := PollHost(src, nonblock, done);
          looks := looks + [Look(seen, hostInactive)];
        }
        left := left - 1;
      }
      if over {
        inactive := HostGone(src, nonblock, done);
      }
    }

    /** altera_avalon_jtag_uart_write, with at most `polls` turns of its busy wait. */
    method Write(src: seq<byte>, nonblock: bool, polls: nat) returns (r: Outcome, ghost looks: seq<Look>)
      requires Valid() && CanWrite()
      modifies this, rxBuf, txBuf
      ensures Valid() && st.isr.IIdle?
      ensures r.Waiting? ==> st.tx.writer.WActive? && st.tx.writer.pc.WSpinOut? && !nonblock
      ensures r.Waiting? ==> |looks| <= polls && AllInVain(looks, st.tx.writer.call.out, timeout)
      ensures r.Returned? ==> CanWrite()
      ensures r.Returned? && r.rc > 0 ==> r.rc <= |src| && st.tx.accepted == old(st).tx.accepted + src[..r.rc]
      ensures r.Returned? && r.rc <= 0 ==>
                st.tx.accepted == old(st).tx.accepted && r.rc == if nonblock then -11 else -5
      ensures r.Returned? && r.rc < |src| && src != [] ==>
                && Reached(start, run, |old(run)|, TxFilled(|st.tx.accepted|))
                && (nonblock || Reached(start, run, |old(run)|, HostIdle(1)))
    {
      hide Inv, CanRun, Exec, Continues;
      BeginWrite(src, nonblock);
      var done: nat, left: nat, more := 0, polls, true;
      looks := [];
      while more
        invariant Valid() && mark == old(run) + [WriteCalled(src, nonblock)] && Writing(src, nonblock, done)
        invariant done <= |src|
        invariant st.tx.writer.pc == if more then WSnap else WDone(Result(done, nonblock))
        invariant left <= polls
        decreases more, left
      {
        var out;
        done, out := FillRing(src, nonblock, done);
        KickTransmit(src, nonblock, done);
        if done == |src| || nonblock {
          more := false;
        } else {
          var over, inactive;
          over, inactive, left, looks := AwaitSpace(src, nonblock, done, out, left);
          if !over {
            return Waiting, looks;
          }
          more := !inactive;
        }
      }
      r := Returned(if done != 0 then done else if nonblock then -EWOULDBLOCK else -EIO);
      EndWrite(old(run), old(st), src, nonblock);
    }

    ghost method BeginWrite(src: seq<byte>, nonblock: bool)
      requires Recorded() && CanWrite()
      modifies this`st, this`run, this`mark
      ensures Recorded() && Writing(src, nonblock, 0) && st.tx.writer.pc.WSnap?
      ensures run == mark == old(run) + [WriteCalled(src, nonblock)]
      ensures st == Step(old(st), WriteCalled(src, nonblock))
    {
      Take(WriteCalled(src, nonblock));
      mark := run;
    }

    /** The call returns; what it did is what the protocol promises of a finished write. */
    ghost method EndWrite(run0: seq<Label>, s: State, src: seq<byte>, nonblock: bool)
      requires Recorded() && st.isr.IIdle? && st.tx.writer.WActive? && st.tx.writer.pc.WDone?
      requires CanRun(start, run0) && s == Exec(start, run0) && Inv(s) && Enabled(s, WriteCalled(src, nonblock))
      requires mark == run0 + [WriteCalled(src, nonblock)]
      modifies this`st, this`run, this`mark
      ensures Recorded() && CanWrite()
      ensures st == old(st).(tx := old(st).tx.(writer := WIdle))
      ensures var rc := old(st).tx.writer.pc.rc;
              && (rc > 0 ==> rc <= |src| && st.tx.accepted == s.tx.accepted + src[..rc])
              && (rc <= 0 ==> st.tx.accepted == s.tx.accepted && rc == Result(0, nonblock))
              && (rc < |src| && src != [] ==>
                    && Reached(start, run, |run0|, TxFilled(|st.tx.accepted|))
                    && (nonblock || Reached(start, run, |run0|, HostIdle(1))))
    {
      hide Inv;
      var call := run[|mark|..];
      RunAppend(start, run0, WriteCalled(src, nonblock));
      RunSplit(start, run, |mark|);
      assert run[..|mark|] == mark;
      WriteResult(s, src, nonblock, call);
      assert mark + call == run;
      if Was(Exec(start, mark), call, HostIdle(1)) {
        WasReached(start, mark, call, HostIdle(1));
      }
      if Was(Exec(start, mark), call, TxFilled(|st.tx.accepted|)) {
        WasReached(start, mark, call, TxFilled(|st.tx.accepted|));
      }
      assert (run + [WriteReturn])[..|run|] == run;
      FinishCall(WriteReturn);
    }

    /** Record the return of a call and start a new history mark. */
    ghost method FinishCall(l: Label)
      requires Recorded() && (l == WriteReturn || l == ReadReturn) && Enabled(st, l)
      modifies this`st, this`run, this`mark
      ensures Recorded()
      ensures st == Step(old(st), l) && run == mark == old(run) + [l]
      ensures forall from: nat, m: Moment :: Reached(start, old(run), from, m) ==> Reached(start, run, from, m)
    {
      StepKeepsInv(st, l);
      RunAppend(start, run, l);
      assert forall k :: 0 <= k <= |run| ==> (run + [l])[..k] == run[..k];
      st, run := Step(st, l), run + [l];
      mark := run;
    }

    // -------------------------------------------------------------- altera_avalon_jtag_uart_read

    /** A read call with these arguments is in progress and has taken `got`. */
    ghost predicate Reading(space: nat, nonblock: bool, got: seq<byte>)
      reads this
    {
      && st.isr.IIdle? && st.rx.reader.RActive?
      && st.rx.reader.call.space == space && st.rx.reader.call.nonblock == nonblock
      && st.rx.reader.call.got == got
    }

    ghost method TakeRead()
      requires Recorded() && st.isr.IIdle? && ReaderRuns(st.rx)
      modifies this`st, this`run
      ensures Recorded()
      ensures st == old(st).(rx := StepReader(old(st).rx, old(st).host), en := st.en)
      ensures st.en == if old(st).rx.reader.pc.RKick? then Post(old(st).en.(re := true)) else old(st).en
    {
      hide Inv, CanRun, Exec, Continues, StepReader;
      Take(ReadStep);
    }

    /** Snapshot the indices and compute the length of the next copy. */
    method SnapRead(space: nat, nonblock: bool, got: seq<byte>) returns (snap: nat, rd: nat, n: nat)
      requires |got| < space && Valid() && Reading(space, nonblock, got) && st.rx.reader.pc.RSnap?
      modifies this, rxBuf
      ensures Valid() && mark == old(mark) && Reading(space, nonblock, got) && |got| + n <= space
      ensures st.tx.writer == old(st.tx.writer) && st.rx.reader.call.snapIn == snap
      ensures st.rx.reader.pc == if n != 0 then RCopy(rd, n, []) else if got != [] then RKick
                                 else if nonblock then RDone(Result(0, true)) else RSpinIn
    {
      hide Inv, CanRun, Exec, Continues, StepReader;
      Preempt();
      snap := rxIn;
      rd := rxOut;
      n := if snap >= rd then snap - rd else rxBuf.Length - rd;
      n := if n > space - |got| then space - |got| else n;
      AtReadSnap(st.rx, st.host);
      TakeRead();
    }

    /** The test that ends the copying when the caller has enough. */
    ghost method AllGiven(space: nat, nonblock: bool, got: seq<byte>)
      requires Valid() && Reading(space, nonblock, got) && st.rx.reader.pc.RSnap? && |got| == space
      modifies this`st, this`run
      ensures Valid() && mark == old(mark) && Reading(space, nonblock, got)
      ensures st.tx.writer == old(st.tx.writer)
      ensures st.rx.reader.pc == if got != [] then RKick else RDone(Result(0, nonblock))
    {
      hide Inv, CanRun, Exec, Continues, StepReader;
      AtReadSnap(st.rx, st.host);
      TakeRead();
    }

    /** Copy bytes out of the receive ring until the ring is empty or the caller has enough.
        `snap` is the last snapshot of rx_in. */
    method DrainRing(space: nat, nonblock: bool) returns (got: seq<byte>, snap: nat)
      requires Valid() && Reading(space, nonblock, []) && st.rx.reader.pc.RSnap? && space > 0
      modifies this, rxBuf
      ensures Valid() && mark == old(mark) && Reading(space, nonblock, got)
      ensures st.tx.writer == old(st.tx.writer)
      ensures |got| <= space
      ensures st.rx.reader.pc == if got != [] then RKick
                                 else if nonblock then RDone(Result(0, true)) else RSpinIn
      ensures st.rx.reader.pc.RSpinIn? ==> st.rx.reader.call.snapIn == snap
    {
      hide Valid;
      got, snap := [], 0;
      var empty := false;
      while |got| < space && !empty
        invariant Valid() && mark == old(mark) && Reading(space, nonblock, got) && |got| <= space
        invariant st.tx.writer == old(st.tx.writer)
        invariant empty ==> st.rx.reader.pc == if got != [] then RKick
                                               else if nonblock then RDone(Result(0, true)) else RSpinIn
        invariant st.rx.reader.pc.RSpinIn? ==> st.rx.reader.call.snapIn == snap
        invariant !empty ==> st.rx.reader.pc.RSnap?
        decreases space - |got|, !empty
      {
        var rd, n;
        snap, rd, n := SnapRead(space, nonblock, got);
        if n == 0 {
          empty := true;
        } else {
          var part := CopyOut(space, nonblock, got, rd, n);
          Consume(space, nonblock, got, rd, n, part);
          got := got + part;
        }
      }
      if !empty {
        AllGiven(space, nonblock, got);
      }
    }

    /** memcpy(ptr, sp->rx_buf + rd, n) */
    method CopyOut(space: nat, ghost nonblock: bool, ghost got: seq<byte>, rd: nat, n: nat) returns (part: seq<byte>)
      requires Valid() && Reading(space, nonblock, got) && st.rx.reader.pc == RCopy(rd, n, [])
      modifies this, rxBuf
      ensures Valid() && mark == old(mark) && Reading(space, nonblock, got)
      ensures st.tx.writer == old(st.tx.writer)
      ensures |part| == n && st.rx.reader.pc == RCopy(rd, n, part)
    {
      hide Inv, CanRun, Exec, Continues;
      part := [];
      while |part| < n
        invariant Valid() && mark == old(mark) && Reading(space, nonblock, got)
        invariant st.tx.writer == old(st.tx.writer)
        invariant |part| <= n && st.rx.reader.pc == RCopy(rd, n, part)
      {
        Preempt();
        part := part + [rxBuf[rd + |part|]];
        TakeRead();
      }
    }

    /** sp->rx_out = (rd + n) % BUF_LEN */
    method Consume(space: nat, ghost nonblock: bool, ghost got: seq<byte>, rd: nat, n: nat, ghost part: seq<byte>)
      requires Valid() && Reading(space, nonblock, got)
      requires |part| == n && st.rx.reader.pc == RCopy(rd, n, part)
      modifies this, rxBuf
      ensures Valid() && mark == old(mark) && Reading(space, nonblock, got + part)
      ensures st.tx.writer == old(st.tx.writer) && st.rx.reader.pc.RSnap?
    {
      hide Inv, CanRun, Exec, Continues;
      Preempt();
      rxOut := (rd + n) % rxBuf.Length;
      TakeRead();
    }

    /** in == sp->rx_in, in the busy wait. */
    method PollByte(space: nat, ghost nonblock: bool, snap: nat) returns (over: bool)
      requires Valid() && Reading(space, nonblock, []) && st.rx.reader.pc.RSpinIn? && st.rx.reader.call.snapIn == snap
      modifies this, rxBuf
      ensures Valid() && mark == old(mark) && Reading(space, nonblock, [])
      ensures st.tx.writer == old(st.tx.writer) && st.rx.reader.call.snapIn == snap
      ensures st.rx.reader.pc == if over then RCheck else RSpinHost
      ensures over <==> rxIn != rxOut
      ensures rxOut == old(rxOut)
    {
      hide Inv, CanRun, Exec, Continues;
      Preempt();
      over := snap != rxIn;
      AtWait(st);
      TakeRead();
    }

    /** sp->host_inactive < sp->timeout, in the busy wait. */
    method PollTimeout(space: nat, ghost nonblock: bool) returns (over: bool)
      requires Valid() && Reading(space, nonblock, []) && st.rx.reader.pc.RSpinHost?
      modifies this, rxBuf
      ensures Valid() && mark == old(mark) && Reading(space, nonblock, [])
      ensures st.tx.writer == old(st.tx.writer) && st.rx.reader.call.snapIn == old(st.rx.reader.call.snapIn)
      ensures st.rx.reader.pc == if over then RCheck else RSpinIn
      ensures over <==> hostInactive >= timeout
      ensures rxOut == old(rxOut)
    {
      hide Inv, CanRun, Exec, Continues;
      Preempt();
      over := hostInactive >= timeout;
      TakeRead();
    }

    /** The second look at rx_in, after the busy wait. */
    method Arrived(space: nat, ghost nonblock: bool, snap: nat) returns (arrived: bool)
      requires Valid() && Reading(space, nonblock, []) && st.rx.reader.pc.RCheck? && st.rx.reader.call.snapIn == snap
      modifies this, rxBuf
      ensures Valid() && mark == old(mark) && Reading(space, nonblock, [])
      ensures st.tx.writer == old(st.tx.writer)
      ensures st.rx.reader.pc == if arrived then RSnap else RDone(Result(0, nonblock))
      ensures arrived <==> rxIn != rxOut
      ensures rxOut == old(rxOut)
    {
      hide Inv, CanRun, Exec, Continues;
      Preempt();
      arrived := snap != rxIn;
      AtWait(st);
      TakeRead();
    }

    /** Spin until rx_in moves or the host times out; then look whether rx_in moved. */
    method AwaitByte(space: nat, ghost nonblock: bool, snap: nat, polls: nat)
      returns (over: bool, arrived: bool, left: nat, ghost looks: seq<Look>)
      requires Valid() && Reading(space, nonblock, []) && st.rx.reader.pc.RSpinIn? && st.rx.reader.call.snapIn == snap
      modifies this, rxBuf
      ensures Valid() && mark == old(mark) && Reading(space, nonblock, [])
      ensures st.tx.writer == old(st.tx.writer)
      ensures if over then left < polls else |looks| == polls && st.rx.reader.pc.RSpinIn? && AllInVain(looks, rxOut, timeout)
      ensures rxOut == old(rxOut)
      ensures over ==> st.rx.reader.pc == if arrived then RSnap else RDone(Result(0, nonblock))
      ensures over ==> (arrived <==> rxIn != rxOut)
    {
      hide Valid;
      left, looks := polls, [];
      over, arrived := false, false;
      while !over && left > 0
        invariant Valid() && mark == old(mark) && Reading(space, nonblock, [])
        invariant st.tx.writer == old(st.tx.writer) && st.rx.reader.call.snapIn == snap
        invariant if over then left < polls else left + |looks| == polls && AllInVain(looks, rxOut, timeout)
        invariant st.rx.reader.pc == if over then RCheck else RSpinIn
        invariant rxOut == old(rxOut)
        decreases left
      {
        over := PollByte(space, nonblock, snap);
        if !over {
          ghost var seen := rxIn;
          over := PollTimeout(space, nonblock);
          looks := looks + [Look(seen, hostInactive)];
        }
        left := left - 1;
      }
      if over {
        arrived := Arrived(space, nonblock, snap);
      }
    }

    /** With interrupts off, enable the receive interrupt. */
    method EnableReceive(space: nat, nonblock: bool, got: seq<byte>)
      requires Valid() && Reading(space, nonblock, got) && st.rx.reader.pc.RKick?
      modifies this, rxBuf
      ensures Valid() && mark == old(mark) && Reading(space, nonblock, got)
      ensures st.tx.writer == old(st.tx.writer)
      ensures st.rx.reader.pc == RDone(Result(|got|, nonblock))
    {
      hide Inv, CanRun, Exec, Continues;
      Preempt();
      irqRe := true;
      devRe, devWe := irqRe, irqWe;
      TakeRead();
    }

    /** altera_avalon_jtag_uart_read, with at most `polls` turns of its busy wait. */
    method Read(space: nat, nonblock: bool, polls: nat) returns (r: Outcome, got: seq<byte>, ghost looks: seq<Look>)
      requires Valid() && CanRead()
      modifies this, rxBuf
      ensures Valid() && st.isr.IIdle?
      ensures r.Waiting? ==> st.rx.reader.RActive? && st.rx.reader.pc.RSpinIn? && !nonblock
      ensures r.Waiting? ==> |looks| <= polls && AllInVain(looks, rxOut, timeout)
      ensures r.Returned? ==>
                && CanRead() && |got| <= space
                && st.rx.delivered == old(st).rx.delivered + got <= st.rx.arrived
                && r.rc == if got != [] then |got| else if nonblock then -11 else -5
      ensures r.Returned? && r.rc == -5 && space > 0 ==>
                && st.rx.popped == old(st).rx.popped
                && Reached(start, run, |old(run)|, HostIdle(timeout))
      ensures r.Returned? && |got| < space ==> Reached(start, run, |old(run)|, RxDrained(|st.rx.delivered|))
    {
      hide Inv, CanRun, Exec, Continues;
      BeginRead(space, nonblock);
      var over;
      over, got, looks := TakeIn(space, nonblock, polls);
      if !over {
        return Waiting, got, looks;
      }
      if got != [] {
        EnableReceive(space, nonblock, got);
      }
      r := Returned(if got != [] then |got| else if nonblock then -EWOULDBLOCK else -EIO);
      EndRead(old(run), old(st), space, nonblock, got);
    }

    /** The loop of a read: copy what there is, or wait for a byte and try again. */
    method TakeIn(space: nat, nonblock: bool, polls: nat) returns (over: bool, got: seq<byte>, ghost looks: seq<Look>)
      requires Valid() && Reading(space, nonblock, []) && st.rx.reader.pc.RSnap?
      modifies this, rxBuf
      ensures Valid() && mark == old(mark) && Reading(space, nonblock, got) && |got| <= space
      ensures st.tx.writer == old(st.tx.writer)
      ensures over ==> st.rx.reader.pc == if got != [] then RKick else RDone(Result(0, nonblock))
      ensures over && got == [] && !nonblock && space > 0 ==> rxIn == rxOut
      ensures !over ==> !nonblock && st.rx.reader.pc.RSpinIn? && |looks| <= polls && AllInVain(looks, rxOut, timeout)
    {
      hide Valid;
      got, looks := [], [];
      var left: nat, more := polls, space > 0;
      if !more {
        AllGiven(space, nonblock, got);
      }
      while more
        invariant Valid() && mark == old(mark) && Reading(space, nonblock, got)
        invariant st.tx.writer == old(st.tx.writer)
        invariant |got| <= space && (more ==> got == [] && space > 0)
        invariant st.rx.reader.pc == if more then RSnap else if got != [] then RKick else RDone(Result(0, nonblock))
        invariant !more && got == [] && !nonblock && space > 0 ==> rxIn == rxOut
        invariant left <= polls
        decreases more, left
      {
        var snap;
        got, snap := DrainRing(space, nonblock);
        if got != [] || nonblock {
          more := false;
        } else {
          var seen, arrived;
          seen, arrived, left, looks := AwaitByte(space, nonblock, snap, left);
          if !seen {
            return false, got, looks;
          }
          more := arrived;
        }
      }
      over := true;
    }

    ghost method BeginRead(space: nat, nonblock: bool)
      requires Recorded() && CanRead()
      modifies this`st, this`run, this`mark
      ensures Recorded() && Reading(space, nonblock, []) && st.rx.reader.pc.RSnap?
      ensures run == mark == old(run) + [ReadCalled(space, nonblock)]
      ensures st == Step(old(st), ReadCalled(space, nonblock))
    {
      Take(ReadCalled(space, nonblock));
      mark := run;
    }

    ghost method EndRead(run0: seq<Label>, s: State, space: nat, nonblock: bool, got: seq<byte>)
      requires Recorded() && Reading(space, nonblock, got) && st.rx.reader.pc.RDone?
      requires CanRun(start, run0) && s == Exec(start, run0) && Inv(s) && Enabled(s, ReadCalled(space, nonblock))
      requires mark == run0 + [ReadCalled(space, nonblock)]
      requires got == [] && !nonblock && space > 0 ==> st.rx.rd == st.rx.wr
      modifies this`st, this`run, this`mark
      ensures Recorded() && CanRead()
      ensures st == old(st).(rx := old(st).rx.(reader := RIdle))
      ensures |got| <= space && st.rx.delivered == s.rx.delivered + got <= st.rx.arrived
      ensures got == [] && !nonblock && space > 0 ==>
                st.rx.popped == s.rx.popped && Reached(start, run, |run0|, HostIdle(s.host.timeout))
      ensures |got| < space ==> Reached(start, run, |run0|, RxDrained(|st.rx.delivered|))
    {
      hide Inv;
      var call := run[|mark|..];
      RunAppend(start, run0, ReadCalled(space, nonblock));
      RunSplit(start, run, |mark|);
      assert run[..|mark|] == mark;
      assert mark + call == run;
      var s1 := Exec(start, mark);
      ReadResult(s, space, nonblock, call);
      ReadCallPersists(s1, call);
      if got == [] && !nonblock && space > 0 {
        ReadFoundNothing(s, st);
        AtFailedRead(st);
        WasReached(start, mark, call, HostIdle(s.host.timeout));
      }
      if |got| < space {
        WasReached(start, mark, call, RxDrained(|st.rx.delivered|));
      }
      FinishCall(ReadReturn);
    }

    // -------------------------------------------------------------- altera_avalon_jtag_uart_close

    /** Wait until the transmit ring is empty or the host has timed out, with at most `polls`
        turns: success means every accepted byte reached the device, unless the host was gone. */
    method Close(nonblock: bool, polls: nat) returns (r: Outcome)
      requires Valid() && CanWrite()
      modifies this, rxBuf
      ensures Valid() && CanWrite() && st.tx.accepted == old(st.tx.accepted)
      ensures r == Returned(0) ==> st.tx.sent == st.tx.accepted || hostInactive >= timeout
      ensures r != Returned(0) && polls > 0 ==>
                && TxRing(old(st.tx)) != [] && hostInactive < timeout
                && r == if nonblock then Returned(-11) else Waiting
    {
      hide Inv, CanRun, Exec, Continues;
      var left := polls;
      while left > 0
        invariant Valid() && CanWrite() && st.tx.accepted == old(st.tx.accepted)
        invariant left < polls ==> TxRing(old(st.tx)) != [] && hostInactive < timeout && !nonblock
        invariant |old(st.tx.sent)| <= |st.tx.sent|
      {
        Preempt();
        if txOut == txIn {
          AllSent(st);
          return Returned(0);
        }
        StillQueued(old(st), st);
        Preempt();
        if hostInactive >= timeout {
          return Returned(0);
        }
        if nonblock {
          return Returned(-EWOULDBLOCK);
        }
        left := left - 1;
      }
      return Waiting;
    }
  }

  lemma AllSent(s: State)
    requires Inv(s) && s.tx.rd == s.tx.wr
    ensures s.tx.sent == s.tx.accepted
  {
  }

  /** What is queued now, with nothing accepted since, was queued before. */
  lemma StillQueued(s: State, t: State)
    requires Inv(s) && Inv(t) && t.tx.accepted == s.tx.accepted && |s.tx.sent| <= |t.tx.sent| && t.tx.rd != t.tx.wr
    ensures TxRing(s.tx) != []
  {
    assert TxRing(t.tx) != [];
  }

  /** A call that delivered nothing and leaves the ring empty saw no byte enter it. */
  lemma ReadFoundNothing(s: State, t: State)
    requires Inv(s) && Inv(t) && s.rx.popped <= t.rx.popped
    requires t.rx.rd == t.rx.wr && t.rx.delivered == s.rx.delivered
    ensures t.rx.popped == s.rx.popped
  {
    assert s.rx.popped == s.rx.delivered + RxRing(s.rx);
    assert t.rx.popped == t.rx.delivered + RxRing(t.rx);
  }
}
