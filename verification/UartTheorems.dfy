/** What the JTAG UART protocol guarantees of every run. */
module UartTheorems {
  import opened RingBuffer
  import opened UartProtocol

  // ---------------------------------------------------------------- safety of every run

  /** In every interleaving: both streams are intact, no interrupt that has work to do stays
      disabled, and the device's enables follow irq_enable. */
  lemma EveryRunIsSafe(txBuf: seq<byte>, rxBuf: seq<byte>, timeout: nat, txSpace: nat, run: seq<Label>)
    requires BuffersOk(txBuf, rxBuf)
    requires CanRun(Init(txBuf, rxBuf, timeout, txSpace), run)
    ensures var t := Exec(Init(txBuf, rxBuf, timeout, txSpace), run);
            && TxShape(t.tx) && RxShape(t.rx)
            && t.tx.accepted == t.tx.sent + TxRing(t.tx)
            && t.rx.arrived == t.rx.delivered + RxRing(t.rx) + t.rx.fifo
            && (TxRing(t.tx) != [] && !OwesTxKick(t.tx) ==> t.en.we)
            && (!t.en.re && !OwesRxKick(t.rx) ==> RxFull(t.rx))
            && (t.isr.IIdle? ==> t.en.devRe == t.en.re && t.en.devWe == t.en.we)
  {
    InitInv(txBuf, rxBuf, timeout, txSpace);
    RunKeepsInv(Init(txBuf, rxBuf, timeout, txSpace), run);
  }

  // ---------------------------------------------------------------- refinement to two queues

  /** The unbounded FIFO each ring implements. */
  datatype Queue = Queue(items: seq<byte>, entered: seq<byte>, left: seq<byte>)

  predicate Unchanged(q: Queue, q': Queue) {
    q' == q
  }

  predicate Enqueue(q: Queue, q': Queue) {
    |q.entered| <= |q'.entered| && q.entered == q'.entered[..|q.entered|] &&
    q' == Queue(q.items + q'.entered[|q.entered|..], q'.entered, q.left)
  }

  predicate Dequeue(q: Queue, q': Queue) {
    |q'.items| <= |q.items| && q'.items == q.items[|q.items| - |q'.items|..] &&
    q' == Queue(q'.items, q.entered, q.left + q.items[..|q.items| - |q'.items|])
  }

  function TxQueue(tx: Tx): Queue
    requires TxShape(tx)
  {
    Queue(TxRing(tx), tx.accepted, tx.sent)
  }

  function RxQueue(rx: Rx): Queue
    requires RxShape(rx)
  {
    Queue(RxRing(rx), rx.popped, rx.delivered)
  }

  lemma EnqueueIntro(q: Queue, q': Queue, x: seq<byte>)
    requires q'.items == q.items + x && q'.entered == q.entered + x && q'.left == q.left
    ensures Enqueue(q, q')
  {
    assert q'.entered[|q.entered|..] == x;
  }

  lemma DequeueIntro(q: Queue, q': Queue, x: seq<byte>)
    requires q.items == x + q'.items && q'.entered == q.entered && q'.left == q.left + x
    ensures Dequeue(q, q')
  {
    assert q.items[..|q.items| - |q'.items|] == x;
  }

  lemma WriterRefinesTxQueue(tx: Tx, host: Host)
    requires TxInv(tx) && WriterRuns(tx)
    ensures TxShape(StepWriter(tx, host))
    ensures var (q, q') := (TxQueue(tx), TxQueue(StepWriter(tx, host))); Unchanged(q, q') || Enqueue(q, q')
  {
    hide Contents, Used, TxStream, WriterInv;
    if tx.writer.pc.WCopy? {
      var (c, n) := (tx.writer.call, tx.writer.pc.n);
      if tx.writer.pc.j < n {
        WriterCopiesByte(tx, host);
      } else {
        WriterPublishes(tx, host);
        EnqueueIntro(TxQueue(tx), TxQueue(StepWriter(tx, host)), c.src[c.done..c.done + n]);
      }
    }
  }

  lemma IsrRefinesTxQueue(s: State)
    requires Inv(s) && Enabled(s, IsrStep)
    ensures TxShape(StepIsr(s).tx)
    ensures var (q, q') := (TxQueue(s.tx), TxQueue(StepIsr(s).tx));
            Unchanged(q, q') || (Dequeue(q, q') && |q'.left| == |q.left| + 1)
  {
    var t := StepIsr(s);
    if s.isr.ITx? && s.isr.space > 0 && s.tx.rd != s.tx.wr {
      PushKeepsTxInv(s.tx, s.txSpace);
      DequeueIntro(TxQueue(s.tx), TxQueue(t.tx), [s.tx.buf[s.tx.rd]]);
    } else {
      assert t.tx == s.tx;
    }
  }

  /** Every step of every agent leaves the transmit queue alone, appends to it (only the writer),
      or takes the front off it (only the interrupt routine, one byte, never dropped). */
  lemma StepRefinesTxQueue(s: State, l: Label)
    requires Inv(s) && Enabled(s, l)
    ensures TxShape(Step(s, l).tx)
    ensures var (q, q') := (TxQueue(s.tx), TxQueue(Step(s, l).tx));
            || Unchanged(q, q')
            || (l.WriteStep? && Enqueue(q, q'))
            || (l.IsrStep? && Dequeue(q, q') && |q'.left| == |q.left| + 1)
  {
    if l.WriteStep? {
      WriterRefinesTxQueue(s.tx, s.host);
    } else if l.IsrStep? {
      IsrRefinesTxQueue(s);
    }
  }

  /** The same for the receive queue: the interrupt routine appends the byte it pops from the
      device's FIFO, which always fits, and only the reader takes bytes off. */
  lemma StepRefinesRxQueue(s: State, l: Label)
    requires Inv(s) && Enabled(s, l)
    ensures RxShape(Step(s, l).rx)
    ensures var (q, q') := (RxQueue(s.rx), RxQueue(Step(s, l).rx));
            || Unchanged(q, q')
            || (l.IsrStep? && Enqueue(q, q') && |s.rx.fifo| == |Step(s, l).rx.fifo| + 1 &&
                |q'.items| == |q.items| + 1)
            || (l.ReadStep? && Dequeue(q, q'))
  {
    StepKeepsInv(s, l);
    var t := Step(s, l);
    if l.ReadStep? && s.rx.reader.pc.RCopy? && |s.rx.reader.pc.part| == s.rx.reader.pc.n {
      ReaderReleases(s.rx, s.host);
      DequeueIntro(RxQueue(s.rx), RxQueue(t.rx), s.rx.reader.pc.part);
    } else if l.IsrStep? && s.isr.IRx? && (s.rx.wr + 1) % |s.rx.buf| != s.rx.rd && s.rx.fifo != [] {
      PopExtendsRing(s.rx);
      EnqueueIntro(RxQueue(s.rx), RxQueue(t.rx), [s.rx.fifo[0]]);
    }
  }

  // ---------------------------------------------------------------- results of calls

  lemma {:induction false} RunSplit(s: State, run: seq<Label>, k: nat)
    requires k <= |run|
    ensures CanRun(s, run) <==> CanRun(s, run[..k]) && CanRun(Exec(s, run[..k]), run[k..])
    ensures CanRun(s, run) ==> Exec(s, run) == Exec(Exec(s, run[..k]), run[k..])
    decreases k
  {
    if k == 0 {
      assert run[..0] == [] && run[0..] == run;
    } else if Enabled(s, run[0]) {
      assert run[..k][1..] == run[1..][..k - 1];
      assert run[k..] == run[1..][k - 1..];
      RunSplit(Step(s, run[0]), run[1..], k - 1);
    }
  }

  /** The last label of a run is taken from the state before it. */
  lemma RunLast(s: State, run: seq<Label>)
    requires run != [] && CanRun(s, run)
    ensures CanRun(s, run[..|run| - 1])
    ensures var u := Exec(s, run[..|run| - 1]);
            Enabled(u, run[|run| - 1]) && Exec(s, run) == Step(u, run[|run| - 1])
  {
    var k := |run| - 1;
    RunSplit(s, run, k);
    assert run[k..] == [run[k]];
    var u := Exec(s, run[..k]);
    assert CanRun(Step(u, run[k]), []);
  }

  /** Appending an enabled label to a run. */
  lemma RunAppend(s: State, run: seq<Label>, l: Label)
    requires CanRun(s, run) && Enabled(Exec(s, run), l)
    ensures CanRun(s, run + [l]) && Exec(s, run + [l]) == Step(Exec(s, run), l)
  {
    RunSplit(s, run + [l], |run|);
    assert (run + [l])[..|run|] == run && (run + [l])[|run|..] == [l];
    assert CanRun(Step(Exec(s, run), l), []);
  }

  /** What a call may have found at some moment: the host inactive for so long, the transmit ring
      full with so many bytes accepted, or the receive ring empty with so many bytes delivered. */
  datatype Moment = HostIdle(atLeast: nat) | TxFilled(accepted: nat) | RxDrained(delivered: nat)

  predicate Holds(s: State, m: Moment) {
    match m
    case HostIdle(atLeast) => s.host.inactive >= atLeast
    case TxFilled(accepted) => TxShape(s.tx) && TxFull(s.tx) && |s.tx.accepted| == accepted
    case RxDrained(delivered) => RxShape(s.rx) && RxRing(s.rx) == [] && |s.rx.delivered| == delivered
  }

  /** There was such a moment during the run. */
  predicate Was(s: State, run: seq<Label>, m: Moment)
    requires CanRun(s, run)
    decreases |run|
  {
    Holds(s, m) || (run != [] && Was(Step(s, run[0]), run[1..], m))
  }

  /** The same, for the part of a history after its first `from` labels. */
  ghost predicate Reached(s: State, run: seq<Label>, from: nat, m: Moment) {
    exists k :: from <= k <= |run| && CanRun(s, run[..k]) && Holds(Exec(s, run[..k]), m)
  }

  lemma {:induction false} WasReached(s: State, before: seq<Label>, run: seq<Label>, m: Moment)
    requires CanRun(s, before) && CanRun(Exec(s, before), run) && Was(Exec(s, before), run, m)
    ensures Reached(s, before + run, |before|, m)
    decreases |run|
  {
    hide Holds;
    if Holds(Exec(s, before), m) {
      assert (before + run)[..|before|] == before;
    } else {
      RunAppend(s, before, run[0]);
      assert before + run == before + [run[0]] + run[1..];
      WasReached(s, before + [run[0]], run[1..], m);
    }
  }

  predicate SameWriteCall(s: State, t: State)
    requires s.tx.writer.WActive?
  {
    && t.tx.writer.WActive?
    && t.tx.writer.call.src == s.tx.writer.call.src
    && t.tx.writer.call.nonblock == s.tx.writer.call.nonblock
    && t.tx.writer.call.base == s.tx.writer.call.base
  }

  lemma WriteCallStep(s: State, l: Label)
    requires Enabled(s, l) && s.tx.writer.WActive? && l != WriteReturn
    ensures SameWriteCall(s, Step(s, l))
    ensures Step(s, l).tx.writer.call.sawInactive ==> s.tx.writer.call.sawInactive || s.host.inactive >= 1
  {
  }

  lemma {:induction false} WriteCallPersists(s: State, run: seq<Label>)
    requires CanRun(s, run) && s.tx.writer.WActive? && WriteReturn !in run
    ensures SameWriteCall(s, Exec(s, run))
    ensures Exec(s, run).tx.writer.call.sawInactive ==> s.tx.writer.call.sawInactive || Was(s, run, HostIdle(1))
    decreases |run|
  {
    if run != [] {
      WriteCallStep(s, run[0]);
      WriteCallPersists(Step(s, run[0]), run[1..]);
    }
  }

  /** The writer has stopped copying before the end of its data. */
  predicate StoppedShort(tx: Tx) {
    && tx.writer.WActive? && tx.writer.call.done < |tx.writer.call.src|
    && (tx.writer.pc.WKick? || WaitsInWrite(tx) || tx.writer.pc.WDone?)
  }

  predicate WaitsInWrite(tx: Tx) {
    tx.writer.WActive? && (tx.writer.pc.WSpinOut? || tx.writer.pc.WSpinHost? || tx.writer.pc.WCheck?)
  }

  lemma ShortStep(s: State, l: Label)
    requires Enabled(s, l) && StoppedShort(Step(s, l).tx)
    ensures Step(s, l).tx.accepted == s.tx.accepted && (StoppedShort(s.tx) || TxFull(s.tx))
  {
  }

  /** What stops it is a full ring, with all it has taken accepted. */
  lemma {:induction false} StoppedByFull(s: State, run: seq<Label>)
    requires CanRun(s, run) && StoppedShort(Exec(s, run).tx)
    ensures var accepted := Exec(s, run).tx.accepted;
            (StoppedShort(s.tx) && s.tx.accepted == accepted) || Was(s, run, TxFilled(|accepted|))
    decreases |run|
  {
    if run != [] {
      StoppedByFull(Step(s, run[0]), run[1..]);
      if StoppedShort(Step(s, run[0]).tx) {
        ShortStep(s, run[0]);
      }
    }
  }

  /** A write that returns has put exactly the first rc bytes of the caller's data in the ring,
      after everything accepted before it; it falls short only in non-blocking mode or when the
      host was inactive at some point of the call, and only if it found the ring full when it had
      put those rc bytes in. */
  lemma WriteResult(s: State, src: seq<byte>, nonblock: bool, run: seq<Label>)
    requires Inv(s) && Enabled(s, WriteCalled(src, nonblock))
    requires CanRun(Step(s, WriteCalled(src, nonblock)), run) && WriteReturn !in run
    requires var w := Exec(Step(s, WriteCalled(src, nonblock)), run).tx.writer; w.WActive? && w.pc.WDone?
    ensures var t := Exec(Step(s, WriteCalled(src, nonblock)), run);
            var rc := t.tx.writer.pc.rc;
            && (rc > 0 ==> rc <= |src| && t.tx.accepted == s.tx.accepted + src[..rc])
            && (rc <= 0 ==> t.tx.accepted == s.tx.accepted && rc == Result(0, nonblock))
            && (rc < |src| && src != [] ==> nonblock || Was(Step(s, WriteCalled(src, nonblock)), run, HostIdle(1)))
            && (rc < |src| && src != [] ==> Was(Step(s, WriteCalled(src, nonblock)), run, TxFilled(|t.tx.accepted|)))
  {
    var s1 := Step(s, WriteCalled(src, nonblock));
    StepKeepsInv(s, WriteCalled(src, nonblock));
    RunKeepsInv(s1, run);
    WriteCallPersists(s1, run);
    if StoppedShort(Exec(s1, run).tx) {
      StoppedByFull(s1, run);
    }
    assert src[..0] == [];
  }

  predicate SameReadCall(s: State, t: State)
    requires s.rx.reader.RActive?
  {
    && t.rx.reader.RActive?
    && t.rx.reader.call.space == s.rx.reader.call.space
    && t.rx.reader.call.nonblock == s.rx.reader.call.nonblock
    && t.rx.reader.call.base == s.rx.reader.call.base
    && t.host.timeout == s.host.timeout
    && s.rx.popped <= t.rx.popped
  }

  lemma ReadCallStep(s: State, l: Label)
    requires Enabled(s, l) && s.rx.reader.RActive? && l != ReadReturn
    ensures SameReadCall(s, Step(s, l))
    ensures Step(s, l).rx.reader.call.sawTimeout ==>
              s.rx.reader.call.sawTimeout || s.host.inactive >= s.host.timeout
  {
  }

  lemma {:induction false} ReadCallPersists(s: State, run: seq<Label>)
    requires CanRun(s, run) && s.rx.reader.RActive? && ReadReturn !in run
    ensures SameReadCall(s, Exec(s, run))
    ensures Exec(s, run).rx.reader.call.sawTimeout ==>
              s.rx.reader.call.sawTimeout || Was(s, run, HostIdle(s.host.timeout))
    decreases |run|
  {
    if run != [] {
      ReadCallStep(s, run[0]);
      ReadCallPersists(Step(s, run[0]), run[1..]);
    }
  }

  /** The reader has stopped copying before its buffer was full. */
  predicate ReadStopped(rx: Rx) {
    && rx.reader.RActive? && |rx.reader.call.got| < rx.reader.call.space
    && (rx.reader.pc.RKick? || WaitsInRead(rx) || rx.reader.pc.RDone?)
  }

  predicate WaitsInRead(rx: Rx) {
    rx.reader.RActive? && (rx.reader.pc.RSpinIn? || rx.reader.pc.RSpinHost? || rx.reader.pc.RCheck?)
  }

  lemma ReadStoppedStep(s: State, l: Label)
    requires Enabled(s, l) && ReadStopped(Step(s, l).rx)
    ensures Step(s, l).rx.delivered == s.rx.delivered && (ReadStopped(s.rx) || RxRing(s.rx) == [])
  {
  }

  /** What stops it is an empty ring, with all it has taken delivered. */
  lemma {:induction false} StoppedByEmpty(s: State, run: seq<Label>)
    requires CanRun(s, run) && ReadStopped(Exec(s, run).rx)
    ensures var delivered := Exec(s, run).rx.delivered;
            (ReadStopped(s.rx) && s.rx.delivered == delivered) || Was(s, run, RxDrained(|delivered|))
    decreases |run|
  {
    if run != [] {
      StoppedByEmpty(Step(s, run[0]), run[1..]);
      if ReadStopped(Step(s, run[0]).rx) {
        ReadStoppedStep(s, run[0]);
      }
    }
  }

  /** A read that returns has delivered the next rc bytes of the arrived stream to its caller, and
      fewer than there was room for only if it found the ring empty when it had taken those. */
  lemma ReadResult(s: State, space: nat, nonblock: bool, run: seq<Label>)
    requires Inv(s) && Enabled(s, ReadCalled(space, nonblock))
    requires CanRun(Step(s, ReadCalled(space, nonblock)), run) && ReadReturn !in run
    requires var r := Exec(Step(s, ReadCalled(space, nonblock)), run).rx.reader; r.RActive? && r.pc.RDone?
    ensures var t := Exec(Step(s, ReadCalled(space, nonblock)), run);
            var (rc, got) := (t.rx.reader.pc.rc, t.rx.reader.call.got);
            && |got| <= space
            && t.rx.delivered == s.rx.delivered + got <= t.rx.arrived
            && rc == Result(|got|, nonblock)
            && (|got| < space ==> Was(Step(s, ReadCalled(space, nonblock)), run, RxDrained(|t.rx.delivered|)))
  {
    var s1 := Step(s, ReadCalled(space, nonblock));
    StepKeepsInv(s, ReadCalled(space, nonblock));
    RunKeepsInv(s1, run);
    ReadCallPersists(s1, run);
    if ReadStopped(Exec(s1, run).rx) {
      StoppedByEmpty(s1, run);
    }
  }

  lemma GivesUp(s: State)
    requires Inv(s) && Enabled(s, ReadStep) && !s.rx.reader.call.nonblock && s.rx.reader.call.space > 0
    requires Step(s, ReadStep).rx.reader.pc == RDone(-EIO)
    ensures var t := Step(s, ReadStep);
            && RxShape(t.rx) && RxRing(t.rx) == [] && t.rx.popped == t.rx.reader.call.base
            && t.rx.reader.call.sawTimeout
  {
    assert s.rx.reader.pc.RCheck?;
  }

  /** A blocking read with room in its buffer fails only when, up to the moment it gives up, no
      byte entered the receive ring since the call and the host was found timed out. */
  lemma ReadFailsOnlyOnTimeout(s: State, space: nat, run: seq<Label>)
    requires Inv(s) && Enabled(s, ReadCalled(space, false)) && space > 0
    requires CanRun(Step(s, ReadCalled(space, false)), run + [ReadStep]) && ReadReturn !in run
    requires var r := Exec(Step(s, ReadCalled(space, false)), run + [ReadStep]).rx.reader; r.RActive? && r.pc == RDone(-EIO)
    ensures var t := Exec(Step(s, ReadCalled(space, false)), run + [ReadStep]);
            && RxShape(t.rx) && RxRing(t.rx) == []
            && t.rx.popped == s.rx.popped
            && Was(Step(s, ReadCalled(space, false)), run + [ReadStep], HostIdle(s.host.timeout))
  {
    var s1 := Step(s, ReadCalled(space, false));
    var all := run + [ReadStep];
    StepKeepsInv(s, ReadCalled(space, false));
    RunLast(s1, all);
    assert all[..|all| - 1] == run;
    RunKeepsInv(s1, run);
    ReadCallPersists(s1, run);
    ReadCallPersists(s1, all);
    GivesUp(Exec(s1, run));
    var t := Exec(s1, all);
    assert s.rx.popped == s.rx.delivered + RxRing(s.rx);
  }

  // ---------------------------------------------------------------- waits

  /** The busy wait of a write: a look at tx_out ends it exactly if the ring is no longer full, a
      look at the host exactly if that has timed out; then the call gives up exactly if the host is
      inactive, and copies again otherwise.  Nothing is accepted meanwhile. */
  lemma WriteWaits(tx: Tx, host: Host)
    requires TxInv(tx) && WaitsInWrite(tx)
    ensures var (t, pc) := (StepWriter(tx, host), tx.writer.pc);
            && t.writer.WActive? && t.accepted == tx.accepted && t.writer.call.done == tx.writer.call.done
            && (pc.WSpinOut? ==> t.writer.pc == if TxFull(tx) then WSpinHost else WCheck)
            && (pc.WSpinHost? ==> t.writer.pc == if host.inactive < host.timeout then WSpinOut else WCheck)
            && (pc.WCheck? ==> t.writer.pc == if host.inactive == 0 then WSnap else WDone(Result(tx.writer.call.done, false)))
  {
    hide Contents;
  }

  /** The busy wait of a read: a look at rx_in ends it exactly if there is a byte in the ring, a
      look at the host exactly if that has timed out; then the call copies exactly if there is a
      byte, and fails otherwise. */
  lemma ReadWaits(rx: Rx, host: Host)
    requires RxInv(rx) && WaitsInRead(rx)
    ensures var (t, pc) := (StepReader(rx, host), rx.reader.pc);
            && t.reader.RActive? && t.reader.call.got == rx.reader.call.got == []
            && (pc.RSpinIn? ==> t.reader.pc == if RxRing(rx) == [] then RSpinHost else RCheck)
            && (pc.RSpinHost? ==> t.reader.pc == if host.inactive < host.timeout then RSpinIn else RCheck)
            && (pc.RCheck? ==> t.reader.pc == if RxRing(rx) == [] then RDone(-EIO) else RSnap)
  {
    hide Contents;
  }

  /** In every state of the run the host has been inactive for at least, or for at most, so long. */
  predicate HostAtLeast(s: State, run: seq<Label>, low: nat)
    requires CanRun(s, run)
    decreases |run|
  {
    s.host.inactive >= low && (run != [] ==> HostAtLeast(Step(s, run[0]), run[1..], low))
  }

  predicate HostAtMost(s: State, run: seq<Label>, high: nat)
    requires CanRun(s, run)
    decreases |run|
  {
    s.host.inactive <= high && (run != [] ==> HostAtMost(Step(s, run[0]), run[1..], high))
  }

  function Count(run: seq<Label>, l: Label): nat {
    if run == [] then 0 else Count(run[1..], l) + if run[0] == l then 1 else 0
  }

  /** A blocking write that has data left and room for it. */
  predicate CanGoOn(tx: Tx)
    requires TxShape(tx)
  {
    && tx.writer.WActive? && !tx.writer.call.nonblock && tx.writer.call.done < |tx.writer.call.src|
    && !tx.writer.pc.WDone? && !TxFull(tx)
  }

  /** How many steps of its own it is from accepting a byte. */
  function StepsToAccept(tx: Tx): nat
    requires tx.writer.WActive?
  {
    match tx.writer.pc
    case WDone(_) => 0
    case WCopy(_, n, j) => if j <= n then n - j + 1 else 1
    case WSnap => |tx.buf| + 1
    case WCheck => |tx.buf| + 2
    case WSpinOut => |tx.buf| + 3
    case WSpinHost => |tx.buf| + 4
    case WKick => |tx.buf| + 5
  }

  lemma WriteGoesOn(s: State)
    requires Inv(s) && Enabled(s, WriteStep) && CanGoOn(s.tx) && s.host.inactive == 0
    ensures var t := Step(s, WriteStep).tx;
            || |t.accepted| > |s.tx.accepted|
            || (TxShape(t) && CanGoOn(t) && t.accepted == s.tx.accepted && |t.buf| == |s.tx.buf| && StepsToAccept(t) < StepsToAccept(s.tx))
  {
    hide Contents;
    WriterKeepsTxInv(s.tx, s.host);
    if WaitsInWrite(s.tx) {
      WriteWaits(s.tx, s.host);
    }
  }

  lemma OthersLetWrite(s: State, l: Label)
    requires Inv(s) && Enabled(s, l) && CanGoOn(s.tx) && l != WriteStep
    ensures var t := Step(s, l).tx;
            && TxShape(t) && CanGoOn(t) && t.accepted == s.tx.accepted && |t.buf| == |s.tx.buf|
            && StepsToAccept(t) == StepsToAccept(s.tx)
  {
    hide Inv, TxRing;
    StepRefinesTxQueue(s, l);
  }

  lemma {:induction false} AcceptedGrows(s: State, run: seq<Label>)
    requires CanRun(s, run)
    ensures |s.tx.accepted| <= |Exec(s, run).tx.accepted|
    decreases |run|
  {
    if run != [] {
      AcceptedGrows(Step(s, run[0]), run[1..]);
    }
  }

  /** No write waits for nothing: while the host is active, a blocking write that has data left and
      room for it accepts some of it within so many steps of its own, whatever the interrupt routine,
      the reader, the alarm and the device do in between. */
  lemma {:induction false} SpaceIsTaken(s: State, run: seq<Label>)
    requires Inv(s) && CanRun(s, run) && CanGoOn(s.tx) && HostAtMost(s, run, 0)
    requires Count(run, WriteStep) >= StepsToAccept(s.tx)
    ensures |Exec(s, run).tx.accepted| > |s.tx.accepted|
    decreases |run|
  {
    var (l, t) := (run[0], Step(s, run[0]));
    StepKeepsInv(s, l);
    if l == WriteStep {
      WriteGoesOn(s);
    } else {
      OthersLetWrite(s, l);
    }
    if |t.tx.accepted| > |s.tx.accepted| {
      AcceptedGrows(t, run[1..]);
    } else {
      SpaceIsTaken(t, run[1..]);
    }
  }

  function StepsToGiveUp(tx: Tx): nat
    requires tx.writer.WActive?
  {
    match tx.writer.pc
    case WSpinOut => 3
    case WSpinHost => 2
    case WCheck => 1
    case _ => 0
  }

  /** A write that waits, or has given up, with so much accepted. */
  predicate GivingUp(tx: Tx, done: nat) {
    && tx.writer.WActive? && tx.writer.call.done == done
    && (WaitsInWrite(tx) || tx.writer.pc == WDone(Result(done, false)))
  }

  lemma GivingUpStep(s: State, l: Label, done: nat)
    requires Inv(s) && Enabled(s, l) && l != WriteReturn && GivingUp(s.tx, done)
    requires s.host.timeout > 0 && s.host.inactive >= s.host.timeout
    ensures var t := Step(s, l);
            && GivingUp(t.tx, done) && t.host.timeout == s.host.timeout
            && StepsToGiveUp(t.tx) + (if l == WriteStep then 1 else 0) <= StepsToGiveUp(s.tx)
  {
    hide Contents, TxStream;
    if l == WriteStep {
      WriteWaits(s.tx, s.host);
    }
  }

  /** Nor for ever: once the host has timed out and stays so, a waiting write returns what it has
      accepted within three steps of its own. */
  lemma {:induction false} GoneHostEndsWrite(s: State, run: seq<Label>, done: nat)
    requires Inv(s) && CanRun(s, run) && s.host.timeout > 0 && HostAtLeast(s, run, s.host.timeout)
    requires GivingUp(s.tx, done) && WriteReturn !in run && Count(run, WriteStep) >= StepsToGiveUp(s.tx)
    ensures StepsToGiveUp(s.tx) <= 3
    ensures var w := Exec(s, run).tx.writer; w.WActive? && w.pc == WDone(Result(done, false)) && w.call.done == done
    decreases |run|
  {
    hide Inv, Step, Enabled;
    if run != [] {
      StepKeepsInv(s, run[0]);
      GivingUpStep(s, run[0], done);
      GoneHostEndsWrite(Step(s, run[0]), run[1..], done);
    }
  }

  /** A read that is sure to return: it has taken a byte, or there is one in the ring, or it waits
      for a host that is gone. */
  predicate Returning(rx: Rx, gone: bool)
    requires RxShape(rx)
  {
    && rx.reader.RActive? && rx.reader.call.space > 0
    && (rx.reader.call.got != [] || (RxRing(rx) != [] && !rx.reader.pc.RDone?) || (gone && (WaitsInRead(rx) || rx.reader.pc.RDone?)))
  }

  function StepsToReturn(rx: Rx, gone: bool): nat
    requires RxShape(rx) && rx.reader.RActive?
  {
    var left := rx.reader.call.space - |rx.reader.call.got|;
    match rx.reader.pc
    case RDone(_) => 0
    case RKick => 1
    case RSnap => 3 * left + 2
    case RCopy(_, n, part) => 3 * (left - n) + (n - |part|) + 3
    case RCheck => 3 * left + 3
    case RSpinIn => 3 * left + if gone then 5 else 4
    case RSpinHost => 3 * left + if gone then 4 else 5
  }

  /** One more step of a returning read. */
  predicate Nearer(rx: Rx, t: Rx, gone: bool)
    requires RxShape(rx) && rx.reader.RActive?
  {
    && RxShape(t) && Returning(t, gone) && t.reader.call.space == rx.reader.call.space
    && StepsToReturn(t, gone) < StepsToReturn(rx, gone)
  }

  lemma CopyingGoesOn(rx: Rx, host: Host, gone: bool)
    requires RxInv(rx) && ReaderRuns(rx) && Returning(rx, gone) && (rx.reader.pc.RCopy? || rx.reader.pc.RKick?)
    ensures Nearer(rx, StepReader(rx, host), gone)
  {
    hide RxStream;
    ReaderKeepsRxInv(rx, host);
  }

  lemma SnapGoesOn(rx: Rx, host: Host, gone: bool)
    requires RxInv(rx) && ReaderRuns(rx) && Returning(rx, gone) && rx.reader.pc.RSnap?
    ensures Nearer(rx, StepReader(rx, host), gone)
  {
    hide Contents, RxStream;
  }

  lemma WaitGoesOn(rx: Rx, host: Host, gone: bool)
    requires RxInv(rx) && ReaderRuns(rx) && Returning(rx, gone) && WaitsInRead(rx) && (gone ==> host.inactive >= host.timeout)
    ensures Nearer(rx, StepReader(rx, host), gone)
  {
    hide Contents, RxStream;
    ReadWaits(rx, host);
  }

  lemma ReadGoesOn(s: State, gone: bool)
    requires Inv(s) && Enabled(s, ReadStep) && Returning(s.rx, gone) && (gone ==> s.host.inactive >= s.host.timeout)
    ensures Nearer(s.rx, Step(s, ReadStep).rx, gone) && Step(s, ReadStep).host == s.host
  {
    hide Contents, RxStream, Returning, StepReader, Nearer, TxInv;
    if WaitsInRead(s.rx) {
      WaitGoesOn(s.rx, s.host, gone);
    } else if s.rx.reader.pc.RSnap? {
      SnapGoesOn(s.rx, s.host, gone);
    } else {
      CopyingGoesOn(s.rx, s.host, gone);
    }
  }

  lemma OthersLetRead(s: State, l: Label, gone: bool)
    requires Inv(s) && Enabled(s, l) && Returning(s.rx, gone) && l != ReadStep && l != ReadReturn
    ensures var t := Step(s, l).rx;
            RxShape(t) && Returning(t, gone) && t.reader == s.rx.reader && StepsToReturn(t, gone) == StepsToReturn(s.rx, gone)
    ensures Step(s, l).host.timeout == s.host.timeout
  {
    hide Inv, RxRing;
    StepRefinesRxQueue(s, l);
  }

  lemma LastStep(s: State, gone: bool)
    requires Inv(s) && Returning(s.rx, gone)
    ensures StepsToReturn(s.rx, gone) <= 3 * s.rx.reader.call.space + 5
    ensures var r := s.rx.reader; r.RActive? && (StepsToReturn(s.rx, gone) == 0 ==> r.pc.RDone? && (!gone ==> r.pc.rc > 0))
  {
    hide Contents, TxInv;
  }

  /** A read returns with at least a byte once there is one in the ring, and returns anyway once the
      host is gone: within so many steps of its own, at most 3 * space + 5, whatever the interrupt
      routine, the writer, the alarm and the device do in between. */
  lemma {:induction false} ReadReturns(s: State, run: seq<Label>, gone: bool)
    requires Inv(s) && CanRun(s, run) && Returning(s.rx, gone) && ReadReturn !in run
    requires gone ==> HostAtLeast(s, run, s.host.timeout)
    requires Count(run, ReadStep) >= StepsToReturn(s.rx, gone)
    ensures StepsToReturn(s.rx, gone) <= 3 * s.rx.reader.call.space + 5
    ensures var r := Exec(s, run).rx.reader; r.RActive? && r.pc.RDone? && (!gone ==> r.pc.rc > 0)
    decreases |run|
  {
    hide Inv, Step, Returning, StepsToReturn;
    LastStep(s, gone);
    if run != [] {
      StepKeepsInv(s, run[0]);
      if run[0] == ReadStep {
        ReadGoesOn(s, gone);
      } else {
        OthersLetRead(s, run[0], gone);
      }
      ReadReturns(Step(s, run[0]), run[1..], gone);
    }
  }

  // ---------------------------------------------------------------- progress of the interrupt routine

  function Bit(b: bool): nat {
    if b then 1 else 0
  }

  /** Unread device bytes, queued bytes and set enable bits. */
  function Work(s: State): nat
    requires TxShape(s.tx) && RxShape(s.rx)
  {
    |s.rx.fifo| + |TxRing(s.tx)| + Bit(s.en.re) + Bit(s.en.we)
  }

  /** In a pass that started with `work` to do, either some is done or the next step does some. */
  predicate PassInv(s: State, work: nat)
    requires TxShape(s.tx) && RxShape(s.rx)
  {
    Work(s) < work ||
    (Work(s) == work &&
     match s.isr
     case IRx(_, _, ravail) => s.rx.fifo != [] && ravail > 0 && s.en.re
     case IRxMask(_, _) => s.en.re
     case ITx(space) => space > 0 && (TxRing(s.tx) != [] || s.en.we)
     case _ => false)
  }

  lemma PassStarts(s: State, ri: bool, wi: bool)
    requires Inv(s) && Enabled(s, IsrControl(ri, wi)) && (ri || wi)
    ensures PassInv(Step(s, IsrControl(ri, wi)), Work(s))
  {
  }

  lemma PassEnds(s: State, work: nat)
    requires TxShape(s.tx) && RxShape(s.rx) && PassInv(s, work) && s.isr.IControl?
    ensures Work(s) < work
  {
  }

  lemma PassPops(s: State, work: nat)
    requires Inv(s) && s.isr.IRx? && PassInv(s, work)
    ensures Inv(StepIsr(s)) && PassInv(StepIsr(s), work)
  {
    IsrKeepsInv(s);
    if (s.rx.wr + 1) % |s.rx.buf| != s.rx.rd && s.rx.fifo != [] {
      PopExtendsRing(s.rx);
    }
  }

  lemma PassPushes(s: State, work: nat)
    requires Inv(s) && s.isr.ITx? && PassInv(s, work)
    ensures Inv(StepIsr(s)) && PassInv(StepIsr(s), work)
  {
    IsrKeepsInv(s);
    if s.isr.space > 0 && s.tx.rd != s.tx.wr {
      PushKeepsTxInv(s.tx, s.txSpace);
    }
  }

  lemma PassAdvances(s: State, l: Label, work: nat)
    requires Inv(s) && Enabled(s, l) && (l.IsrStep? || l.HwDrain? || l.HwActivity?)
    requires PassInv(s, work)
    ensures Inv(Step(s, l)) && PassInv(Step(s, l), work)
  {
    if l.IsrStep? && s.isr.IRx? {
      PassPops(s, work);
    } else if l.IsrStep? && s.isr.ITx? {
      PassPushes(s, work);
    } else {
      StepKeepsInv(s, l);
    }
  }

  /** Without new arrivals, every pass of the interrupt routine's outer loop that does not exit
      leaves strictly less work. */
  lemma {:induction false} PassReducesWork(s: State, work: nat, run: seq<Label>)
    requires Inv(s) && PassInv(s, work) && CanRun(s, run)
    requires forall k :: 0 <= k < |run| ==> run[k].IsrStep? || run[k].HwDrain? || run[k].HwActivity?
    requires Exec(s, run).isr.IControl?
    ensures Inv(Exec(s, run)) && Work(Exec(s, run)) < work
    decreases |run|
  {
    if run != [] {
      PassAdvances(s, run[0], work);
      PassReducesWork(Step(s, run[0]), work, run[1..]);
    }
  }

  // ---------------------------------------------------------------- what a pass does

  /** Bytes that the pass has still to move into the receive ring. */
  function Takes(s: State): nat
    requires RxShape(s.rx)
  {
    if s.isr.IRx? then Min(|s.rx.fifo|, |s.rx.buf| - 1 - |RxRing(s.rx)|) else 0
  }

  /** Bytes that the device has still room for in this pass. */
  function Room(isr: Isr): nat {
    match isr
    case IRx(wi, space, _) => if wi then space else 0
    case IRxMask(wi, space) => if wi then space else 0
    case IRxPost(wi, space) => if wi then space else 0
    case ITx(space) => space
    case _ => 0
  }

  /** The pass will clear RE. */
  predicate Masks(s: State)
    requires RxShape(s.rx)
  {
    s.isr.IRxMask? || (s.isr.IRx? && |s.rx.fifo| > Takes(s))
  }

  /** In the receive loop, `ravail` says whether the device has bytes left. */
  predicate InPass(s: State) {
    Inv(s) && !s.isr.IIdle? && (s.isr.IRx? ==> (s.isr.ravail > 0 <==> s.rx.fifo != []))
  }

  predicate PassLabel(l: Label) {
    l.IsrStep? || l.HwDrain? || l.HwActivity?
  }

  /** t is the end of a pass that is now in s. */
  predicate PassResult(s: State, t: State)
    requires Inv(s)
  {
    var (taken, sent) := (Takes(s), Min(Room(s.isr), |TxRing(s.tx)|));
    && t.rx.popped == s.rx.popped + s.rx.fifo[..taken] && t.rx.fifo == s.rx.fifo[taken..]
    && t.tx.sent == s.tx.sent + TxRing(s.tx)[..sent] && t.tx.accepted == s.tx.accepted
    && (t.en.re <==> s.en.re && !Masks(s))
    && (t.en.we <==> s.en.we && Room(s.isr) <= |TxRing(s.tx)|)
  }

  lemma FrontThenRest<T>(x: T, rest: seq<T>, n: nat)
    requires n <= |rest|
    ensures ([x] + rest)[..n + 1] == [x] + rest[..n] && ([x] + rest)[n + 1..] == rest[n..]
  {
  }

  lemma PopInPass(s: State, t: State)
    requires InPass(s) && s.isr.IRx? && s.rx.fifo != [] && (s.rx.wr + 1) % |s.rx.buf| != s.rx.rd
    requires Inv(StepIsr(s)) && PassResult(StepIsr(s), t)
    ensures PassResult(s, t)
  {
    hide Contents, Used, TxStream, RxStream, WriterInv, ReaderInv, WakeUp, EnablesAgree, IsrInv;
    var u := StepIsr(s);
    PopExtendsRing(s.rx);
    assert u.tx == s.tx && u.en == s.en && Room(u.isr) == Room(s.isr);
    assert s.rx.fifo == [s.rx.fifo[0]] + u.rx.fifo;
    FrontThenRest(s.rx.fifo[0], u.rx.fifo, Takes(u));
    assert Takes(s) == Takes(u) + 1;
  }

  lemma PushInPass(s: State, t: State)
    requires InPass(s) && s.isr.ITx? && s.isr.space > 0 && s.tx.rd != s.tx.wr
    requires Inv(StepIsr(s)) && PassResult(StepIsr(s), t)
    ensures PassResult(s, t)
  {
    hide Contents, Used, TxStream, RxStream, WriterInv, ReaderInv, WakeUp, EnablesAgree;
    var u := StepIsr(s);
    PushReleases(s.tx, s.txSpace);
    var x := s.tx.buf[s.tx.rd];
    FrontThenRest(x, TxRing(u.tx), Min(Room(u.isr), |TxRing(u.tx)|));
  }

  lemma OtherInPass(s: State, l: Label, t: State)
    requires InPass(s) && Enabled(s, l) && PassLabel(l) && Inv(Step(s, l)) && PassResult(Step(s, l), t)
    requires l.IsrStep? ==> Step(s, l).tx == s.tx && Step(s, l).rx == s.rx
    ensures PassResult(s, t)
  {
    hide Contents, TxInv, RxInv;
    if s.isr.IRx? {
      ModWrap(s.rx.wr + 1, |s.rx.buf|);
    }
  }

  lemma StaysInPass(s: State, l: Label)
    requires InPass(s) && Enabled(s, l) && PassLabel(l)
    ensures InPass(Step(s, l))
  {
    StepKeepsInv(s, l);
  }

  /** From anywhere in a pass to its end. */
  lemma {:induction false} RestOfPass(s: State, run: seq<Label>)
    requires InPass(s) && CanRun(s, run) && (forall k :: 0 <= k < |run| ==> PassLabel(run[k]))
    requires Exec(s, run).isr.IControl?
    ensures PassResult(s, Exec(s, run))
    decreases |run|
  {
    hide PassResult;
    if run == [] {
      PassOver(s);
    } else {
      var l := run[0];
      StaysInPass(s, l);
      RestOfPass(Step(s, l), run[1..]);
      if l.IsrStep? && s.isr.IRx? && s.rx.fifo != [] && (s.rx.wr + 1) % |s.rx.buf| != s.rx.rd {
        PopInPass(s, Exec(s, run));
      } else if l.IsrStep? && s.isr.ITx? && s.isr.space > 0 && s.tx.rd != s.tx.wr {
        PushInPass(s, Exec(s, run));
      } else {
        OtherInPass(s, l, Exec(s, run));
      }
    }
  }

  lemma PassOver(s: State)
    requires Inv(s) && s.isr.IControl?
    ensures PassResult(s, s)
  {
  }

  /** One pass of the interrupt routine's outer loop, while no byte arrives.  If RI was set, it moves
      the device's bytes to the receive ring, as many as fit, and clears RE exactly if some are left.
      If WI was set, it sends the queued bytes, as many as the device had room for, and clears WE
      exactly if that was room for more. */
  lemma PassExact(s: State, ri: bool, wi: bool, run: seq<Label>)
    requires Inv(s) && Enabled(s, IsrControl(ri, wi)) && (ri || wi)
    requires CanRun(Step(s, IsrControl(ri, wi)), run) && Exec(Step(s, IsrControl(ri, wi)), run).isr.IControl?
    requires forall k :: 0 <= k < |run| ==> PassLabel(run[k])
    ensures var t := Exec(Step(s, IsrControl(ri, wi)), run);
            var taken := if ri then Min(|s.rx.fifo|, |s.rx.buf| - 1 - |RxRing(s.rx)|) else 0;
            var sent := if wi then Min(s.txSpace, |TxRing(s.tx)|) else 0;
            && t.rx.popped == s.rx.popped + s.rx.fifo[..taken] && t.rx.fifo == s.rx.fifo[taken..]
            && t.tx.sent == s.tx.sent + TxRing(s.tx)[..sent] && t.tx.accepted == s.tx.accepted
            && (t.en.re <==> s.en.re && (ri ==> |s.rx.fifo| == taken))
            && (t.en.we <==> s.en.we && (wi ==> s.txSpace <= |TxRing(s.tx)|))
  {
    hide Contents, TxInv, RxInv;
    StepKeepsInv(s, IsrControl(ri, wi));
    RestOfPass(Step(s, IsrControl(ri, wi)), run);
  }
}
