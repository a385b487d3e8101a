/** Nested interrupts: the priority mask, the IENABLE register, and the dispatch of pending
    interrupts.  A 32-bit mask is the set of its bit positions; position 0 has the highest
    priority. */
module IrqNesting {
  import opened Common

  type Mask = set<nat>

  const NIRQ: nat := 32

  function Below(n: nat): (m: Mask)
    ensures forall i {:trigger i in m} :: i in m <==> 0 <= i < n
  {
    if n == 0 then {} else Below(n - 1) + {n - 1}
  }

  /** alt_priority_mask before any interrupt: all ones. */
  const ALL: Mask := Below(NIRQ)

  /** A running interrupt routine: its number, the mask at its dispatch, and the mask
      alt_irq_interruptible returned to it while it has not yet given it back. */
  datatype Frame = Frame(irq: nat, found: Mask, saved: Option<Mask>)

  /** alt_irq_active, alt_priority_mask, IENABLE, status.PIE, the device requests, the running
      routines (outermost first), and whether alt_irq_handler is between routines. */
  datatype Cpu = Cpu(active: Mask, mask: Mask, ienable: Mask, pie: bool, lines: Mask,
                     stack: seq<Frame>, inHandler: bool)

  /** The IPENDING register. */
  function Pending(c: Cpu): Mask {
    c.lines * c.ienable
  }

  predicate IsLowest(i: nat, m: Mask) {
    i in m && forall k :: k in m ==> i <= k
  }

  lemma LowestExists(m: Mask)
    requires m != {}
    ensures exists i :: IsLowest(i, m)
    decreases |m|
  {
    var x :| x in m;
    if m == {x} {
      assert IsLowest(x, m);
    } else {
      LowestExists(m - {x});
      var y :| IsLowest(y, m - {x});
      var z := if x < y then x else y;
      forall k | k in m
        ensures z <= k
      {
        if k != x {
          assert k in m - {x};
        }
      }
      assert IsLowest(z, m);
    }
  }

  lemma LowestUnique(m: Mask)
    ensures forall i, j :: IsLowest(i, m) && IsLowest(j, m) ==> i == j
  {
  }

  function Lowest(m: Mask): (i: nat)
    requires m != {}
    ensures IsLowest(i, m)
  {
    LowestExists(m);
    LowestUnique(m);
    var i :| IsLowest(i, m);
    i
  }

  function Top(c: Cpu): Frame
    requires c.stack != []
  {
    c.stack[|c.stack| - 1]
  }

  datatype Event =
    | Request(lines: Mask)      // devices change their requests
    | Take                      // exception entry
    | Dispatch                  // the handler calls a routine
    | Leave                     // the handler returns
    | Interruptible             // the routine calls alt_irq_interruptible with its number
    | NonInterruptible          // ... and alt_irq_non_interruptible with the value it was given
    | Return                    // the routine returns
    | Enable(id: nat)           // outside routines or in one, where no masked interrupt is active
    | Disable(id: nat)

  predicate Enabled(c: Cpu, e: Event) {
    match e
    case Request(lines) => lines <= ALL
    case Take => c.pie && Pending(c) != {}
    case Dispatch => c.inHandler && Pending(c) != {}
    case Leave => c.inHandler && Pending(c) == {}
    case Interruptible => !c.inHandler && c.stack != [] && Top(c).saved == None
    case NonInterruptible => !c.inHandler && c.stack != [] && Top(c).saved != None && c.pie
    case Return => !c.inHandler && c.stack != [] && Top(c).saved == None
    case Enable(id) => id < NIRQ && !c.inHandler && c.active + {id} <= c.mask
    case Disable(id) => id < NIRQ && !c.inHandler && c.active - {id} <= c.mask
  }

  function SetTop(c: Cpu, saved: Option<Mask>): seq<Frame>
    requires c.stack != []
  {
    c.stack[..|c.stack| - 1] + [Top(c).(saved := saved)]
  }

  function Step(c: Cpu, e: Event): Cpu
    requires Enabled(c, e)
  {
    match e
    case Request(lines) => c.(lines := lines)
    case Take => c.(pie := false, inHandler := true)
    case Dispatch => c.(stack := c.stack + [Frame(Lowest(Pending(c)), c.mask, None)], inHandler := false)
    case Leave => c.(pie := true, inHandler := false)
    case Interruptible =>
      var mask := Below(Top(c).irq);
      c.(stack := SetTop(c, Some(c.mask)), mask := mask, ienable := c.active * mask, pie := true)
    case NonInterruptible =>
      var mask := Top(c).saved.value;
      c.(stack := SetTop(c, None), mask := mask, ienable := mask * c.active, pie := false)
    case Return => c.(stack := c.stack[..|c.stack| - 1], inHandler := true)
    case Enable(id) => Rewritten(c, c.active + {id})
    case Disable(id) => Rewritten(c, c.active - {id})
  }

  /** What alt_irq_enable and alt_irq_disable write: the whole active set, whatever the mask. */
  function Rewritten(c: Cpu, active: Mask): Cpu {
    c.(active := active, ienable := active)
  }

  predicate CanRun(c: Cpu, run: seq<Event>)
    decreases |run|
  {
    run == [] || (Enabled(c, run[0]) && CanRun(Step(c, run[0]), run[1..]))
  }

  function Exec(c: Cpu, run: seq<Event>): Cpu
    requires CanRun(c, run)
    decreases |run|
  {
    if run == [] then c else Exec(Step(c, run[0]), run[1..])
  }

  // ---------------------------------------------------------------- the invariant

  /** The mask the running routines leave: below the number of the innermost one that has made
      itself interruptible. */
  function MaskOf(stack: seq<Frame>): Mask {
    if stack == [] then ALL
    else
      var top := stack[|stack| - 1];
      if top.saved.Some? then Below(top.irq) else MaskOf(stack[..|stack| - 1])
  }

  /** Every routine below the top has been interrupted, so it is interruptible; each found the
      mask of those below it, keeps it while interruptible, and has a smaller number than they. */
  predicate StackOk(stack: seq<Frame>) {
    stack == [] ||
    (var (rest, top) := (stack[..|stack| - 1], stack[|stack| - 1]);
     && StackOk(rest)
     && top.irq < NIRQ && top.found == MaskOf(rest)
     && (top.saved.Some? ==> top.saved.value == top.found)
     && (rest != [] ==> rest[|rest| - 1].saved.Some? && top.irq < rest[|rest| - 1].irq))
  }

  predicate Inv(c: Cpu) {
    && StackOk(c.stack)
    && c.active <= ALL && c.lines <= ALL
    && c.mask == MaskOf(c.stack)
    && c.ienable == c.active * c.mask
    && (c.pie ==> !c.inHandler)
    && (c.stack != [] && (c.pie || c.inHandler) ==> Top(c).saved.Some?)
    && (!c.pie && !c.inHandler ==> c.stack != [] && Top(c).saved == None)
  }

  function Init(lines: Mask): Cpu {
    Cpu({}, ALL, {}, true, lines, [], false)
  }

  lemma InitInv(lines: Mask)
    requires lines <= ALL
    ensures Inv(Init(lines))
  {
  }

  /** The invariant of a stack in terms of its top. */
  lemma OnTop(rest: seq<Frame>, top: Frame)
    ensures MaskOf(rest + [top]) == if top.saved.Some? then Below(top.irq) else MaskOf(rest)
    ensures StackOk(rest + [top]) <==>
              && StackOk(rest)
              && top.irq < NIRQ && top.found == MaskOf(rest)
              && (top.saved.Some? ==> top.saved.value == top.found)
              && (rest != [] ==> rest[|rest| - 1].saved.Some? && top.irq < rest[|rest| - 1].irq)
  {
    assert (rest + [top])[..|rest|] == rest;
  }

  /** A dispatched request lies below the number of the routine it interrupts. */
  lemma PendingBelowTop(c: Cpu)
    requires Inv(c) && c.inHandler
    ensures forall i :: i in Pending(c) ==> i < NIRQ && i in c.mask
    ensures c.stack != [] ==> forall i :: i in Pending(c) ==> i < Top(c).irq
  {
  }

  lemma DispatchKeepsInv(c: Cpu)
    requires Inv(c) && Enabled(c, Dispatch)
    ensures Inv(Step(c, Dispatch))
  {
    PendingBelowTop(c);
    hide StackOk, MaskOf, Below;
    OnTop(c.stack, Frame(Lowest(Pending(c)), c.mask, None));
  }

  lemma SectionKeepsInv(c: Cpu, e: Event)
    requires Inv(c) && Enabled(c, e) && (e == Interruptible || e == NonInterruptible || e == Return)
    ensures Inv(Step(c, e))
  {
    hide StackOk, MaskOf, Below;
    var (rest, top) := (c.stack[..|c.stack| - 1], Top(c));
    assert c.stack == rest + [top];
    OnTop(rest, top);
    OnTop(rest, top.(saved := Some(c.mask)));
    OnTop(rest, top.(saved := None));
  }

  lemma StepKeepsInv(c: Cpu, e: Event)
    requires Inv(c) && Enabled(c, e)
    ensures Inv(Step(c, e))
  {
    hide StackOk, Below;
    match e
    case Enable(id) => assert (c.active + {id}) * c.mask == c.active + {id};
    case Disable(id) => assert (c.active - {id}) * c.mask == c.active - {id};
    case Dispatch => DispatchKeepsInv(c);
    case Interruptible => SectionKeepsInv(c, e);
    case NonInterruptible => SectionKeepsInv(c, e);
    case Return => SectionKeepsInv(c, e);
    case _ =>
  }

  lemma {:induction false} RunKeepsInv(c: Cpu, run: seq<Event>)
    requires Inv(c) && CanRun(c, run)
    ensures Inv(Exec(c, run))
    decreases |run|
  {
    if run != [] {
      StepKeepsInv(c, run[0]);
      RunKeepsInv(Step(c, run[0]), run[1..]);
    }
  }

  lemma {:induction false} StackDecreases(stack: seq<Frame>, i: nat, j: nat)
    requires StackOk(stack) && i < j < |stack|
    ensures stack[j].irq < stack[i].irq < NIRQ
    decreases |stack|
  {
    var rest := stack[..|stack| - 1];
    if j < |rest| {
      StackDecreases(rest, i, j);
    } else if i < |rest| - 1 {
      StackDecreases(rest, i, |rest| - 1);
    }
  }

  /** The running routines have strictly decreasing numbers, outermost first. */
  predicate Nested(stack: seq<Frame>) {
    forall i, j :: 0 <= i < j < |stack| ==> stack[j].irq < stack[i].irq
  }

  lemma InvNested(c: Cpu)
    requires Inv(c)
    ensures Nested(c.stack)
  {
    forall i, j | 0 <= i < j < |c.stack|
      ensures c.stack[j].irq < c.stack[i].irq
    {
      StackDecreases(c.stack, i, j);
    }
  }

  /** In every run from startup: the running routines have strictly decreasing numbers, so at most
      32 are nested; and IENABLE is the active set under the priority mask at every step. */
  lemma EveryRunNests(lines: Mask, run: seq<Event>)
    requires lines <= ALL && CanRun(Init(lines), run)
    ensures var c := Exec(Init(lines), run);
            && c.ienable == c.active * c.mask
            && Nested(c.stack)
            && |c.stack| <= NIRQ
  {
    InitInv(lines);
    RunKeepsInv(Init(lines), run);
    var c := Exec(Init(lines), run);
    InvNested(c);
    DepthBound(c.stack);
  }

  lemma {:induction false} DepthBound(stack: seq<Frame>)
    requires StackOk(stack)
    ensures stack != [] ==> stack[|stack| - 1].irq + |stack| <= NIRQ
    decreases |stack|
  {
    if stack != [] {
      DepthBound(stack[..|stack| - 1]);
    }
  }

  /** A run during which at least `depth` routines stay on the stack. */
  predicate StaysAbove(c: Cpu, run: seq<Event>, depth: nat)
    decreases |run|
  {
    depth <= |c.stack| && (run == [] || (Enabled(c, run[0]) && StaysAbove(Step(c, run[0]), run[1..], depth)))
  }

  lemma StepKeepsLower(c: Cpu, e: Event, depth: nat)
    requires Enabled(c, e) && 0 < depth <= |c.stack| && depth <= |Step(c, e).stack|
    ensures Step(c, e).stack[..depth - 1] == c.stack[..depth - 1]
  {
  }

  lemma {:induction false} RunKeepsLower(c: Cpu, run: seq<Event>, depth: nat)
    requires Inv(c) && depth > 0 && StaysAbove(c, run, depth)
    ensures CanRun(c, run) && Inv(Exec(c, run)) && depth <= |Exec(c, run).stack|
    ensures Exec(c, run).stack[..depth - 1] == c.stack[..depth - 1]
    decreases |run|
  {
    if run != [] {
      StepKeepsInv(c, run[0]);
      StepKeepsLower(c, run[0], depth);
      RunKeepsLower(Step(c, run[0]), run[1..], depth);
    }
  }

  /** Whatever happens between a routine's dispatch and its return, including any number of
      routines nested in it, the return leaves the mask and the interrupted routines as the
      dispatch found them, with IENABLE to match. */
  lemma ReturnRestores(c: Cpu, run: seq<Event>)
    requires Inv(c) && Enabled(c, Dispatch)
    requires StaysAbove(Step(c, Dispatch), run, |c.stack| + 1)
    requires CanRun(Step(c, Dispatch), run)
    requires var t := Exec(Step(c, Dispatch), run); |t.stack| == |c.stack| + 1 && Enabled(t, Return)
    ensures var u := Step(Exec(Step(c, Dispatch), run), Return);
            u.mask == c.mask && u.stack == c.stack && u.ienable == u.active * c.mask && u.inHandler
  {
    hide MaskOf, StackOk, Lowest;
    var s := Step(c, Dispatch);
    StepKeepsInv(c, Dispatch);
    RunKeepsLower(s, run, |c.stack| + 1);
    var t := Exec(s, run);
    StepKeepsInv(t, Return);
    assert s.stack[..|c.stack|] == c.stack;
  }

  /** alt_irq_enable and alt_irq_disable write the whole active set to IENABLE.  Wherever they are
      called, no later run ever breaks the nesting if and only if no active interrupt is masked. */
  lemma EnableInsideSection(c: Cpu, active: Mask)
    requires Inv(c) && !c.inHandler && active <= ALL
    ensures Inv(Rewritten(c, active)) <==> active <= c.mask
    ensures active <= c.mask <==>
            forall run {:trigger CanRun(Rewritten(c, active), run)} ::
              CanRun(Rewritten(c, active), run) ==> Nested(Exec(Rewritten(c, active), run).stack)
  {
    hide StackOk, MaskOf, Nested, Exec;
    var c' := Rewritten(c, active);
    assert active * c.mask == active <==> active <= c.mask;
    if active <= c.mask {
      forall run {:trigger CanRun(c', run)} | CanRun(c', run)
        ensures Nested(Exec(c', run).stack)
      {
        RunKeepsInv(c', run);
        InvNested(Exec(c', run));
      }
    } else {
      var k :| k in active && k !in c.mask;
      var run := MaskedPreempts(c, active, k);
      assert CanRun(Rewritten(c, active), run) && !Nested(Exec(Rewritten(c, active), run).stack);
    }
  }

  /** An active interrupt that is masked preempts a routine of smaller or equal number: at once if
      the running routine is in its section, else when it returns. */
  lemma MaskedPreempts(c: Cpu, active: Mask, k: nat) returns (run: seq<Event>)
    requires Inv(c) && !c.inHandler && active <= ALL && k in active && k !in c.mask
    ensures CanRun(Rewritten(c, active), run) && !Nested(Exec(Rewritten(c, active), run).stack)
  {
    var c' := Rewritten(c, active);
    var rest := MaskedBy(c, k);
    if c.pie {
      run := [Request({k}), Take, Dispatch];
    } else {
      run := [Request({k}), Return, Dispatch];
    }
    var c1 := Step(c', Request({k}));
    assert Pending(c1) == {k};
    assert run[1..][1..] == [Dispatch] && run[1..][1..][1..] == [];
    var c2 := Step(c1, run[1]);
    assert Lowest(Pending(c2)) == k;
    var c3 := Step(c2, Dispatch);
    assert CanRun(c3, []) && CanRun(c2, [Dispatch]) && Exec(c2, [Dispatch]) == c3;
    assert CanRun(c1, run[1..]) && Exec(c1, run[1..]) == c3;
    assert c3.stack == rest + [Frame(k, c2.mask, None)];
    assert c3.stack[|rest| - 1].irq <= c3.stack[|rest|].irq;
  }

  /** The routines that stay when a masked interrupt gets its turn; the innermost masks it. */
  lemma MaskedBy(c: Cpu, k: nat) returns (rest: seq<Frame>)
    requires Inv(c) && !c.inHandler && k !in c.mask && k < NIRQ
    ensures rest == (if c.pie then c.stack else c.stack[..|c.stack| - 1])
    ensures c.stack != [] && rest != [] && rest[|rest| - 1].irq <= k
    ensures !c.pie ==> Top(c).saved == None
  {
    rest := if c.pie then c.stack else c.stack[..|c.stack| - 1];
  }

  // ---------------------------------------------------------------- who is dispatched

  predicate NotDisabled(run: seq<Event>, id: nat) {
    forall k :: 0 <= k < |run| ==> run[k] != Disable(id)
  }

  /** The run enables the interrupt and does not disable it again. */
  predicate TurnedOn(run: seq<Event>, id: nat) {
    exists k :: 0 <= k < |run| && run[k] == Enable(id) && NotDisabled(run[k + 1..], id)
  }

  /** An interrupt is active exactly if it was enabled and not disabled since, or was active before
      and never disabled: no other event and no other interrupt's changes count. */
  lemma {:induction false} ActiveMeans(c: Cpu, run: seq<Event>, id: nat)
    requires CanRun(c, run)
    ensures id in Exec(c, run).active <==> TurnedOn(run, id) || (id in c.active && NotDisabled(run, id))
    decreases |run|
  {
    if run != [] {
      ActiveMeans(Step(c, run[0]), run[1..], id);
      FirstEvent(run, id);
      FirstChange(c, run[0], id);
    }
  }

  lemma FirstChange(c: Cpu, e: Event, id: nat)
    requires Enabled(c, e)
    ensures id in Step(c, e).active <==> e == Enable(id) || (id in c.active && e != Disable(id))
  {
  }

  lemma FirstEvent(run: seq<Event>, id: nat)
    requires run != []
    ensures NotDisabled(run, id) <==> run[0] != Disable(id) && NotDisabled(run[1..], id)
    ensures TurnedOn(run, id) <==> TurnedOn(run[1..], id) || (run[0] == Enable(id) && NotDisabled(run[1..], id))
  {
    var rest := run[1..];
    if run[0] != Disable(id) && NotDisabled(rest, id) {
      forall k | 0 <= k < |run| ensures run[k] != Disable(id) {
        assert k > 0 ==> run[k] == rest[k - 1];
      }
    }
    if TurnedOn(run, id) {
      var k :| 0 <= k < |run| && run[k] == Enable(id) && NotDisabled(run[k + 1..], id);
      if k > 0 {
        assert rest[k - 1] == Enable(id) && rest[k..] == run[k + 1..];
      }
    }
    if TurnedOn(rest, id) {
      var k :| 0 <= k < |rest| && rest[k] == Enable(id) && NotDisabled(rest[k + 1..], id);
      assert run[k + 1] == Enable(id) && run[k + 2..] == rest[k + 1..];
    }
  }

  /** After a run: the device asks for this interrupt, the run has it turned on, and no running
      routine has a number as low. */
  predicate Eligible(c: Cpu, run: seq<Event>, id: nat) {
    id in c.lines && TurnedOn(run, id) && forall k :: 0 <= k < |c.stack| ==> id < c.stack[k].irq
  }

  /** In every run from startup, whenever interrupts are on or the handler looks for more: there is
      something to take exactly if some interrupt is eligible, and the one dispatched is the lowest
      that is.  So a disabled interrupt is not dispatched until it is enabled again. */
  lemma DispatchesExactly(lines: Mask, run: seq<Event>)
    requires lines <= ALL && CanRun(Init(lines), run)
    ensures var c := Exec(Init(lines), run);
            && (c.pie ==> (Enabled(c, Take) <==> exists id :: Eligible(c, run, id)))
            && (c.inHandler ==> (Enabled(c, Dispatch) <==> exists id :: Eligible(c, run, id)))
            && (c.inHandler ==> (Enabled(c, Leave) <==> !exists id :: Eligible(c, run, id)))
            && (Enabled(c, Dispatch) ==>
                  var id := Top(Step(c, Dispatch)).irq;
                  Eligible(c, run, id) && forall other :: Eligible(c, run, other) ==> id <= other)
  {
    hide StackOk, MaskOf, TurnedOn, NotDisabled, Exec, CanRun, Lowest;
    InitInv(lines);
    RunKeepsInv(Init(lines), run);
    var c := Exec(Init(lines), run);
    if c.pie || c.inHandler {
      forall id ensures id in Pending(c) <==> Eligible(c, run, id) {
        ActiveMeans(Init(lines), run, id);
        PendingAt(c, id);
      }
      assert Pending(c) != {} ==> exists id :: id in Pending(c);
    }
  }

  lemma PendingAt(c: Cpu, id: nat)
    requires Inv(c) && (c.pie || c.inHandler)
    ensures id in Pending(c) <==> id in c.lines && id in c.active && forall k :: 0 <= k < |c.stack| ==> id < c.stack[k].irq
  {
    InvNested(c);
    var n := |c.stack|;
    if n > 0 {
      assert c.mask == Below(c.stack[n - 1].irq);
    }
  }

  /** A run from startup into the section of routine 3, with 3 and 5 active. */
  const INTO_SECTION := [Enable(3), Enable(5), Request({3}), Take, Dispatch, Interruptible]

  lemma SectionOfThree()
    ensures CanRun(Init({}), INTO_SECTION)
    ensures var c := Exec(Init({}), INTO_SECTION);
            c.active == {3, 5} && c.pie && !c.inHandler && |c.stack| == 1 && c.stack[0].irq == 3
  {
    hide Below;
    var c0 := Cpu({3, 5}, ALL, {3, 5}, true, {3}, [], false);
    assert Pending(c0) == {3};
    assert Lowest(Pending(c0)) == 3;
    var c1 := Step(c0, Take);
    var c2 := Step(c1, Dispatch);
    assert c2.stack == [Frame(3, ALL, None)];
    RunOne(c2, Interruptible, []);
    RunOne(c1, Dispatch, [Interruptible]);
    RunOne(c0, Take, [Dispatch, Interruptible]);
    StartWithBoth(c0);
  }

  lemma StartWithBoth(c0: Cpu)
    requires c0 == Cpu({3, 5}, ALL, {3, 5}, true, {3}, [], false) && CanRun(c0, [Take, Dispatch, Interruptible])
    ensures CanRun(Init({}), INTO_SECTION)
    ensures Exec(Init({}), INTO_SECTION) == Exec(c0, [Take, Dispatch, Interruptible])
  {
    hide Below, Lowest, Step, Enabled, CanRun, Exec;
    var rest := [Take, Dispatch, Interruptible];
    var c1, c2 := FirstThree(c0);
    RunOne(c2, Request({3}), rest);
    RunOne(c1, Enable(5), [Request({3})] + rest);
    RunOne(Init({}), Enable(3), [Enable(5)] + ([Request({3})] + rest));
    assert INTO_SECTION == [Enable(3)] + ([Enable(5)] + ([Request({3})] + rest));
  }

  lemma FirstThree(c0: Cpu) returns (c1: Cpu, c2: Cpu)
    requires c0 == Cpu({3, 5}, ALL, {3, 5}, true, {3}, [], false)
    ensures Enabled(Init({}), Enable(3)) && c1 == Step(Init({}), Enable(3))
    ensures Enabled(c1, Enable(5)) && c2 == Step(c1, Enable(5))
    ensures Enabled(c2, Request({3})) && c0 == Step(c2, Request({3}))
  {
    hide Below, Lowest;
    c1 := Init({}).(active := {3}, ienable := {3});
    c2 := Init({}).(active := {3, 5}, ienable := {3, 5});
  }

  /** Re-enabling interrupt 5 there: routine 5 preempts routine 3. */
  lemma EnableBreaksNesting()
    ensures CanRun(Init({}), INTO_SECTION)
    ensures var c := Exec(Init({}), INTO_SECTION);
            var (c', after) := (Rewritten(c, c.active + {5}), [Request({5}), Take, Dispatch]);
            && CanRun(c', after)
            && |Exec(c', after).stack| == 2 && Exec(c', after).stack[0].irq == 3 && Exec(c', after).stack[1].irq == 5
  {
    SectionOfThree();
    hide Below;
    var c := Exec(Init({}), INTO_SECTION);
    var d0 := Rewritten(c, c.active + {5});
    var d1 := Step(d0, Request({5}));
    assert Pending(d1) == {5};
    var d2 := Step(d1, Take);
    assert Lowest(Pending(d2)) == 5;
    RunOne(d2, Dispatch, []);
    RunOne(d1, Take, [Dispatch]);
    RunOne(d0, Request({5}), [Take, Dispatch]);
  }

  lemma RunOne(c: Cpu, e: Event, run: seq<Event>)
    requires Enabled(c, e) && CanRun(Step(c, e), run)
    ensures CanRun(c, [e] + run) && Exec(c, [e] + run) == Exec(Step(c, e), run)
  {
    assert ([e] + run)[1..] == run;
  }

  // ---------------------------------------------------------------- the code

  class Controller {
    var active: Mask          // alt_irq_active
    var mask: Mask            // alt_priority_mask
    var ienable: Mask
    var pie: bool
    var lines: Mask
    ghost var stack: seq<Frame>
    ghost var inHandler: bool

    ghost function State(): Cpu
      reads this
    {
      Cpu(active, mask, ienable, pie, lines, stack, inHandler)
    }

    ghost predicate Valid()
      reads this
    {
      Inv(State())
    }

    constructor (lines: Mask)
      requires lines <= ALL
      ensures Valid() && State() == Init(lines)
    {
      active, mask, ienable, pie := {}, ALL, {}, true;
      this.lines := lines;
      stack, inHandler := [], false;
      new;
      InitInv(lines);
    }

    /** alt_irq_enable */
    method EnableIrq(id: nat)
      requires Valid() && Enabled(State(), Enable(id))
      modifies this
      ensures Valid() && State() == Step(old(State()), Enable(id))
    {
      hide StackOk, MaskOf, Below, Lowest;
      StepKeepsInv(State(), Enable(id));
      active := active + {id};
      ienable := active;
    }

    /** alt_irq_disable */
    method DisableIrq(id: nat)
      requires Valid() && Enabled(State(), Disable(id))
      modifies this
      ensures Valid() && State() == Step(old(State()), Disable(id))
    {
      hide StackOk, MaskOf, Below, Lowest;
      StepKeepsInv(State(), Disable(id));
      active := active - {id};
      ienable := active;
    }

    /** alt_irq_interruptible, called by the running routine with its own number. */
    method MakeInterruptible(priority: nat) returns (oldPriority: Mask)
      requires Valid() && Enabled(State(), Interruptible) && priority == Top(State()).irq
      modifies this
      ensures Valid() && State() == Step(old(State()), Interruptible) && oldPriority == old(mask)
    {
      hide StackOk, MaskOf, Below, Lowest;
      StepKeepsInv(State(), Interruptible);
      oldPriority := mask;
      mask := Below(priority);
      ienable := active * mask;
      pie := true;
      stack := SetTop(State(), Some(oldPriority));
    }

    /** alt_irq_non_interruptible, called with what alt_irq_interruptible returned. */
    method MakeNonInterruptible(saved: Mask)
      requires Valid() && Enabled(State(), NonInterruptible) && Top(State()).saved == Some(saved)
      modifies this
      ensures Valid() && State() == Step(old(State()), NonInterruptible)
    {
      hide StackOk, MaskOf, Below, Lowest;
      StepKeepsInv(State(), NonInterruptible);
      pie := false;
      mask := saved;
      ienable := saved * active;
      stack := SetTop(State(), None);
    }

    /** The inner loop of alt_irq_handler: the lowest position set in `pending`. */
    method FindLowest(pending: Mask) returns (i: nat)
      requires pending != {} && pending <= ALL
      ensures i == Lowest(pending)
    {
      i := 0;
      while i !in pending
        invariant forall k :: k in pending ==> i <= k
        decreases NIRQ - i
      {
        ghost var x :| x in pending;
        i := i + 1;
      }
      assert IsLowest(i, pending);
      LowestUnique(pending);
    }

    /** Devices change their requests; once `budget` routines have run they are quiet. */
    method DevicesAct(budget: nat)
      requires Valid()
      modifies this`lines
      ensures Valid() && State() == old(State()).(lines := lines) && (budget == 0 ==> lines == {})
    {
      hide StackOk, MaskOf, Below, Lowest;
      var requests: Mask := *;
      lines := if budget == 0 then {} else requests * ALL;
    }

    /** The exception entry to and exit from alt_irq_handler. */
    method Enter()
      requires Valid() && Enabled(State(), Take)
      modifies this`pie, this`inHandler
      ensures Valid() && State() == Step(old(State()), Take)
    {
      hide StackOk, MaskOf, Below, Lowest;
      StepKeepsInv(State(), Take);
      pie := false;
      inHandler := true;
    }

    method Exit()
      requires Valid() && Enabled(State(), Leave)
      modifies this`pie, this`inHandler
      ensures Valid() && State() == Step(old(State()), Leave)
    {
      hide StackOk, MaskOf, Below, Lowest;
      StepKeepsInv(State(), Leave);
      pie := true;
      inHandler := false;
    }

    /** The call of a routine and its return. */
    ghost method Call()
      requires Valid() && Enabled(State(), Dispatch)
      modifies this`stack, this`inHandler
      ensures Valid() && State() == Step(old(State()), Dispatch)
    {
      hide StackOk, MaskOf, Below, Lowest;
      StepKeepsInv(State(), Dispatch);
      stack := stack + [Frame(Lowest(Pending(State())), mask, None)];
      inHandler := false;
    }

    ghost method Finish()
      requires Valid() && Enabled(State(), Return)
      modifies this`stack, this`inHandler
      ensures Valid() && State() == Step(old(State()), Return)
    {
      hide StackOk, MaskOf, Below, Lowest;
      StepKeepsInv(State(), Return);
      stack := stack[..|stack| - 1];
      inHandler := true;
    }

    /** A routine may enable or disable any interrupts, where no masked one is active. */
    method ChangeEnables(steady: bool)
      requires Valid() && !inHandler
      modifies this
      ensures Valid() && State() == old(State()).(active := active, ienable := ienable)
      ensures steady ==> active == old(active) && ienable == old(ienable)
    {
      hide Inv;
      var changes: nat := *;
      while !steady && changes > 0
        invariant Valid() && State() == old(State()).(active := active, ienable := ienable)
        invariant steady ==> active == old(active) && ienable == old(ienable)
      {
        var id: nat, enable: bool := *, *;
        if id < NIRQ && enable && active + {id} <= mask {
          EnableIrq(id);
        } else if id < NIRQ && !enable && active - {id} <= mask {
          DisableIrq(id);
        }
        changes := changes - 1;
      }
    }

    /** alt_irq_handler, entered because something is pending, while the devices raise at most
        `budget` more interrupts.  It returns to the interrupted code with nothing pending, the
        mask and the interrupted routines as it found them, and the enables too if the routines
        are steady, that is, change none. */
    method Handler(budget0: nat, steady: bool) returns (budget: nat)
      requires Valid() && inHandler && !pie && Pending(State()) != {} && budget0 > 0
      modifies this
      ensures Valid() && !inHandler && pie && Pending(State()) == {}
      ensures stack == old(stack) && mask == old(mask) && (steady ==> active == old(active))
      ensures budget < budget0
      decreases budget0, 0
    {
      hide Inv, Lowest;
      budget := budget0;
      var more := true;
      while more
        invariant Valid() && inHandler && !pie && more == (Pending(State()) != {})
        invariant stack == old(stack) && mask == old(mask) && (steady ==> active == old(active))
        invariant budget <= budget0 && (if more then budget > 0 else budget < budget0)
        decreases budget
      {
        PendingInRange(State());
        var i := FindLowest(lines * ienable);
        Call();
        assert stack[..|stack| - 1] == old(stack);
        budget := RunRoutine(i, budget - 1, steady);
        more := lines * ienable != {};
      }
      Exit();
    }

    /** An interrupt routine that may change enables and may make itself interruptible any number of
        times. */
    method RunRoutine(irq: nat, budget0: nat, steady: bool) returns (budget: nat)
      requires Valid() && !inHandler && !pie && stack != [] && Top(State()).irq == irq && Top(State()).saved == None
      modifies this
      ensures Valid() && inHandler && !pie
      ensures stack == old(stack)[..|old(stack)| - 1] && mask == old(mask) && (steady ==> active == old(active))
      ensures budget <= budget0 && (budget == 0 ==> Pending(State()) == {})
      decreases budget0, 2
    {
      hide Inv;
      budget := budget0;
      var sections: nat := *;
      while sections > 0
        invariant Valid() && !inHandler && !pie && stack == old(stack) && mask == old(mask)
        invariant (steady ==> active == old(active)) && budget <= budget0
      {
        ChangeEnables(steady);
        budget := RunNested(irq, budget, steady);
        sections := sections - 1;
      }
      ChangeEnables(steady);
      DevicesAct(budget);
      Finish();
    }

    /** An interruptible section of a routine: any number of interrupts are taken in it, and handled
        by Handler again. */
    method RunNested(irq: nat, budget0: nat, steady: bool) returns (budget: nat)
      requires Valid() && !inHandler && !pie && stack != [] && Top(State()).irq == irq && Top(State()).saved == None
      modifies this
      ensures Valid() && !inHandler && !pie && stack == old(stack) && mask == old(mask)
      ensures steady ==> active == old(active)
      ensures budget <= budget0
      decreases budget0, 1
    {
      hide Inv;
      budget := budget0;
      var saved := MakeInterruptible(irq);
      ghost var open := State();
      var exceptions: nat := *;
      while exceptions > 0
        invariant Valid() && !inHandler && pie && stack == open.stack && mask == open.mask
        invariant (steady ==> active == old(active)) && budget <= budget0
      {
        ChangeEnables(steady);
        DevicesAct(budget);
        if lines * ienable != {} {
          Enter();
          budget := Handler(budget, steady);
        }
        exceptions := exceptions - 1;
      }
      MakeNonInterruptible(saved);
      assert stack == old(stack);
    }
  }

  lemma PendingInRange(c: Cpu)
    requires Inv(c)
    ensures Pending(c) <= ALL
  {
  }
}
