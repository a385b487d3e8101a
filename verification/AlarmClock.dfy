/** The alarm scheduler: alt_alarm_start, alt_alarm_stop and alt_tick over the list of registered
    alarms, with callbacks that start and stop alarms while the list is walked. */
module AlarmClock {
  import opened Common
  import opened LinkedList
  import opened AlarmTime
  import opened AlarmHistory

  const EINVAL := 22
  const ENOTSUP := 134

  /** What starting an alarm does to its timer and to the history. */
  lemma StartLogged(log: seq<Event>, a: Alarm, now: nat, nticks: nat, delay: nat)
    requires Punctual(log) && !Unanswered(log) && nticks == now % WRAP
    requires delay < WRAP - 1 || (delay == WRAP - 1 && nticks == WRAP - 1)
    ensures var after := log + [Started(a, now, delay)];
            && Punctual(after) && Running(after) == Running(log) && !Unanswered(after) && NextDue(after, a).Some?
            && Pending(AlarmTime.Start(delay, nticks), now, NextDue(after, a).value)
  {
    hide Punctual, NextDue, LastOf, Running, Unanswered, Pending, AlarmTime.Start;
    StartPending(delay, now);
    LogAppend(log, Started(a, now, delay), a);
  }

  /** The other alarms' times do not depend on an event. */
  lemma OthersSame(log: seq<Event>, e: Event)
    ensures forall a {:trigger NextDue(log + [e], a)} {:trigger LastOf(log + [e], a)} :: a != e.alarm || e.Returned? ==>
              NextDue(log + [e], a) == NextDue(log, a) && LastOf(log + [e], a) == LastOf(log, a)
  {
    forall a: Alarm | a != e.alarm || e.Returned?
      ensures NextDue(log + [e], a) == NextDue(log, a) && LastOf(log + [e], a) == LastOf(log, a)
    {
      LogAppend(log, e, a);
    }
  }

  class Clock {
    var tickRate: nat             // _alt_tick_rate
    var nticks: nat               // _alt_nticks
    const head: Alarm             // alt_alarm_list
    var stock: set<Alarm>         // all alarm structures
    var idle: set<Alarm>          // those that are not registered
    var moves: bool               // in this tick callbacks may stop the saved successor for a while

    ghost var elems: seq<Alarm>   // the registered alarms, first to last
    ghost var now: nat            // ticks since reset, without wrap-around
    ghost var log: seq<Event>

    ghost predicate Linked()
      reads this, head, elems, stock
    {
      && IsList(head, elems) && Stocked(elems, stock) && head !in stock
      && idle <= stock && (forall e :: e in stock ==> (e in idle <==> e !in elems))
      && (forall i {:trigger elems[i]} :: 0 <= i < |elems| ==> elems[i] in stock)
      && nticks == now % WRAP
      && Punctual(log)
    }

    /** a is set to go off at its next due tick, seen from absolute tick t. */
    ghost predicate OnTime(a: Alarm, t: nat)
      reads this, a
    {
      NextDue(log, a).Some? && Pending(a.data, t, NextDue(log, a).value)
    }

    ghost predicate Valid()
      reads this, head, elems, stock
    {
      Linked() && Between(log) && forall a :: a in elems ==> OnTime(a, now)
    }

    constructor (tickRate: nat)
      ensures Valid() && elems == [] && log == [] && now == 0 && stock == {} && this.tickRate == tickRate
      ensures fresh(head)
    {
      this.tickRate := tickRate;
      nticks := 0;
      var h := new Node(Timer(0, false));
      head := h;
      stock, idle, moves := {}, {}, false;
      elems, now, log := [], 0, [];
      new;
      assert [head] + elems == [head];
    }

    /** An alarm is due in the future, at most one epoch ahead, at the time its field says. */
    ghost predicate Upcoming(a: Alarm)
      reads this, a
    {
      && NextDue(log, a).Some? && now < NextDue(log, a).value <= now + WRAP
      && a.data.time == NextDue(log, a).value % WRAP
    }

    /** No deadline is ever missed. */
    lemma NothingOverdue(a: Alarm)
      requires Valid() && a in elems
      ensures Upcoming(a)
    {
    }

    /** A new alarm structure, not registered yet. */
    method Adopt(alarm: Alarm)
      requires Valid() && alarm != head && alarm !in stock && IsRing([alarm])
      modifies this`idle, this`stock
      ensures Valid() && idle == old(idle) + {alarm} && stock == old(stock) + {alarm}
    {
      hide IsRing, Punctual, NextDue, Pending;
      stock := stock + {alarm};
      idle := idle + {alarm};
    }

    /** The deadline is set and the alarm linked. */
    method Arm(alarm: Alarm, delay: nat)
      requires Linked() && alarm in idle && !Unanswered(log)
      requires delay < WRAP - 1 || (delay == WRAP - 1 && nticks == WRAP - 1)
      modifies this`elems, this`idle, this`log, head, stock
      ensures Linked() && !Unanswered(log) && Running(log) == old(Running(log))
      ensures elems == [alarm] + old(elems) && idle == old(idle) - {alarm}
      ensures log == old(log) + [Started(alarm, now, delay)] && OnTime(alarm, now)
      ensures alarm.data == AlarmTime.Start(delay, nticks)
      ensures forall a :: a in stock && a != alarm ==>
                a.data == old(a.data) && NextDue(log, a) == NextDue(old(log), a) && LastOf(log, a) == LastOf(old(log), a)
      ensures forall a, t: nat :: a in stock && a != alarm && old(OnTime(a, t)) ==> OnTime(a, t)
    {
      hide IsList, Stocked, Punctual, NextDue, LastOf, Running, Unanswered, Pending, AlarmTime.Start;
      StartLogged(log, alarm, now, nticks, delay);
      InsertAny(head, alarm, elems, stock);
      elems := [alarm] + elems;
      SetAny(head, alarm, AlarmTime.Start(delay, nticks), elems, stock);
      idle := idle - {alarm};
      log := log + [Started(alarm, now, delay)];
      OthersSame(old(log), Started(alarm, now, delay));
    }

    /** alt_alarm_start.  The delay must not be 2^32 - 1 unless the counter is about to wrap, and
        the alarm must not be registered. */
    method Start(alarm: Node?<Timer>, delay: nat) returns (rc: int)
      requires Linked() && (alarm != null ==> alarm in idle) && !Unanswered(log)
      requires delay < WRAP - 1 || (delay == WRAP - 1 && nticks == WRAP - 1)
      modifies this`elems, this`idle, this`log, head, stock
      ensures Linked() && !Unanswered(log) && Running(log) == old(Running(log))
      ensures rc == if tickRate == 0 then -134 else if alarm == null then -22 else 0
      ensures rc != 0 ==> unchanged(this, head, stock)
      ensures rc == 0 ==>
                && elems == [alarm] + old(elems) && idle == old(idle) - {alarm}
                && log == old(log) + [Started(alarm, now, delay)] && OnTime(alarm, now)
                && alarm.data == AlarmTime.Start(delay, nticks)
      ensures forall a :: a in stock && (rc != 0 || a != alarm) ==>
                a.data == old(a.data) && NextDue(log, a) == NextDue(old(log), a) && LastOf(log, a) == LastOf(old(log), a)
      ensures forall a, t: nat :: a in stock && a != alarm && old(OnTime(a, t)) ==> OnTime(a, t)
      ensures old(Valid()) ==> Valid()
    {
      hide IsList, Stocked, Punctual, NextDue, LastOf, Running, Unanswered, Pending;
      if tickRate == 0 {
        return -ENOTSUP;
      }
      if alarm == null {
        return -EINVAL;
      }
      Arm(alarm, delay);
      if old(Valid()) {
        forall i | 1 <= i < |elems|
          ensures OnTime(elems[i], now)
        {
          var a := old(elems)[i - 1];
          assert elems[i] == a && old(OnTime(a, now));
        }
      }
      return 0;
    }

    /** A new alarm, started with delay zero. */
    method StartNew() returns (alarm: Alarm)
      requires Valid() && tickRate != 0
      modifies this`elems, this`idle, this`stock, this`log, head, stock
      ensures Valid() && elems == [alarm] + old(elems) && alarm.data == AlarmTime.Start(0, nticks)
      ensures fresh(alarm) && stock == old(stock) + {alarm}
    {
      hide Valid, Linked, OnTime, IsRing, AlarmTime.Start;
      alarm := new Node(Timer(0, false));
      Adopt(alarm);
      AtValid();
      var rc := Start(alarm, 0);
    }

    lemma AtValid()
      requires Valid()
      ensures Linked() && Between(log)
    {
    }

    /** alt_alarm_stop: exactly this alarm leaves the list; if it is not in the list, nothing
        changes. */
    method Stop(alarm: Alarm)
      requires Linked() && alarm in stock
      requires alarm in elems && Unanswered(log) ==> log[|log| - 1].alarm == alarm && log[|log| - 1].period == 0
      modifies this`elems, this`idle, this`log, head, stock
      ensures Linked() && IsRing([alarm])
      ensures Running(log) == old(Running(log)) && (Unanswered(log) ==> alarm !in old(elems) && old(Unanswered(log)))
      ensures elems == Removed(old(elems), alarm) && idle == old(idle) + {alarm}
      ensures log == if alarm in old(elems) then old(log) + [Stopped(alarm)] else old(log)
      ensures alarm.data == old(alarm.data)
      ensures forall a :: a in stock && a != alarm ==>
                a.data == old(a.data) && NextDue(log, a) == NextDue(old(log), a) && LastOf(log, a) == LastOf(old(log), a)
      ensures old(Valid()) ==> Valid()
    {
      hide IsRing, Round, Distinct, Punctual, NextDue, LastOf, Running, Unanswered, Removed;
      OthersSame(log, Stopped(alarm));
      LogAppend(log, Stopped(alarm), alarm);
      ListDistinct(head, elems);
      RemovedMembers(elems, alarm);
      RemoveAny(head, alarm, elems, stock);
      if alarm in elems {
        log := log + [Stopped(alarm)];
      }
      elems := Removed(elems, alarm);
      idle := idle + {alarm};
    }

    // -------------------------------------------------------------- alt_tick

    /** The alarms that have had their turn, or were started in this tick, are set for their next due
        ticks as of now, those still to visit as of the tick before.  The former are not found due
        by a second visit, if the walk may come to one. */
    ghost predicate OnTimeAround(w: Walk)
      reads this, elems
    {
      && now > 0 && Ahead(w) <= |elems|
      && (forall i :: 0 <= i < w.m ==> SettledAt(i))
      && (forall i :: Ahead(w) <= i < |elems| ==> OnTime(elems[i], now - 1))
    }

    ghost predicate SettledAt(i: nat)
      requires i < |elems|
      reads this, elems
    {
      OnTime(elems[i], now) && (moves ==> !Due(elems[i].data, nticks))
    }

    /** Part-way through a tick. */
    ghost predicate Walking(p: Pass, w: Walk)
      reads this, head, elems, stock
    {
      && Linked() && p.now == now && log == p.log + w.events
      && Shape(p, w, elems) && OnTimeAround(w)
    }

    /** The walk goes on with alarm c of the list, or ends. */
    ghost predicate AtCursor(alarm: Alarm, c: nat, w: Walk)
      reads this
    {
      && Between(log) && c <= w.m <= |elems| && (!moves ==> c == w.m)
      && alarm == if c < |elems| then elems[c] else head
    }

    /** Where the saved successor is: where the tick found it, or, if callbacks may move it, anywhere
        in front of the alarms to come or out of the list. */
    ghost predicate NextKnown(next: Alarm, w: Walk)
      reads this
    {
      Ahead(w) <= |elems| &&
      if next == head then Ahead(w) == |elems|
      else next in stock &&
           if next in idle then moves
           else next in elems && IndexOf(elems, next) <= Ahead(w) && (!moves ==> IndexOf(elems, next) == Ahead(w))
    }

    /** An alarm started in this tick, by its own callback. */
    ghost predicate Restarted(own: Alarm)
      reads this, own
    {
      LastOf(log, own).Some? &&
      var e := LastOf(log, own).value;
      e.Started? && e.alarm == own && e.tick == now && e.delay < WRAP - 1 && own.data == AlarmTime.Start(e.delay, nticks)
    }

    /** Record an event that leaves the list alone. */
    ghost method Log(e: Event)
      requires Linked() && Punctual(log + [e])
      modifies this`log
      ensures Linked() && log == old(log) + [e]
      ensures forall a :: a in stock && (a != e.alarm || e.Returned?) ==>
                NextDue(log, a) == NextDue(old(log), a) && LastOf(log, a) == LastOf(old(log), a)
      ensures forall a, t: nat :: a in stock && (a != e.alarm || e.Returned?) && old(OnTime(a, t)) ==> OnTime(a, t)
    {
      hide IsList, Stocked, Punctual, NextDue, LastOf, Pending;
      OthersSame(log, e);
      log := log + [e];
    }

    /** While the callback of `own` runs: it is at the cursor, as the tick found it, unless it has
        been stopped and perhaps started anew; `next` is the saved successor, and at most `left`
        alarms are to come. */
    ghost predicate InCallback(own: Alarm, timer: Timer, next: Alarm, left: nat, w: Walk)
      reads this, own
    {
      && own in stock && own != next && NextKnown(next, w) && |elems| - Ahead(w) <= left
      && (forall i :: Ahead(w) <= i < |elems| ==> elems[i] != own)
      && (w.cur ==> elems[w.m] == own && own.data == timer && LastOf(log, own) == Some(Fired(own, now)))
      && (!w.cur && own !in idle ==> Restarted(own))
      && (own in idle ==> LastOf(log, own) == Some(Stopped(own)))
    }

    /** The callback of `own` has been called and has not returned. */
    ghost predicate Runs(own: Alarm)
      reads this
    {
      Running(log) == Some(Fired(own, now)) && !Unanswered(log)
    }

    /** The returned period and the delay of an own restart together stay below 2^32. */
    ghost predicate Fits(own: Alarm, period: nat, w: Walk)
      reads this, own
    {
      !w.cur && own !in idle && Restarted(own) ==> LastOf(log, own).value.delay + 1 + period < WRAP
    }

    lemma LinkedAt()
      requires Linked()
      ensures Punctual(log) && nticks == now % WRAP && head !in stock
    {
    }

    lemma Listed()
      requires Linked()
      ensures forall i {:trigger elems[i]} :: 0 <= i < |elems| ==> elems[i] in stock && elems[i] !in idle
      ensures idle <= stock
    {
    }

    lemma Registered(a: Alarm)
      requires Linked() && a in stock && a !in idle
      ensures a in elems
    {
    }

    /** Starting an alarm in a callback. */
    method StartInTick(alarm: Alarm, delay: nat, own: Alarm, timer: Timer, next: Alarm, ghost left: nat, ghost p: Pass, ghost w0: Walk)
      returns (ghost w: Walk)
      requires Walking(p, w0) && InCallback(own, timer, next, left, w0) && Runs(own) && alarm in idle
      requires delay < WRAP - 1 || (delay == WRAP - 1 && nticks == WRAP - 1 && !moves && alarm != own)
      modifies this`elems, this`idle, this`log, head, stock
      ensures Walking(p, w) && InCallback(own, timer, next, left, w) && Runs(own)
      ensures idle == if tickRate == 0 then old(idle) else old(idle) - {alarm}
      ensures LastOf(log, own) == if alarm == own && tickRate != 0 then Some(Started(own, now, delay)) else old(LastOf(log, own))
      ensures own !in old(idle) ==> w.cur == w0.cur
      ensures own in old(idle) ==> !w.cur
    {
      hide Linked, OnTimeAround, LastOf, Running, Unanswered, Shape, Distinct, IndexOf, AlarmTime.Start;
      Listed();
      AtShape(p, w0, elems);
      w := w0;
      if tickRate == 0 {
        StartRefused(alarm, delay, p, w0);
      } else {
        w := StartAt(alarm, delay, p, w0);
        IndexAfterStart(old(elems), alarm, next);
      }
    }

    /** Starting an alarm without a clock. */
    method StartRefused(alarm: Alarm, delay: nat, ghost p: Pass, ghost w: Walk)
      requires Walking(p, w) && alarm in idle && tickRate == 0 && !Unanswered(log)
      requires delay < WRAP - 1 || (delay == WRAP - 1 && nticks == WRAP - 1)
      modifies this`elems, this`idle, this`log, head, stock
      ensures Walking(p, w) && unchanged(this, head, stock)
    {
      hide Shape, OnTimeAround;
      Listed();
      var rc := Start(alarm, delay);
      assert unchanged(elems);
    }

    /** Starting an alarm keeps the others' times. */
    method StartFirst(alarm: Alarm, delay: nat)
      requires Linked() && alarm in idle && tickRate != 0 && !Unanswered(log)
      requires delay < WRAP - 1 || (delay == WRAP - 1 && nticks == WRAP - 1)
      modifies this`elems, this`idle, this`log, head, stock
      ensures Linked() && elems == [alarm] + old(elems) && idle == old(idle) - {alarm}
      ensures !Unanswered(log) && Running(log) == old(Running(log))
      ensures log == old(log) + [Started(alarm, now, delay)] && alarm.data == AlarmTime.Start(delay, nticks)
      ensures OnTime(alarm, now) && LastOf(log, alarm) == Some(Started(alarm, now, delay))
      ensures forall a :: a in stock && a != alarm ==> a.data == old(a.data) && LastOf(log, a) == LastOf(old(log), a)
      ensures forall i {:trigger elems[i]} :: 1 <= i < |elems| ==>
                && elems[i] == old(elems)[i - 1] && elems[i].data == old(elems[i - 1].data)
                && (old(OnTime(elems[i - 1], now)) ==> OnTime(elems[i], now))
                && (old(now > 0 && OnTime(elems[i - 1], now - 1)) ==> now > 0 && OnTime(elems[i], now - 1))
    {
      hide Linked, OnTime, NextDue, LastOf, Running, Unanswered, Pending, Due, AlarmTime.Start;
      Listed();
      var rc := Start(alarm, delay);
      LogAppend(old(log), Started(alarm, now, delay), alarm);
      forall i {:trigger elems[i]} | 1 <= i < |elems|
        ensures elems[i] == old(elems)[i - 1] && elems[i] in stock && elems[i] != alarm
      {
        var a := old(elems)[i - 1];
      }
    }

    method StartAt(alarm: Alarm, delay: nat, ghost p: Pass, ghost w0: Walk) returns (ghost w: Walk)
      requires Walking(p, w0) && alarm in idle && tickRate != 0 && !Unanswered(log)
      requires delay < WRAP - 1 || (delay == WRAP - 1 && nticks == WRAP - 1 && !moves)
      modifies this`elems, this`idle, this`log, head, stock
      ensures Walking(p, w) && !Unanswered(log) && Running(log) == old(Running(log))
      ensures w == w0.(m := w0.m + 1, events := w.events) && elems == [alarm] + old(elems) && idle == old(idle) - {alarm}
      ensures LastOf(log, alarm) == Some(Started(alarm, now, delay)) && alarm.data == AlarmTime.Start(delay, nticks)
      ensures forall a :: a in stock && a != alarm ==> a.data == old(a.data) && LastOf(log, a) == LastOf(old(log), a)
    {
      hide Walking, Linked, OnTime, NextDue, LastOf, Running, Unanswered, Pending, Shape, Distinct, Due, AlarmTime.Start;
      OthersAt(p, w0);
      Unlisted(alarm);
      LinkedAt();
      ShapeStart(p, w0, elems, alarm, delay);
      if delay < WRAP - 1 {
        NotDueAtOnce(delay, 1, nticks);
      }
      StartFirst(alarm, delay);
      w := w0.(m := w0.m + 1, events := w0.events + [Started(alarm, now, delay)]);
      assert log == p.log + w.events;
      MakeWalking(p, w);
    }

    lemma Unlisted(a: Alarm)
      requires Linked() && a in idle
      ensures a !in elems
    {
    }

    lemma OthersAt(p: Pass, w: Walk)
      requires Walking(p, w)
      ensures Linked() && p.now == now > 0 && log == p.log + w.events && Shape(p, w, elems) && Ahead(w) <= |elems|
      ensures forall i {:trigger elems[i]} :: 0 <= i < w.m ==> OnTime(elems[i], now) && (moves ==> !Due(elems[i].data, nticks))
      ensures forall i {:trigger elems[i]} :: Ahead(w) <= i < |elems| ==> OnTime(elems[i], now - 1)
    {
      hide Linked, Shape, NextDue, Pending, Due;
      assert forall i {:trigger elems[i]} :: 0 <= i < w.m ==> SettledAt(i);
    }

    lemma MakeWalking(p: Pass, w: Walk)
      requires Linked() && p.now == now > 0 && log == p.log + w.events && Shape(p, w, elems) && Ahead(w) <= |elems|
      requires forall i {:trigger elems[i]} :: 0 <= i < w.m ==> OnTime(elems[i], now) && (moves ==> !Due(elems[i].data, nticks))
      requires forall i {:trigger elems[i]} :: Ahead(w) <= i < |elems| ==> OnTime(elems[i], now - 1)
      ensures Walking(p, w)
    {
      hide Linked, Shape, OnTime, Due;
      assert forall i :: 0 <= i < w.m ==> SettledAt(i);
    }

    /** Stopping the alarm at index i. */
    method Unlink(alarm: Alarm, ghost i: nat)
      requires Linked() && Distinct(elems) && i < |elems| && elems[i] == alarm
      requires Unanswered(log) ==> log[|log| - 1].alarm == alarm && log[|log| - 1].period == 0
      modifies this`elems, this`idle, this`log, head, stock
      ensures Linked() && elems == Without(old(elems), i) && idle == old(idle) + {alarm}
      ensures Running(log) == old(Running(log)) && !Unanswered(log)
      ensures log == old(log) + [Stopped(alarm)] && alarm.data == old(alarm.data)
      ensures forall a :: a in stock && a != alarm ==>
                a.data == old(a.data) && NextDue(log, a) == NextDue(old(log), a) && LastOf(log, a) == LastOf(old(log), a)
      ensures forall a, t: nat :: a in stock && a != alarm && old(OnTime(a, t)) ==> OnTime(a, t)
    {
      hide Linked, NextDue, LastOf, Running, Unanswered, Pending, Removed, Distinct, Without;
      Listed();
      WithoutFrom(elems, i, 0);
      Stop(alarm);
    }

    /** Stopping the alarm at index i keeps the others' times. */
    method StopAt(alarm: Alarm, ghost i: nat, ghost p: Pass, ghost w: Walk)
      requires Walking(p, w) && i < |elems| && elems[i] == alarm
      requires Unanswered(log) ==> log[|log| - 1].alarm == alarm && log[|log| - 1].period == 0
      modifies this`elems, this`idle, this`log, head, stock
      ensures Walking(p, WalkStopped(w, i, alarm)) && elems == Without(old(elems), i)
      ensures idle == old(idle) + {alarm} && alarm.data == old(alarm.data)
      ensures Running(log) == old(Running(log)) && !Unanswered(log) && LastOf(log, alarm) == Some(Stopped(alarm))
      ensures forall a :: a in stock && a != alarm ==> a.data == old(a.data) && LastOf(log, a) == LastOf(old(log), a)
    {
      hide Walking, Linked, OnTime, NextDue, LastOf, Running, Unanswered, Pending, Shape, Distinct, Without, WalkStopped, Due;
      LogAppend(log, Stopped(alarm), alarm);
      ghost var after := WalkStopped(w, i, alarm);
      OthersAt(p, w);
      Listed();
      AtShape(p, w, elems);
      ShapeStop(p, w, elems, i);
      IndicesAfterStop(w, elems, i);
      Unlink(alarm, i);
      assert log == p.log + after.events;
      forall j | 0 <= j < |elems|
        ensures elems[j] == old(elems)[IndexBefore(i, j)] && elems[j] in stock && elems[j] != alarm
      {
      }
      MakeWalking(p, after);
    }

    /** Stopping an alarm in a callback; the saved successor only if it may move. */
    method StopInTick(alarm: Alarm, own: Alarm, timer: Timer, next: Alarm, ghost left: nat, ghost p: Pass, ghost w0: Walk)
      returns (ghost w: Walk)
      requires Walking(p, w0) && InCallback(own, timer, next, left, w0)
      requires alarm in stock && alarm !in idle && (alarm == next ==> moves)
      requires Unanswered(log) ==> log[|log| - 1].alarm == alarm && log[|log| - 1].period == 0
      modifies this`elems, this`idle, this`log, head, stock
      ensures Running(log) == old(Running(log)) && !Unanswered(log)
      ensures Walking(p, w) && InCallback(own, timer, next, left, w)
      ensures idle == old(idle) + {alarm}
      ensures alarm != own ==> LastOf(log, own) == old(LastOf(log, own)) && w.cur == w0.cur
      ensures alarm == own ==> !w.cur
    {
      hide Linked, LastOf, Running, Unanswered, Shape, Distinct, Without, WalkStopped, OnTimeAround, IndexOf, Punctual, NextDue, SettledAt, Pending, Between, Walking;
      OthersAt(p, w0);
      Listed();
      Registered(alarm);
      ghost var i :| 0 <= i < |elems| && elems[i] == alarm;
      w := WalkStopped(w0, i, alarm);
      AtShape(p, w0, elems);
      CursorAfterStop(w0, elems, i, own);
      if next in elems && next != alarm {
        IndexAfterStop(w0, elems, i, next);
      }
      StopAt(alarm, i, p, w0);
      assert NextKnown(next, w);
    }

    /** A callback runs.  It starts and stops alarms as it likes, its own and the saved successor
        included, as long as the successor is registered when it returns (if callbacks do not move
        it in this tick, it stays where it is); it returns a period, which together with the delay
        of a restart of its own alarm stays below 2^32. */
    method Callback(own: Alarm, timer: Timer, next: Alarm, ghost left: nat, ghost p: Pass, ghost w0: Walk)
      returns (period: nat, ghost w: Walk)
      requires Walking(p, w0) && InCallback(own, timer, next, left, w0) && w0.cur && next !in idle && own !in idle
      requires Runs(own)
      modifies this`elems, this`idle, this`log, head, stock
      ensures Walking(p, w) && InCallback(own, timer, next, left, w) && next !in idle
      ensures period < WRAP && Fits(own, period, w) && HasReturned(own, period)
    {
      hide Walking, InCallback, Runs, Fits, HasReturned;
      w := w0;
      var actions: nat, bound: nat := *, WRAP;
      while actions > 0
        invariant Walking(p, w) && InCallback(own, timer, next, left, w) && Runs(own) && 0 < bound <= WRAP
        invariant next in idle ==> tickRate != 0
        invariant own !in idle && !w.cur ==> BoundFor(own, bound)
      {
        var starts: bool, delay: nat := *, *;
        if starts {
          w, bound := StartSome(delay, bound, own, timer, next, left, p, w);
        } else {
          w := StopSome(own, timer, next, left, p, w);
        }
        actions := actions - 1;
      }
      if next in idle {
        var delay: nat := *;
        OwnNotNext(own, timer, next, left, w);
        w := StartInTick(next, delay % (WRAP - 1), own, timer, next, left, p, w);
      }
      period := *;
      period := period % bound;
      BoundFits(own, period, bound, w);
      w := LogReturn(own, period, timer, next, left, p, w);
    }

    /** The last thing that happened: the callback of `own` has returned a period. */
    ghost predicate HasReturned(own: Alarm, period: nat)
      reads this
    {
      Answers(log, own, now, period) && Running(log) == None
    }

    ghost method LogReturn(own: Alarm, period: nat, timer: Timer, next: Alarm, left: nat, p: Pass, w0: Walk) returns (w: Walk)
      requires Walking(p, w0) && InCallback(own, timer, next, left, w0) && Runs(own) && Fits(own, period, w0)
      modifies this`log
      ensures Walking(p, w) && InCallback(own, timer, next, left, w) && HasReturned(own, period) && Fits(own, period, w)
    {
      hide Walking, LastOf, Running, IndexOf;
      w := LogBack(own, period, p, w0);
    }

    ghost method LogBack(own: Alarm, period: nat, p: Pass, w0: Walk) returns (w: Walk)
      requires Walking(p, w0) && Runs(own) && forall i :: Ahead(w0) <= i < |elems| ==> elems[i] != own
      modifies this`log
      ensures Walking(p, w) && w == w0.(events := w.events) && HasReturned(own, period)
      ensures forall a :: a in stock ==> LastOf(log, a) == LastOf(old(log), a)
    {
      hide Walking, Linked, OnTime, NextDue, LastOf, Running, Pending, Shape, Distinct, Due;
      var e := Returned(own, now, period);
      OthersAt(p, w0);
      Listed();
      LinkedAt();
      ShapeOther(p, w0, elems, e);
      LogAppend(log, e, own);
      w := w0.(events := w0.events + [e]);
      Log(e);
      assert log == p.log + w.events;
      MakeWalking(p, w);
    }

    /** A period below the bound can be added to the delay of the own restart. */
    ghost predicate BoundFor(own: Alarm, bound: nat)
      reads this
    {
      LastOf(log, own).Some? && LastOf(log, own).value.Started? && bound == WRAP - 1 - LastOf(log, own).value.delay
    }

    lemma BoundFits(own: Alarm, period: nat, bound: nat, w: Walk)
      requires period < bound && (own !in idle && !w.cur ==> BoundFor(own, bound))
      ensures Fits(own, period, w)
    {
    }

    lemma OwnNotNext(own: Alarm, timer: Timer, next: Alarm, left: nat, w: Walk)
      requires InCallback(own, timer, next, left, w)
      ensures own != next
    {
    }

    /** Any start of an alarm in a callback. */
    method StartSome(delay: nat, bound0: nat, own: Alarm, timer: Timer, next: Alarm, ghost left: nat, ghost p: Pass, ghost w0: Walk)
      returns (ghost w: Walk, bound: nat)
      requires Walking(p, w0) && InCallback(own, timer, next, left, w0) && Runs(own) && 0 < bound0 <= WRAP
      requires next in idle ==> tickRate != 0
      requires own !in idle && !w0.cur ==> BoundFor(own, bound0)
      modifies this`elems, this`idle, this`log, head, stock
      ensures Walking(p, w) && InCallback(own, timer, next, left, w) && Runs(own) && 0 < bound <= WRAP
      ensures next in idle ==> tickRate != 0
      ensures own !in idle && !w.cur ==> BoundFor(own, bound)
    {
      hide Walking, InCallback, LastOf, Running, Unanswered;
      w, bound := w0, bound0;
      if idle != {} {
        var alarm :| alarm in idle;
        if delay < WRAP - 1 || (delay == WRAP - 1 && nticks == WRAP - 1 && !moves && alarm != own) {
          w := StartInTick(alarm, delay, own, timer, next, left, p, w);
          if alarm == own && tickRate != 0 {
            bound := WRAP - 1 - delay;
          }
        }
      }
    }

    /** Any stop of an alarm in a callback. */
    method StopSome(own: Alarm, timer: Timer, next: Alarm, ghost left: nat, ghost p: Pass, ghost w0: Walk) returns (ghost w: Walk)
      requires Walking(p, w0) && InCallback(own, timer, next, left, w0) && Runs(own)
      requires next in idle ==> tickRate != 0
      modifies this`elems, this`idle, this`log, head, stock
      ensures Walking(p, w) && InCallback(own, timer, next, left, w) && Runs(own)
      ensures next in idle ==> tickRate != 0
      ensures own in idle || (own !in old(idle) && LastOf(log, own) == old(LastOf(log, own)) && w.cur == w0.cur)
    {
      hide Walking, InCallback, LastOf, Running, Unanswered;
      w := w0;
      var candidates := stock - idle - if moves && tickRate != 0 then {} else {next};
      if candidates != {} {
        var alarm :| alarm in candidates;
        w := StopInTick(alarm, own, timer, next, left, p, w);
      }
    }

    /** Clear the flag of the alarm at the cursor when the counter has wrapped. */
    method ClearFlag(alarm: Alarm, ghost c: nat, ghost p: Pass, ghost w: Walk)
      requires Walking(p, w) && !w.cur && AtCursor(alarm, c, w) && c < |elems|
      modifies alarm`data
      ensures Linked() && Shape(p, w, elems) && alarm.data == ClearRollover(old(alarm.data), nticks)
      ensures if c < w.m then Walking(p, w) else OnTimeAround(w.(cur := true))
    {
      hide IsList, Stocked, Punctual, NextDue, Pending, Shape, Due;
      AtShape(p, w, elems);
      if c < w.m {
        assert SettledAt(c);
        NothingToClear(alarm.data, now, NextDue(log, alarm).value);
      } else {
        OthersDiffer(elems, c);
      }
      OthersAt(p, w);
      if alarm.data.rollover && nticks == 0 {
        SetAny(head, alarm, alarm.data.(rollover := false), elems, stock);
        forall i | 0 <= i < w.m
          ensures SettledAt(i)
        {
          var _ := elems[i];
        }
      }
    }

    /** After a callback that asked for another run: the next deadline. */
    method SetNext(own: Alarm, period: nat, next: Alarm, ghost left: nat, ghost p: Pass, ghost w0: Walk)
      returns (ghost w: Walk)
      requires Walking(p, w0) && InCallback(own, Timer(nticks, false), next, left, w0) && next !in idle
      requires 0 < period < WRAP && Fits(own, period, w0) && HasReturned(own, period)
      modifies own`data, this`log
      ensures Walking(p, w) && !w.cur && NextKnown(next, w) && |elems| - Ahead(w) <= left && Between(log)
    {
      hide IsList, Stocked, Punctual, NextDue, LastOf, Running, Pending, Shape, Due, AlarmTime.Start, IndexOf;
      w := w0;
      AtShape(p, w, elems);
      var time := (own.data.time + period) % WRAP;
      SetAny(head, own, Timer(time, if time < nticks then true else own.data.rollover), elems, stock);
      forall i | 0 <= i < w.m && elems[i] != own
        ensures SettledAt(i)
      {
        assert old(SettledAt(i));
      }
      if w.cur {
        OthersDiffer(elems, w.m);
        w := LogAgain(own, period, next, left, p, w);
      } else if own !in idle {
        w := LogDeferred(own, period, next, left, p, w);
      }
    }

    /** Everything but the times of one alarm is as it should be. */
    ghost predicate WalkingBut(own: Alarm, p: Pass, w: Walk)
      reads this, head, elems, stock
    {
      && Linked() && p.now == now && log == p.log + w.events && Shape(p, w, elems) && now > 0
      && (forall i :: 0 <= i < w.m && elems[i] != own ==> SettledAt(i))
      && (forall i :: Ahead(w) <= i < |elems| ==> OnTime(elems[i], now - 1) && elems[i] != own)
    }

    ghost method LogDeferred(own: Alarm, period: nat, next: Alarm, left: nat, p: Pass, w0: Walk) returns (w: Walk)
      requires WalkingBut(own, p, w0) && !w0.cur && own in elems && HasReturned(own, period)
      requires LastOf(log, own).Some?
      requires var e := LastOf(log, own).value;
               && e.Started? && e.tick == now && e.delay < WRAP - 1 && 0 < period && e.delay + 1 + period < WRAP
               && own.data == Reschedule(AlarmTime.Start(e.delay, nticks), nticks, period)
      modifies this`log
      ensures Walking(p, w) && w == w0.(events := w.events) && Between(log)
    {
      hide Linked, Punctual, NextDue, LastOf, Running, Unanswered, Pending, Shape, Reschedule, Distinct, Due, AlarmTime.Start;
      var d := LastOf(log, own).value.delay;
      var e := Deferred(own, now, d + period);
      Listed();
      AtShape(p, w0, elems);
      ShapeOther(p, w0, elems, e);
      LogAppend(log, e, own);
      ShiftPending(d, now, period);
      LinkedAt();
      w := w0.(events := w0.events + [e]);
      Log(e);
      assert log == p.log + w.events;
      assert OnTime(own, now);
      forall i | 0 <= i < w.m
        ensures SettledAt(i)
      {
        assert elems[i] != own ==> old(SettledAt(i));
      }
    }

    ghost method LogAgain(own: Alarm, period: nat, next: Alarm, left: nat, p: Pass, w0: Walk) returns (w: Walk)
      requires Walking(p, w0) && 0 < period < WRAP && w0.cur && next !in idle && HasReturned(own, period)
      requires InCallback(own, Reschedule(Timer(nticks, false), nticks, period), next, left, w0)
      modifies this`log
      ensures Walking(p, w) && !w.cur && NextKnown(next, w) && |elems| - Ahead(w) <= left && Between(log)
    {
      hide Linked, Punctual, NextDue, LastOf, Running, Unanswered, Pending, Shape, Reschedule, Distinct, Due, IndexOf;
      var e := Again(own, now, period);
      Listed();
      AtShape(p, w0, elems);
      OthersDiffer(elems, w0.m);
      ShapeAgain(p, w0, elems, period);
      LogAppend(log, e, own);
      LinkedAt();
      ReschedulePending(now, period);
      NotDueAtOnce(0, period, nticks);
      w := w0.(m := w0.m + 1, cur := false, events := w0.events + [e]);
      Log(e);
      assert log == p.log + w.events;
      assert OnTime(own, now);
      forall i | 0 <= i < w.m
        ensures SettledAt(i)
      {
        assert i < w0.m ==> old(SettledAt(i));
      }
      forall i | Ahead(w) <= i < |elems|
        ensures OnTime(elems[i], now - 1)
      {
        assert old(OnTime(elems[i], now - 1));
      }
    }

    /** After a callback that returned zero: the alarm leaves the list, if it is in it. */
    method Retire(own: Alarm, timer: Timer, next: Alarm, ghost left: nat, ghost p: Pass, ghost w0: Walk)
      returns (ghost w: Walk)
      requires Walking(p, w0) && InCallback(own, timer, next, left, w0) && next !in idle && HasReturned(own, 0)
      modifies this`elems, this`idle, this`log, head, stock
      ensures Walking(p, w) && !w.cur && NextKnown(next, w) && |elems| - Ahead(w) <= left && Between(log)
      ensures own in idle && next !in idle
    {
      hide IsList, Stocked, Punctual, NextDue, LastOf, Running, Pending, Shape, Distinct, IndexOf, Due;
      if own in idle {
        w := w0;
        Stop(own);
        forall i | 0 <= i < w.m
          ensures SettledAt(i)
        {
          assert old(SettledAt(i));
        }
      } else {
        w := StopInTick(own, own, timer, next, left, p, w0);
      }
    }

    /** A due alarm: its callback is called, and the alarm retires or gets its next deadline. */
    method RunDue(alarm: Alarm, next: Alarm, ghost p: Pass, ghost w0: Walk) returns (ghost w: Walk, ghost c: nat)
      requires Linked() && p.now == now && log == p.log + w0.events && Shape(p, w0, elems) && OnTimeAround(w0.(cur := true))
      requires !w0.cur && w0.k < |p.all| && w0.m < |elems| && p.all[w0.k] == elems[w0.m] == alarm
      requires FirstOf(w0.events, alarm) == None && NextDue(p.log, alarm) == Some(now)
      requires alarm.data == Timer(nticks, false) && next == if w0.m + 1 < |elems| then elems[w0.m + 1] else head
      requires Between(log)
      modifies this`elems, this`idle, this`log, head, stock
      ensures Walking(p, w) && !w.cur && AtCursor(next, c, w) && |elems| - w.m < |old(elems)| - w0.m
    {
      hide Walking, Linked, Shape, OnTimeAround, InCallback, NextKnown, AtCursor, Between, Runs, HasReturned;
      ghost var left := |elems| - w0.m - 1;
      w := Call(alarm, next, p, w0);
      var period;
      period, w := Callback(alarm, Timer(nticks, false), next, left, p, w);
      if period == 0 {
        w := Retire(alarm, Timer(nticks, false), next, left, p, w);
      } else {
        w := SetNext(alarm, period, next, left, p, w);
      }
      c := Cursor(next, p, w);
    }

    lemma Cursor(next: Alarm, p: Pass, w: Walk) returns (c: nat)
      requires Walking(p, w) && !w.cur && NextKnown(next, w) && next !in idle && Between(log)
      ensures AtCursor(next, c, w)
    {
      c := if next == head then w.m else IndexOf(elems, next);
    }

    /** The history at the call of a due alarm's callback. */
    ghost method Call(alarm: Alarm, next: Alarm, p: Pass, w0: Walk) returns (w: Walk)
      requires Linked() && p.now == now && log == p.log + w0.events && Shape(p, w0, elems) && OnTimeAround(w0.(cur := true))
      requires !w0.cur && w0.k < |p.all| && w0.m < |elems| && p.all[w0.k] == elems[w0.m] == alarm
      requires FirstOf(w0.events, alarm) == None && NextDue(p.log, alarm) == Some(now)
      requires alarm.data == Timer(nticks, false) && next == if w0.m + 1 < |elems| then elems[w0.m + 1] else head
      requires Between(log)
      modifies this`log
      ensures Walking(p, w) && InCallback(alarm, Timer(nticks, false), next, |elems| - w0.m - 1, w)
      ensures w.cur && next !in idle && alarm !in idle && alarm in stock && Runs(alarm)
    {
      hide Walking, Linked, OnTime, Punctual, NextDue, LastOf, FirstOf, Running, Unanswered, Pending, Shape, Distinct, Due;
      var e := Fired(alarm, now);
      Listed();
      LinkedAt();
      AtShape(p, w0, elems);
      OthersDiffer(elems, w0.m);
      if w0.m + 1 < |elems| {
        OthersDiffer(elems, w0.m + 1);
      }
      ShapeFire(p, w0, elems);
      DueStill(p, w0, alarm);
      LogAppend(log, e, alarm);
      w := w0.(cur := true, k := w0.k + 1, events := w0.events + [e]);
      assert forall i {:trigger elems[i]} :: 0 <= i < w.m ==> SettledAt(i);
      Log(e);
      assert log == p.log + w.events;
      MakeWalking(p, w);
    }

    /** The body of the walk, for one alarm.  Either it is its turn, and less is left to visit; or
        the walk has come to it again, and nothing happens. */
    method Visit(alarm: Alarm, next: Alarm, ghost p: Pass, ghost w0: Walk, ghost c0: nat) returns (ghost w: Walk, ghost c: nat)
      requires Walking(p, w0) && !w0.cur && AtCursor(alarm, c0, w0) && c0 < |elems|
      requires next == if c0 + 1 < |elems| then elems[c0 + 1] else head
      modifies this`elems, this`idle, this`log, head, stock
      ensures Walking(p, w) && !w.cur && AtCursor(next, c, w)
      ensures |elems| - w.m < |old(elems)| - w0.m || (|elems| - w.m == |old(elems)| - w0.m && w.m - c < w0.m - c0)
    {
      hide Linked, NextDue, FirstOf, Pending, Shape, Due, OnTimeAround, ClearRollover, Between;
      Listed();
      ghost var w1 := w0;
      if c0 == w0.m {
        w1 := Turn(alarm, p, w0);
      } else {
        SecondVisit(c0, p, w0);
      }
      ClearFlag(alarm, c0, p, w1);
      DueMeans(alarm.data, nticks);
      if alarm.data.time <= nticks && !alarm.data.rollover {
        w, c := RunDue(alarm, next, p, w1);
      } else {
        w, c := w1, c0 + 1;
        if c0 == w0.m {
          Passed(alarm, p, w1);
          w := w1.(m := w1.m + 1, k := w1.k + 1);
        }
      }
    }

    /** The alarm at the cursor has its turn: it is found due exactly if it is. */
    lemma Turn(alarm: Alarm, p: Pass, w0: Walk) returns (w: Walk)
      requires Walking(p, w0) && !w0.cur && w0.m < |elems| && elems[w0.m] == alarm
      ensures Walking(p, w) && w == w0.(k := w.k) && w.k < |p.all| && p.all[w.k] == alarm
      ensures FirstOf(w.events, alarm) == None && NextDue(log, alarm) == NextDue(p.log, alarm) && NextDue(log, alarm).Some?
      ensures var t := ClearRollover(alarm.data, nticks);
              && (Due(t, nticks) <==> NextDue(p.log, alarm) == Some(now))
              && (Due(t, nticks) ==> t == Timer(nticks, false))
              && (!Due(t, nticks) ==> Pending(t, now, NextDue(log, alarm).value))
    {
      hide IsList, Stocked, Punctual, NextDue, LastOf, FirstOf, Pending, Shape, Due, ClearRollover;
      w := ShapeNext(p, w0, elems);
      DueStill(p, w, alarm);
      TickExact(alarm.data, now - 1, NextDue(log, alarm).value);
    }

    lemma SecondVisit(c: nat, p: Pass, w: Walk)
      requires Walking(p, w) && c < w.m <= |elems| && moves
      ensures ClearRollover(elems[c].data, nticks) == elems[c].data && !Due(elems[c].data, nticks)
    {
      hide IsList, Stocked, Punctual, NextDue, LastOf, Pending, Shape, Due, ClearRollover;
      assert SettledAt(c);
      NothingToClear(elems[c].data, now, NextDue(log, elems[c]).value);
    }

    lemma Passed(alarm: Alarm, p: Pass, w: Walk)
      requires Linked() && p.now == now && log == p.log + w.events && Shape(p, w, elems) && OnTimeAround(w.(cur := true))
      requires !w.cur && w.k < |p.all| && w.m < |elems| && p.all[w.k] == elems[w.m] == alarm
      requires FirstOf(w.events, alarm) == None && NextDue(p.log, alarm) != Some(now)
      requires OnTime(alarm, now) && !Due(alarm.data, nticks)
      ensures Walking(p, w.(m := w.m + 1, k := w.k + 1))
    {
      hide Linked, NextDue, FirstOf, Pending, Shape, Due;
      AtShape(p, w, elems);
      ShapePass(p, w, elems);
      assert SettledAt(w.m);
    }

    /** The tick counter, at the start of alt_tick. */
    method Advance() returns (ghost p: Pass)
      requires Valid()
      modifies this`nticks, this`now, this`moves
      ensures nticks == (old(nticks) + 1) % WRAP
      ensures now == old(now) + 1 && p == Pass(elems, log, now) && Walking(p, Walk(0, false, 0, [])) && Between(log)
    {
      hide IsList, Stocked, NextDue, Punctual, Pending, Shape, Distinct;
      ListDistinct(head, elems);
      nticks := (nticks + 1) % WRAP;
      now := now + 1;
      moves := *;
      p := Pass(elems, log, now);
      ShapeBegins(elems, log, now);
      assert forall i :: 0 <= i < |elems| ==> elems[i] in elems;
    }

    /** What callbacks return in a tick is followed. */
    lemma AnswersFollowed(p: Pass, w: Walk)
      requires Walking(p, w) && Between(log) && FiredIn(w.events) == Fires(p.all, p.log, w.events, now)
      ensures forall i :: 0 <= i < |FiredIn(w.events)| ==> Obeyed(p, w.events, FiredIn(w.events)[i])
    {
      hide IsList, Stocked, Punctual, Between, FiredIn, Fires, ListAfter, Obeyed, ToCome, Done, Dated;
      forall i | 0 <= i < |FiredIn(w.events)|
        ensures Obeyed(p, w.events, FiredIn(w.events)[i])
      {
        FiresMembers(p.all, p.log, w.events, now, i);
        EveryCallObeyed(p, w.events, FiredIn(w.events)[i]);
      }
    }

    /** alt_tick.  It terminates.  Exactly the alarms that are due at the new tick, and that no
        callback stops before their turn, have their callbacks called, in list order and once each;
        what each returns is followed; the list becomes what the starts and stops of the tick make
        of it; and every alarm in it is due in the future. */
    method Tick() returns (ghost events: seq<Event>)
      requires Valid()
      modifies this`nticks, this`now, this`moves, this`elems, this`idle, this`log, head, stock
      ensures Valid() && now == old(now) + 1 && log == old(log) + events
      ensures FiredIn(events) == Fires(old(elems), old(log), events, now)
      ensures elems == ListAfter(old(elems), events)
      ensures forall i :: 0 <= i < |FiredIn(events)| ==> Obeyed(Pass(old(elems), old(log), now), events, FiredIn(events)[i])
      ensures forall i :: 0 <= i < |elems| ==> Upcoming(elems[i])
    {
      hide Upcoming, Linked, OnTime, OnTimeAround, Shape, FiredIn, Fires, ListAfter, Between, Obeyed;
      ghost var p := Advance();
      ghost var w, c := Walk(0, false, 0, []), 0;
      FirstListed(w);
      var alarm := head.next;
      while alarm != head
        invariant Walking(p, w) && !w.cur && AtCursor(alarm, c, w) && now == old(now) + 1
        decreases |elems| - w.m, w.m - c
      {
        NextListed(alarm, c);
        var next := alarm.next;
        w, c := Visit(alarm, next, p, w, c);
        alarm := next;
      }
      AtEnd(p, w, c);
      AnswersFollowed(p, w);
      events := w.events;
    }

    /** A tick begins; the successor of the first alarm is saved, and then stopped. */
    method StopNext() returns (alarm: Alarm, next: Alarm)
      requires Valid() && |elems| >= 2
      modifies this`nticks, this`now, this`moves, this`elems, this`idle, this`log, head, stock
      ensures Linked() && nticks == (old(nticks) + 1) % WRAP
      ensures alarm == old(elems)[0] && alarm.data == old(elems[0].data) && next == old(elems)[1] && next in idle
      ensures forall path: seq<Alarm> :: IsPath(path, next) ==> path[|path| - 1] != head
    {
      hide Linked, OnTime, Shape, IsPath, Removed;
      ghost var _ := Advance();
      Listed();
      LinkedAt();
      FirstListed(Walk(0, false, 0, []));
      alarm := head.next;
      NextListed(alarm, 0);
      next := alarm.next;
      Stop(next);
      SuccessorReachesHead(next);
    }

    /** What a callback must see to: following next from the saved successor, with nothing changed
        on the way, reaches the head if and only if the successor is registered (or is the head).
        If the callback has stopped it and not started it anew, the walk of the tick, which changes
        no link until it finds a due alarm other than that one, goes round in place. */
    lemma SuccessorReachesHead(next: Alarm)
      requires Linked() && (next in stock || next == head)
      ensures next !in idle <==> exists path: seq<Alarm> :: IsPath(path, next) && path[|path| - 1] == head
    {
      if next !in idle {
        var path := PathToHead(next);
        assert IsPath(path, next) && path[|path| - 1] == head;
      } else {
        forall path: seq<Alarm> | IsPath(path, next)
          ensures path[|path| - 1] == next
        {
          StoppedSuccessorSpins(next, path, |path| - 1);
        }
      }
    }

    /** A way from an alarm by following next. */
    ghost predicate IsPath(path: seq<Alarm>, next: Alarm)
      reads path
    {
      path != [] && path[0] == next && forall j {:trigger path[j]} :: 1 <= j < |path| ==> path[j] == path[j - 1].next
    }

    lemma PathToHead(next: Alarm) returns (path: seq<Alarm>)
      requires Linked() && next !in idle && (next in stock || next == head)
      ensures IsPath(path, next) && path[|path| - 1] == head
    {
      if next == head {
        path := [head];
      } else {
        var nodes := [head] + elems;
        var i := IndexOf(elems, next);
        path := elems[i..] + [head];
        forall j {:trigger path[j]} | 1 <= j < |path|
          ensures path[j] == path[j - 1].next
        {
          assert Nexts(nodes)[i + j] == nodes[i + j].next && nodes[i + j] == path[j - 1];
        }
      }
    }

    lemma {:induction false} StoppedSuccessorSpins(next: Alarm, path: seq<Alarm>, i: nat)
      requires Linked() && next in idle && IsPath(path, next) && i < |path|
      ensures path[i] == next != head
    {
      assert IsRing([next]);
      assert Nexts([next])[0] == next.next;
      if i > 0 {
        StoppedSuccessorSpins(next, path, i - 1);
        assert path[i] == path[i - 1].next;
      }
    }

    lemma FirstListed(w: Walk)
      requires Linked() && Between(log) && Ahead(w) == 0 && w.m == 0
      ensures AtCursor(head.next, 0, w)
    {
      assert Nexts([head] + elems)[0] == head.next;
    }

    lemma NextListed(alarm: Alarm, c: nat)
      requires Linked() && alarm != head && c <= |elems| && alarm == if c < |elems| then elems[c] else head
      ensures c < |elems| && alarm.next == if c + 1 < |elems| then elems[c + 1] else head
    {
      assert Nexts([head] + elems)[c + 1] == alarm.next;
    }

    lemma AtEnd(p: Pass, w: Walk, c: nat)
      requires Walking(p, w) && !w.cur && AtCursor(head, c, w)
      ensures Valid() && FiredIn(w.events) == Fires(p.all, p.log, w.events, now) && elems == ListAfter(p.all, w.events)
      ensures forall i :: 0 <= i < |elems| ==> Upcoming(elems[i])
    {
      hide IsList, Shape, NextDue, Punctual, Pending, Due;
      Listed();
      LinkedAt();
      ShapeEnds(p, w, elems);
      forall i | 0 <= i < |elems|
        ensures OnTime(elems[i], now)
      {
        assert SettledAt(i);
      }
      forall i | 0 <= i < |elems|
        ensures Upcoming(elems[i])
      {
        NothingOverdue(elems[i]);
      }
    }
  }

  /** From startup: two alarms are started with delay zero, one tick passes, the walk finds the first
      one due and saves the second as its successor, and the callback stops that one.  From there
      no way leads to the head. */
  method StopTheSuccessor() returns (clock: Clock, alarm: Alarm, next: Alarm)
    ensures clock.Linked() && Due(alarm.data, clock.nticks) && next in clock.idle
    ensures forall path: seq<Alarm> :: clock.IsPath(path, next) ==> path[|path| - 1] != clock.head
  {
    hide IsList, IsRing, Stocked, Punctual, NextDue, LastOf, Pending, Shape;
    clock := new Clock(1);
    clock.LinkedAt();
    var _ := clock.StartNew();
    var first := clock.StartNew();
    alarm, next := clock.StopNext();
  }

  lemma DueMeans(t: Timer, now: nat)
    ensures Due(t, now) <==> t.time <= now && !t.rollover
  {
  }

  lemma IndexAfterStart(elems: seq<Alarm>, a: Alarm, next: Alarm)
    ensures IndexOf([a] + elems, a) == 0
    ensures next in elems && next != a ==> IndexOf([a] + elems, next) == IndexOf(elems, next) + 1
  {
    assert ([a] + elems)[1..] == elems;
  }

  /** Stopping one alarm leaves the place of another with respect to the cursor. */
  lemma IndexAfterStop(w: Walk, elems: seq<Alarm>, i: nat, next: Alarm)
    requires Distinct(elems) && Ahead(w) <= |elems| && i < |elems| && next in elems && next != elems[i]
    ensures var (w', after) := (WalkStopped(w, i, elems[i]), Without(elems, i));
            && next in after
            && (IndexOf(elems, next) <= Ahead(w) ==> IndexOf(after, next) <= Ahead(w'))
            && (IndexOf(elems, next) == Ahead(w) ==> IndexOf(after, next) == Ahead(w'))
  {
    hide IndexOf;
    var (k, after) := (IndexOf(elems, next), Without(elems, i));
    var j := if k < i then k else k - 1;
    assert k != i && after[j] == next;
    WithoutDistinct(elems, i);
    assert IndexOf(after, next) == j;
  }

  /** Stopping an alarm, and the alarm whose callback runs. */
  lemma CursorAfterStop(w: Walk, elems: seq<Alarm>, i: nat, own: Alarm)
    requires Distinct(elems) && Ahead(w) <= |elems| && i < |elems|
    requires w.cur ==> elems[w.m] == own
    requires forall j :: Ahead(w) <= j < |elems| ==> elems[j] != own
    ensures var (w', after) := (WalkStopped(w, i, elems[i]), Without(elems, i));
            && Ahead(w') <= |after| && |after| - Ahead(w') <= |elems| - Ahead(w)
            && (Ahead(w) == |elems| ==> Ahead(w') == |after|)
            && (w'.cur <==> w.cur && elems[i] != own)
            && (w'.cur ==> after[w'.m] == own)
            && (forall j :: Ahead(w') <= j < |after| ==> after[j] != own)
  {
    OthersDiffer(elems, i);
  }

  /** Where the element at index j was before the one at index i left. */
  function IndexBefore(i: nat, j: nat): nat {
    if j < i then j else j + 1
  }

  /** The others keep their side of the cursor. */
  lemma IndicesAfterStop(w: Walk, elems: seq<Alarm>, i: nat)
    requires Distinct(elems) && Ahead(w) <= |elems| && i < |elems|
    ensures var (w', after) := (WalkStopped(w, i, elems[i]), Without(elems, i));
            && w'.events == w.events + [Stopped(elems[i])] && Ahead(w') <= |after| == |elems| - 1
            && (forall j {:trigger after[j]} :: 0 <= j < |after| ==>
                  && after[j] == elems[IndexBefore(i, j)] && after[j] != elems[i]
                  && (j < w'.m ==> IndexBefore(i, j) < w.m)
                  && (Ahead(w') <= j ==> Ahead(w) <= IndexBefore(i, j)))
  {
    OthersDiffer(elems, i);
    var after := Without(elems, i);
    assert forall j :: 0 <= j < |after| ==> after[j] == elems[IndexBefore(i, j)];
  }

  lemma OthersDiffer(s: seq<Alarm>, m: nat)
    requires Distinct(s) && m < |s|
    ensures forall i :: 0 <= i < |s| && i != m ==> s[i] != s[m]
  {
  }

  /** An alarm nothing happened to in this tick is due when it was before. */
  lemma DueStill(p: Pass, w: Walk, a: Alarm)
    requires FirstOf(w.events, a) == None
    ensures NextDue(p.log + w.events, a) == NextDue(p.log, a)
  {
    Untouched(p.log, w.events, a);
  }

  lemma AtShape(p: Pass, w: Walk, elems: seq<Alarm>)
    requires Shape(p, w, elems)
    ensures Distinct(elems) && Distinct(p.all) && Ahead(w) <= |elems| && elems == ListAfter(p.all, w.events)
  {
  }
}
