/** What the alarms of a system have been through, and what one tick makes of the list. */
module AlarmHistory {
  import opened Common
  import opened LinkedList
  import opened AlarmTime

  /** alt_alarm: the list links, and as data its time and rollover fields. */
  type Alarm = Node<Timer>

  /** An alarm was started with a delay; its callback was called; it returned a period; the alarm was
      set for that many ticks ahead; or, where the callback had started its alarm anew, for a longer
      delay; the alarm was stopped. */
  datatype Event =
    | Started(alarm: Alarm, tick: nat, delay: nat)
    | Fired(alarm: Alarm, tick: nat)
    | Returned(alarm: Alarm, tick: nat, period: nat)
    | Again(alarm: Alarm, tick: nat, period: nat)
    | Deferred(alarm: Alarm, tick: nat, delay: nat)
    | Stopped(alarm: Alarm)

  /** The last thing that happened to an alarm; that its callback returns is none. */
  function LastOf(log: seq<Event>, a: Alarm): Option<Event> {
    if log == [] then None
    else
      var last := log[|log| - 1];
      if last.alarm == a && !last.Returned? then Some(last) else LastOf(log[..|log| - 1], a)
  }

  /** The first. */
  function FirstOf(log: seq<Event>, a: Alarm): Option<Event> {
    if log == [] then None
    else
      var (init, last) := (log[..|log| - 1], log[|log| - 1]);
      if FirstOf(init, a).Some? then FirstOf(init, a) else if last.alarm == a then Some(last) else None
  }

  function Deadline(e: Event): Option<nat> {
    match e
    case Started(_, tick, delay) => Some(tick + delay + 1)
    case Again(_, tick, period) => Some(tick + period)
    case Deferred(_, tick, delay) => Some(tick + delay + 1)
    case _ => None
  }

  /** When an alarm is due next: delay + 1 ticks after its start, then one period after each run,
      and not while its callback runs or after a stop. */
  function NextDue(log: seq<Event>, a: Alarm): Option<nat> {
    if LastOf(log, a).Some? then Deadline(LastOf(log, a).value) else None
  }

  /** The call of a callback that has not returned. */
  function Running(log: seq<Event>): Option<Event> {
    if log == [] then None
    else
      var last := log[|log| - 1];
      if last.Fired? then Some(last) else if last.Returned? then None else Running(log[..|log| - 1])
  }

  /** A callback has just returned, and its alarm is registered: something must happen to it. */
  predicate Unanswered(log: seq<Event>) {
    log != [] && log[|log| - 1].Returned? &&
    LastOf(log, log[|log| - 1].alarm).Some? && !LastOf(log, log[|log| - 1].alarm).value.Stopped?
  }

  /** No callback runs and none waits for its answer to be followed. */
  predicate Between(log: seq<Event>) {
    Running(log).None? && !Unanswered(log)
  }

  /** What may come next.  A callback runs at exactly the tick its alarm is due, and one at a time;
      if its alarm is still registered when it returns, then next the alarm is stopped if the
      callback returned zero, set for the returned period ahead if not, or deferred by that period
      if the callback had started it anew. */
  predicate Admits(log: seq<Event>, e: Event) {
    && (e.Fired? ==> Running(log).None? && NextDue(log, e.alarm) == Some(e.tick))
    && (e.Returned? ==> Running(log) == Some(Fired(e.alarm, e.tick)))
    && (e.Again? ==> e.period > 0 && Answers(log, e.alarm, e.tick, e.period) && LastOf(log, e.alarm) == Some(Fired(e.alarm, e.tick)))
    && (e.Deferred? ==> Defers(log, e))
    && (Unanswered(log) ==> log[|log| - 1].alarm == e.alarm &&
                            if log[|log| - 1].period == 0 then e.Stopped? else e.Again? || e.Deferred?)
  }

  predicate Defers(log: seq<Event>, e: Event)
    requires e.Deferred?
  {
    && log != [] && log[|log| - 1].Returned? && log[|log| - 1].period > 0
    && log[|log| - 1].alarm == e.alarm && log[|log| - 1].tick == e.tick
    && LastOf(log, e.alarm).Some? && LastOf(log, e.alarm).value.Started? && LastOf(log, e.alarm).value.tick == e.tick
    && e.delay == LastOf(log, e.alarm).value.delay + log[|log| - 1].period
  }

  predicate Answers(log: seq<Event>, a: Alarm, tick: nat, period: nat) {
    log != [] && log[|log| - 1] == Returned(a, tick, period)
  }

  predicate Punctual(log: seq<Event>) {
    log == [] || (Punctual(log[..|log| - 1]) && Admits(log[..|log| - 1], log[|log| - 1]))
  }

  /** Between events i and j nothing happens to the alarm of event i. */
  predicate Quiet(log: seq<Event>, i: nat, j: nat)
    requires i < j <= |log|
  {
    forall k :: i < k < j ==> log[k].alarm != log[i].alarm || log[k].Returned?
  }

  lemma {:induction false} LastAt(log: seq<Event>, a: Alarm) returns (i: nat)
    requires LastOf(log, a).Some?
    ensures i < |log| && log[i].alarm == a && LastOf(log, a) == Some(log[i]) && Quiet(log, i, |log|)
  {
    i := |log| - 1;
    if log[i].alarm != a || log[i].Returned? {
      i := LastAt(log[..|log| - 1], a);
    }
  }

  lemma {:induction false} PunctualPrefix(log: seq<Event>, j: nat)
    requires Punctual(log) && j <= |log|
    ensures Punctual(log[..j])
    decreases |log| - j
  {
    hide Admits;
    if j < |log| {
      PunctualPrefix(log, j + 1);
      assert log[..j + 1][..j] == log[..j];
    } else {
      assert log[..j] == log;
    }
  }

  /** Event i is the last one of event j's alarm before it. */
  predicate Precedes(log: seq<Event>, i: nat, j: nat)
    requires j < |log|
  {
    i < j && log[i].alarm == log[j].alarm && Quiet(log, i, j)
  }

  lemma LastBefore(log: seq<Event>, j: nat) returns (i: nat)
    requires j < |log| && LastOf(log[..j], log[j].alarm).Some?
    ensures Precedes(log, i, j) && LastOf(log[..j], log[j].alarm) == Some(log[i])
  {
    hide LastOf;
    i := LastAt(log[..j], log[j].alarm);
    forall k | i < k < j
      ensures log[k].alarm != log[i].alarm || log[k].Returned?
    {
      assert log[..j][k] == log[k];
    }
  }

  lemma PunctualAt(log: seq<Event>, j: nat)
    requires Punctual(log) && j < |log|
    ensures Admits(log[..j], log[j])
  {
    hide Admits;
    PunctualPrefix(log, j + 1);
    assert log[..j + 1][..j] == log[..j];
  }

  /** In a punctual history, each run of a callback comes exactly delay + 1 ticks after the alarm's
      start, or exactly one period after its previous run, with nothing else happening to the alarm
      in between; where a callback started its own alarm and returned a period, the delay is the
      longer one of the two taken together. */
  lemma PunctualMeans(log: seq<Event>, j: nat)
    requires Punctual(log) && j < |log| && log[j].Fired?
    ensures exists i: nat {:trigger Precedes(log, i, j)} :: Precedes(log, i, j) &&
              ((log[i].Started? && log[j].tick == log[i].tick + log[i].delay + 1) ||
               (log[i].Again? && log[j].tick == log[i].tick + log[i].period && i > 0 &&
                log[i - 1] == Returned(log[j].alarm, log[i].tick, log[i].period)) ||
               (log[i].Deferred? && log[j].tick == log[i].tick + log[i].delay + 1 && i > 0 && log[i - 1].Returned? &&
                exists h: nat :: Precedes(log, h, i) && log[h].Started? && log[h].tick == log[i].tick &&
                                 log[i].delay == log[h].delay + log[i - 1].period))
  {
    hide LastOf, Punctual, Quiet, Running, Unanswered;
    PunctualAt(log, j);
    var i := LastBefore(log, j);
    if log[i].Again? || log[i].Deferred? {
      PunctualAt(log, i);
      var h := LastBefore(log, i);
      assert i > 0 && log[..i][i - 1] == log[i - 1];
    }
  }

  /** Adding one event. */
  lemma LogAppend(log: seq<Event>, e: Event, a: Alarm)
    ensures LastOf(log + [e], a) == if e.alarm == a && !e.Returned? then Some(e) else LastOf(log, a)
    ensures NextDue(log + [e], a) == if e.alarm == a && !e.Returned? then Deadline(e) else NextDue(log, a)
    ensures FirstOf(log + [e], a) == if FirstOf(log, a).Some? then FirstOf(log, a) else if e.alarm == a then Some(e) else None
    ensures Running(log + [e]) == if e.Fired? then Some(e) else if e.Returned? then None else Running(log)
    ensures Unanswered(log + [e]) <==> e.Returned? && LastOf(log, e.alarm).Some? && !LastOf(log, e.alarm).value.Stopped?
    ensures Punctual(log + [e]) <==> Punctual(log) && Admits(log, e)
  {
    hide Admits;
    assert (log + [e])[..|log|] == log;
  }

  // ---------------------------------------------------------------- one tick

  /** The alarms whose callbacks are called in some events, in order. */
  function FiredIn(events: seq<Event>): seq<Alarm> {
    if events == [] then []
    else
      var (init, last) := (events[..|events| - 1], events[|events| - 1]);
      FiredIn(init) + if last.Fired? then [last.alarm] else []
  }

  /** What some events make of the list: starts go to the front, stops take out. */
  function ListAfter(elems: seq<Alarm>, events: seq<Event>): seq<Alarm> {
    if events == [] then elems
    else
      var (before, last) := (ListAfter(elems, events[..|events| - 1]), events[|events| - 1]);
      if last.Started? then [last.alarm] + before
      else if last.Stopped? then Removed(before, last.alarm)
      else before
  }

  /** The first thing some events do to an alarm is to stop it. */
  predicate Gone(events: seq<Event>, a: Alarm) {
    FirstOf(events, a) == Some(Stopped(a))
  }

  /** The alarms, in list order, that the history makes due at a tick and that are not stopped
      before anything else happens to them. */
  function Fires(alarms: seq<Alarm>, log: seq<Event>, events: seq<Event>, tick: nat): seq<Alarm> {
    if alarms == [] then []
    else
      var (init, last) := (alarms[..|alarms| - 1], alarms[|alarms| - 1]);
      Fires(init, log, events, tick) + if NextDue(log, last) == Some(tick) && !Gone(events, last) then [last] else []
  }

  /** The alarms that are not stopped first. */
  function Stays(alarms: seq<Alarm>, events: seq<Event>): seq<Alarm> {
    if alarms == [] then []
    else if Gone(events, alarms[0]) then Stays(alarms[1..], events)
    else [alarms[0]] + Stays(alarms[1..], events)
  }

  lemma EventsAppend(elems: seq<Alarm>, events: seq<Event>, e: Event)
    ensures FiredIn(events + [e]) == if e.Fired? then FiredIn(events) + [e.alarm] else FiredIn(events)
    ensures ListAfter(elems, events + [e]) ==
              if e.Started? then [e.alarm] + ListAfter(elems, events)
              else if e.Stopped? then Removed(ListAfter(elems, events), e.alarm)
              else ListAfter(elems, events)
  {
    assert (events + [e])[..|events|] == events;
  }

  /** An alarm that no event stops stays in the list. */
  lemma {:induction false} StillListed(elems: seq<Alarm>, events: seq<Event>, a: Alarm)
    requires a in elems && Stopped(a) !in events
    ensures a in ListAfter(elems, events)
  {
    if events != [] {
      var (init, last) := (events[..|events| - 1], events[|events| - 1]);
      StillListed(elems, init, a);
      if last.Stopped? && last.alarm in ListAfter(elems, init) {
        StillThere(ListAfter(elems, init), a, IndexOf(ListAfter(elems, init), last.alarm));
      }
    }
  }

  lemma StillThere(s: seq<Alarm>, a: Alarm, k: nat)
    requires a in s && k < |s| && s[k] != a
    ensures a in Without(s, k)
  {
    var i :| 0 <= i < |s| && s[i] == a;
    assert Without(s, k)[if i < k then i else i - 1] == a;
  }

  /** A later event does not change whether an alarm was stopped first, unless it is a stop and the
      first thing to happen to it. */
  lemma GoneStable(events: seq<Event>, e: Event, a: Alarm)
    requires e.alarm != a || FirstOf(events, a).Some? || !e.Stopped?
    ensures Gone(events + [e], a) <==> Gone(events, a)
  {
    LogAppend(events, e, a);
  }

  lemma {:induction false} FiresStable(alarms: seq<Alarm>, log: seq<Event>, events: seq<Event>, tick: nat, e: Event)
    requires forall i :: 0 <= i < |alarms| && NextDue(log, alarms[i]) == Some(tick) ==>
               FirstOf(events, alarms[i]).Some?
    ensures Fires(alarms, log, events + [e], tick) == Fires(alarms, log, events, tick)
    decreases |alarms|
  {
    if alarms != [] {
      FiresStable(alarms[..|alarms| - 1], log, events, tick, e);
      var last := alarms[|alarms| - 1];
      if NextDue(log, last) == Some(tick) {
        GoneStable(events, e, last);
      }
    }
  }

  lemma {:induction false} StaysMembers(alarms: seq<Alarm>, events: seq<Event>)
    requires Distinct(alarms)
    ensures var r := Stays(alarms, events);
            && Distinct(r)
            && (forall i {:trigger r[i]} :: 0 <= i < |r| ==> r[i] in alarms && !Gone(events, r[i]))
            && (forall i {:trigger alarms[i]} :: 0 <= i < |alarms| && !Gone(events, alarms[i]) ==> alarms[i] in r)
    decreases |alarms|
  {
    hide Gone;
    if alarms != [] {
      var (first, tail) := (alarms[0], alarms[1..]);
      StaysMembers(tail, events);
      var (rest, r) := (Stays(tail, events), Stays(alarms, events));
      assert forall i {:trigger tail[i]} :: 0 <= i < |tail| ==> tail[i] == alarms[i + 1];
      assert first !in tail;
      if !Gone(events, first) {
        assert r == [first] + rest;
        assert forall i {:trigger r[i]} :: 1 <= i < |r| ==> r[i] == rest[i - 1];
      }
      forall i {:trigger alarms[i]} | 0 <= i < |alarms| && !Gone(events, alarms[i])
        ensures alarms[i] in r
      {
        assert i > 0 ==> tail[i - 1] == alarms[i];
      }
    }
  }

  lemma {:induction false} StaysStable(alarms: seq<Alarm>, events: seq<Event>, e: Event)
    requires forall i :: 0 <= i < |alarms| ==> e.alarm != alarms[i] || FirstOf(events, alarms[i]).Some? || !e.Stopped?
    ensures Stays(alarms, events + [e]) == Stays(alarms, events)
    decreases |alarms|
  {
    if alarms != [] {
      GoneStable(events, e, alarms[0]);
      assert forall i :: 0 <= i < |alarms| - 1 ==> alarms[1..][i] == alarms[i + 1];
      StaysStable(alarms[1..], events, e);
    }
  }

  /** Stopping an alarm that is still to be visited takes it out of those to visit. */
  lemma {:induction false} StaysStopped(alarms: seq<Alarm>, events: seq<Event>, a: Alarm, p: nat)
    requires Distinct(alarms) && FirstOf(events, a) == None
    requires p < |Stays(alarms, events)| && Stays(alarms, events)[p] == a
    ensures Stays(alarms, events + [Stopped(a)]) == Without(Stays(alarms, events), p)
    decreases |alarms|
  {
    hide FirstOf, Gone, Without;
    var (x, tail) := (alarms[0], alarms[1..]);
    StaysMembers(alarms, events);
    GoneAfterStop(events, a, x);
    assert forall i :: 0 <= i < |tail| ==> tail[i] == alarms[i + 1];
    if Gone(events, x) {
      StaysStopped(tail, events, a, p);
    } else if p == 0 {
      StaysStable(tail, events, Stopped(a));
      HeadWithout(x, Stays(tail, events));
    } else {
      TailWithout(x, Stays(tail, events), p - 1);
      assert Stays(tail, events)[p - 1] == a;
      StaysStopped(tail, events, a, p - 1);
    }
  }

  lemma HeadWithout<N>(x: N, s: seq<N>)
    ensures Without([x] + s, 0) == s
  {
  }

  lemma GoneAfterStop(events: seq<Event>, a: Alarm, x: Alarm)
    requires FirstOf(events, a) == None
    ensures Gone(events + [Stopped(a)], x) <==> Gone(events, x) || x == a
    ensures !Gone(events, a)
  {
    LogAppend(events, Stopped(a), x);
  }

  // ---------------------------------------------------------------- part-way through a tick

  /** A tick: the alarms registered at its start, the history before it, and its number. */
  datatype Pass = Pass(all: seq<Alarm>, log: seq<Event>, now: nat)

  /** How far it has come: m alarms stand in front of the cursor; `cur` says whether the alarm whose
      callback is running is still in the list, at index m; the first k of `all` have had their
      turn; and what has happened. */
  datatype Walk = Walk(m: nat, cur: bool, k: nat, events: seq<Event>)

  /** The index of the next alarm to visit. */
  function Ahead(w: Walk): nat {
    if w.cur then w.m + 1 else w.m
  }

  /** The alarms from the k-th on that were not stopped, and nothing has happened to these. */
  predicate ToCome(p: Pass, k: nat, events: seq<Event>, rest: seq<Alarm>)
    requires k <= |p.all|
  {
    && rest == Stays(p.all[k..], events)
    && (forall i :: k <= i < |p.all| && !Gone(events, p.all[i]) ==> FirstOf(events, p.all[i]) == None)
  }

  /** The callbacks due before the k-th alarm have been called, and no others. */
  predicate Done(p: Pass, k: nat, events: seq<Event>)
    requires k <= |p.all|
  {
    && FiredIn(events) == Fires(p.all[..k], p.log, events, p.now)
    && (forall i :: 0 <= i < k && NextDue(p.log, p.all[i]) == Some(p.now) ==> FirstOf(events, p.all[i]).Some?)
  }

  /** Everything happens at the tick. */
  predicate Dated(events: seq<Event>, now: nat) {
    forall i :: 0 <= i < |events| && !events[i].Stopped? ==> events[i].tick == now
  }

  lemma DatedAppend(events: seq<Event>, e: Event, now: nat)
    requires Dated(events, now) && (e.Stopped? || e.tick == now)
    ensures Dated(events + [e], now)
  {
  }

  predicate Shape(p: Pass, w: Walk, elems: seq<Alarm>) {
    && Distinct(p.all) && Distinct(elems) && w.k <= |p.all| && Ahead(w) <= |elems|
    && elems == ListAfter(p.all, w.events)
    && ToCome(p, w.k, w.events, elems[Ahead(w)..])
    && Done(p, w.k, w.events)
    && Dated(w.events, p.now)
  }

  lemma {:induction false} StaysAll(all: seq<Alarm>)
    ensures Stays(all, []) == all
  {
    if all != [] {
      StaysAll(all[1..]);
    }
  }

  /** The members of the list to come. */
  lemma ToComeMembers(p: Pass, k: nat, events: seq<Event>, rest: seq<Alarm>)
    requires k <= |p.all| && Distinct(p.all) && ToCome(p, k, events, rest)
    ensures forall i :: k <= i < |p.all| && !Gone(events, p.all[i]) ==> p.all[i] in rest
    ensures forall j {:trigger rest[j]} :: 0 <= j < |rest| ==> FirstOf(events, rest[j]) == None
  {
    hide FirstOf, Gone;
    var tail := p.all[k..];
    StaysMembers(tail, events);
    forall i | k <= i < |p.all| && !Gone(events, p.all[i])
      ensures p.all[i] in rest
    {
      assert tail[i - k] == p.all[i];
    }
    forall j {:trigger rest[j]} | 0 <= j < |rest|
      ensures FirstOf(events, rest[j]) == None
    {
      var i :| 0 <= i < |tail| && tail[i] == rest[j];
      assert p.all[k + i] == rest[j];
    }
  }

  /** An event of another alarm leaves those to come alone. */
  lemma ToComeOther(p: Pass, k: nat, events: seq<Event>, rest: seq<Alarm>, e: Event)
    requires k <= |p.all| && Distinct(p.all) && ToCome(p, k, events, rest) && e.alarm !in rest
    ensures ToCome(p, k, events + [e], rest)
  {
    ToComeMembers(p, k, events, rest);
    hide FirstOf, Stays;
    var tail := p.all[k..];
    forall i | k <= i < |p.all|
      ensures Gone(events, p.all[i]) || p.all[i] != e.alarm
      ensures Gone(events + [e], p.all[i]) <==> Gone(events, p.all[i])
      ensures !Gone(events, p.all[i]) ==> FirstOf(events + [e], p.all[i]) == None
    {
      LogAppend(events, e, p.all[i]);
    }
    forall i | 0 <= i < |tail|
      ensures e.alarm != tail[i] || FirstOf(events, tail[i]).Some?
    {
      assert tail[i] == p.all[k + i];
    }
    StaysStable(tail, events, e);
  }

  /** Stopping one of them takes it out. */
  lemma ToComeStop(p: Pass, k: nat, events: seq<Event>, rest: seq<Alarm>, i: nat)
    requires k <= |p.all| && Distinct(p.all) && ToCome(p, k, events, rest) && i < |rest|
    ensures ToCome(p, k, events + [Stopped(rest[i])], Without(rest, i))
  {
    ToComeMembers(p, k, events, rest);
    hide FirstOf, Stays, Without, Gone;
    var a := rest[i];
    StaysStopped(p.all[k..], events, a, i);
    forall j | k <= j < |p.all| && !Gone(events + [Stopped(a)], p.all[j])
      ensures FirstOf(events + [Stopped(a)], p.all[j]) == None
    {
      GoneAfterStop(events, a, p.all[j]);
      LogAppend(events, Stopped(a), p.all[j]);
    }
  }

  /** Moving past an alarm. */
  lemma ToComeNext(p: Pass, k: nat, events: seq<Event>, rest: seq<Alarm>)
    requires k < |p.all| && ToCome(p, k, events, rest)
    ensures Gone(events, p.all[k]) ==> ToCome(p, k + 1, events, rest)
    ensures !Gone(events, p.all[k]) ==>
              rest != [] && rest[0] == p.all[k] && FirstOf(events, p.all[k]) == None && ToCome(p, k + 1, events, rest[1..])
  {
    hide FirstOf, Gone;
    assert p.all[k..][1..] == p.all[k + 1..];
  }

  /** An event that calls no callback. */
  lemma DoneOther(p: Pass, k: nat, events: seq<Event>, e: Event)
    requires k <= |p.all| && Done(p, k, events) && !e.Fired?
    ensures Done(p, k, events + [e])
  {
    hide FirstOf, NextDue, Fires, FiredIn;
    EventsAppend([], events, e);
    forall i | 0 <= i < k && NextDue(p.log, p.all[i]) == Some(p.now)
      ensures FirstOf(events + [e], p.all[i]).Some?
    {
      LogAppend(events, e, p.all[i]);
    }
    FiresStable(p.all[..k], p.log, events, p.now, e);
  }

  lemma DoneNext(p: Pass, k: nat, events: seq<Event>)
    requires k < |p.all| && Done(p, k, events)
    requires Gone(events, p.all[k]) || NextDue(p.log, p.all[k]) != Some(p.now)
    ensures Done(p, k + 1, events)
  {
    hide NextDue, FiredIn;
    assert p.all[..k + 1][..k] == p.all[..k];
  }

  lemma DoneFire(p: Pass, k: nat, events: seq<Event>)
    requires k < |p.all| && Done(p, k, events)
    requires FirstOf(events, p.all[k]) == None && NextDue(p.log, p.all[k]) == Some(p.now)
    ensures Done(p, k + 1, events + [Fired(p.all[k], p.now)])
  {
    hide FirstOf, NextDue, FiredIn, Fires;
    var e := Fired(p.all[k], p.now);
    EventsAppend([], events, e);
    forall i | 0 <= i <= k && NextDue(p.log, p.all[i]) == Some(p.now)
      ensures FirstOf(events + [e], p.all[i]).Some?
    {
      LogAppend(events, e, p.all[i]);
    }
    FiresStable(p.all[..k], p.log, events, p.now, e);
    LogAppend(events, e, p.all[k]);
    FiresLast(p, k, events + [e]);
  }

  lemma FiresLast(p: Pass, k: nat, events: seq<Event>)
    requires k < |p.all| && NextDue(p.log, p.all[k]) == Some(p.now) && !Gone(events, p.all[k])
    ensures Fires(p.all[..k + 1], p.log, events, p.now) == Fires(p.all[..k], p.log, events, p.now) + [p.all[k]]
  {
    assert p.all[..k + 1][..k] == p.all[..k];
  }

  // ---------------------------------------------------------------- the moves of a walk

  lemma ShapeBegins(all: seq<Alarm>, log: seq<Event>, now: nat)
    requires Distinct(all)
    ensures Shape(Pass(all, log, now), Walk(0, false, 0, []), all)
  {
    StaysAll(all);
    assert all[0..] == all;
  }

  lemma ShapeStart(p: Pass, w: Walk, elems: seq<Alarm>, a: Alarm, delay: nat)
    requires Shape(p, w, elems) && a !in elems
    ensures Shape(p, w.(m := w.m + 1, events := w.events + [Started(a, p.now, delay)]), [a] + elems)
  {
    hide ToCome, Done, ListAfter, Distinct, Dated;
    var e := Started(a, p.now, delay);
    DatedAppend(w.events, e, p.now);
    ToComeOther(p, w.k, w.events, elems[Ahead(w)..], e);
    DoneOther(p, w.k, w.events, e);
    EventsAppend(p.all, w.events, e);
    WithFirst(a, elems, Ahead(w));
  }

  lemma WithFirst<N>(x: N, s: seq<N>, at: nat)
    requires Distinct(s) && x !in s && at <= |s|
    ensures Distinct([x] + s) && ([x] + s)[at + 1..] == s[at..]
  {
  }

  lemma WithoutFrom<N>(s: seq<N>, i: nat, at: nat)
    requires Distinct(s) && i < |s| && at <= |s|
    ensures Distinct(Without(s, i)) && Removed(s, s[i]) == Without(s, i)
    ensures i < at ==> s[i] !in s[at..] && Without(s, i)[at - 1..] == s[at..]
    ensures i >= at ==> s[at..][i - at] == s[i] && Without(s, i)[at..] == Without(s[at..], i - at)
  {
    WithoutDistinct(s, i);
    var _ := IndexOf(s, s[i]);
  }

  /** The walk once the alarm at index i has been stopped. */
  function WalkStopped(w: Walk, i: nat, a: Alarm): Walk {
    var events := w.events + [Stopped(a)];
    if i < w.m then w.(m := w.m - 1, events := events)
    else if i == w.m && w.cur then w.(cur := false, events := events)
    else w.(events := events)
  }

  lemma ShapeStop(p: Pass, w: Walk, elems: seq<Alarm>, i: nat)
    requires Shape(p, w, elems) && i < |elems|
    ensures Shape(p, WalkStopped(w, i, elems[i]), Without(elems, i))
  {
    hide ToCome, Done, ListAfter, Distinct, Without, Removed, Dated;
    DatedAppend(w.events, Stopped(elems[i]), p.now);
    var (events, at) := (w.events + [Stopped(elems[i])], Ahead(w));
    var after := Without(elems, i);
    DoneOther(p, w.k, w.events, Stopped(elems[i]));
    EventsAppend(p.all, w.events, Stopped(elems[i]));
    WithoutFrom(elems, i, at);
    if i < at {
      ToComeOther(p, w.k, w.events, elems[at..], Stopped(elems[i]));
      assert ToCome(p, w.k, events, after[at - 1..]);
    } else {
      ToComeStop(p, w.k, w.events, elems[at..], i - at);
      assert ToCome(p, w.k, events, after[at..]);
    }
  }

  /** The next alarm to visit is the next of `all` that was not stopped. */
  lemma {:induction false} ShapeNext(p: Pass, w: Walk, elems: seq<Alarm>) returns (w': Walk)
    requires Shape(p, w, elems) && !w.cur
    ensures Shape(p, w', elems) && w' == w.(k := w'.k)
    ensures if w.m < |elems| then w'.k < |p.all| && p.all[w'.k] == elems[w.m] && FirstOf(w.events, elems[w.m]) == None
            else w'.k == |p.all|
    decreases |p.all| - w.k
  {
    hide Done, ListAfter, FirstOf, Dated;
    w' := w;
    if w.k < |p.all| {
      ToComeNext(p, w.k, w.events, elems[w.m..]);
      if Gone(w.events, p.all[w.k]) {
        DoneNext(p, w.k, w.events);
        w' := ShapeNext(p, w.(k := w.k + 1), elems);
      }
    }
  }

  /** Past an alarm that is not due. */
  lemma ShapePass(p: Pass, w: Walk, elems: seq<Alarm>)
    requires Shape(p, w, elems) && !w.cur && w.k < |p.all| && w.m < |elems| && p.all[w.k] == elems[w.m]
    requires FirstOf(w.events, elems[w.m]) == None && NextDue(p.log, elems[w.m]) != Some(p.now)
    ensures Shape(p, w.(m := w.m + 1, k := w.k + 1), elems)
  {
    hide ToCome, Done, ListAfter, FirstOf, NextDue, Distinct;
    FirstToCome(p, w, elems);
    DoneNext(p, w.k, w.events);
  }

  lemma TailAt<N>(s: seq<N>, m: nat)
    requires Distinct(s) && m < |s|
    ensures s[m..][1..] == s[m + 1..] && s[m] !in s[m + 1..]
  {
  }

  /** At a due alarm: its callback is called. */
  lemma ShapeFire(p: Pass, w: Walk, elems: seq<Alarm>)
    requires Shape(p, w, elems) && !w.cur && w.k < |p.all| && w.m < |elems| && p.all[w.k] == elems[w.m]
    requires FirstOf(w.events, elems[w.m]) == None && NextDue(p.log, elems[w.m]) == Some(p.now)
    ensures Shape(p, w.(cur := true, k := w.k + 1, events := w.events + [Fired(elems[w.m], p.now)]), elems)
  {
    hide ToCome, Done, ListAfter, FirstOf, NextDue, Distinct, Dated;
    DatedAppend(w.events, Fired(elems[w.m], p.now), p.now);
    var (a, e) := (elems[w.m], Fired(elems[w.m], p.now));
    FirstToCome(p, w, elems);
    TailAt(elems, w.m);
    ToComeOther(p, w.k + 1, w.events, elems[w.m + 1..], e);
    DoneFire(p, w.k, w.events);
    EventsAppend(p.all, w.events, e);
  }

  lemma FirstToCome(p: Pass, w: Walk, elems: seq<Alarm>)
    requires Shape(p, w, elems) && !w.cur && w.k < |p.all| && w.m < |elems| && p.all[w.k] == elems[w.m]
    requires FirstOf(w.events, elems[w.m]) == None
    ensures ToCome(p, w.k + 1, w.events, elems[w.m + 1..])
  {
    hide ToCome, Done, ListAfter, FirstOf, Distinct;
    ToComeNext(p, w.k, w.events, elems[w.m..]);
    TailAt(elems, w.m);
  }

  /** After a callback that asked for another run. */
  lemma ShapeAgain(p: Pass, w: Walk, elems: seq<Alarm>, period: nat)
    requires Shape(p, w, elems) && w.cur
    ensures Shape(p, w.(m := w.m + 1, cur := false, events := w.events + [Again(elems[w.m], p.now, period)]), elems)
  {
    hide ToCome, Done, ListAfter, Dated;
    DatedAppend(w.events, Again(elems[w.m], p.now, period), p.now);
    var e := Again(elems[w.m], p.now, period);
    ToComeOther(p, w.k, w.events, elems[Ahead(w)..], e);
    DoneOther(p, w.k, w.events, e);
    EventsAppend(p.all, w.events, e);
  }

  /** An event that neither changes the list nor calls a callback, of an alarm that is not to come. */
  lemma ShapeOther(p: Pass, w: Walk, elems: seq<Alarm>, e: Event)
    requires Shape(p, w, elems) && e.alarm !in elems[Ahead(w)..]
    requires (e.Again? || e.Deferred? || e.Returned?) && e.tick == p.now
    ensures Shape(p, w.(events := w.events + [e]), elems)
  {
    hide ToCome, Done, ListAfter, Dated;
    DatedAppend(w.events, e, p.now);
    ToComeOther(p, w.k, w.events, elems[Ahead(w)..], e);
    DoneOther(p, w.k, w.events, e);
    EventsAppend(p.all, w.events, e);
  }

  /** At the end of the list all alarms have had their turn. */
  lemma ShapeEnds(p: Pass, w: Walk, elems: seq<Alarm>)
    requires Shape(p, w, elems) && !w.cur && w.m == |elems|
    ensures FiredIn(w.events) == Fires(p.all, p.log, w.events, p.now) && elems == ListAfter(p.all, w.events)
  {
    var w' := ShapeNext(p, w, elems);
    assert p.all[..w'.k] == p.all;
  }

  // ---------------------------------------------------------------- what a callback returns is followed

  lemma PrefixStep(log: seq<Event>, k: nat, a: Alarm)
    requires Punctual(log) && k < |log|
    ensures Admits(log[..k], log[k])
    ensures LastOf(log[..k + 1], a) == if log[k].alarm == a && !log[k].Returned? then Some(log[k]) else LastOf(log[..k], a)
    ensures Running(log[..k + 1]) == if log[k].Fired? then Some(log[k]) else if log[k].Returned? then None else Running(log[..k])
    ensures Unanswered(log[..k + 1]) <==>
              log[k].Returned? && LastOf(log[..k], log[k].alarm).Some? && !LastOf(log[..k], log[k].alarm).value.Stopped?
  {
    hide Admits, LastOf, Running, Unanswered;
    PunctualAt(log, k);
    LogAppend(log[..k], log[k], a);
    assert log[..k + 1] == log[..k] + [log[k]];
  }

  lemma AfterReturn(log: seq<Event>)
    requires log != [] && log[|log| - 1].Returned?
    ensures Running(log).None?
  {
  }

  /** The callback called at event j runs until event k. */
  predicate RunsTo(log: seq<Event>, j: nat, k: nat)
    requires j < |log| && k <= |log|
  {
    forall i {:trigger log[..i]} :: j < i <= k ==> Running(log[..i]) == Some(log[j])
  }

  /** Every call of a callback returns. */
  lemma {:induction false} ReturnOf(log: seq<Event>, j: nat, k: nat) returns (r: nat)
    requires Punctual(log) && j < k <= |log| && log[j].Fired? && Running(log).None? && RunsTo(log, j, k)
    ensures j < r < |log| && log[r].Returned? && log[r].alarm == log[j].alarm && log[r].tick == log[j].tick
    ensures RunsTo(log, j, r)
    decreases |log| - k
  {
    hide Running, LastOf, Unanswered;
    assert Running(log[..k]) == Some(log[j]);
    assert log[..|log|] == log;
    PrefixStep(log, k, log[j].alarm);
    if log[k].Returned? {
      r := k;
    } else {
      r := ReturnOf(log, j, k + 1);
    }
  }

  /** While a callback runs, alarms are only started and stopped. */
  lemma RunningAdmits(log: seq<Event>, e: Event)
    requires Running(log).Some? && Admits(log, e)
    ensures e.Started? || e.Stopped? || e.Returned?
  {
    if log != [] && log[|log| - 1].Returned? {
      AfterReturn(log);
    }
  }

  /** No event of a part of the history starts or stops an alarm. */
  predicate LeftAlone(events: seq<Event>, a: Alarm) {
    forall i :: 0 <= i < |events| && events[i].alarm == a ==> !events[i].Started? && !events[i].Stopped?
  }

  lemma {:induction false} CalledLast(log: seq<Event>, j: nat, k: nat, r: nat)
    requires Punctual(log) && j < k <= r <= |log| && log[j].Fired? && RunsTo(log, j, r)
    requires LeftAlone(log[j..], log[j].alarm)
    ensures LastOf(log[..k], log[j].alarm) == Some(log[j])
    decreases k
  {
    hide LastOf, Running, Unanswered, Admits;
    PrefixStep(log, k - 1, log[j].alarm);
    if k > j + 1 {
      CalledLast(log, j, k - 1, r);
      assert Running(log[..k - 1]) == Some(log[j]);
      RunningAdmits(log[..k - 1], log[k - 1]);
      assert log[j..][k - 1 - j] == log[k - 1];
    }
  }

  /** The event that follows the return of a callback whose alarm is registered. */
  lemma FollowsReturn(log: seq<Event>, r: nat)
    requires Punctual(log) && Between(log) && r < |log| && log[r].Returned?
    requires LastOf(log[..r], log[r].alarm).Some? && !LastOf(log[..r], log[r].alarm).value.Stopped?
    ensures r + 1 < |log| && log[r + 1].alarm == log[r].alarm
    ensures if log[r].period == 0 then log[r + 1].Stopped? else log[r + 1].Again? || log[r + 1].Deferred?
    ensures log[r + 1].Again? ==> log[r + 1] == Again(log[r].alarm, log[r].tick, log[r].period)
    ensures log[r + 1].Deferred? ==> LastOf(log[..r], log[r].alarm).value.Started?
  {
    hide LastOf, Running;
    PrefixStep(log, r, log[r].alarm);
    assert log[..|log|] == log;
    PrefixStep(log, r + 1, log[r].alarm);
    assert log[..r + 1][r] == log[r];
  }

  /** An alarm set again stays so, if nobody starts or stops it and it is not due yet. */
  lemma {:induction false} AgainLast(log: seq<Event>, q: nat, k: nat, now: nat)
    requires Punctual(log) && q < k <= |log| && log[q].Again? && log[q].period > 0 && log[q].tick == now
    requires LeftAlone(log[q..], log[q].alarm) && Dated(log[q..], now)
    requires Running(log[..q]).None?
    ensures LastOf(log[..k], log[q].alarm) == Some(log[q])
    ensures Running(log[..k]).Some? ==> Running(log[..k]).value.alarm != log[q].alarm
    decreases k
  {
    hide LastOf, Running, Unanswered;
    PrefixStep(log, k - 1, log[q].alarm);
    if k > q + 1 {
      AgainLast(log, q, k - 1, now);
      assert log[q..][k - 1 - q] == log[k - 1];
    }
  }

  /** What came of the call of an alarm's callback in a tick: it returned a period, and if nobody
      started or stopped the alarm it is due that many ticks later and still registered, or, if the
      period is zero and nobody started it, no longer registered. */
  ghost predicate Obeyed(p: Pass, events: seq<Event>, a: Alarm) {
    exists period: nat :: Returned(a, p.now, period) in events && Outcome(p, events, a, period)
  }

  ghost predicate Outcome(p: Pass, events: seq<Event>, a: Alarm, period: nat) {
    if period > 0 then
      LeftAlone(events, a) ==> a in ListAfter(p.all, events) && NextDue(p.log + events, a) == Some(p.now + period)
    else
      (forall i :: 0 <= i < |events| && events[i].alarm == a ==> !events[i].Started?) ==> a !in ListAfter(p.all, events)
  }

  lemma {:induction false} FiredAt(events: seq<Event>, a: Alarm) returns (j: nat)
    requires a in FiredIn(events)
    ensures j < |events| && events[j].Fired? && events[j].alarm == a
    decreases |events|
  {
    j := |events| - 1;
    if !(events[j].Fired? && events[j].alarm == a) {
      j := FiredAt(events[..|events| - 1], a);
    }
  }

  lemma {:induction false} FiresMembers(alarms: seq<Alarm>, log: seq<Event>, events: seq<Event>, tick: nat, i: nat)
    requires i < |Fires(alarms, log, events, tick)|
    ensures Fires(alarms, log, events, tick)[i] in alarms
    decreases |alarms|
  {
    var init := alarms[..|alarms| - 1];
    if i < |Fires(init, log, events, tick)| {
      FiresMembers(init, log, events, tick, i);
    }
  }

  lemma EveryCallObeyed(p: Pass, events: seq<Event>, a: Alarm)
    requires Punctual(p.log + events) && Between(p.log + events) && Dated(events, p.now)
    requires Distinct(p.all) && a in p.all && a in FiredIn(events)
    ensures Obeyed(p, events, a)
  {
    hide Punctual, Running, LastOf, Unanswered, FiredIn, ListAfter;
    var (log, n) := (p.log + events, |p.log|);
    var j := FiredAt(events, a);
    assert log[n + j] == events[j];
    PrefixStep(log, n + j, a);
    var r := ReturnOf(log, n + j, n + j + 1);
    var period := log[r].period;
    assert events[r - n] == log[r] == Returned(a, p.now, period);
    if period > 0 {
      if LeftAlone(events, a) {
        NextRun(p, events, a, n + j, r);
      }
    } else if forall i :: 0 <= i < |events| && events[i].alarm == a ==> !events[i].Started? {
      LastRun(p, events, a, n + j, r);
    }
    assert Outcome(p, events, a, period);
  }

  lemma NextRun(p: Pass, events: seq<Event>, a: Alarm, j: nat, r: nat)
    requires var log := p.log + events;
             && Punctual(log) && Between(log) && Dated(events, p.now) && LeftAlone(events, a) && a in p.all
             && |p.log| <= j < r < |log| && log[j].Fired? && RunsTo(log, j, r) && log[j].alarm == a
             && log[r].Returned? && log[r].alarm == a && log[r].tick == p.now && log[r].period > 0
    ensures a in ListAfter(p.all, events)
    ensures NextDue(p.log + events, a) == Some(p.now + (p.log + events)[r].period)
  {
    hide Punctual, Running, LastOf, Unanswered, ListAfter, Between;
    var (log, n) := (p.log + events, |p.log|);
    TailAlone(p, events, a, j);
    CalledLast(log, j, r, r);
    FollowsReturn(log, r);
    TailAlone(p, events, a, r + 1);
    PrefixStep(log, r, a);
    AgainLast(log, r + 1, |log|, p.now);
    assert log[..|log|] == log;
    assert Stopped(a) !in events;
    StillListed(p.all, events, a);
  }

  lemma TailAlone(p: Pass, events: seq<Event>, a: Alarm, j: nat)
    requires |p.log| <= j <= |p.log + events|
    ensures LeftAlone(events, a) ==> LeftAlone((p.log + events)[j..], a)
    ensures Dated(events, p.now) ==> Dated((p.log + events)[j..], p.now)
  {
    assert (p.log + events)[j..] == events[j - |p.log|..];
  }

  lemma LastRun(p: Pass, events: seq<Event>, a: Alarm, j: nat, r: nat)
    requires var log := p.log + events;
             && Punctual(log) && Between(log) && Distinct(p.all)
             && |p.log| <= j < r < |log| && log[j].Fired? && RunsTo(log, j, r) && log[j].alarm == a
             && log[r].Returned? && log[r].alarm == a && log[r].period == 0
    requires forall i :: 0 <= i < |events| && events[i].alarm == a ==> !events[i].Started?
    ensures a !in ListAfter(p.all, events)
  {
    hide Punctual, Running, LastOf, Unanswered, ListAfter, Between;
    var (log, n) := (p.log + events, |p.log|);
    var q := StoppedAfter(log, j, r, r);
    assert events[q - n] == log[q] == Stopped(a);
    StoppedStaysOut(p.all, events, a, q - n);
  }

  /** A callback that returns zero: its alarm is stopped, by the callback itself or next. */
  lemma {:induction false} StoppedAfter(log: seq<Event>, j: nat, k: nat, r: nat) returns (q: nat)
    requires Punctual(log) && Between(log) && j < k <= r < |log| && log[j].Fired? && RunsTo(log, j, r)
    requires log[r].Returned? && log[r].alarm == log[j].alarm && log[r].period == 0
    requires LastOf(log[..r], log[j].alarm) == LastOf(log[..k], log[j].alarm)
    ensures j < q < |log| && log[q] == Stopped(log[j].alarm)
    decreases k
  {
    hide LastOf, Running, Unanswered, Between, Admits;
    var a := log[j].alarm;
    PrefixStep(log, k - 1, a);
    if log[k - 1].alarm == a && !log[k - 1].Returned? {
      if log[k - 1].Stopped? {
        q := k - 1;
      } else {
        FollowsReturn(log, r);
        q := r + 1;
      }
    } else {
      q := StoppedAfter(log, j, k - 1, r);
    }
  }

  /** How often an alarm is in the list. */
  lemma {:induction false} TimesListed(elems: seq<Alarm>, events: seq<Event>, a: Alarm)
    requires multiset(elems)[a] <= 1
    requires forall i :: 0 <= i < |events| && events[i].alarm == a ==> !events[i].Started?
    ensures multiset(ListAfter(elems, events))[a] <= if Stopped(a) in events then 0 else 1
    decreases |events|
  {
    if events != [] {
      var (init, last) := (events[..|events| - 1], events[|events| - 1]);
      TimesListed(elems, init, a);
      assert events == init + [last];
      if last.Stopped? {
        RemovedOnce(ListAfter(elems, init), last.alarm);
      }
    }
  }

  lemma RemovedOnce(s: seq<Alarm>, x: Alarm)
    ensures x in s ==> multiset(Removed(s, x)) == multiset(s) - multiset{x}
    ensures x !in s ==> Removed(s, x) == s
  {
    if x in s {
      var k := IndexOf(s, x);
      assert s == s[..k] + [x] + s[k + 1..];
    }
  }

  lemma StoppedStaysOut(elems: seq<Alarm>, events: seq<Event>, a: Alarm, q: nat)
    requires Distinct(elems) && q < |events| && events[q] == Stopped(a)
    requires forall i :: 0 <= i < |events| && events[i].alarm == a ==> !events[i].Started?
    ensures a !in ListAfter(elems, events)
  {
    hide ListAfter;
    DistinctOnce(elems, a);
    TimesListed(elems, events, a);
  }

  lemma {:induction false} DistinctOnce(s: seq<Alarm>, a: Alarm)
    requires Distinct(s)
    ensures multiset(s)[a] <= 1
    decreases |s|
  {
    if s != [] {
      DistinctOnce(s[1..], a);
      assert s == [s[0]] + s[1..];
    }
  }

  /** An alarm that nothing happened to is due when it was. */
  lemma {:induction false} Untouched(log: seq<Event>, events: seq<Event>, a: Alarm)
    requires FirstOf(events, a) == None
    ensures LastOf(log + events, a) == LastOf(log, a)
    decreases |events|
  {
    if events == [] {
      assert log + events == log;
    } else {
      var (init, last) := (events[..|events| - 1], events[|events| - 1]);
      Untouched(log, init, a);
      assert log + events == (log + init) + [last];
      LogAppend(log + init, last, a);
    }
  }
}
