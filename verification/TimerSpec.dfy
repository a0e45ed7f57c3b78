/** The timer queue of src/timer.c on values: a list of differences, and the deadlines it stands for. */
module TimerSpec {
  import opened Words

  const TICK_FREQ_HZ: nat := 250

  /** An event of the list: ticks after the previous event, the callback, and which call of set_alarm made it. */
  datatype Event = Event(dt: int, func: int, id: nat)

  /** An event with the ticks left until it fires. */
  datatype Alarm = Alarm(left: int, func: int, id: nat)

  /** MSEC_TO_TICKS in 32-bit unsigned arithmetic. */
  function MsecToTicks(msec: nat): nat {
    msec * TICK_FREQ_HZ % WORD_END / 1000
  }

  /** The macro yields msec / 4 unless its product wraps. */
  lemma TicksOfMsec(msec: nat)
    requires msec < WORD_END
    ensures MsecToTicks(msec) == msec / 4 <==> msec <= 17179869
  {
  }

  /** The deadlines of a list whose previous event is `base` ticks away: prefix sums. */
  function Alarms(evs: seq<Event>, base: int): seq<Alarm> {
    if evs == [] then [] else [Alarm(base + evs[0].dt, evs[0].func, evs[0].id)] + Alarms(evs[1..], base + evs[0].dt)
  }

  function Deadlines(evs: seq<Event>): seq<Alarm> {
    Alarms(evs, 0)
  }

  /** No event is due, and no event precedes its predecessor. */
  ghost predicate Ordered(evs: seq<Event>) {
    (evs != [] ==> evs[0].dt >= 1) && forall i | 0 <= i < |evs| :: evs[i].dt >= 0
  }

  /** Moves the whole list by d: only the first difference changes. */
  function Shift(evs: seq<Event>, d: int): seq<Event> {
    if evs == [] then [] else [evs[0].(dt := evs[0].dt + d)] + evs[1..]
  }

  lemma ShiftParts(evs: seq<Event>, d: int)
    requires evs != []
    ensures var s := Shift(evs, d); s != [] && s[0] == evs[0].(dt := evs[0].dt + d) && s[1..] == evs[1..]
  {
  }

  lemma AlarmsShift(evs: seq<Event>, base: int, d: int)
    ensures Alarms(Shift(evs, d), base) == Alarms(evs, base + d)
  {
    hide Alarms, Shift;
    AlarmsUnfold(evs, base + d);
    AlarmsUnfold(Shift(evs, d), base);
    if evs != [] {
      ShiftParts(evs, d);
      assert base + (evs[0].dt + d) == base + d + evs[0].dt;
    } else {
      ShiftEmpty(d);
    }
  }

  lemma ShiftEmpty(d: int)
    ensures Shift([], d) == []
  {
  }

  lemma AlarmsUnfold(evs: seq<Event>, base: int)
    ensures Alarms(evs, base) ==
      if evs == [] then [] else [Alarm(base + evs[0].dt, evs[0].func, evs[0].id)] + Alarms(evs[1..], base + evs[0].dt)
  {
  }

  /* set_alarm */

  /** Behind the current event, `ticks` after it: before the first event that is not earlier. */
  function Place(rest: seq<Event>, ticks: int, func: int, id: nat): seq<Event> {
    if rest == [] || ticks <= rest[0].dt then [Event(ticks, func, id)] + Shift(rest, -ticks)
    else [rest[0]] + Place(rest[1..], ticks - rest[0].dt, func, id)
  }

  function SetAlarm(evs: seq<Event>, ticks: int, func: int, id: nat): seq<Event> {
    if evs == [] || ticks < evs[0].dt then [Event(ticks, func, id)] + Shift(evs, -ticks)
    else [evs[0]] + Place(evs[1..], ticks - evs[0].dt, func, id)
  }

  /** One alarm more, all others as they were. */
  ghost predicate Added(old': seq<Alarm>, new': seq<Alarm>, a: Alarm, at: nat) {
    at <= |old'| && new' == old'[..at] + ([a] + old'[at..])
  }

  lemma AlarmsCons(e: Event, rest: seq<Event>, base: int)
    ensures Alarms([e] + rest, base) == [Alarm(base + e.dt, e.func, e.id)] + Alarms(rest, base + e.dt)
  {
    assert ([e] + rest)[1..] == rest;
  }

  /** In front of a list, which then counts from the new event. */
  lemma AddInFront(evs: seq<Event>, base: int, ticks: int, func: int, id: nat)
    ensures Added(Alarms(evs, base), Alarms([Event(ticks, func, id)] + Shift(evs, -ticks), base),
      Alarm(base + ticks, func, id), 0)
  {
    hide Alarms, Shift;
    AlarmsCons(Event(ticks, func, id), Shift(evs, -ticks), base);
    AlarmsShift(evs, base + ticks, -ticks);
    assert base + ticks + -ticks == base;
  }

  lemma AddBehind(e: Event, rest: seq<Event>, placed: seq<Event>, base: int, a: Alarm, at: nat)
    requires Added(Alarms(rest, base + e.dt), Alarms(placed, base + e.dt), a, at)
    ensures Added(Alarms([e] + rest, base), Alarms([e] + placed, base), a, at + 1)
  {
    hide Alarms;
    AlarmsCons(e, rest, base);
    AlarmsCons(e, placed, base);
  }

  /** The first `at` alarms are due before a time, the next one is not. */
  ghost predicate Earlier(as': seq<Alarm>, at: nat, left: int) {
    at <= |as'| && (forall i | 0 <= i < at :: as'[i].left < left) && (at < |as'| ==> as'[at].left >= left)
  }

  lemma EarlierCons(a: Alarm, rest: seq<Alarm>, at: nat, left: int)
    requires Earlier(rest, at, left) && a.left < left
    ensures Earlier([a] + rest, at + 1, left)
  {
  }

  lemma {:induction false} PlaceAdds(rest: seq<Event>, base: int, ticks: int, func: int, id: nat) returns (at: nat)
    ensures Added(Alarms(rest, base), Alarms(Place(rest, ticks, func, id), base), Alarm(base + ticks, func, id), at)
    ensures Earlier(Alarms(rest, base), at, base + ticks)
  {
    hide Alarms, Added, Shift, Earlier;
    AlarmsUnfold(rest, base);
    if rest == [] || ticks <= rest[0].dt {
      at := 0;
      NoneEarlier(Alarms(rest, base), base + ticks);
      AddInFront(rest, base, ticks, func, id);
    } else {
      at := PlaceAdds(rest[1..], base + rest[0].dt, ticks - rest[0].dt, func, id);
      assert rest == [rest[0]] + rest[1..];
      assert base + rest[0].dt + (ticks - rest[0].dt) == base + ticks;
      AddBehind(rest[0], rest[1..], Place(rest[1..], ticks - rest[0].dt, func, id), base,
        Alarm(base + ticks, func, id), at);
      EarlierCons(Alarms(rest, base)[0], Alarms(rest[1..], base + rest[0].dt), at, base + ticks);
      at := at + 1;
    }
  }

  lemma NoneEarlier(as': seq<Alarm>, left: int)
    requires as' == [] || as'[0].left >= left
    ensures Earlier(as', 0, left)
  {
  }

  /** set_alarm adds one event whose deadline is its tick count and moves no other deadline.  It goes behind the first
      alarm unless that is due later, and among the others in front of the first one that is not due before it. */
  lemma SetAlarmAdds(evs: seq<Event>, ticks: int, func: int, id: nat) returns (at: nat)
    ensures Added(Deadlines(evs), Deadlines(SetAlarm(evs, ticks, func, id)), Alarm(ticks, func, id), at)
    ensures |Deadlines(evs)| == |evs| && (at == 0 <==> evs == [] || ticks < Deadlines(evs)[0].left)
    ensures at > 0 ==> Earlier(Deadlines(evs)[1..], at - 1, ticks)
  {
    hide Alarms, Added, Shift, Place, Earlier;
    AlarmsLength(evs, 0);
    AlarmsUnfold(evs, 0);
    if evs == [] || ticks < evs[0].dt {
      at := 0;
      AddInFront(evs, 0, ticks, func, id);
    } else {
      at := PlaceAdds(evs[1..], evs[0].dt, ticks - evs[0].dt, func, id);
      assert evs == [evs[0]] + evs[1..];
      AddBehind(evs[0], evs[1..], Place(evs[1..], ticks - evs[0].dt, func, id), 0, Alarm(ticks, func, id), at);
      at := at + 1;
    }
  }

  lemma {:induction false} PlaceOrdered(rest: seq<Event>, ticks: int, func: int, id: nat)
    requires ticks >= 0 && forall i | 0 <= i < |rest| :: rest[i].dt >= 0
    ensures forall i | 0 <= i < |Place(rest, ticks, func, id)| :: Place(rest, ticks, func, id)[i].dt >= 0
  {
    if rest != [] && ticks > rest[0].dt {
      PlaceOrdered(rest[1..], ticks - rest[0].dt, func, id);
    }
  }

  lemma SetAlarmOrdered(evs: seq<Event>, ticks: int, func: int, id: nat)
    requires Ordered(evs) && ticks >= 1
    ensures Ordered(SetAlarm(evs, ticks, func, id))
  {
    if evs != [] && ticks >= evs[0].dt {
      PlaceOrdered(evs[1..], ticks - evs[0].dt, func, id);
    }
  }

  /* cancel_alarm */

  function FirstMatch(evs: seq<Event>, func: int): (k: nat)
    ensures k <= |evs| && (k < |evs| ==> evs[k].func == func) && (forall i | 0 <= i < k :: evs[i].func != func)
  {
    if evs == [] || evs[0].func == func then 0 else 1 + FirstMatch(evs[1..], func)
  }

  /** The list that evlist points to after cancel_alarm.  A match at the head is freed, but evlist still
      points to it: the list keeps it, with the difference of its successor already changed. */
  function Cancel(evs: seq<Event>, func: int): seq<Event> {
    var k := FirstMatch(evs, func);
    if k == |evs| then evs else CancelAt(evs, k)
  }

  function CancelAt(evs: seq<Event>, k: nat): seq<Event>
    requires k < |evs|
  {
    if k == 0 then [evs[0]] + Shift(evs[1..], evs[0].dt) else evs[..k] + Shift(evs[k + 1..], evs[k].dt)
  }

  function RemoveFirst(as': seq<Alarm>, func: int): seq<Alarm> {
    if as' == [] then [] else if as'[0].func == func then as'[1..] else [as'[0]] + RemoveFirst(as'[1..], func)
  }

  lemma {:induction false} AlarmsLength(evs: seq<Event>, base: int)
    ensures |Alarms(evs, base)| == |evs|
    ensures forall i | 0 <= i < |evs| :: Alarms(evs, base)[i].func == evs[i].func
    ensures forall i | 0 <= i < |evs| :: Alarms(evs, base)[i].id == evs[i].id
  {
    if evs != [] { AlarmsLength(evs[1..], base + evs[0].dt); }
  }

  lemma {:induction false} CancelRemovesAt(evs: seq<Event>, base: int, func: int, k: nat)
    requires k == FirstMatch(evs, func) < |evs|
    ensures Alarms(evs[..k] + Shift(evs[k + 1..], evs[k].dt), base) == RemoveFirst(Alarms(evs, base), func)
  {
    hide Alarms, Shift;
    AlarmsUnfold(evs, base);
    if k == 0 {
      AlarmsShift(evs[1..], base, evs[0].dt);
      assert evs[..0] + Shift(evs[1..], evs[0].dt) == Shift(evs[1..], evs[0].dt);
    } else {
      var rest := evs[1..][..k - 1] + Shift(evs[1..][k..], evs[1..][k - 1].dt);
      assert evs[..k] + Shift(evs[k + 1..], evs[k].dt) == [evs[0]] + rest;
      AlarmsCons(evs[0], rest, base);
      CancelRemovesAt(evs[1..], base + evs[0].dt, func, k - 1);
    }
  }

  /** cancel_alarm drops the first match and keeps every other deadline exactly when the match is not the head. */
  lemma CancelExactly(evs: seq<Event>, func: int)
    ensures Deadlines(Cancel(evs, func)) == RemoveFirst(Deadlines(evs), func) <==> evs == [] || evs[0].func != func
  {
    var k := FirstMatch(evs, func);
    AlarmsLength(evs, 0);
    AlarmsLength(Cancel(evs, func), 0);
    if k == |evs| {
      NoMatch(evs, 0, func);
    } else if k > 0 {
      CancelRemovesAt(evs, 0, func, k);
    } else {
      assert |RemoveFirst(Deadlines(evs), func)| == |evs| - 1;
    }
  }

  lemma {:induction false} NoMatch(evs: seq<Event>, base: int, func: int)
    requires FirstMatch(evs, func) == |evs|
    ensures RemoveFirst(Alarms(evs, base), func) == Alarms(evs, base)
  {
    if evs != [] { NoMatch(evs[1..], base + evs[0].dt, func); }
  }

  /** What a match at the head does instead: the alarm stays, and all others fire later by its remaining ticks. */
  lemma CancelHeadDelays(evs: seq<Event>, func: int)
    requires evs != [] && evs[0].func == func
    ensures Deadlines(Cancel(evs, func)) == [Deadlines(evs)[0]] + Alarms(evs[1..], 2 * evs[0].dt)
  {
    var c := Cancel(evs, func);
    assert c[1..] == Shift(evs[1..], evs[0].dt);
    AlarmsShift(evs[1..], evs[0].dt, evs[0].dt);
  }

  lemma CancelOrdered(evs: seq<Event>, func: int)
    requires Ordered(evs)
    ensures Ordered(Cancel(evs, func))
  {
  }

  /* timer_handler */

  datatype Ticked = Ticked(fired: seq<Event>, rest: seq<Event>)

  /** The leading events that are due. */
  function Due(evs: seq<Event>): (k: nat)
    ensures k <= |evs| && (forall i | 0 <= i < k :: evs[i].dt <= 0) && (k < |evs| ==> evs[k].dt > 0)
  {
    if evs == [] || evs[0].dt > 0 then 0 else 1 + Due(evs[1..])
  }

  function Tick(evs: seq<Event>): Ticked {
    var s := Shift(evs, -1);
    Ticked(s[..Due(s)], s[Due(s)..])
  }

  /** The alarm one tick later. */
  function Closer(a: Alarm): Alarm {
    a.(left := a.left - 1)
  }

  lemma {:induction false} AlarmsCloser(evs: seq<Event>, base: int)
    ensures |Alarms(evs, base)| == |Alarms(evs, base - 1)| == |evs|
    ensures forall i | 0 <= i < |evs| :: Alarms(evs, base - 1)[i] == Closer(Alarms(evs, base)[i])
  {
    if evs != [] { AlarmsCloser(evs[1..], base + evs[0].dt); }
  }

  /** Events that are due take no time: the others keep their deadlines. */
  lemma {:induction false} SkipDue(evs: seq<Event>, base: int)
    requires forall i | 0 <= i < |evs| :: evs[i].dt >= 0
    ensures |Alarms(evs, base)| == |evs|
    ensures forall i | 0 <= i < Due(evs) :: Alarms(evs, base)[i].left == base
    ensures Alarms(evs[Due(evs)..], base) == Alarms(evs, base)[Due(evs)..]
    ensures forall i | Due(evs) <= i < |evs| :: Alarms(evs, base)[i].left > base
  {
    hide Alarms, Due;
    AlarmsLength(evs, base);
    if evs != [] {
      AlarmsUnfold(evs, base);
      DueUnfold(evs);
      if evs[0].dt > 0 {
        NotBefore(evs[1..], base + evs[0].dt);
      } else {
        SkipDue(evs[1..], base);
      }
    }
  }

  lemma DueUnfold(evs: seq<Event>)
    requires evs != []
    ensures evs[0].dt > 0 ==> Due(evs) == 0 && evs[0..] == evs
    ensures evs[0].dt <= 0 ==> Due(evs) == 1 + Due(evs[1..]) && evs[Due(evs)..] == evs[1..][Due(evs[1..])..]
  {
  }

  lemma {:induction false} NotBefore(s: seq<Event>, base: int)
    requires forall i | 0 <= i < |s| :: s[i].dt >= 0
    ensures |Alarms(s, base)| == |s| && forall i | 0 <= i < |s| :: Alarms(s, base)[i].left >= base
  {
    if s != [] { NotBefore(s[1..], base + s[0].dt); }
  }

  /** A tick fires exactly the alarms with one tick left, in list order, and brings the others one tick closer. */
  lemma TickFires(evs: seq<Event>)
    requires Ordered(evs)
    ensures var t := Tick(evs); var n := |t.fired|;
      && Ordered(t.rest)
      && n + |t.rest| == |evs| == |Deadlines(evs)| && |Deadlines(t.rest)| == |t.rest|
      && (forall i | 0 <= i < |evs| :: i < n <==> Deadlines(evs)[i].left == 1)
      && (forall i | 0 <= i < n :: t.fired[i].id == Deadlines(evs)[i].id && t.fired[i].func == Deadlines(evs)[i].func)
      && (forall i | 0 <= i < |t.rest| :: Deadlines(t.rest)[i] == Closer(Deadlines(evs)[n + i]))
  {
    hide Alarms, Shift, Due;
    var s := Shift(evs, -1);
    AlarmsLength(evs, 0);
    AlarmsShift(evs, 1, -1);
    AlarmsLength(s, 1);
    ShiftedOrdered(evs);
    SkipDue(s, 1);
    AlarmsCloser(s[Due(s)..], 1);
  }

  lemma ShiftedOrdered(evs: seq<Event>)
    requires Ordered(evs)
    ensures forall i | 0 <= i < |Shift(evs, -1)| :: Shift(evs, -1)[i].dt >= 0
  {
  }

  /** The callbacks that a tick calls. */
  function Called(evs: seq<Event>): seq<int> {
    var fired := Tick(evs).fired;
    seq(|fired|, i requires 0 <= i < |fired| => fired[i].func)
  }

  /* Runs. */

  datatype Firing = Firing(id: nat, func: int, at: nat)

  /** The queue, the ticks so far, the number of alarms set so far, and what has fired when. */
  datatype Queue = Queue(evs: seq<Event>, now: nat, nextId: nat, log: seq<Firing>)

  datatype Op = Set(msec: nat, func: int) | Stop(func: int) | Handler

  function Fire(fired: seq<Event>, at: nat): (log: seq<Firing>)
    ensures |log| == |fired| && forall i | 0 <= i < |log| :: log[i] == Firing(fired[i].id, fired[i].func, at)
  {
    seq(|fired|, i requires 0 <= i < |fired| => Firing(fired[i].id, fired[i].func, at))
  }

  function Step(q: Queue, op: Op): Queue {
    match op
    case Set(msec, func) =>
      var ticks := MsecToTicks(msec);
      if ticks <= 0 then q else q.(evs := SetAlarm(q.evs, ticks, func, q.nextId), nextId := q.nextId + 1)
    case Stop(func) => q.(evs := Cancel(q.evs, func))
    case Handler =>
      var t := Tick(q.evs);
      q.(evs := t.rest, now := q.now + 1, log := q.log + Fire(t.fired, q.now + 1))
  }

  /** The alarms set have different ids, and none of them is more ticks away than MSEC_TO_TICKS can yield,
      so no sum that the code forms leaves the range of an int. */
  ghost predicate Inv(q: Queue) {
    && Ordered(q.evs)
    && (forall i | 0 <= i < |q.log| :: q.log[i].id < q.nextId)
    && (forall a | a in Deadlines(q.evs) :: a.id < q.nextId && 1 <= a.left <= 4294967)
    && (forall i, j | 0 <= i < j < |Deadlines(q.evs)| :: Deadlines(q.evs)[i].id != Deadlines(q.evs)[j].id)
    && (forall i, j | 0 <= i < |q.log| && 0 <= j < |Deadlines(q.evs)| :: q.log[i].id != Deadlines(q.evs)[j].id)
  }

  /** A cancelled alarm must not be the next one to fire. */
  predicate Admissible(q: Queue, op: Op) {
    op.Stop? ==> q.evs == [] || q.evs[0].func != op.func
  }

  lemma {:induction false} RemoveFirstIndex(as': seq<Alarm>, func: int) returns (k: nat)
    ensures k <= |as'| && (forall i | 0 <= i < k :: as'[i].func != func)
    ensures if k == |as'| then RemoveFirst(as', func) == as'
            else as'[k].func == func && RemoveFirst(as', func) == as'[..k] + as'[k + 1..]
  {
    if as' == [] || as'[0].func == func {
      k := 0;
    } else {
      k := RemoveFirstIndex(as'[1..], func);
      k := k + 1;
    }
  }

  lemma SetKeepsInv(q: Queue, msec: nat, func: int)
    requires Inv(q)
    ensures Inv(Step(q, Set(msec, func)))
  {
    hide SetAlarm, MsecToTicks, Deadlines, Ordered, Earlier, Added;
    var ticks := MsecToTicks(msec);
    if ticks > 0 {
      var at := SetAlarmAdds(q.evs, ticks, func, q.nextId);
      AddedNew(Deadlines(q.evs), Deadlines(SetAlarm(q.evs, ticks, func, q.nextId)), Alarm(ticks, func, q.nextId), at);
      SetAlarmOrdered(q.evs, ticks, func, q.nextId);
      TicksInRange(msec);
    }
  }

  /** An alarm with an id of its own leaves the others as they were and ids distinct. */
  lemma AddedNew(before: seq<Alarm>, after: seq<Alarm>, a: Alarm, at: nat)
    requires Added(before, after, a, at) && forall b | b in before :: b.id < a.id
    requires forall i, j | 0 <= i < j < |before| :: before[i].id != before[j].id
    ensures forall b | b in after :: b in before || b == a
    ensures forall i, j | 0 <= i < j < |after| :: after[i].id != after[j].id
  {
  }

  lemma AddedOnly(before: seq<Alarm>, after: seq<Alarm>, a: Alarm, at: nat)
    requires Added(before, after, a, at)
    ensures forall b | b in after :: b in before || b == a
  {
  }

  lemma TicksInRange(msec: nat)
    ensures 0 <= MsecToTicks(msec) <= 4294967
  {
  }

  lemma StopKeepsInv(q: Queue, func: int)
    requires Inv(q) && Admissible(q, Stop(func))
    ensures Inv(Step(q, Stop(func)))
  {
    hide Cancel, Deadlines, Ordered, RemoveFirst;
    CancelExactly(q.evs, func);
    CancelOrdered(q.evs, func);
    var k := RemoveFirstIndex(Deadlines(q.evs), func);
  }

  lemma HandlerKeepsInv(q: Queue)
    requires Inv(q)
    ensures Inv(Step(q, Handler))
  {
    hide Tick, Deadlines, Ordered;
    TickFires(q.evs);
  }

  lemma StepKeepsInv(q: Queue, op: Op)
    requires Inv(q) && Admissible(q, op)
    ensures Inv(Step(q, op))
  {
    match op
    case Set(msec, func) => SetKeepsInv(q, msec, func);
    case Stop(func) => StopKeepsInv(q, func);
    case Handler => HandlerKeepsInv(q);
  }

  /** Where alarm `id` stands that has to fire at tick `due`: pending until then, with exactly the ticks
      that are missing, and in the log exactly once afterwards, at that tick. */
  ghost predicate OnTime(q: Queue, id: nat, func: int, due: nat) {
    if q.now < due then
      Alarm(due - q.now, func, id) in Deadlines(q.evs) && forall i | 0 <= i < |q.log| :: q.log[i].id != id
    else
      && (forall a | a in Deadlines(q.evs) :: a.id != id)
      && exists i :: 0 <= i < |q.log| && q.log[i] == Firing(id, func, due)
                     && forall j | 0 <= j < |q.log| && j != i :: q.log[j].id != id
  }

  /** An alarm of less than a tick, 4 ms, is never set. */
  lemma ShortIsNever(q: Queue, msec: nat, func: int)
    requires msec <= 17179869
    ensures Step(q, Set(msec, func)) == q <==> msec < 4
  {
    TicksOfMsec(msec);
  }

  lemma SetIsOnTime(q: Queue, msec: nat, func: int)
    requires Inv(q) && MsecToTicks(msec) >= 1
    ensures OnTime(Step(q, Set(msec, func)), q.nextId, func, q.now + MsecToTicks(msec))
  {
    hide SetAlarm, MsecToTicks, Deadlines, Ordered, Earlier;
    var at := SetAlarmAdds(q.evs, MsecToTicks(msec), func, q.nextId);
    var t := Step(q, Set(msec, func));
    assert Deadlines(t.evs)[at] == Alarm(MsecToTicks(msec), func, q.nextId);
  }

  lemma SetKeepsTime(q: Queue, msec: nat, f: int, id: nat, func: int, due: nat)
    requires Inv(q) && OnTime(q, id, func, due) && id < q.nextId
    ensures OnTime(Step(q, Set(msec, f)), id, func, due)
  {
    hide Deadlines, Ordered, SetAlarm, MsecToTicks, Earlier;
    if MsecToTicks(msec) > 0 {
      var at := SetAlarmAdds(q.evs, MsecToTicks(msec), f, q.nextId);
      var before, after := Deadlines(q.evs), Deadlines(Step(q, Set(msec, f)).evs);
      forall a | a in before ensures a in after {
        var i :| 0 <= i < |before| && before[i] == a;
        assert after[if i < at then i else i + 1] == a;
      }
    }
  }

  /** cancel_alarm finds alarm `id` first. */
  predicate Cancels(q: Queue, op: Op, id: nat) {
    op.Stop? && FirstMatch(q.evs, op.func) < |q.evs| && q.evs[FirstMatch(q.evs, op.func)].id == id
  }

  /** What a cancel takes out of the deadlines, |Deadlines(q.evs)| for nothing. */
  lemma CancelTakes(q: Queue, f: int) returns (k: nat)
    requires Inv(q) && Admissible(q, Stop(f))
    ensures k == FirstMatch(q.evs, f) && k <= |Deadlines(q.evs)| == |q.evs|
    ensures var before, after := Deadlines(q.evs), Deadlines(Step(q, Stop(f)).evs);
      if k == |before| then after == before
      else before[k].id == q.evs[k].id && after == before[..k] + before[k + 1..]
  {
    hide Ordered, Cancel, RemoveFirst;
    CancelExactly(q.evs, f);
    AlarmsLength(q.evs, 0);
    k := RemoveFirstIndex(Deadlines(q.evs), f);
  }

  lemma StopKeepsTime(q: Queue, f: int, id: nat, func: int, due: nat)
    requires Inv(q) && Admissible(q, Stop(f)) && OnTime(q, id, func, due) && !Cancels(q, Stop(f), id)
    ensures OnTime(Step(q, Stop(f)), id, func, due)
  {
    hide Deadlines, Ordered, Cancel, FirstMatch, Inv;
    var k := CancelTakes(q, f);
    var before, after := Deadlines(q.evs), Deadlines(Step(q, Stop(f)).evs);
    forall a | a in before && a.id == id ensures a in after {
      var i :| 0 <= i < |before| && before[i] == a;
      assert k < |before| ==> after[if i < k then i else i - 1] == a;
    }
  }

  lemma HandlerKeepsTime(q: Queue, id: nat, func: int, due: nat)
    requires Inv(q) && OnTime(q, id, func, due)
    ensures OnTime(Step(q, Handler), id, func, due)
  {
    if q.now < due { HandlerBrings(q, id, func, due); } else { HandlerKeepsFired(q, id, func, due); }
  }

  lemma HandlerBrings(q: Queue, id: nat, func: int, due: nat)
    requires Inv(q) && OnTime(q, id, func, due) && q.now < due
    ensures OnTime(Step(q, Handler), id, func, due)
  {
    hide Deadlines, Ordered, Tick;
    TickFires(q.evs);
    var before, t := Deadlines(q.evs), Step(q, Handler);
    var n := |Tick(q.evs).fired|;
    assert |t.log| == |q.log| + n;
    var i :| 0 <= i < |before| && before[i] == Alarm(due - q.now, func, id);
    if i < n {
      assert t.log[|q.log| + i] == Firing(id, func, due);
    } else {
      assert Deadlines(t.evs)[i - n] == Alarm(due - q.now - 1, func, id);
    }
  }

  lemma HandlerKeepsFired(q: Queue, id: nat, func: int, due: nat)
    requires Inv(q) && OnTime(q, id, func, due) && q.now >= due
    ensures OnTime(Step(q, Handler), id, func, due)
  {
    hide Deadlines, Ordered, Tick;
    TickFires(q.evs);
    var t := Step(q, Handler);
    var i :| 0 <= i < |q.log| && q.log[i] == Firing(id, func, due)
      && forall j | 0 <= j < |q.log| && j != i :: q.log[j].id != id;
    assert t.log[i] == Firing(id, func, due);
  }

  function RunAll(q: Queue, ops: seq<Op>): Queue
    decreases |ops|
  {
    if ops == [] then q else RunAll(Step(q, ops[0]), ops[1..])
  }

  ghost predicate AllAdmissible(q: Queue, ops: seq<Op>)
    decreases |ops|
  {
    ops != [] ==> Admissible(q, ops[0]) && AllAdmissible(Step(q, ops[0]), ops[1..])
  }

  /** No cancel along the run finds alarm `id`; cancels of other alarms with the same callback do not count. */
  ghost predicate NeverCancelled(q: Queue, ops: seq<Op>, id: nat)
    decreases |ops|
  {
    ops != [] ==> !Cancels(q, ops[0], id) && NeverCancelled(Step(q, ops[0]), ops[1..], id)
  }

  /** An alarm on time stays on time over every run that does not cancel it. */
  lemma {:induction false} RunKeepsTime(q: Queue, ops: seq<Op>, id: nat, func: int, due: nat)
    requires Inv(q) && AllAdmissible(q, ops) && OnTime(q, id, func, due) && id < q.nextId
    requires NeverCancelled(q, ops, id)
    ensures Inv(RunAll(q, ops)) && OnTime(RunAll(q, ops), id, func, due)
    decreases |ops|
  {
    if ops != [] {
      StepKeepsInv(q, ops[0]);
      match ops[0] {
        case Set(msec, f) => SetKeepsTime(q, msec, f, id, func, due);
        case Stop(f) => StopKeepsTime(q, f, id, func, due);
        case Handler => HandlerKeepsTime(q, id, func, due);
      }
      RunKeepsTime(Step(q, ops[0]), ops[1..], id, func, due);
    }
  }

  function Ticks(ops: seq<Op>): nat {
    if ops == [] then 0 else (if ops[0].Handler? then 1 else 0) + Ticks(ops[1..])
  }

  lemma {:induction false} RunCountsTicks(q: Queue, ops: seq<Op>)
    ensures RunAll(q, ops).now == q.now + Ticks(ops)
    decreases |ops|
  {
    if ops != [] { RunCountsTicks(Step(q, ops[0]), ops[1..]); }
  }

  /** Exact firing: after any run that sets an alarm of T >= 1 ticks and does not cancel it, the alarm is
      in the log if and only if at least T handler calls followed, and then once, at the T-th of them. */
  lemma ExactFiring(q: Queue, msec: nat, func: int, ops: seq<Op>)
    requires Inv(q) && MsecToTicks(msec) >= 1
    requires AllAdmissible(Step(q, Set(msec, func)), ops) && NeverCancelled(Step(q, Set(msec, func)), ops, q.nextId)
    ensures var T, log := MsecToTicks(msec), RunAll(Step(q, Set(msec, func)), ops).log;
      && (Ticks(ops) >= T <==> exists i :: 0 <= i < |log| && log[i].id == q.nextId)
      && (forall i | 0 <= i < |log| && log[i].id == q.nextId :: log[i] == Firing(q.nextId, func, q.now + T))
      && (forall i, j | 0 <= i < |log| && 0 <= j < |log| && log[i].id == q.nextId == log[j].id :: i == j)
  {
    hide Inv, Deadlines, MsecToTicks, SetAlarm;
    var s := Step(q, Set(msec, func));
    StepKeepsInv(q, Set(msec, func));
    SetIsOnTime(q, msec, func);
    RunKeepsTime(s, ops, q.nextId, func, q.now + MsecToTicks(msec));
    RunCountsTicks(s, ops);
  }

  /** Alarm `id` is not pending and has not fired. */
  ghost predicate Gone(q: Queue, id: nat) {
    && id < q.nextId && (forall a | a in Deadlines(q.evs) :: a.id != id)
    && forall i | 0 <= i < |q.log| :: q.log[i].id != id
  }

  lemma CancelledIsGone(q: Queue, f: int, id: nat)
    requires Inv(q) && Admissible(q, Stop(f)) && Cancels(q, Stop(f), id)
    ensures Gone(Step(q, Stop(f)), id)
  {
    hide Ordered, Cancel, FirstMatch, Deadlines;
    var k := CancelTakes(q, f);
    var before, after := Deadlines(q.evs), Deadlines(Step(q, Stop(f)).evs);
    assert before[k] in before;
    forall a | a in after ensures a.id != id {
      var i :| 0 <= i < |after| && after[i] == a;
      assert after[i] == before[if i < k then i else i + 1];
    }
  }

  lemma StepKeepsGone(q: Queue, op: Op, id: nat)
    requires Inv(q) && Admissible(q, op) && Gone(q, id)
    ensures Gone(Step(q, op), id)
  {
    hide *;
    match op
    case Set(msec, f) => SetKeepsGone(q, msec, f, id);
    case Stop(f) => StopKeepsGone(q, f, id);
    case Handler => HandlerKeepsGone(q, id);
  }

  lemma SetKeepsGone(q: Queue, msec: nat, f: int, id: nat)
    requires Gone(q, id)
    ensures Gone(Step(q, Set(msec, f)), id)
  {
    hide Deadlines, SetAlarm, MsecToTicks, Earlier, Added;
    var ticks := MsecToTicks(msec);
    if ticks > 0 {
      var at := SetAlarmAdds(q.evs, ticks, f, q.nextId);
      AddedOnly(Deadlines(q.evs), Deadlines(SetAlarm(q.evs, ticks, f, q.nextId)), Alarm(ticks, f, q.nextId), at);
    }
  }

  lemma StopKeepsGone(q: Queue, f: int, id: nat)
    requires Inv(q) && Admissible(q, Stop(f)) && Gone(q, id)
    ensures Gone(Step(q, Stop(f)), id)
  {
    hide Ordered, Cancel, FirstMatch, Deadlines, Inv;
    var k := CancelTakes(q, f);
  }

  lemma HandlerKeepsGone(q: Queue, id: nat)
    requires Inv(q) && Gone(q, id)
    ensures Gone(Step(q, Handler), id)
  {
    hide Ordered, Deadlines, Tick, Inv;
    var before, after := Deadlines(q.evs), Deadlines(Step(q, Handler).evs);
    OrderedQueue(q);
    TickFires(q.evs);
    var n := |Tick(q.evs).fired|;
    forall i | 0 <= i < |after| ensures after[i].id != id { assert before[n + i] in before; }
    forall i | 0 <= i < n ensures Tick(q.evs).fired[i].id != id { assert before[i] in before; }
  }

  lemma OrderedQueue(q: Queue)
    requires Inv(q)
    ensures Ordered(q.evs)
  {
  }

  lemma {:induction false} RunKeepsGone(q: Queue, ops: seq<Op>, id: nat)
    requires Inv(q) && AllAdmissible(q, ops) && Gone(q, id)
    ensures Gone(RunAll(q, ops), id)
    decreases |ops|
  {
    hide Inv, Gone, Admissible, Step;
    if ops != [] {
      StepKeepsGone(q, ops[0], id);
      StepKeepsInv(q, ops[0]);
      RunKeepsGone(Step(q, ops[0]), ops[1..], id);
    }
  }

  /** After a cancel that found it an alarm never fires, whatever follows. */
  lemma CancelledNeverFires(q: Queue, f: int, ops: seq<Op>, id: nat)
    requires Inv(q) && Admissible(q, Stop(f)) && Cancels(q, Stop(f), id) && AllAdmissible(Step(q, Stop(f)), ops)
    ensures Gone(RunAll(Step(q, Stop(f)), ops), id)
  {
    CancelledIsGone(q, f, id);
    StepKeepsInv(q, Stop(f));
    RunKeepsGone(Step(q, Stop(f)), ops, id);
  }
}
