/** The timer queue of src/timer.c as it is: a linked list of events edited in place. */
module Timer {
  import opened TimerSpec

  class TimerEvent {
    var dt: int
    const func: int
    ghost const id: nat
    var next: TimerEvent?

    constructor (func: int, ghost id: nat)
      ensures this.func == func && this.id == id
    {
      this.func := func;
      this.id := id;
    }
  }

  ghost predicate Distinct(nodes: seq<TimerEvent>) {
    forall i, j | 0 <= i < j < |nodes| :: nodes[i] != nodes[j]
  }

  ghost predicate Alive(nodes: seq<TimerEvent>, freed: set<TimerEvent>) {
    forall n | n in nodes :: n !in freed
  }

  /** What event i of a list has to be linked to. */
  ghost function Link(nodes: seq<TimerEvent>, i: nat): TimerEvent? {
    if i + 1 < |nodes| then nodes[i + 1] else null
  }

  ghost predicate Chained(nodes: seq<TimerEvent>)
    reads nodes
  {
    forall i {:trigger nodes[i].next} | 0 <= i < |nodes| :: nodes[i].next == Link(nodes, i)
  }

  ghost function EventOf(node: TimerEvent): Event
    reads node
  {
    Event(node.dt, node.func, node.id)
  }

  ghost function Events(nodes: seq<TimerEvent>): (evs: seq<Event>)
    reads nodes
    ensures |evs| == |nodes| && forall i | 0 <= i < |nodes| :: evs[i] == EventOf(nodes[i])
  {
    seq(|nodes|, i requires 0 <= i < |nodes| reads nodes => EventOf(nodes[i]))
  }

  ghost function InsertNode(nodes: seq<TimerEvent>, k: nat, ev: TimerEvent): seq<TimerEvent>
    requires k <= |nodes|
  {
    nodes[..k] + ([ev] + nodes[k..])
  }

  /** The later events count from the new one. */
  ghost function InsertEvent(evs: seq<Event>, k: nat, e: Event): seq<Event>
    requires k <= |evs|
  {
    evs[..k] + ([e] + Shift(evs[k..], -e.dt))
  }

  ghost function WithoutNode(nodes: seq<TimerEvent>, k: nat): seq<TimerEvent>
    requires k < |nodes|
  {
    if k == 0 then nodes else nodes[..k] + nodes[k + 1..]
  }

  lemma InsertedChain(was: seq<TimerEvent>, k: nat, ev: TimerEvent)
    requires k <= |was|
    requires forall i {:trigger was[i].next} | 0 <= i < |was| && i + 1 != k :: was[i].next == Link(was, i)
    requires k > 0 ==> was[k - 1].next == ev
    requires ev.next == if k < |was| then was[k] else null
    ensures Chained(InsertNode(was, k, ev))
  {
    var now := InsertNode(was, k, ev);
    forall i | 0 <= i < |now| ensures now[i].next == Link(now, i) {
      if i != k { assert now[i] == was[if i < k then i else i - 1]; }
    }
  }

  lemma InsertedDistinct(was: seq<TimerEvent>, k: nat, ev: TimerEvent)
    requires k <= |was| && Distinct(was) && ev !in was
    ensures Distinct(InsertNode(was, k, ev)) && InsertNode(was, k, ev) != []
    ensures InsertNode(was, k, ev)[0] == if k == 0 then ev else was[0]
  {
  }

  lemma InsertedEvents(was: seq<TimerEvent>, evs: seq<Event>, k: nat, ev: TimerEvent)
    requires k <= |was| == |evs|
    requires forall i | 0 <= i < |was| && i != k :: EventOf(was[i]) == evs[i]
    requires k < |was| ==> EventOf(was[k]) == evs[k].(dt := evs[k].dt - ev.dt)
    ensures Events(InsertNode(was, k, ev)) == InsertEvent(evs, k, EventOf(ev))
  {
    hide Shift, Events;
    EventsConcat(was[..k], [ev] + was[k..]);
    EventsConcat([ev], was[k..]);
    EventsAre([ev], [EventOf(ev)]);
    EventsAre(was[..k], evs[..k]);
    ShiftAt(evs[k..], -ev.dt);
    EventsAre(was[k..], Shift(evs[k..], -ev.dt));
  }

  lemma EventsConcat(x: seq<TimerEvent>, y: seq<TimerEvent>)
    ensures Events(x + y) == Events(x) + Events(y)
  {
  }

  lemma EventsAre(nodes: seq<TimerEvent>, evs: seq<Event>)
    requires |nodes| == |evs| && forall i | 0 <= i < |nodes| :: EventOf(nodes[i]) == evs[i]
    ensures Events(nodes) == evs
  {
  }

  lemma ShiftAt(evs: seq<Event>, d: int)
    ensures |Shift(evs, d)| == |evs|
    ensures forall i | 0 < i < |evs| :: Shift(evs, d)[i] == evs[i]
    ensures evs != [] ==> Shift(evs, d)[0] == evs[0].(dt := evs[0].dt + d)
  {
  }

  class EventTimer {
    var evlist: TimerEvent?
    var nticks: nat
    ghost var nodes: seq<TimerEvent>     // the events of the list, first to last
    ghost var freed: set<TimerEvent>     // events given back to the heap
    ghost var q: Queue

    /** evlist is the list of `nodes`. */
    ghost predicate IsList()
      reads this, nodes
    {
      Distinct(nodes) && evlist == (if nodes == [] then null else nodes[0]) && Chained(nodes)
    }

    /** The list holds the events of `q`. */
    ghost predicate Linked()
      reads this, nodes
    {
      IsList() && Events(nodes) == q.evs && nticks == q.now
    }

    /** No event of the list has been freed. */
    ghost predicate Valid()
      reads this, nodes
    {
      Linked() && Alive(nodes, freed)
    }

    constructor ()
      ensures Valid() && q == Queue([], 0, 0, [])
    {
      evlist, nticks, nodes, freed, q := null, 0, [], {}, Queue([], 0, 0, []);
    }

    lemma NextIs(k: nat)
      requires IsList() && k < |nodes|
      ensures nodes[k].next == if k + 1 < |nodes| then nodes[k + 1] else null
    {
      assert nodes[k].next == Link(nodes, k);
    }

    method InsertFirst(ev: TimerEvent, ticks: int)
      requires IsList() && ev !in nodes
      modifies this`evlist, this`nodes, nodes, ev
      ensures freed == old(freed) && q == old(q) && nticks == old(nticks)
      ensures IsList() && nodes == InsertNode(old(nodes), 0, ev)
      ensures Events(nodes) == InsertEvent(old(Events(nodes)), 0, Event(ticks, ev.func, ev.id))
    {
      ghost var was, evs := nodes, Events(nodes);
      ev.next := evlist;
      evlist := ev;
      ev.dt := ticks;
      if ev.next != null {
        ev.next.dt := ev.next.dt - ticks;
      }
      InsertedChain(was, 0, ev);
      InsertedEvents(was, evs, 0, ev);
      nodes := InsertNode(was, 0, ev);
    }

    method InsertAfter(node: TimerEvent, ghost k: nat, ev: TimerEvent, ticks: int)
      requires IsList() && ev !in nodes && 0 < k <= |nodes| && node == nodes[k - 1]
      modifies this`nodes, nodes, ev
      ensures freed == old(freed) && q == old(q) && nticks == old(nticks)
      ensures IsList() && nodes == InsertNode(old(nodes), k, ev)
      ensures Events(nodes) == InsertEvent(old(Events(nodes)), k, Event(ticks, ev.func, ev.id))
    {
      hide InsertNode, InsertEvent;
      ghost var was, evs := nodes, Events(nodes);
      NextIs(k - 1);
      ev.next := node.next;
      node.next := ev;
      ev.dt := ticks;
      if ev.next != null {
        ev.next.dt := ev.next.dt - ev.dt;
      }
      InsertedChain(was, k, ev);
      InsertedEvents(was, evs, k, ev);
      InsertedDistinct(was, k, ev);
      nodes := InsertNode(was, k, ev);
    }

    /** The walk of set_alarm over the differences: the event behind which the new one goes, and the ticks
        between them. */
    method Walk(ticks: int, ghost func: int, ghost id: nat) returns (node: TimerEvent, left: int, ghost k: nat)
      requires IsList() && nodes != [] && ticks >= nodes[0].dt
      ensures 0 < k <= |nodes| && node == nodes[k - 1]
      ensures TimerSpec.SetAlarm(Events(nodes), ticks, func, id) == InsertEvent(Events(nodes), k, Event(left, func, id))
    {
      hide Chained, Distinct, Shift, Place, InsertEvent, TimerSpec.SetAlarm;
      ghost var evs := Events(nodes);
      var tsum := evlist.dt;
      node := evlist;
      BehindFirst(evs, ticks, func, id);
      k := 1;
      while node.next != null && ticks > tsum + node.next.dt
        invariant 1 <= k <= |nodes| && node == nodes[k - 1]
        invariant TimerSpec.SetAlarm(evs, ticks, func, id) == evs[..k] + Place(evs[k..], ticks - tsum, func, id)
        decreases |nodes| - k
      {
        NextIs(k - 1);
        PlaceSkips(evs, k, ticks - tsum, func, id);
        tsum := tsum + node.next.dt;
        node := node.next;
        k := k + 1;
      }
      NextIs(k - 1);
      left := ticks - tsum;
      PlaceEnds(evs, k, left, func, id);
    }

    /** set_alarm: one step of the queue. */
    method SetAlarm(msec: nat, func: int)
      requires Valid()
      modifies this, nodes
      ensures Valid() && q == Step(old(q), Set(msec, func))
    {
      hide Chained, Distinct, Shift, MsecToTicks, Alive, Place, InsertNode, InsertEvent, TimerSpec.SetAlarm, Step;
      SetIs(q, msec, func);
      var ticks := MsecToTicks(msec);
      if ticks <= 0 {
        return;
      }
      var ev := new TimerEvent(func, q.nextId);
      ghost var k := 0;
      if evlist == null || ticks < evlist.dt {
        FrontIs(q.evs, ticks, func, q.nextId);
        InsertFirst(ev, ticks);
      } else {
        var node, left;
        node, left, k := Walk(ticks, func, q.nextId);
        InsertAfter(node, k, ev, left);
      }
      StillAlive(old(nodes), k, ev, freed);
      Record(Set(msec, func));
    }

    /** Frees event k, which follows `node`, or the dummy while node is null.  The local head that the dummy
        stands for is dropped, so event 0 stays in the list. */
    method Unlink(node: TimerEvent?, ghost k: nat, ev: TimerEvent)
      requires IsList() && k < |nodes| && ev == nodes[k] && node == (if k == 0 then null else nodes[k - 1])
      modifies this`nodes, this`freed, nodes
      ensures IsList() && freed == old(freed) + {ev} && q == old(q) && nticks == old(nticks)
      ensures nodes == WithoutNode(old(nodes), k)
      ensures Events(nodes) == CancelAt(old(Events(nodes)), k)
    {
      hide CancelAt, WithoutNode, Shift;
      ghost var was, evs := nodes, Events(nodes);
      NextIs(k);
      if ev.next != null {
        ev.next.dt := ev.next.dt + ev.dt;
      }
      if node != null {
        node.next := ev.next;
        nodes := WithoutNode(was, k);
      }
      freed := freed + {ev};
      CancelledChain(was, k);
      CancelledDistinct(was, k);
      CancelledEvents(was, evs, k);
    }

    /** The search of cancel_alarm: event k with the callback behind `node`, or the dummy while node is null;
        `ev` is null if there is none. */
    method FindEvent(func: int) returns (node: TimerEvent?, ev: TimerEvent?, ghost k: nat)
      requires IsList()
      ensures k == FirstMatch(Events(nodes), func) && node == (if k == 0 then null else nodes[k - 1])
      ensures ev == if k < |nodes| then nodes[k] else null
    {
      hide Chained, Distinct, FirstMatch;
      ghost var evs := Events(nodes);
      node, ev, k := null, evlist, 0;
      while ev != null
        invariant k <= |nodes| && node == (if k == 0 then null else nodes[k - 1])
        invariant ev == if k < |nodes| then nodes[k] else null
        invariant forall i | 0 <= i < k :: evs[i].func != func
        decreases |nodes| - k
      {
        if ev.func == func {
          break;
        }
        NextIs(k);
        node := ev;
        ev := ev.next;
        k := k + 1;
      }
    }

    /** cancel_alarm: one step of the queue.  A match at the head of the list is freed but not unlinked, because
        evlist is never written back: the list stays free of freed events exactly when the head does not match. */
    method CancelAlarm(func: int)
      requires Valid()
      modifies this, nodes
      ensures Linked() && q == Step(old(q), Stop(func))
      ensures Valid() <==> Admissible(old(q), Stop(func))
    {
      hide Chained, Distinct, CancelAt, Alive, WithoutNode, FirstMatch, Events;
      CancelIs(q, func);
      NoneDue(nodes);
      var node, ev;
      ghost var k;
      node, ev, k := FindEvent(func);
      ghost var was, gone := nodes, freed;
      if ev != null {
        Unlink(node, k, ev);
        AliveWithout(was, k, gone);
      }
      q := Step(q, Stop(func));
    }

    /** The edits of an operation are done: the queue takes the step. */
    ghost method Record(op: Op)
      requires IsList() && Alive(nodes, freed) && Events(nodes) == Step(q, op).evs && nticks == Step(q, op).now
      modifies this`q
      ensures Valid() && q == Step(old(q), op)
    {
      hide Chained, Distinct, Alive, Events, Step;
      q := Step(q, op);
    }

    /** timer_handler: one step of the queue.  The events that are due are unlinked, called and freed in order;
        `called` lists the callbacks, which leave the queue alone. */
    method Handle() returns (called: seq<int>)
      requires Valid()
      modifies this, nodes
      ensures Valid() && q == Step(old(q), Handler) && called == Called(old(q.evs))
    {
      hide Chained, Distinct, Shift, Alive, Events, Fire, Called, Tick, Due, Step;
      called := [];
      nticks := nticks + 1;
      TickIs(q);
      NoneDue(nodes);
      if evlist != null {
        Countdown();
        called := CallDue(Shift(q.evs, -1));
      }
      CalledIs(q.evs, called);
      Record(Handler);
    }

    /** The loop of the handler over the events that are due. */
    method CallDue(ghost s: seq<Event>) returns (called: seq<int>)
      requires IsList() && Alive(nodes, freed) && Events(nodes) == s
      modifies this`evlist, this`nodes, this`freed
      ensures IsList() && Alive(nodes, freed) && Events(nodes) == s[Due(s)..]
      ensures |called| == Due(s) && forall i | 0 <= i < |called| :: called[i] == s[i].func
    {
      hide Chained, Distinct, Alive, Events;
      called := [];
      ghost var was, k := nodes, 0;
      assert was == was[0..] && s == s[0..];
      while evlist != null && evlist.dt <= 0
        invariant k <= |was| == |s| && nodes == was[k..] && IsList() && Alive(nodes, freed)
        invariant Events(nodes) == s[k..]
        invariant forall i | 0 <= i < k :: s[i].dt <= 0
        invariant |called| == k && forall i | 0 <= i < k :: called[i] == s[i].func
        decreases |was| - k
      {
        HeadIs(nodes, s, k);
        var ev := Unhook();
        called := called + [ev.func];
        AliveTail(was[k..], freed);
        freed := freed + {ev};
        k := k + 1;
      }
      DueIs(nodes, s, k);
    }

    method Countdown()
      requires IsList() && nodes != []
      modifies nodes
      ensures nodes == old(nodes) && freed == old(freed) && q == old(q) && nticks == old(nticks)
      ensures IsList() && Events(nodes) == Shift(old(Events(nodes)), -1)
    {
      evlist.dt := evlist.dt - 1;
      Decremented(nodes, old(Events(nodes)));
    }

    method Unhook() returns (ev: TimerEvent)
      requires IsList() && nodes != []
      modifies this`evlist, this`nodes
      ensures IsList() && ev == old(nodes)[0] && nodes == old(nodes)[1..]
      ensures Events(nodes) == old(Events(nodes))[1..]
    {
      NextIs(0);
      TailIsList(nodes);
      ev := evlist;
      evlist := evlist.next;
      nodes := nodes[1..];
    }
  }

  lemma HeadIs(nodes: seq<TimerEvent>, s: seq<Event>, k: nat)
    requires k < |s| && Events(nodes) == s[k..]
    ensures nodes != [] && EventOf(nodes[0]) == s[k]
  {
  }

  lemma AliveTail(nodes: seq<TimerEvent>, freed: set<TimerEvent>)
    requires nodes != [] && Alive(nodes, freed) && Distinct(nodes)
    ensures Alive(nodes[1..], freed + {nodes[0]})
  {
  }

  /** The loop of the handler stops behind the last event that is due. */
  lemma DueIs(nodes: seq<TimerEvent>, s: seq<Event>, k: nat)
    requires k <= |s| && Events(nodes) == s[k..] && forall i | 0 <= i < k :: s[i].dt <= 0
    requires nodes != [] ==> nodes[0].dt > 0
    ensures Due(s) == k
  {
    if k < |s| { assert EventOf(nodes[0]) == s[k]; }
  }

  lemma CancelIs(q: Queue, func: int)
    ensures var k, r := FirstMatch(q.evs, func), Step(q, Stop(func));
      && r == q.(evs := r.evs) && r.evs == (if k < |q.evs| then CancelAt(q.evs, k) else q.evs)
      && (Admissible(q, Stop(func)) <==> k == |q.evs| || k > 0)
  {
  }

  lemma SetIs(q: Queue, msec: nat, func: int)
    ensures var ticks, r := MsecToTicks(msec), Step(q, Set(msec, func));
      && (ticks <= 0 ==> r == q)
      && (ticks > 0 ==> r.evs == TimerSpec.SetAlarm(q.evs, ticks, func, q.nextId) && r.now == q.now)
  {
  }

  lemma TickIs(q: Queue)
    ensures var s := Shift(q.evs, -1); Step(q, Handler).evs == s[Due(s)..]
    ensures Step(q, Handler).now == q.now + 1
    ensures q.evs == [] ==> Step(q, Handler).evs == [] && Due(Shift(q.evs, -1)) == 0
  {
  }

  lemma NoneDue(nodes: seq<TimerEvent>)
    ensures nodes == [] <==> Events(nodes) == []
  {
  }

  lemma CalledIs(evs: seq<Event>, called: seq<int>)
    requires var s := Shift(evs, -1); |called| == Due(s) && forall i | 0 <= i < Due(s) :: called[i] == s[i].func
    ensures called == Called(evs)
  {
  }

  /** The head's difference has been lowered by one. */
  lemma Decremented(was: seq<TimerEvent>, evs: seq<Event>)
    requires was != [] && |was| == |evs|
    requires EventOf(was[0]) == evs[0].(dt := evs[0].dt - 1)
    requires forall i | 0 < i < |was| :: EventOf(was[i]) == evs[i]
    ensures Events(was) == Shift(evs, -1)
  {
    ShiftAt(evs, -1);
    EventsAre(was, Shift(evs, -1));
  }

  lemma TailIsList(was: seq<TimerEvent>)
    requires was != [] && Distinct(was) && Chained(was)
    ensures Distinct(was[1..]) && Chained(was[1..]) && was[0] !in was[1..]
    ensures Events(was[1..]) == Events(was)[1..]
  {
    forall i | 0 <= i < |was| - 1 ensures was[1..][i].next == Link(was[1..], i) {
      assert was[1..][i] == was[i + 1];
    }
  }

  /** Event k of `was` has been taken out, unless it is the head. */
  lemma CancelledChain(was: seq<TimerEvent>, k: nat)
    requires k < |was|
    requires forall i {:trigger was[i].next} | 0 <= i < |was| && i + 1 != k :: was[i].next == Link(was, i)
    requires k > 0 ==> was[k - 1].next == Link(was, k)
    ensures k > 0 ==> Chained(WithoutNode(was, k))
  {
    if k > 0 {
      var now := was[..k] + was[k + 1..];
      forall i | 0 <= i < |now| ensures now[i].next == Link(now, i) {
        assert now[i] == was[if i < k then i else i + 1];
      }
    }
  }

  lemma CancelledDistinct(was: seq<TimerEvent>, k: nat)
    requires k < |was| && Distinct(was)
    ensures Distinct(WithoutNode(was, k)) && WithoutNode(was, k) != [] && WithoutNode(was, k)[0] == was[0]
    ensures k == 0 ==> WithoutNode(was, k) == was
  {
  }

  lemma CancelledEvents(was: seq<TimerEvent>, evs: seq<Event>, k: nat)
    requires k < |was| == |evs|
    requires forall i | 0 <= i < |was| && i != k + 1 :: EventOf(was[i]) == evs[i]
    requires k + 1 < |was| ==> EventOf(was[k + 1]) == evs[k + 1].(dt := evs[k + 1].dt + evs[k].dt)
    ensures Events(WithoutNode(was, k)) == CancelAt(evs, k)
  {
    hide Shift, Events;
    ShiftAt(evs[k + 1..], evs[k].dt);
    EventsAre(was[k + 1..], Shift(evs[k + 1..], evs[k].dt));
    EventsAre(was[..if k == 0 then 1 else k], evs[..if k == 0 then 1 else k]);
    if k > 0 {
      EventsConcat(was[..k], was[k + 1..]);
    } else {
      assert was == was[..1] + was[1..] && evs[..1] == [evs[0]];
      EventsConcat(was[..1], was[1..]);
    }
  }

  lemma StillAlive(was: seq<TimerEvent>, k: nat, ev: TimerEvent, freed: set<TimerEvent>)
    requires Alive(was, freed) && ev !in freed && k <= |was|
    ensures Alive(InsertNode(was, k, ev), freed)
  {
  }

  /** Freeing event k leaves a freed event in the list only if it is the head. */
  lemma AliveWithout(was: seq<TimerEvent>, k: nat, freed: set<TimerEvent>)
    requires Alive(was, freed) && Distinct(was) && k < |was|
    ensures Alive(WithoutNode(was, k), freed + {was[k]}) <==> k > 0
  {
    if k == 0 { assert was[0] in was; }
  }

  lemma FrontIs(evs: seq<Event>, ticks: int, func: int, id: nat)
    requires evs == [] || ticks < evs[0].dt
    ensures TimerSpec.SetAlarm(evs, ticks, func, id) == InsertEvent(evs, 0, Event(ticks, func, id))
  {
    assert evs[0..] == evs;
  }

  lemma BehindFirst(evs: seq<Event>, ticks: int, func: int, id: nat)
    requires evs != [] && ticks >= evs[0].dt
    ensures TimerSpec.SetAlarm(evs, ticks, func, id) == evs[..1] + Place(evs[1..], ticks - evs[0].dt, func, id)
  {
  }

  lemma PlaceSkips(evs: seq<Event>, k: nat, ticks: int, func: int, id: nat)
    requires k < |evs| && ticks > evs[k].dt
    ensures evs[..k] + Place(evs[k..], ticks, func, id)
         == evs[..k + 1] + Place(evs[k + 1..], ticks - evs[k].dt, func, id)
  {
    hide Shift;
    PlaceBehind(evs[k], evs[k + 1..], ticks, func, id);
    assert evs[k..] == [evs[k]] + evs[k + 1..];
    assert evs[..k + 1] == evs[..k] + [evs[k]];
  }

  lemma PlaceBehind(e: Event, rest: seq<Event>, ticks: int, func: int, id: nat)
    requires ticks > e.dt
    ensures Place([e] + rest, ticks, func, id) == [e] + Place(rest, ticks - e.dt, func, id)
  {
    assert ([e] + rest)[1..] == rest;
  }

  lemma PlaceEnds(evs: seq<Event>, k: nat, ticks: int, func: int, id: nat)
    requires k == |evs| || (k < |evs| && ticks <= evs[k].dt)
    ensures evs[..k] + Place(evs[k..], ticks, func, id) == InsertEvent(evs, k, Event(ticks, func, id))
  {
    hide Shift;
    PlaceHere(evs[k..], ticks, func, id);
  }

  lemma PlaceHere(rest: seq<Event>, ticks: int, func: int, id: nat)
    requires rest == [] || ticks <= rest[0].dt
    ensures Place(rest, ticks, func, id) == [Event(ticks, func, id)] + Shift(rest, -ticks)
  {
    hide Shift;
  }
}
