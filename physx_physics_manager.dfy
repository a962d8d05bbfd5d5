/**
 * PhysXPhysicsManager's trigger bookkeeping. PhysX reports the start and the
 * end of an overlap between a trigger and another shape through the
 * onTriggerBegin and onTriggerEnd callbacks while the scene's results are
 * fetched; the manager keeps one event per pair of shape ids under
 * eventMap[min][max], lists the events in a DisorderedArray, and its sweep
 * (_fireEvent) then fires the trigger callbacks and recycles finished events
 * through a pool.
 */
module PhysXPhysics {
  import opened Geometry
  import opened Outcomes
  import opened TriggerStateMachine
  import DisorderedArray
  import opened EventSweep
  import opened PhysXShapes
  import opened LiteRaycast

  /** TriggerEvent of the PhysX manager: a pair's state and the ids it was created for. */
  class PxTriggerEvent {
    var state: TriggerEventState
    const index1: int
    const index2: int

    /** A new event carries the ids it was created for; its state is not set. */
    constructor (i1: int, i2: int)
      ensures index1 == i1 && index2 == i2
    {
      index1 := i1;
      index2 := i2;
    }
  }

  type PxEventMap = map<int, map<int, PxTriggerEvent>>

  /** The map has a slot for the pair (a, b). */
  predicate HasSlot(m: PxEventMap, a: int, b: int) {
    a in m && b in m[a]
  }

  /** The callbacks a sweep makes for the events `es`, each with the state it had when the sweep began. */
  function CallsAt(es: seq<PxTriggerEvent>, st: map<PxTriggerEvent, TriggerEventState>): (r: seq<TriggerCall>)
    requires forall k :: 0 <= k < |es| ==> es[k] in st
    ensures |r| == |es|
    ensures forall k :: 0 <= k < |es| ==> r[k] == TriggerCall(st[es[k]], es[k].index1, es[k].index2)
  {
    if es == [] then []
    else
      assert forall k :: 0 <= k < |es| - 1 ==> es[..|es| - 1][k] == es[k];
      CallsAt(es[..|es| - 1], st) + [TriggerCall(st[es[|es| - 1]], es[|es| - 1].index1, es[|es| - 1].index2)]
  }

  /** The result of raycastSingle as far as the manager reads it. */
  datatype PxRaycastHit = PxRaycastHit(shapeID: int, distance: real, position: Vector3, normal: Vector3)

  /**
   * raycast: the answer is whether the scene query found a hit; with a
   * callback, a hit is reported with the hit shape's id, distance, position and
   * normal. The query itself (raycastSingle) is the parameter `found`.
   */
  function Raycast(found: Option<PxRaycastHit>, withHit: bool): (r: (bool, Option<HitCall>))
    ensures r.0 <==> found.Some?
    ensures r.1.Some? <==> found.Some? && withHit
    ensures r.1.Some? ==> r.1.value == HitCall(found.value.shapeID, found.value.distance, found.value.position, found.value.normal)
  {
    match found
    case None => (false, None)
    case Some(h) => (true, if withHit then Some(HitCall(h.shapeID, h.distance, h.position, h.normal)) else None)
  }

  /**
   * What _fireEvent starts from: the current events, the ones it keeps (those
   * not in Exit), the pool, the log, and each event's state.
   */
  datatype PxSweepStart = PxSweepStart(
    current: seq<PxTriggerEvent>, keep: set<PxTriggerEvent>, pool: seq<PxTriggerEvent>,
    log: seq<TriggerCall>, state: map<PxTriggerEvent, TriggerEventState>)
  {
    /**
     * Every listed and pooled event has a recorded state, and the events kept
     * are exactly the listed ones not in Exit.
     */
    ghost predicate Ready() {
      && (forall e {:trigger e in current} :: e in current ==> e in state && (e in keep <==> state[e] != Exit))
      && (forall e {:trigger e in pool} :: e in pool ==> e in state)
      && (forall e {:trigger e in keep} :: e in keep ==> e in current)
    }

    /** The call an event makes in the sweep: its recorded state and its ids. */
    function Call(e: PxTriggerEvent): TriggerCall
      requires e in state
    {
      TriggerCall(state[e], e.index1, e.index2)
    }

    /**
     * A walk that has reached index i of cur, having fired `fired` and dropped
     * `dropped`, with pool `pool`: the rest of it is the rest of the whole
     * sweep, the pool is the starting one with what was dropped added, and
     * every listed event was listed at the start.
     */
    ghost predicate ListsAt(cur: seq<PxTriggerEvent>, pool: seq<PxTriggerEvent>, i: nat,
                            fired: seq<PxTriggerEvent>, dropped: seq<PxTriggerEvent>)
    {
      && i <= |cur|
      && Sweep(cur, keep, i, fired, dropped) == Sweep(current, keep, 0, [], [])
      && pool == this.pool + dropped
      && (forall e {:trigger e in cur} :: e in cur ==> e in current)
    }

    /** The log is the starting one followed by the call of each fired event, in firing order. */
    ghost predicate LogOf(l: seq<TriggerCall>, fired: seq<PxTriggerEvent>) {
      && |l| == |log| + |fired| && l[..|log|] == log
      && (forall k :: 0 <= k < |fired| ==> fired[k] in state && l[|log| + k] == Call(fired[k]))
    }
  }

  /** Firing a kept event moves the walk one index on and leaves the lists as they are. */
  lemma KeepStep(st: PxSweepStart, cur: seq<PxTriggerEvent>, pool: seq<PxTriggerEvent>, i: nat,
                 fired: seq<PxTriggerEvent>, dropped: seq<PxTriggerEvent>)
    requires st.ListsAt(cur, pool, i, fired, dropped) && i < |cur| && cur[i] in st.keep
    ensures st.ListsAt(cur, pool, i + 1, fired + [cur[i]], dropped)
  {
  }

  /** Dropping the event at index i deletes it by index and pools it, and the walk stays at i. */
  lemma DropStep(st: PxSweepStart, cur: seq<PxTriggerEvent>, pool: seq<PxTriggerEvent>, i: nat,
                 fired: seq<PxTriggerEvent>, dropped: seq<PxTriggerEvent>)
    requires st.ListsAt(cur, pool, i, fired, dropped) && i < |cur| && cur[i] !in st.keep
    ensures st.ListsAt(DisorderedArray.DeleteByIndex(cur, i), pool + [cur[i]], i, fired + [cur[i]], dropped + [cur[i]])
  {
    DisorderedArray.DeleteByIndexWithin(cur, i);
  }

  /** The call logged for the k-th fired event. */
  lemma LogAt(st: PxSweepStart, l: seq<TriggerCall>, fired: seq<PxTriggerEvent>, k: nat)
    requires st.LogOf(l, fired) && k < |fired|
    ensures fired[k] in st.state && l[|st.log| + k] == st.Call(fired[k])
  {
  }

  /** Logging the call of the next fired event extends the log in firing order. */
  lemma LogStep(st: PxSweepStart, l: seq<TriggerCall>, fired: seq<PxTriggerEvent>, e: PxTriggerEvent)
    requires st.LogOf(l, fired) && e in st.state
    ensures st.LogOf(l + [st.Call(e)], fired + [e])
  {
    var l' := l + [st.Call(e)];
    var f' := fired + [e];
    assert l'[..|st.log|] == l[..|st.log|];
    forall k | 0 <= k < |f'| ensures f'[k] in st.state && l'[|st.log| + k] == st.Call(f'[k]) {
      if k < |fired| {
        assert f'[k] == fired[k];
      }
    }
  }

  class PhysXPhysicsManager {
    var currentEvents: seq<PxTriggerEvent>
    var eventMap: PxEventMap
    var eventPool: seq<PxTriggerEvent>
    /** The trigger callbacks made so far, in order. */
    var triggerLog: seq<TriggerCall>
    /** Every event the manager has created. */
    ghost var events: set<PxTriggerEvent>
    /** The slot each event was last stored in. */
    ghost var slotOf: map<PxTriggerEvent, Pair>

    /**
     * The events are the listed ones and the pooled ones, none twice; pooled
     * events are in Exit and not listed; the event a slot holds is listed, not
     * in Exit, and held by no other slot.
     */
    ghost predicate Valid()
      reads this, events
    {
      && events == (set e | e in currentEvents) + (set e | e in eventPool)
      && DisorderedArray.Distinct(currentEvents) && DisorderedArray.Distinct(eventPool)
      && (forall e {:trigger e in eventPool} :: e in eventPool ==> e !in currentEvents && e.state == Exit)
      && (forall a, b {:trigger HasSlot(eventMap, a, b)} :: HasSlot(eventMap, a, b) ==>
            var e := eventMap[a][b]; e in currentEvents && e.state != Exit && e in slotOf && slotOf[e] == (a, b))
    }

    /** Each event's state. */
    ghost function States(): (st: map<PxTriggerEvent, TriggerEventState>)
      reads this, events
      ensures st.Keys == events
    {
      map e | e in events :: e.state
    }

    /** The listed events not in Exit: the ones the sweep keeps. */
    ghost function Live(): set<PxTriggerEvent>
      reads this, currentEvents
    {
      set e | e in currentEvents && e.state != Exit
    }

    constructor ()
      ensures Valid()
      ensures currentEvents == [] && eventMap == map[] && eventPool == [] && triggerLog == []
    {
      currentEvents, eventMap, eventPool, triggerLog := [], map[], [], [];
      events, slotOf := {}, map[];
    }

    /** addColliderShape: the shape's id gets an empty row. */
    method AddColliderShape(shape: PhysXColliderShape)
      requires Valid()
      modifies this`eventMap
      ensures eventMap == old(eventMap)[shape.id := map[]]
      ensures Valid()
    {
      eventMap := eventMap[shape.id := map[]];
      forall a, b | HasSlot(eventMap, a, b) ensures HasSlot(old(eventMap), a, b) && eventMap[a][b] == old(eventMap)[a][b] {
      }
    }

    /** removeColliderShape: the shape's row is deleted. */
    method RemoveColliderShape(shape: PhysXColliderShape)
      requires Valid()
      modifies this`eventMap
      ensures eventMap == old(eventMap) - {shape.id}
      ensures Valid()
    {
      eventMap := eventMap - {shape.id};
      forall a, b | HasSlot(eventMap, a, b) ensures HasSlot(old(eventMap), a, b) && eventMap[a][b] == old(eventMap)[a][b] {
      }
    }

    /**
     * _getTrigger: the last pooled event, or a new one for (index1, index2)
     * when the pool is empty, stored in slot (index1, index2). A pooled event
     * keeps the ids it was created for.
     */
    method GetTrigger(index1: int, index2: int) returns (event: PxTriggerEvent)
      requires Valid() && index1 in eventMap
      modifies this`eventMap, this`eventPool, this`events, this`slotOf
      ensures old(eventPool) == [] ==> fresh(event) && event.index1 == index1 && event.index2 == index2 && eventPool == []
      ensures old(eventPool) != [] ==>
        event == old(eventPool[|eventPool| - 1]) && eventPool == old(eventPool[..|eventPool| - 1])
      ensures eventMap == old(eventMap)[index1 := old(eventMap)[index1][index2 := event]]
      ensures events == old(events) + {event} && slotOf == old(slotOf)[event := (index1, index2)]
      ensures event !in currentEvents
    {
      if |eventPool| > 0 {
        event := eventPool[|eventPool| - 1];
        eventPool := eventPool[..|eventPool| - 1];
      } else {
        event := new PxTriggerEvent(index1, index2);
        events := events + {event};
      }
      eventMap := eventMap[index1 := eventMap[index1][index2 := event]];
      slotOf := slotOf[event := (index1, index2)];
    }

    /**
     * onTriggerBegin: the event for the pair, stored under (min, max), is set
     * to Enter and appended to the current events. An event already in that
     * slot is no longer reachable through the map but stays listed.
     */
    method OnTriggerBegin(index1: int, index2: int) returns (event: PxTriggerEvent)
      requires Valid() && PairKey(index1, index2).0 in eventMap
      modifies this`eventMap, this`eventPool, this`currentEvents, this`events, this`slotOf, events`state
      ensures var key := PairKey(index1, index2);
        eventMap == old(eventMap)[key.0 := old(eventMap)[key.0][key.1 := event]]
      ensures event.state == Enter && currentEvents == old(currentEvents) + [event]
      ensures old(eventPool) == [] ==>
        fresh(event) && (event.index1, event.index2) == PairKey(index1, index2) && eventPool == []
      ensures old(eventPool) != [] ==>
        event == old(eventPool[|eventPool| - 1]) && eventPool == old(eventPool[..|eventPool| - 1])
      ensures forall e {:trigger e in old(events)} :: e in old(events) && e != event ==> e.state == old(e.state)
      ensures Valid()
    {
      if index1 < index2 {
        event := GetTrigger(index1, index2);
      } else {
        event := GetTrigger(index2, index1);
      }
      event.state := Enter;
      currentEvents := DisorderedArray.Add(currentEvents, event);
      BeginKeepsValid(this, event, PairKey(index1, index2));
    }

    /**
     * onTriggerEnd: the event in slot (min, max) leaves its slot and is set to
     * Exit; it stays listed until the sweep.
     */
    method OnTriggerEnd(index1: int, index2: int) returns (event: PxTriggerEvent)
      requires Valid() && HasSlot(eventMap, PairKey(index1, index2).0, PairKey(index1, index2).1)
      modifies this`eventMap, events`state
      ensures var key := PairKey(index1, index2);
        event == old(eventMap[key.0][key.1]) && eventMap == old(eventMap)[key.0 := old(eventMap)[key.0] - {key.1}]
      ensures event.state == Exit
      ensures forall e {:trigger e in old(events)} :: e in old(events) && e != event ==> e.state == old(e.state)
      ensures Valid()
    {
      SlotIsListed(this, PairKey(index1, index2).0, PairKey(index1, index2).1);
      if index1 < index2 {
        var subMap := eventMap[index1];
        event := subMap[index2];
        eventMap := eventMap[index1 := subMap - {index2}];
      } else {
        var subMap := eventMap[index2];
        event := subMap[index1];
        eventMap := eventMap[index2 := subMap - {index1}];
      }
      event.state := Exit;
      EndKeepsValid(this, event, PairKey(index1, index2));
    }

    /**
     * update: after the scene has been simulated and its results fetched
     * (which makes the begin and end callbacks), the sweep fires the trigger
     * callbacks.
     */
    method Update() returns (ghost order: Swept<PxTriggerEvent>)
      requires Valid()
      modifies this`currentEvents, this`eventPool, this`triggerLog, events`state
      ensures order == Sweep(old(currentEvents), old(Live()), 0, [], [])
      ensures currentEvents == order.remaining && eventPool == old(eventPool) + order.dropped
      ensures forall k :: 0 <= k < |order.fired| ==> order.fired[k] in old(States())
      ensures triggerLog == old(triggerLog) + CallsAt(order.fired, old(States()))
      ensures forall e {:trigger e in old(currentEvents)} :: e in old(currentEvents) ==>
        e.state == (if old(e.state) == Exit then Exit else Stay)
      ensures forall e {:trigger e in currentEvents} :: e in currentEvents ==> e.state == Stay
      ensures Valid()
    {
      order := FireEvent();
    }

    /** The sweep's starting point, recorded before its loop. */
    ghost function StartSweep(): (st: PxSweepStart)
      reads this, events
      requires Valid()
      ensures st.Ready()
    {
      PxSweepStart(currentEvents, Live(), eventPool, triggerLog, States())
    }

    /**
     * The state of _fireEvent's loop at index i, having fired `fired` and
     * dropped `dropped`: the bookkeeping is valid, the lists are where Sweep
     * says, the log holds the calls fired so far, and the events before i are
     * kept ones, now in Stay, while those from i on are as they were.
     */
    ghost predicate Sweeping(i: nat, st: PxSweepStart, fired: seq<PxTriggerEvent>, dropped: seq<PxTriggerEvent>)
      reads this, events
    {
      && Valid() && st.Ready() && st.ListsAt(currentEvents, eventPool, i, fired, dropped)
      && st.LogOf(triggerLog, fired) && SweepMarks(i, st)
    }

    /** The events before i are kept ones, now in Stay; those from i on are in the state they started in. */
    ghost predicate SweepMarks(i: nat, st: PxSweepStart)
      reads this, currentEvents
    {
      && (forall k :: 0 <= k < i <= |currentEvents| ==> currentEvents[k] in st.keep && currentEvents[k].state == Stay)
      && (forall k :: i <= k < |currentEvents| ==>
            currentEvents[k] in st.state && currentEvents[k].state == st.state[currentEvents[k]])
    }

    /**
     * _fireEvent: walks the current events in Sweep's order. An Enter event
     * fires Enter and becomes Stay, a Stay event fires Stay, and an Exit event
     * fires Exit, is deleted by index and is pooled. Each event fires the state
     * it had before the sweep; afterwards every listed event is in Stay.
     */
    method FireEvent() returns (ghost order: Swept<PxTriggerEvent>)
      requires Valid()
      modifies this`currentEvents, this`eventPool, this`triggerLog, events`state
      ensures order == Sweep(old(currentEvents), old(Live()), 0, [], [])
      ensures currentEvents == order.remaining && eventPool == old(eventPool) + order.dropped
      ensures forall k :: 0 <= k < |order.fired| ==> order.fired[k] in old(States())
      ensures triggerLog == old(triggerLog) + CallsAt(order.fired, old(States()))
      ensures forall e {:trigger e in old(currentEvents)} :: e in old(currentEvents) ==>
        e.state == (if old(e.state) == Exit then Exit else Stay)
      ensures forall e {:trigger e in currentEvents} :: e in currentEvents ==> e.state == Stay
      ensures Valid()
    {
      ghost var st := StartSweep();
      ghost var fired: seq<PxTriggerEvent>, dropped: seq<PxTriggerEvent>;
      StartSweeping(this);
      fired, dropped := Walk(st);
      order := Sweep(st.current, st.keep, 0, [], []);
      assert order == Swept(currentEvents, fired, dropped);
      SweepDone(this, st, order);
    }

    /** _fireEvent's loop: from a start of the walk, walks to the end of the list. */
    method Walk(ghost st: PxSweepStart) returns (ghost fired: seq<PxTriggerEvent>, ghost dropped: seq<PxTriggerEvent>)
      requires Sweeping(0, st, [], [])
      modifies this`currentEvents, this`eventPool, this`triggerLog, events`state
      ensures Sweeping(|currentEvents|, st, fired, dropped)
    {
      fired, dropped := [], [];
      var i := 0;
      while i < |currentEvents|
        invariant Sweeping(i, st, fired, dropped)
        decreases |currentEvents| - i
      {
        var event := currentEvents[i];
        if event.state == Enter || event.state == Stay {
          FireAt(i, st, fired, dropped);
          fired := fired + [event];
          i := i + 1;
        } else {
          DropAt(i, st, fired, dropped);
          fired := fired + [event];
          dropped := dropped + [event];
        }
      }
    }

    /** An Enter event fires Enter and becomes Stay; a Stay event fires Stay. */
    method FireAt(i: nat, ghost st: PxSweepStart, ghost fired: seq<PxTriggerEvent>, ghost dropped: seq<PxTriggerEvent>)
      requires Sweeping(i, st, fired, dropped) && i < |currentEvents| && currentEvents[i].state != Exit
      modifies this`triggerLog, {currentEvents[i]}`state
      ensures Sweeping(i + 1, st, fired + [old(currentEvents[i])], dropped)
    {
      var event := currentEvents[i];
      if event.state == Enter {
        triggerLog := triggerLog + [TriggerCall(Enter, event.index1, event.index2)];
        event.state := Stay;
      } else {
        triggerLog := triggerLog + [TriggerCall(Stay, event.index1, event.index2)];
      }
      FireKeepsSweeping(this, i, st, fired, dropped, event);
    }

    /** An Exit event fires Exit, is deleted by index and is pooled. */
    method DropAt(i: nat, ghost st: PxSweepStart, ghost fired: seq<PxTriggerEvent>, ghost dropped: seq<PxTriggerEvent>)
      requires Sweeping(i, st, fired, dropped) && i < |currentEvents| && currentEvents[i].state == Exit
      modifies this`currentEvents, this`eventPool, this`triggerLog
      ensures Sweeping(i, st, fired + [old(currentEvents[i])], dropped + [old(currentEvents[i])])
      ensures |currentEvents| == old(|currentEvents|) - 1
    {
      var event := currentEvents[i];
      triggerLog := triggerLog + [TriggerCall(Exit, event.index1, event.index2)];
      currentEvents := DisorderedArray.DeleteByIndex(currentEvents, i);
      eventPool := eventPool + [event];
      DropKeepsSweeping(this, i, st, fired, dropped, event);
    }
  }

  /** The event a slot holds is a listed one. */
  lemma SlotIsListed(m: PhysXPhysicsManager, a: int, b: int)
    requires m.Valid() && HasSlot(m.eventMap, a, b)
    ensures m.eventMap[a][b] in m.currentEvents && m.eventMap[a][b] in m.events
  {
  }

  /** onTriggerBegin keeps the bookkeeping valid. */
  twostate lemma BeginKeepsValid(new m: PhysXPhysicsManager, new event: PxTriggerEvent, new key: Pair)
    requires old(allocated(m)) && old(m.Valid()) && key.0 in old(m.eventMap)
    requires m.eventMap == old(m.eventMap)[key.0 := old(m.eventMap)[key.0][key.1 := event]]
    requires m.currentEvents == old(m.currentEvents) + [event] && event !in old(m.currentEvents)
    requires old(m.eventPool) == m.eventPool + [event] || (old(m.eventPool) == m.eventPool && event !in old(m.events))
    requires m.events == old(m.events) + {event} && m.slotOf == old(m.slotOf)[event := key]
    requires event.state == Enter
    requires forall e {:trigger e in old(m.events)} :: e in old(m.events) && e != event ==> e.state == old(e.state)
    ensures m.Valid()
  {
    var cur, pool := old(m.currentEvents), old(m.eventPool);
    assert (set e | e in m.currentEvents) == (set e | e in cur) + {event};
    if old(m.eventPool) == m.eventPool + [event] {
      assert (set e | e in pool) == (set e | e in m.eventPool) + {event};
      forall j, k | 0 <= j < k < |m.eventPool| ensures m.eventPool[j] != m.eventPool[k] {
        assert m.eventPool[j] == pool[j] && m.eventPool[k] == pool[k];
      }
      forall e | e in m.eventPool ensures e in pool && e != event {
        var k :| 0 <= k < |m.eventPool| && m.eventPool[k] == e;
        assert pool[k] == e && pool[|pool| - 1] == event;
      }
    }
    forall j, k | 0 <= j < k < |m.currentEvents| ensures m.currentEvents[j] != m.currentEvents[k] {
      if k < |cur| {
        assert m.currentEvents[j] == cur[j] && m.currentEvents[k] == cur[k];
      } else {
        assert m.currentEvents[j] in cur;
      }
    }
    forall e | e in m.eventPool ensures e !in m.currentEvents && e.state == Exit {
      if old(m.eventPool) != m.eventPool {
        var k :| 0 <= k < |m.eventPool| && m.eventPool[k] == e;
        assert pool[k] == e;
      }
      assert e in pool && e != event;
      assert old(e !in m.currentEvents && e.state == Exit && e in m.events);
    }
    forall a, b | HasSlot(m.eventMap, a, b)
      ensures var e := m.eventMap[a][b]; e in m.currentEvents && e.state != Exit && e in m.slotOf && m.slotOf[e] == (a, b)
    {
      if (a, b) != key {
        assert HasSlot(old(m.eventMap), a, b) && m.eventMap[a][b] == old(m.eventMap)[a][b];
        var e := m.eventMap[a][b];
        assert old(e in m.currentEvents && e.state != Exit && e in m.events && e in m.slotOf && m.slotOf[e] == (a, b));
        assert e != event;
      }
    }
  }

  /** onTriggerEnd keeps the bookkeeping valid. */
  twostate lemma EndKeepsValid(new m: PhysXPhysicsManager, new event: PxTriggerEvent, new key: Pair)
    requires old(allocated(m)) && old(m.Valid()) && HasSlot(old(m.eventMap), key.0, key.1)
    requires event == old(m.eventMap)[key.0][key.1]
    requires m.eventMap == old(m.eventMap)[key.0 := old(m.eventMap)[key.0] - {key.1}]
    requires m.currentEvents == old(m.currentEvents) && m.eventPool == old(m.eventPool)
    requires m.events == old(m.events) && m.slotOf == old(m.slotOf)
    requires event.state == Exit
    requires forall e {:trigger e in old(m.events)} :: e in old(m.events) && e != event ==> e.state == old(e.state)
    ensures m.Valid()
  {
    assert HasSlot(old(m.eventMap), key.0, key.1);
    assert event in m.currentEvents && event in m.slotOf && m.slotOf[event] == key;
    forall e | e in m.eventPool ensures e.state == Exit {
      assert old(e !in m.currentEvents && e.state == Exit && e in m.events);
    }
    forall a, b | HasSlot(m.eventMap, a, b)
      ensures var e := m.eventMap[a][b]; e in m.currentEvents && e.state != Exit && e in m.slotOf && m.slotOf[e] == (a, b)
    {
      assert HasSlot(old(m.eventMap), a, b) && m.eventMap[a][b] == old(m.eventMap)[a][b] && (a, b) != key;
      var e := m.eventMap[a][b];
      assert old(e in m.currentEvents && e.state != Exit && e in m.events && e in m.slotOf && m.slotOf[e] == (a, b));
      assert e != event;
    }
  }
  /** Before its first step the walk is at index 0, with nothing fired or dropped. */
  lemma StartSweeping(m: PhysXPhysicsManager)
    requires m.Valid()
    ensures m.Sweeping(0, m.StartSweep(), [], [])
  {
    assert forall e {:trigger e in m.currentEvents} :: e in m.currentEvents ==> e in m.events;
  }

  /** One fire step of _fireEvent's loop keeps the walk's state, one index on. */
  twostate lemma FireKeepsSweeping(new m: PhysXPhysicsManager, i: nat, new st: PxSweepStart,
                                   new fired: seq<PxTriggerEvent>, new dropped: seq<PxTriggerEvent>, new e: PxTriggerEvent)
    requires old(allocated(m)) && old(allocated(st)) && old(allocated(fired)) && old(allocated(dropped)) && old(allocated(e))
    requires old(m.Sweeping(i, st, fired, dropped)) && i < old(|m.currentEvents|)
    requires e == old(m.currentEvents[i]) && old(e.state) != Exit
    requires m.events == old(m.events) && m.currentEvents == old(m.currentEvents) && m.eventPool == old(m.eventPool)
    requires m.eventMap == old(m.eventMap) && m.slotOf == old(m.slotOf)
    requires m.triggerLog == old(m.triggerLog) + [TriggerCall(old(e.state), e.index1, e.index2)]
    requires e.state == Stay
    requires forall x {:trigger x in old(m.events)} :: x in old(m.events) && x != e ==> x.state == old(x.state)
    ensures m.Sweeping(i + 1, st, fired + [e], dropped)
  {
    var cur := old(m.currentEvents);
    assert e in cur && e in st.current;
    KeepStep(st, cur, old(m.eventPool), i, fired, dropped);
    LogStep(st, old(m.triggerLog), fired, e);
    FireKeepsValid(m, e);
    FireKeepsMarks(m, i, st, e);
  }

  /** The fire step keeps the event bookkeeping valid: a listed event not in Exit turns Stay. */
  twostate lemma FireKeepsValid(new m: PhysXPhysicsManager, new e: PxTriggerEvent)
    requires old(allocated(m)) && old(allocated(e))
    requires old(m.Valid()) && e in old(m.currentEvents) && old(e.state) != Exit
    requires m.events == old(m.events) && m.currentEvents == old(m.currentEvents) && m.eventPool == old(m.eventPool)
    requires m.eventMap == old(m.eventMap) && m.slotOf == old(m.slotOf)
    requires e.state == Stay
    requires forall x {:trigger x in old(m.events)} :: x in old(m.events) && x != e ==> x.state == old(x.state)
    ensures m.Valid()
  {
    forall x | x in m.eventPool ensures x.state == Exit {
      assert old(x in m.events && x !in m.currentEvents && x.state == Exit);
    }
    forall a, b | HasSlot(m.eventMap, a, b) ensures m.eventMap[a][b].state != Exit {
      assert old(HasSlot(m.eventMap, a, b));
      assert old(m.eventMap[a][b] in m.events && m.eventMap[a][b].state != Exit);
    }
  }

  /** The fire step of event e at index i leaves the walk's marks one index on. */
  twostate lemma FireKeepsMarks(new m: PhysXPhysicsManager, i: nat, new st: PxSweepStart, new e: PxTriggerEvent)
    requires old(allocated(m)) && old(allocated(st)) && old(allocated(e))
    requires old(m.Valid()) && old(m.SweepMarks(i, st)) && i < old(|m.currentEvents|) && e == old(m.currentEvents[i])
    requires e in st.keep
    requires m.events == old(m.events) && m.currentEvents == old(m.currentEvents)
    requires e.state == Stay
    requires forall x {:trigger x in old(m.events)} :: x in old(m.events) && x != e ==> x.state == old(x.state)
    ensures m.SweepMarks(i + 1, st)
  {
    var cur := old(m.currentEvents);
    forall k | 0 <= k < |cur| ensures cur[k] in old(m.events) && (k != i ==> cur[k] != e) {
      assert cur[k] in cur;
    }
  }

  /** One drop step of _fireEvent's loop keeps the walk's state, at the same index. */
  twostate lemma DropKeepsSweeping(new m: PhysXPhysicsManager, i: nat, new st: PxSweepStart,
                                   new fired: seq<PxTriggerEvent>, new dropped: seq<PxTriggerEvent>, new e: PxTriggerEvent)
    requires old(allocated(m)) && old(allocated(st)) && old(allocated(fired)) && old(allocated(dropped)) && old(allocated(e))
    requires old(m.Sweeping(i, st, fired, dropped)) && i < old(|m.currentEvents|)
    requires e == old(m.currentEvents[i]) && old(e.state) == Exit
    requires m.events == old(m.events) && m.eventMap == old(m.eventMap) && m.slotOf == old(m.slotOf)
    requires m.currentEvents == DisorderedArray.DeleteByIndex(old(m.currentEvents), i)
    requires m.eventPool == old(m.eventPool) + [e]
    requires m.triggerLog == old(m.triggerLog) + [TriggerCall(Exit, e.index1, e.index2)]
    requires forall x {:trigger x in old(m.events)} :: x in old(m.events) ==> x.state == old(x.state)
    ensures m.Sweeping(i, st, fired + [e], dropped + [e])
  {
    var cur := old(m.currentEvents);
    assert e in cur && e in st.current;
    DropStep(st, cur, old(m.eventPool), i, fired, dropped);
    LogStep(st, old(m.triggerLog), fired, e);
    DropKeepsValid(m, i, e);
    DropKeepsMarks(m, i, st, e);
  }

  /** The drop step keeps the event bookkeeping valid: a dropped event is in Exit, so no slot holds it. */
  twostate lemma DropKeepsValid(new m: PhysXPhysicsManager, i: nat, new e: PxTriggerEvent)
    requires old(allocated(m)) && old(allocated(e))
    requires old(m.Valid()) && i < old(|m.currentEvents|) && e == old(m.currentEvents[i]) && old(e.state) == Exit
    requires m.events == old(m.events) && m.eventMap == old(m.eventMap) && m.slotOf == old(m.slotOf)
    requires m.currentEvents == DisorderedArray.DeleteByIndex(old(m.currentEvents), i)
    requires m.eventPool == old(m.eventPool) + [e]
    requires forall x {:trigger x in old(m.events)} :: x in old(m.events) ==> x.state == old(x.state)
    ensures m.Valid()
  {
    var cur, pool := old(m.currentEvents), old(m.eventPool);
    DisorderedArray.DeleteByIndexDistinct(cur, i);
    assert e in cur;
    forall x | x in cur ensures x in old(m.events) && x !in pool {
    }
    forall x | x in m.eventPool ensures x !in m.currentEvents && x.state == Exit {
      if x != e {
        assert x in pool;
        assert old(x in m.events && x.state == Exit);
      }
    }
    forall a, b | HasSlot(m.eventMap, a, b)
      ensures var x := m.eventMap[a][b]; x in m.currentEvents && x.state != Exit
    {
      var x := m.eventMap[a][b];
      assert old(x in m.currentEvents && x.state != Exit && x in m.events);
    }
    assert (set x | x in m.currentEvents) + (set x | x in m.eventPool) == m.events by {
      assert (set x | x in cur) + (set x | x in pool) == m.events;
    }
    assert DisorderedArray.Distinct(m.eventPool) by {
      assert forall k :: 0 <= k < |pool| ==> m.eventPool[k] == pool[k];
    }
  }

  /** The drop step keeps the marks of the walk: the events before i are unmoved, the ones from i on are as they were. */
  twostate lemma DropKeepsMarks(new m: PhysXPhysicsManager, i: nat, new st: PxSweepStart, new e: PxTriggerEvent)
    requires old(allocated(m)) && old(allocated(st)) && old(allocated(e))
    requires old(m.Valid()) && old(m.SweepMarks(i, st)) && i < old(|m.currentEvents|) && e == old(m.currentEvents[i])
    requires m.events == old(m.events)
    requires m.currentEvents == DisorderedArray.DeleteByIndex(old(m.currentEvents), i)
    requires forall x {:trigger x in old(m.events)} :: x in old(m.events) ==> x.state == old(x.state)
    ensures m.SweepMarks(i, st)
  {
    var cur, cur' := old(m.currentEvents), m.currentEvents;
    forall k | 0 <= k < i <= |cur'| ensures cur'[k] == cur[k] && cur[k] in old(m.events) {
      assert cur'[k] == cur'[..i][k];
      assert cur[k] in cur;
    }
    forall k | i <= k < |cur'| ensures exists j :: i < j < |cur| && cur'[k] == cur[j] && cur[j] in old(m.events) {
      var j := if k == i then |cur| - 1 else k;
      if k != i {
        assert cur'[k] == cur'[i + 1..][k - i - 1] == cur[i + 1..|cur| - 1][k - i - 1];
      }
      assert cur[j] in cur;
    }
  }

  /** The call the sweep logs for a recorded event is the one CallsAt gives it. */
  lemma SweptLog(st: PxSweepStart, l: seq<TriggerCall>, fired: seq<PxTriggerEvent>)
    requires st.LogOf(l, fired)
    ensures forall k :: 0 <= k < |fired| ==> fired[k] in st.state
    ensures l == st.log + CallsAt(fired, st.state)
  {
    var calls := CallsAt(fired, st.state);
    var n := |st.log|;
    assert |l| == |st.log + calls|;
    forall k | 0 <= k < |l| ensures l[k] == (st.log + calls)[k] {
      if k < n {
        assert l[k] == l[..n][k] == st.log[k];
      } else {
        LogAt(st, l, fired, k - n);
      }
    }
  }

  /** What the walk's end says about the lists, the log and the events, in terms of the state before it. */
  twostate lemma SweepDone(new m: PhysXPhysicsManager, new st: PxSweepStart, order: Swept<PxTriggerEvent>)
    requires old(allocated(m)) && old(allocated(st))
    requires old(m.Valid()) && st == old(m.StartSweep()) && order == Sweep(st.current, st.keep, 0, [], [])
    requires m.Sweeping(|m.currentEvents|, st, order.fired, order.dropped)
    ensures m.currentEvents == order.remaining && m.eventPool == old(m.eventPool) + order.dropped
    ensures forall k :: 0 <= k < |order.fired| ==> order.fired[k] in old(m.States())
    ensures m.triggerLog == old(m.triggerLog) + CallsAt(order.fired, old(m.States()))
    ensures forall e {:trigger e in old(m.currentEvents)} :: e in old(m.currentEvents) ==>
      e.state == (if old(e.state) == Exit then Exit else Stay)
    ensures forall e {:trigger e in m.currentEvents} :: e in m.currentEvents ==> e.state == Stay
  {
    assert order == Swept(m.currentEvents, order.fired, order.dropped);
    SweptLog(st, m.triggerLog, order.fired);
    forall e | e in old(m.currentEvents) ensures e.state == (if old(e.state) == Exit then Exit else Stay) {
      SweepMember(st.current, st.keep, e);
      if e in st.keep {
        var k :| 0 <= k < |m.currentEvents| && m.currentEvents[k] == e;
      } else {
        assert e in m.eventPool;
      }
    }
    forall e | e in m.currentEvents ensures e.state == Stay {
      var k :| 0 <= k < |m.currentEvents| && m.currentEvents[k] == e;
    }
  }
}
