/**
 * LitePhysicsManager: the lite engine's collection of colliders, its
 * per-frame trigger detection and its raycast.
 *
 * Trigger events live in three places at once, as in the engine: the list of
 * current events (a DisorderedArray), a two-level map from the lower shape id
 * and the higher shape id to the event, and a pool of spent events for reuse.
 * The callbacks onTriggerEnter, onTriggerStay and onTriggerExit are modelled
 * as entries appended to `triggerLog`.
 */
module LitePhysics {
  import opened Geometry
  import opened Outcomes
  import opened TriggerStateMachine
  import opened LiteHitResults
  import opened LiteColliders
  import opened LitePairs
  import DisorderedArray
  import opened EventSweep
  import opened LiteRaycast
  import opened JsArray

  /** TriggerEvent: one pair's record, reused through the pool. */
  class TriggerEvent {
    var state: TriggerEventState
    const index1: int
    const index2: int
    var needUpdate: bool

    /** A new event carries the ids it was created for; its state is not set. */
    constructor (i1: int, i2: int)
      ensures index1 == i1 && index2 == i2 && !needUpdate
    {
      index1 := i1;
      index2 := i2;
      needUpdate := false;
    }

    function Labels(): Pair {
      (index1, index2)
    }

    /**
     * The callback _fireEvent makes for this event: Exit when the event was
     * not confirmed since the last sweep, its own state otherwise.
     */
    function Fired(): (c: TriggerCall)
      reads this
      ensures c.index1 == index1 && c.index2 == index2
      ensures needUpdate ==> c.state == Exit
      ensures !needUpdate ==> c.state == state
    {
      TriggerCall(if needUpdate then Exit else state, index1, index2)
    }
  }

  type EventMap = map<int, map<int, TriggerEvent>>

  /** The map has a slot for the pair (a, b). */
  predicate HasSlot(m: EventMap, a: int, b: int) {
    a in m && b in m[a]
  }

  /** The pairs the map has slots for. */
  ghost function Slots(m: EventMap): set<Pair> {
    set a, b | a in m && b in m[a] :: (a, b)
  }

  /** The events the map's slots hold. */
  ghost function SlotEvents(m: EventMap): set<TriggerEvent> {
    set a, b | a in m && b in m[a] :: m[a][b]
  }

  /** The callbacks a list of events makes when each fires its carried call, in list order. */
  ghost function CallsOf(es: seq<TriggerEvent>): (r: seq<TriggerCall>)
    reads set e | e in es
    ensures |r| == |es|
    ensures forall k :: 0 <= k < |es| ==> r[k] == es[k].Fired()
  {
    if es == [] then [] else CallsOf(es[..|es| - 1]) + [es[|es| - 1].Fired()]
  }

  /** The ids the events were created with. */
  function LabelsOf(es: seq<TriggerEvent>): set<Pair> {
    set e | e in es :: e.Labels()
  }

  /**
   * The map after `_eventMap[a][b] = undefined` for each pair (a, b) of qs
   * whose first id has an entry: those slots read as empty, every first-level
   * entry and every other slot stays.
   */
  function ClearSlots(m: EventMap, qs: set<Pair>): (r: EventMap)
    ensures r.Keys == m.Keys
    ensures forall a, b {:trigger HasSlot(r, a, b)} :: HasSlot(r, a, b) <==> HasSlot(m, a, b) && (a, b) !in qs
    ensures forall a, b {:trigger HasSlot(r, a, b)} :: HasSlot(r, a, b) ==> HasSlot(m, a, b) && r[a][b] == m[a][b]
  {
    map a | a in m :: map b | b in m[a] && (a, b) !in qs :: m[a][b]
  }

  /** The map after `_eventMap[id] = {}`: the shape's row is created or emptied, every other slot stays. */
  function ResetRow(m: EventMap, id: int): (r: EventMap)
    ensures r.Keys == m.Keys + {id} && r[id] == map[]
    ensures forall a, b {:trigger HasSlot(r, a, b)} :: HasSlot(r, a, b) <==> HasSlot(m, a, b) && a != id
    ensures forall a, b {:trigger HasSlot(r, a, b)} :: HasSlot(r, a, b) ==> HasSlot(m, a, b) && r[a][b] == m[a][b]
  {
    m[id := map[]]
  }

  /** The map after `delete _eventMap[id]`: the shape's row is gone, every other slot stays. */
  function DropRow(m: EventMap, id: int): (r: EventMap)
    ensures r.Keys == m.Keys - {id}
    ensures forall a, b {:trigger HasSlot(r, a, b)} :: HasSlot(r, a, b) <==> HasSlot(m, a, b) && a != id
    ensures forall a, b {:trigger HasSlot(r, a, b)} :: HasSlot(r, a, b) ==> HasSlot(m, a, b) && r[a][b] == m[a][b]
  {
    m - {id}
  }

  /** Clearing no pair leaves the map as it was. */
  lemma ClearSlotsNone(m: EventMap)
    ensures ClearSlots(m, {}) == m
  {
    var c := ClearSlots(m, {});
    forall a | a in c ensures c[a] == m[a] {
      forall b ensures b in c[a] <==> b in m[a] {
        assert HasSlot(c, a, b) <==> HasSlot(m, a, b);
      }
      forall b | b in c[a] ensures c[a][b] == m[a][b] {
        assert HasSlot(c, a, b);
      }
    }
  }

  /** Clearing one more pair is one more `_eventMap[a][b] = undefined`. */
  lemma ClearSlotsStep(m: EventMap, qs: set<Pair>, q: Pair)
    requires q.0 in m
    ensures ClearSlots(m, qs + {q}) == ClearSlots(m, qs)[q.0 := ClearSlots(m, qs)[q.0] - {q.1}]
  {
    var r := ClearSlots(m, qs);
    var r' := r[q.0 := r[q.0] - {q.1}];
    var c := ClearSlots(m, qs + {q});
    forall a | a in c ensures c[a] == r'[a] {
      forall b ensures b in c[a] <==> b in r'[a] {
        assert HasSlot(c, a, b) <==> HasSlot(m, a, b) && (a, b) !in qs + {q};
        assert HasSlot(r, a, b) <==> HasSlot(m, a, b) && (a, b) !in qs;
      }
      forall b | b in c[a] ensures c[a][b] == r'[a][b] {
        assert HasSlot(c, a, b) && HasSlot(r, a, b);
      }
    }
  }

  /**
   * A list of events and a map agree: each listed event sits in the slot of
   * its own ids, and each slot holds a listed event carrying that slot's ids.
   */
  ghost predicate Agree(cur: seq<TriggerEvent>, m: EventMap) {
    && (forall e {:trigger e in cur} :: e in cur ==> HasSlot(m, e.index1, e.index2) && m[e.index1][e.index2] == e)
    && (forall a, b {:trigger HasSlot(m, a, b)} :: HasSlot(m, a, b) ==> m[a][b] in cur && m[a][b].Labels() == (a, b))
  }

  /** The listed events whose ids are among the pairs K. */
  ghost function KeepOf(cur: seq<TriggerEvent>, K: set<Pair>): set<TriggerEvent> {
    set e | e in cur && e.Labels() in K
  }

  /** The callbacks the step from live with K confirmed makes for the pairs of the events es, in list order. */
  function StepCalls(live: map<Pair, TriggerEventState>, K: set<Pair>, es: seq<TriggerEvent>): seq<TriggerCall> {
    seq(|es|, k requires 0 <= k < |es| => StepCall(live, K, es[k].Labels()))
  }

  /**
   * Sweeping a list that agrees with its map, keeping exactly the events of
   * the pairs K (all of which have slots), leaves a list that agrees with the
   * cleared map, whose slots are exactly K.
   */
  lemma SweepAgrees(cur: seq<TriggerEvent>, m: EventMap, live: map<Pair, TriggerEventState>, K: set<Pair>)
    requires Agree(cur, m) && Slots(m) == live.Keys + K
    ensures var order := Sweep(cur, KeepOf(cur, K), 0, [], []);
      var m' := ClearSlots(m, LabelsOf(order.dropped));
      Agree(order.remaining, m') && Slots(m') == K
  {
    var keep := KeepOf(cur, K);
    var order := Sweep(cur, keep, 0, [], []);
    var gone := LabelsOf(order.dropped);
    var m' := ClearSlots(m, gone);
    forall p | p in gone ensures p !in K {
      var d :| d in order.dropped && d.Labels() == p;
      SweepMember(cur, keep, d);
    }
    forall e | e in order.remaining ensures HasSlot(m', e.index1, e.index2) && m'[e.index1][e.index2] == e {
      SweepMember(cur, keep, e);
    }
    forall a, b | HasSlot(m', a, b) ensures m'[a][b] in order.remaining && m'[a][b].Labels() == (a, b) && (a, b) in K {
      var x := m[a][b];
      SweepMember(cur, keep, x);
    }
    forall p | p in K ensures p in Slots(m') {
      assert p in Slots(m);
      var x := m[p.0][p.1];
      assert x in cur && x.Labels() == p;
      assert HasSlot(m', p.0, p.1);
    }
    forall p | p in Slots(m') ensures p in K {
      assert HasSlot(m', p.0, p.1);
    }
  }

  /**
   * When a list agrees with its map and the slots are the pairs live before
   * a step and confirmed in it, the step's callbacks for any rearrangement of
   * the list are the step's callbacks, each exactly once.
   */
  lemma StepCallsSet(cur: seq<TriggerEvent>, m: EventMap, live: map<Pair, TriggerEventState>, K: set<Pair>,
                     fired: seq<TriggerEvent>)
    requires Agree(cur, m) && Slots(m) == live.Keys + K
    requires multiset(fired) == multiset(cur) && DisorderedArray.Distinct(cur)
    ensures (set c | c in StepCalls(live, K, fired)) == Fires(live, K)
    ensures DisorderedArray.Distinct(StepCalls(live, K, fired))
  {
    var calls := StepCalls(live, K, fired);
    forall x ensures x in fired <==> x in cur {
      assert x in multiset(fired) <==> x in multiset(cur);
    }
    DisorderedArray.PermutationDistinct(fired, cur);
    forall c | c in calls ensures c in Fires(live, K) {
      var k :| 0 <= k < |calls| && calls[k] == c;
      assert fired[k] in fired;
      var p := fired[k].Labels();
      assert HasSlot(m, p.0, p.1);
    }
    forall c | c in Fires(live, K) ensures c in calls {
      var p :| p in live.Keys + K && c == StepCall(live, K, p);
      assert HasSlot(m, p.0, p.1);
      var x := m[p.0][p.1];
      assert x in fired;
      var k :| 0 <= k < |fired| && fired[k] == x;
      assert calls[k] == c;
    }
    forall j, k | 0 <= j < k < |calls| ensures calls[j] != calls[k] {
      assert fired[j] in fired && fired[k] in fired;
    }
  }

  /** Where a pair stands in the middle of a step: after detection, before the sweep. */
  function MidState(live: map<Pair, TriggerEventState>, confirmed: set<Pair>, p: Pair): TriggerEventState {
    if p in confirmed then (if p in live then Stay else Enter)
    else if p in live then live[p] else Exit
  }

  /**
   * What _fireEvent starts from: the current events, the confirmed ones among
   * them, the map, the pool, the log, and each event's state and flag.
   */
  datatype SweepStart = SweepStart(
    current: seq<TriggerEvent>, keep: set<TriggerEvent>, eventMap: EventMap, pool: seq<TriggerEvent>,
    log: seq<TriggerCall>, state: map<TriggerEvent, TriggerEventState>, need: map<TriggerEvent, bool>)
  {
    /**
     * The recorded state is complete and safe to sweep: every listed and
     * pooled event has a recorded state and flag, the confirmed events are the
     * listed ones not waiting, and every waiting event's first id has an entry.
     */
    ghost predicate Ready() {
      && (forall e {:trigger e in current} :: e in current ==>
            e in state && e in need && (need[e] ==> e.index1 in eventMap) && (e in keep <==> !need[e]))
      && (forall e {:trigger e in pool} :: e in pool ==> e in state && e in need)
      && (forall e {:trigger e in keep} :: e in keep ==> e in current)
    }

    /** The call an event makes in the sweep: Exit when it was waiting, its state otherwise. */
    function Call(e: TriggerEvent): TriggerCall
      requires e in state && e in need
    {
      TriggerCall(if need[e] then Exit else state[e], e.index1, e.index2)
    }

    /**
     * A walk that has reached index i of cur, having fired `fired` and dropped
     * `dropped`, with pool and map m: the rest of it is the rest of the whole
     * sweep, the pool and map are the starting ones with what was dropped
     * added and cleared, and every listed event was listed at the start.
     */
    ghost predicate ListsAt(cur: seq<TriggerEvent>, pool: seq<TriggerEvent>, m: EventMap, i: nat,
                            fired: seq<TriggerEvent>, dropped: seq<TriggerEvent>)
    {
      && i <= |cur|
      && Sweep(cur, keep, i, fired, dropped) == Sweep(current, keep, 0, [], [])
      && pool == this.pool + dropped
      && m == ClearSlots(eventMap, LabelsOf(dropped))
      && (forall e {:trigger e in cur} :: e in cur ==> e in current)
    }

    /** The log is the starting one followed by the call of each fired event, in firing order. */
    ghost predicate LogOf(l: seq<TriggerCall>, fired: seq<TriggerEvent>) {
      && |l| == |log| + |fired| && l[..|log|] == log
      && (forall k :: 0 <= k < |fired| ==> fired[k] in state && fired[k] in need && l[|log| + k] == Call(fired[k]))
    }
  }

  /** Firing a confirmed event moves the walk one index on and leaves the lists as they are. */
  lemma KeepStep(st: SweepStart, cur: seq<TriggerEvent>, pool: seq<TriggerEvent>, m: EventMap, i: nat,
                 fired: seq<TriggerEvent>, dropped: seq<TriggerEvent>)
    requires st.ListsAt(cur, pool, m, i, fired, dropped) && i < |cur| && cur[i] in st.keep
    ensures st.ListsAt(cur, pool, m, i + 1, fired + [cur[i]], dropped)
  {
  }

  /**
   * Dropping the event at index i deletes it by index, pools it and clears its
   * slot, and the walk stays at i.
   */
  lemma DropStep(st: SweepStart, cur: seq<TriggerEvent>, pool: seq<TriggerEvent>, m: EventMap, i: nat,
                 fired: seq<TriggerEvent>, dropped: seq<TriggerEvent>)
    requires st.ListsAt(cur, pool, m, i, fired, dropped) && i < |cur| && cur[i] !in st.keep
    requires cur[i].index1 in st.eventMap
    ensures var e := cur[i];
      st.ListsAt(DisorderedArray.DeleteByIndex(cur, i), pool + [e], m[e.index1 := m[e.index1] - {e.index2}], i,
                 fired + [e], dropped + [e])
  {
    var e := cur[i];
    assert LabelsOf(dropped + [e]) == LabelsOf(dropped) + {e.Labels()} by {
      assert forall x {:trigger x in dropped + [e]} :: x in dropped + [e] <==> x in dropped || x == e;
    }
    ClearSlotsStep(st.eventMap, LabelsOf(dropped), e.Labels());
    DisorderedArray.DeleteByIndexWithin(cur, i);
    assert Sweep(DisorderedArray.DeleteByIndex(cur, i), st.keep, i, fired + [e], dropped + [e])
      == Sweep(cur, st.keep, i, fired, dropped);
    assert pool + [e] == st.pool + (dropped + [e]);
  }

  /** The call logged for the k-th fired event. */
  lemma LogAt(st: SweepStart, l: seq<TriggerCall>, fired: seq<TriggerEvent>, k: nat)
    requires st.LogOf(l, fired) && k < |fired|
    ensures fired[k] in st.state && fired[k] in st.need && l[|st.log| + k] == st.Call(fired[k])
  {
  }

  /** Logging the call of the next fired event extends the log in firing order. */
  lemma LogStep(st: SweepStart, l: seq<TriggerCall>, fired: seq<TriggerEvent>, e: TriggerEvent)
    requires st.LogOf(l, fired) && e in st.state && e in st.need
    ensures st.LogOf(l + [st.Call(e)], fired + [e])
  {
    var l' := l + [st.Call(e)];
    var f' := fired + [e];
    assert l'[..|st.log|] == l[..|st.log|];
    forall k | 0 <= k < |f'| ensures f'[k] in st.state && f'[k] in st.need && l'[|st.log| + k] == st.Call(f'[k]) {
      if k < |fired| {
        assert f'[k] == fired[k];
      }
    }
  }

  class LitePhysicsManager {
    var colliders: seq<LiteCollider>
    var currentEvents: seq<TriggerEvent>
    var eventMap: EventMap
    var eventPool: seq<TriggerEvent>
    /** The trigger callbacks made so far, in order. */
    var triggerLog: seq<TriggerCall>
    /** Every event ever created: the current ones and the pooled ones. */
    ghost var events: set<TriggerEvent>
    /** The two static hit records raycast works with. */
    const currentHit: LiteHitResult
    const hitResult: LiteHitResult

    /**
     * The event bookkeeping: every event is either current or pooled, never
     * both and never twice; current events are never in Exit, pooled ones always
     * are; the map only holds events that exist.
     */
    ghost predicate Valid()
      reads this`currentEvents, this`eventPool, this`eventMap, this`events, events`state
    {
      && (set e | e in currentEvents) + (set e | e in eventPool) == events
      && DisorderedArray.Distinct(currentEvents)
      && DisorderedArray.Distinct(eventPool)
      && (forall e {:trigger e in currentEvents} :: e in currentEvents ==> e !in eventPool && e.state != Exit)
      && (forall e {:trigger e in eventPool} :: e in eventPool ==> e.state == Exit)
      && (forall a, b {:trigger HasSlot(eventMap, a, b)} :: HasSlot(eventMap, a, b) ==> eventMap[a][b] in events)
      && currentHit != hitResult
    }

    /** Between frames every current event waits to be confirmed again. */
    ghost predicate Settled()
      reads this`currentEvents, currentEvents`needUpdate
    {
      forall e {:trigger e in currentEvents} :: e in currentEvents ==> e.needUpdate
    }

    /** The sweep can clear every event it may drop: its first id has a map entry. */
    ghost predicate SweepSafe()
      reads this`currentEvents, this`eventMap, currentEvents`needUpdate
    {
      forall e {:trigger e in currentEvents} :: e in currentEvents ==> !e.needUpdate || e.index1 in eventMap
    }

    /** The live pairs as the map records them, with their states. */
    ghost function LiveView(): (live: map<Pair, TriggerEventState>)
      reads this`eventMap, SlotEvents(eventMap)`state
      ensures live.Keys == Slots(eventMap)
    {
      map p | p in Slots(eventMap) :: eventMap[p.0][p.1].state
    }

    /**
     * The map and the list agree: each current event sits in the slot of its
     * own ids, and each slot holds a current event carrying that slot's ids.
     */
    ghost predicate Consistent()
      reads this`currentEvents, this`eventMap
    {
      Agree(currentEvents, eventMap)
    }

    /**
     * Detection so far has confirmed the pairs K of a step that started from
     * the live pairs live0: the slots are live0's and K's, exactly the pairs in
     * K are marked confirmed, and each state is the one MidState gives.
     */
    ghost predicate Marked(live0: map<Pair, TriggerEventState>, K: set<Pair>)
      reads this`currentEvents, this`eventMap, SlotEvents(eventMap)
    {
      && Consistent()
      && Slots(eventMap) == live0.Keys + K
      && (forall a, b {:trigger HasSlot(eventMap, a, b)} :: HasSlot(eventMap, a, b) ==>
            eventMap[a][b].needUpdate == ((a, b) !in K) && eventMap[a][b].state == MidState(live0, K, (a, b)))
    }

    /** Every tracked shape has a first-level map entry (the lookups would throw otherwise). */
    ghost predicate Registered()
      reads this`colliders, this`eventMap, (set c | c in colliders)`shapes, ShapesOf(colliders)`id
    {
      forall s {:trigger s in ShapesOf(colliders)} :: s in ShapesOf(colliders) ==> s.id in eventMap
    }

    /** Every overlapping pair of tracked shapes is already live. */
    ghost predicate NoNewPairs(overlaps: Overlap)
      reads this`colliders, this`eventMap, (set c | c in colliders)`shapes, ShapesOf(colliders)`id
    {
      forall m, s {:trigger s in ShapesOf(colliders), m in ShapesOf(colliders)} ::
        m in ShapesOf(colliders) && s in ShapesOf(colliders) && s != m && overlaps(s, m) ==>
        PairKey(s.id, m.id) in Slots(eventMap)
    }

    /** The pairs one update confirms. */
    ghost function ConfirmedPairs(overlaps: Overlap): set<Pair>
      reads this`colliders, (set c | c in colliders)`shapes, ShapesOf(colliders)`id
    {
      var rows := RowsOf(colliders);
      var ids := IdsOf(colliders);
      RowsOfMembers(colliders);
      CollidersPairs({}, rows, |rows|, rows, ids, overlaps)
    }

    constructor ()
      ensures colliders == [] && currentEvents == [] && eventMap == map[] && eventPool == [] && triggerLog == []
      ensures Valid() && Settled() && Consistent() && LiveView() == map[]
    {
      colliders := [];
      currentEvents := [];
      eventMap := map[];
      eventPool := [];
      triggerLog := [];
      events := {};
      currentHit := new LiteHitResult();
      hitResult := new LiteHitResult();
    }

    /** setGravity: the lite engine has no gravity and throws. */
    method SetGravity(value: Vector3) returns (o: Outcome)
      ensures o.Fail?
    {
      o := Fail("Physics-lite don't support gravity. Use Physics-PhysX instead!");
    }

    /**
     * addColliderShape: gives the shape's id an empty row of events. A row the
     * id already had is dropped with the events in it.
     */
    method AddColliderShape(shape: LiteColliderShape)
      modifies this`eventMap
      ensures eventMap == ResetRow(old(eventMap), shape.id)
      ensures old(Valid()) ==> Valid()
    {
      eventMap := eventMap[shape.id := map[]];
    }

    /** removeColliderShape: deletes the shape's row of events. */
    method RemoveColliderShape(shape: LiteColliderShape)
      modifies this`eventMap
      ensures eventMap == DropRow(old(eventMap), shape.id)
      ensures old(Valid()) ==> Valid()
    {
      eventMap := eventMap - {shape.id};
    }

    /** addCollider: appends the collider to the list. */
    method AddCollider(collider: LiteCollider)
      modifies this`colliders
      ensures colliders == old(colliders) + [collider]
    {
      colliders := colliders + [collider];
    }

    /** removeCollider: splices out the collider's first occurrence; an absent collider changes nothing. */
    method RemoveCollider(collider: LiteCollider)
      modifies this`colliders
      ensures colliders == Removed(old(colliders), collider)
      ensures multiset(colliders) == multiset(old(colliders)) - multiset{collider}
    {
      var index := IndexOf(colliders, collider);
      if index != -1 {
        colliders := RemoveAt(colliders, index);
      }
      RemovedCount(old(colliders), collider);
    }

    /**
     * _getTrigger: pops the pool's last event, or creates one with the given
     * ids when the pool is empty, and stores it in slot (index1, index2). A
     * pooled event keeps the ids it was created with.
     */
    method GetTrigger(index1: int, index2: int) returns (event: TriggerEvent)
      requires index1 in eventMap
      modifies this`eventMap, this`eventPool, this`events
      ensures eventMap == old(eventMap)[index1 := old(eventMap)[index1][index2 := event]]
      ensures old(eventPool) == [] ==>
        && fresh(event) && event.Labels() == (index1, index2) && !event.needUpdate
        && eventPool == [] && events == old(events) + {event}
      ensures old(eventPool) != [] ==>
        && event == old(eventPool)[|old(eventPool)| - 1]
        && eventPool == old(eventPool)[..|old(eventPool)| - 1]
        && events == old(events)
    {
      if |eventPool| > 0 {
        event := eventPool[|eventPool| - 1];
        eventPool := eventPool[..|eventPool| - 1];
      } else {
        event := new TriggerEvent(index1, index2);
        events := events + {event};
      }
      eventMap := eventMap[index1 := eventMap[index1][index2 := event]];
    }
    /**
     * The state detection keeps: the bookkeeping is valid, the first-level
     * keys stay keys0, and, when detection began from a consistent map
     * (`exact`), the map is Marked with the pairs K confirmed so far. A pooled
     * event can only be needed for a new pair, so `exact` also asks for an
     * empty pool or for no new pairs (`noNew`).
     */
    ghost predicate Detecting(keys0: set<int>, live0: map<Pair, TriggerEventState>, K: set<Pair>, exact: bool, noNew: bool)
      reads this, events, currentEvents, SlotEvents(eventMap)
    {
      && Valid() && SweepSafe() && eventMap.Keys == keys0
      && (exact ==> Marked(live0, K) && (eventPool == [] || noNew))
    }

    /**
     * One step of the innermost detection loop: myShape against shape. A
     * pair already confirmed this frame is skipped; otherwise, when the shapes
     * differ and overlap, a missing event is taken from _getTrigger in Enter, an
     * Enter event moves to Stay and a Stay event is confirmed. The pairs
     * confirmed so far grow by the pair this step confirms.
     */
    method Encounter(shape: LiteColliderShape, myShape: LiteColliderShape, ghost ids: IdMap, overlaps: Overlap,
                     ghost keys0: set<int>, ghost K: set<Pair>, ghost live0: map<Pair, TriggerEventState>,
                     ghost exact: bool, ghost noNew: bool)
      returns (ghost K': set<Pair>)
      requires Detecting(keys0, live0, K, exact, noNew)
      requires shape in ids && myShape in ids && IdsCurrent(ids) && ids.Values <= keys0
      requires noNew && shape != myShape && overlaps(shape, myShape) ==> PairKey(ids[shape], ids[myShape]) in live0
      modifies this`eventMap, this`eventPool, this`currentEvents, this`events, events`state, events`needUpdate
      ensures Detecting(keys0, live0, K', exact, noNew)
      ensures fresh(events - old(events))
      ensures K' == K + Hit(myShape, shape, ids, overlaps)
    {
      assert ids[shape] == shape.id && ids[myShape] == myShape.id;
      assert ids[shape] in ids.Values && ids[myShape] in ids.Values;
      var key := PairKey(shape.id, myShape.id);
      ghost var hit := if shape != myShape && overlaps(shape, myShape) then {key} else {};
      assert Hit(myShape, shape, ids, overlaps) == hit;
      K' := K + hit;
      var inner := eventMap[key.0];
      if key.1 in inner && !inner[key.1].needUpdate {
        assert HasSlot(eventMap, key.0, key.1);
        assert exact ==> key in K && K' == K;
        return;
      }
      if shape != myShape && overlaps(shape, myShape) {
        if key.1 !in inner {
          var event := StartEvent(key.0, key.1);
          if exact {
            StartKeepsMarked(this, event, key, live0, K);
          }
        } else {
          var event := inner[key.1];
          assert HasSlot(eventMap, key.0, key.1);
          ConfirmEvent(event);
          if exact {
            ConfirmKeepsMarked(this, event, key, live0, K);
          }
        }
      }
    }

    /** The new-pair branch: an event from _getTrigger, in Enter and confirmed, added to the current list. */
    method StartEvent(index1: int, index2: int) returns (event: TriggerEvent)
      requires Valid() && SweepSafe()
      requires index1 in eventMap
      modifies this`eventMap, this`eventPool, this`currentEvents, this`events, events`state, events`needUpdate
      ensures Valid() && SweepSafe()
      ensures fresh(events - old(events))
      ensures eventMap == old(eventMap)[index1 := old(eventMap)[index1][index2 := event]]
      ensures currentEvents == old(currentEvents) + [event]
      ensures event.state == Enter && !event.needUpdate
      ensures event !in old(currentEvents)
      ensures forall e {:trigger e in old(currentEvents)} :: e in old(currentEvents) ==> e.state == old(e.state) && e.needUpdate == old(e.needUpdate)
      ensures old(eventPool) == [] ==> event.Labels() == (index1, index2) && eventPool == []
      ensures old(eventPool) != [] ==> eventPool == old(eventPool)[..|old(eventPool)| - 1]
    {
      event := GetTrigger(index1, index2);
      event.state := Enter;
      event.needUpdate := false;
      currentEvents := DisorderedArray.Add(currentEvents, event);
      StartKeepsValid(this, event, (index1, index2));
    }

    /** The known-pair branch: Enter moves to Stay, Stay is confirmed, anything else is left alone. */
    method ConfirmEvent(event: TriggerEvent)
      requires Valid() && SweepSafe()
      requires event in events
      modifies event`state, event`needUpdate
      ensures Valid() && SweepSafe()
      ensures old(event.state) == Enter ==> event.state == Stay && !event.needUpdate
      ensures old(event.state) == Stay ==> event.state == Stay && !event.needUpdate
      ensures old(event.state) == Exit ==> event.state == Exit && event.needUpdate == old(event.needUpdate)
    {
      if event.state == Enter {
        event.state := Stay;
        event.needUpdate := false;
      } else if event.state == Stay {
        event.needUpdate := false;
      }
    }

    /** The innermost loop of _collisionDetection: myShape against each shape of one collider, in order. */
    method DetectAgainst(myShape: LiteColliderShape, shapes: seq<LiteColliderShape>, ghost ids: IdMap, overlaps: Overlap,
                         ghost keys0: set<int>, ghost K: set<Pair>, ghost live0: map<Pair, TriggerEventState>,
                         ghost exact: bool, ghost noNew: bool)
      returns (ghost K': set<Pair>)
      requires Detecting(keys0, live0, K, exact, noNew)
      requires myShape in ids && IdsCurrent(ids) && ids.Values <= keys0
      requires forall s {:trigger s in shapes} :: s in shapes ==> s in ids
      requires noNew ==> forall s {:trigger s in shapes} :: s in shapes && s != myShape && overlaps(s, myShape) ==>
        PairKey(ids[s], ids[myShape]) in live0
      modifies this`eventMap, this`eventPool, this`currentEvents, this`events, events`state, events`needUpdate
      ensures Detecting(keys0, live0, K', exact, noNew)
      ensures fresh(events - old(events))
      ensures K' == PairsWith(K, myShape, shapes, |shapes|, ids, overlaps)
    {
      K' := K;
      var k := 0;
      while k < |shapes|
        invariant 0 <= k <= |shapes|
        invariant Detecting(keys0, live0, K', exact, noNew)
        invariant fresh(events - old(events))
        invariant K' == PairsWith(K, myShape, shapes, k, ids, overlaps)
      {
        assert shapes[k] in shapes;
        PairsWithStep(K, myShape, shapes, k, ids, overlaps);
        K' := Encounter(shapes[k], myShape, ids, overlaps, keys0, K', live0, exact, noNew);
        k := k + 1;
      }
    }

    /** rows holds the shape lists of the tracked colliders, in order. */
    ghost predicate Scene(rows: Rows)
      reads this`colliders, (set c | c in colliders)`shapes
    {
      && |rows| == |colliders|
      && forall j {:trigger rows[j]} :: 0 <= j < |rows| ==> rows[j] == colliders[j].shapes
    }

    /** The two inner loops of _collisionDetection: myShape against every shape of every tracked collider. */
    method DetectShape(myShape: LiteColliderShape, ghost rows: Rows, ghost ids: IdMap, overlaps: Overlap,
                       ghost keys0: set<int>, ghost K: set<Pair>, ghost live0: map<Pair, TriggerEventState>,
                       ghost exact: bool, ghost noNew: bool)
      returns (ghost K': set<Pair>)
      requires Detecting(keys0, live0, K, exact, noNew)
      requires Scene(rows) && Covers(ids, rows) && myShape in ids && IdsCurrent(ids) && ids.Values <= keys0
      requires noNew ==> forall s {:trigger s in Members(rows)} :: s in Members(rows) && s != myShape && overlaps(s, myShape) ==>
        PairKey(ids[s], ids[myShape]) in live0
      modifies this`eventMap, this`eventPool, this`currentEvents, this`events, events`state, events`needUpdate
      ensures Detecting(keys0, live0, K', exact, noNew)
      ensures fresh(events - old(events))
      ensures K' == PairsWithAll(K, myShape, rows, |rows|, ids, overlaps)
    {
      K' := K;
      var j := 0;
      while j < |colliders|
        invariant 0 <= j <= |colliders| == |rows|
        invariant Detecting(keys0, live0, K', exact, noNew)
        invariant fresh(events - old(events))
        invariant K' == PairsWithAll(K, myShape, rows, j, ids, overlaps)
      {
        var shapes := colliders[j].shapes;
        assert shapes == rows[j] && shapes in rows by {
          assert old(colliders[j].shapes) == rows[j];
        }
        assert forall s {:trigger s in shapes} :: s in shapes ==> s in Members(rows);
        PairsWithAllStep(K, myShape, rows, j, ids, overlaps);
        K' := DetectAgainst(myShape, shapes, ids, overlaps, keys0, K', live0, exact, noNew);
        j := j + 1;
      }
    }

    /**
     * _collisionDetection for one collider: each of its shapes against every
     * shape of every tracked collider. The box and sphere branches of the
     * engine differ only in the overlap test, which `overlaps` stands for.
     */
    method CollisionDetection(myShapes: seq<LiteColliderShape>, ghost rows: Rows, ghost ids: IdMap, overlaps: Overlap,
                              ghost keys0: set<int>, ghost K: set<Pair>, ghost live0: map<Pair, TriggerEventState>,
                              ghost exact: bool, ghost noNew: bool)
      returns (ghost K': set<Pair>)
      requires Detecting(keys0, live0, K, exact, noNew)
      requires Scene(rows) && Covers(ids, rows) && myShapes in rows && IdsCurrent(ids) && ids.Values <= keys0
      requires noNew ==> forall m, s {:trigger s in Members(rows), m in myShapes} ::
        m in myShapes && s in Members(rows) && s != m && overlaps(s, m) ==> PairKey(ids[s], ids[m]) in live0
      modifies this`eventMap, this`eventPool, this`currentEvents, this`events, events`state, events`needUpdate
      ensures Detecting(keys0, live0, K', exact, noNew)
      ensures fresh(events - old(events))
      ensures K' == ShapesPairs(K, myShapes, |myShapes|, rows, ids, overlaps)
    {
      K' := K;
      var i := 0;
      while i < |myShapes|
        invariant 0 <= i <= |myShapes|
        invariant Detecting(keys0, live0, K', exact, noNew)
        invariant fresh(events - old(events))
        invariant K' == ShapesPairs(K, myShapes, i, rows, ids, overlaps)
      {
        assert myShapes[i] in myShapes;
        assert myShapes[i] in Members(rows) by {
          assert myShapes in rows;
        }
        ShapesPairsStep(K, myShapes, i, rows, ids, overlaps);
        K' := DetectShape(myShapes[i], rows, ids, overlaps, keys0, K', live0, exact, noNew);
        i := i + 1;
      }
    }

    /**
     * update: _collisionDetection for each tracked collider in order, then
     * _fireEvent. It confirms the pairs of tracked shapes that overlap, and
     * leaves every current event waiting for the next frame. When the map and
     * the list agreed before it and no pooled event can be handed to a new
     * pair, it is one step of the trigger state machine: the live pairs
     * become NextLive's and the callbacks made are the step's, each once.
     */
    method Update(overlaps: Overlap) returns (ghost K: set<Pair>)
      requires Valid() && SweepSafe() && Registered()
      modifies this`eventMap, this`eventPool, this`currentEvents, this`triggerLog, this`events, events`state, events`needUpdate
      ensures K == old(ConfirmedPairs(overlaps))
      ensures Valid() && Settled() && eventMap.Keys == old(eventMap.Keys)
      ensures |triggerLog| >= |old(triggerLog)| && triggerLog[..|old(triggerLog)|] == old(triggerLog)
      ensures old(Consistent() && Settled() && (eventPool == [] || NoNewPairs(overlaps))) ==>
        && Consistent()
        && LiveView() == NextLive(old(LiveView()), K)
        && (set c | c in triggerLog[|old(triggerLog)|..]) == Fires(old(LiveView()), K)
        && DisorderedArray.Distinct(triggerLog[|old(triggerLog)|..])
    {
      ghost var rows, ids := RowsOf(colliders), IdsOf(colliders);
      ghost var keys0, live0, confirmed := eventMap.Keys, LiveView(), ConfirmedPairs(overlaps);
      assert allocated(live0) && confirmed == CollidersPairs({}, rows, |rows|, rows, ids, overlaps);
      ghost var noNew := NoNewPairs(overlaps);
      ghost var exact := Consistent() && Settled() && (eventPool == [] || noNew);
      UpdateReady(this, overlaps);
      if exact {
        SettledIsMarked(this);
      }
      K := DetectAll(rows, ids, overlaps, keys0, live0, exact, noNew);
      label L:
      ghost var order: Swept<TriggerEvent>;
      order := FireEvent();
      if exact {
        SweepIsStep@L(this, live0, K, order);
      }
    }

    /** update's loop: _collisionDetection for each tracked collider, in order. */
    method DetectAll(ghost rows: Rows, ghost ids: IdMap, overlaps: Overlap, ghost keys0: set<int>,
                     ghost live0: map<Pair, TriggerEventState>, ghost exact: bool, ghost noNew: bool)
      returns (ghost K: set<Pair>)
      requires Detecting(keys0, live0, {}, exact, noNew)
      requires Scene(rows) && Covers(ids, rows) && IdsCurrent(ids) && ids.Values <= keys0
      requires noNew ==> forall s, t {:trigger t in Members(rows), s in Members(rows)} ::
        s in Members(rows) && t in Members(rows) && t != s && overlaps(t, s) ==> PairKey(ids[t], ids[s]) in live0
      modifies this`eventMap, this`eventPool, this`currentEvents, this`events, events`state, events`needUpdate
      ensures Detecting(keys0, live0, K, exact, noNew)
      ensures fresh(events - old(events))
      ensures K == CollidersPairs({}, rows, |rows|, rows, ids, overlaps)
    {
      K := {};
      var i := 0;
      while i < |colliders|
        invariant 0 <= i <= |colliders|
        invariant Detecting(keys0, live0, K, exact, noNew)
        invariant fresh(events - old(events))
        invariant K == CollidersPairs({}, rows, i, rows, ids, overlaps)
      {
        var myShapes := colliders[i].shapes;
        assert myShapes == rows[i] && myShapes in rows by {
          assert old(colliders[i].shapes) == rows[i];
        }
        assert forall m {:trigger m in myShapes} :: m in myShapes ==> m in Members(rows);
        CollidersPairsStep({}, rows, i, rows, ids, overlaps);
        K := CollisionDetection(myShapes, rows, ids, overlaps, keys0, K, live0, exact, noNew);
        i := i + 1;
      }
    }

    /** Every sphere shape in the scene has a collider, whose transform its world radius reads. */
    ghost predicate Attached()
      reads this`colliders, (set c | c in colliders)`shapes, ShapesOf(colliders)`collider
    {
      forall s {:trigger s in ShapesOf(colliders)} :: s in ShapesOf(colliders) && s.kind == SphereShape ==> s.collider != null
    }

    /**
     * raycast: asks each collider in turn for its closest hit. Any hit at all
     * makes the answer true, even one beyond `distance`. Without a callback the
     * first hit closer than `distance` ends the walk. With one, every hit closer
     * than the closest so far is copied into hitResult, normal included, and the
     * callback gets hitResult's fields; when nothing is hit, hitResult is reset.
     */
    method Raycast(ray: Ray, distance: real, withHit: bool, math: MathLib, tf: Transforms, ghost scene: set<LiteColliderShape>)
      returns (isHit: bool, report: Option<HitCall>)
      requires currentHit != hitResult && Attached() && scene == ShapesOf(colliders)
      modifies currentHit, hitResult, scene`invModelMatrix, scene`worldChanged
      ensures var hits := old(ColliderHits(colliders, ray, math, tf));
        && (isHit <==> AnyHit(hits))
        && (!withHit ==> report == None && hitResult.Record() == old(hitResult.Record()))
        && (withHit && !isHit ==> report == None && hitResult.Record() == HitRecord(-1, 0.0, Zero) && hitResult.normal == Zero)
        && (withHit && isHit ==> report == Some(HitCall(hitResult.shapeID, hitResult.distance, hitResult.point, hitResult.normal)))
        && (withHit && AnyBelow(hits, distance) ==>
              && hitResult.Record() == ClosestHit(HitRecord(old(hitResult.shapeID), distance, old(hitResult.point)), hits)
              && hitResult.normal == old(currentHit.normal))
        && (withHit && isHit && !AnyBelow(hits, distance) ==>
              hitResult.Record() == old(hitResult.Record()) && hitResult.normal == old(hitResult.normal))
      ensures !withHit ==> hitResult.normal == old(hitResult.normal)
      ensures forall s :: s in scene ==> s.InverseInUse(tf, math) == old(s.InverseInUse(tf, math))
    {
      ghost var hits := ColliderHits(colliders, ray, math, tf);
      ghost var init := Scan(false, distance, hitResult.Record(), hitResult.normal);
      ghost var normal0 := currentHit.normal;
      var stopped;
      isHit, stopped := ScanColliders(ray, distance, withHit, math, tf, scene);
      ScanAllIs(init, hits, withHit, normal0);
      if !isHit && withHit {
        hitResult.shapeID := -1;
        hitResult.distance := 0.0;
        hitResult.point := Zero;
        hitResult.normal := Zero;
        report := None;
      } else if isHit && withHit {
        report := Some(HitCall(hitResult.shapeID, hitResult.distance, hitResult.point, hitResult.normal));
      } else {
        report := None;
      }
    }

    /**
     * raycast's loop over the colliders: the fold ScanAll, unless the walk
     * stopped early, which only happens without a callback and after a hit.
     */
    method ScanColliders(ray: Ray, distance: real, withHit: bool, math: MathLib, tf: Transforms, ghost scene: set<LiteColliderShape>)
      returns (isHit: bool, stopped: bool)
      requires currentHit != hitResult && Attached() && scene == ShapesOf(colliders)
      modifies currentHit, hitResult, scene`invModelMatrix, scene`worldChanged
      ensures var r := ScanAll(Scan(false, distance, old(hitResult.Record()), old(hitResult.normal)),
                               old(ColliderHits(colliders, ray, math, tf)), withHit, old(currentHit.normal));
        && (stopped ==> !withHit && r.isHit && isHit)
        && (isHit == r.isHit && hitResult.Record() == r.rec && hitResult.normal == r.normal)
      ensures forall s :: s in scene ==> s.InverseInUse(tf, math) == old(s.InverseInUse(tf, math))
    {
      ghost var hits := ColliderHits(colliders, ray, math, tf);
      assert forall k :: 0 <= k < |colliders| ==> forall s :: s in colliders[k].shapes ==> s in scene;
      ghost var normal0 := currentHit.normal;
      ghost var init := Scan(false, distance, hitResult.Record(), hitResult.normal);
      var dist := distance;
      isHit, stopped := false, false;
      var i := 0;
      while i < |colliders|
        invariant 0 <= i <= |colliders|
        invariant Scan(isHit, dist, hitResult.Record(), hitResult.normal) == ScanAll(init, hits[..i], withHit, normal0)
        invariant currentHit.normal == normal0
        invariant forall s :: s in scene ==> s.InverseInUse(tf, math) == old(s.InverseInUse(tf, math))
      {
        forall s | s in colliders[i].shapes ensures s.Probe(ray, math, tf) == old(s.Probe(ray, math, tf)) {
          ProbeKept(s, ray, math, tf);
        }
        ProbesKept(colliders[i], ray, math, tf);
        assert hits[i] == ColliderHit(colliders[i].Probes(ray, math, tf));
        ScanAllStep(init, hits, withHit, normal0, i);
        isHit, dist, stopped := ScanCollider(i, ray, isHit, dist, withHit, math, tf, scene);
        if stopped {
          ScanKeepsHit(init, hits, withHit, normal0, i + 1);
          ScanAllIs(init, hits[..i], withHit, normal0);
          ScanAllIs(init, hits, withHit, normal0);
          return;
        }
        i := i + 1;
      }
      assert hits[..i] == hits;
    }

    /**
     * One turn of raycast's loop: collider k's _raycast into the static
     * currentHit, then, for a hit closer than the distance to beat, either the
     * copy into hitResult or, without a callback, the early return (`stop`).
     */
    method ScanCollider(k: nat, ray: Ray, isHit0: bool, dist0: real, withHit: bool, math: MathLib, tf: Transforms,
                        ghost scene: set<LiteColliderShape>)
      returns (isHit: bool, dist: real, stop: bool)
      requires k < |colliders| && Attached() && scene == ShapesOf(colliders) && currentHit != hitResult
      modifies currentHit, hitResult, scene`invModelMatrix, scene`worldChanged
      ensures var offer := old(ColliderHit(colliders[k].Probes(ray, math, tf)));
        && (stop <==> !withHit && offer.Some? && offer.value.distance < dist0)
        && Scan(isHit, dist, hitResult.Record(), hitResult.normal)
           == ScanStep(Scan(isHit0, dist0, old(hitResult.Record()), old(hitResult.normal)), offer, withHit, old(currentHit.normal))
      ensures currentHit.normal == old(currentHit.normal)
      ensures forall s :: s in scene ==> s.InverseInUse(tf, math) == old(s.InverseInUse(tf, math))
    {
      var collider := colliders[k];
      assert forall s :: s in collider.shapes ==> s in scene;
      ghost var was := HitRecord(currentHit.shapeID, MaxValue, currentHit.point);
      ghost var probes := collider.Probes(ray, math, tf);
      var hitHere := collider.Raycast(ray, currentHit, math, tf);
      ColliderHitIs(was, probes);
      isHit, dist, stop := isHit0, dist0, false;
      if hitHere {
        isHit := true;
        if currentHit.distance < dist {
          if withHit {
            hitResult.CopyFrom(currentHit);
            dist := currentHit.distance;
          } else {
            stop := true;
          }
        }
      }
    }

    /** The events confirmed since the last sweep: the ones the sweep keeps. */
    ghost function Confirmed(): set<TriggerEvent>
      reads this`currentEvents, currentEvents`needUpdate
    {
      set e | e in currentEvents && !e.needUpdate
    }

    /** The sweep's starting point, recorded before its loop. */
    ghost function StartSweep(): (st: SweepStart)
      reads this`currentEvents, this`eventMap, this`eventPool, this`triggerLog, this`events, events`state, events`needUpdate
      requires Valid()
    {
      SweepStart(currentEvents, Confirmed(), eventMap, eventPool, triggerLog,
                 map e | e in events :: e.state, map e | e in events :: e.needUpdate)
    }

    /**
     * The state of _fireEvent's loop at index i, having fired `fired` and
     * dropped `dropped`: the bookkeeping is valid, the lists and the map are
     * where Sweep says, the log holds the calls fired so far, and the events
     * carry the marks the walk has left on them.
     */
    ghost predicate Sweeping(i: nat, st: SweepStart, fired: seq<TriggerEvent>, dropped: seq<TriggerEvent>)
      reads this`currentEvents, this`eventPool, this`eventMap, this`events, this`triggerLog, events
    {
      && Valid() && st.Ready() && st.ListsAt(currentEvents, eventPool, eventMap, i, fired, dropped)
      && st.LogOf(triggerLog, fired) && SweepMarks(i, st, dropped)
    }

    /**
     * The events before i are confirmed ones, now waiting; those from i on are
     * as they were; the dropped ones are in Exit; the pooled ones are as they were.
     */
    ghost predicate SweepMarks(i: nat, st: SweepStart, dropped: seq<TriggerEvent>)
      reads this`currentEvents, currentEvents, dropped, st.pool
    {
      && (forall k :: 0 <= k < i <= |currentEvents| ==>
            currentEvents[k] in st.keep && currentEvents[k].needUpdate && currentEvents[k] in st.state
            && currentEvents[k].state == st.state[currentEvents[k]])
      && (forall k :: i <= k < |currentEvents| ==>
            currentEvents[k] in st.state && currentEvents[k] in st.need
            && currentEvents[k].state == st.state[currentEvents[k]] && currentEvents[k].needUpdate == st.need[currentEvents[k]])
      && (forall e {:trigger e in dropped} :: e in dropped ==> e in st.current && e.state == Exit && e.needUpdate)
      && (forall e {:trigger e in st.pool} :: e in st.pool ==> e in st.state && e in st.need && e.state == st.state[e] && e.needUpdate == st.need[e])
    }

    /**
     * _fireEvent: walks the current events in Sweep's order. A confirmed event
     * fires its state (Enter or Stay) and waits to be confirmed again; any other
     * event turns Exit, leaves its slot, fires Exit, is deleted by index and
     * goes to the pool. Each event fires the call it carried before the sweep.
     */
    method FireEvent() returns (ghost order: Swept<TriggerEvent>)
      requires Valid() && SweepSafe()
      modifies this`eventMap, this`eventPool, this`currentEvents, this`triggerLog, events`state, events`needUpdate
      ensures order == Sweep(old(currentEvents), old(Confirmed()), 0, [], [])
      ensures currentEvents == order.remaining
      ensures eventPool == old(eventPool) + order.dropped
      ensures eventMap == ClearSlots(old(eventMap), LabelsOf(order.dropped))
      ensures triggerLog == old(triggerLog) + old(CallsOf(order.fired))
      ensures forall e {:trigger e in old(currentEvents)} :: e in old(currentEvents) ==>
        e.needUpdate && e.state == (if old(e.needUpdate) then Exit else old(e.state))
      ensures forall e {:trigger e in old(eventPool)} :: e in old(eventPool) ==>
        e.needUpdate == old(e.needUpdate) && e.state == old(e.state)
      ensures Valid() && Settled()
    {
      ghost var st := StartSweep();
      ghost var fired: seq<TriggerEvent>, dropped: seq<TriggerEvent>;
      StartSweeping(this);
      fired, dropped := Walk(st);
      order := Sweep(st.current, st.keep, 0, [], []);
      assert order == Swept(currentEvents, fired, dropped);
      SweepDone(this, st, order);
    }

    /** _fireEvent's loop: from a start of the walk, walks to the end of the list. */
    method Walk(ghost st: SweepStart) returns (ghost fired: seq<TriggerEvent>, ghost dropped: seq<TriggerEvent>)
      requires Sweeping(0, st, [], [])
      modifies this`eventMap, this`eventPool, this`currentEvents, this`triggerLog, events`state, events`needUpdate
      ensures Sweeping(|currentEvents|, st, fired, dropped)
    {
      fired, dropped := [], [];
      var i := 0;
      while i < |currentEvents|
        invariant Sweeping(i, st, fired, dropped)
        decreases |currentEvents| - i
      {
        var event := currentEvents[i];
        if !event.needUpdate {
          FireAt(i, st, fired, dropped);
          fired := fired + [event];
          i := i + 1;
        } else {
          DropAt(i, st, fired, dropped);
          fired := fired + [event];
          dropped := dropped + [event];
        }
      }
    }

    /** A confirmed event fires its state and waits to be confirmed again. */
    method FireAt(i: nat, ghost st: SweepStart, ghost fired: seq<TriggerEvent>, ghost dropped: seq<TriggerEvent>)
      requires Sweeping(i, st, fired, dropped) && i < |currentEvents| && !currentEvents[i].needUpdate
      modifies this`triggerLog, {currentEvents[i]}`needUpdate
      ensures Sweeping(i + 1, st, fired + [old(currentEvents[i])], dropped)
    {
      var event := currentEvents[i];
      FireIsLive(this, i, st, fired, dropped);
      if event.state == Enter {
        triggerLog := triggerLog + [TriggerCall(Enter, event.index1, event.index2)];
        event.needUpdate := true;
      } else if event.state == Stay {
        triggerLog := triggerLog + [TriggerCall(Stay, event.index1, event.index2)];
        event.needUpdate := true;
      } else {
        assert false;
      }
      FireKeepsSweeping(this, i, st, fired, dropped, event);
    }

    /** An unconfirmed event turns Exit, leaves its slot, fires Exit, is deleted by index and is pooled. */
    method DropAt(i: nat, ghost st: SweepStart, ghost fired: seq<TriggerEvent>, ghost dropped: seq<TriggerEvent>)
      requires Sweeping(i, st, fired, dropped) && i < |currentEvents| && currentEvents[i].needUpdate
      modifies this`eventMap, this`eventPool, this`currentEvents, this`triggerLog, {currentEvents[i]}`state
      ensures Sweeping(i, st, fired + [old(currentEvents[i])], dropped + [old(currentEvents[i])])
      ensures |currentEvents| == old(|currentEvents|) - 1
    {
      var event := currentEvents[i];
      DropIsSafe(this, i, st, fired, dropped);
      event.state := Exit;
      eventMap := eventMap[event.index1 := eventMap[event.index1] - {event.index2}];
      triggerLog := triggerLog + [TriggerCall(Exit, event.index1, event.index2)];
      currentEvents := DisorderedArray.DeleteByIndex(currentEvents, i);
      eventPool := eventPool + [event];
      DropKeepsSweeping(this, i, st, fired, dropped, event);
    }
  }

  /** The event the walk fires and keeps is a current one, so it is in Enter or Stay. */
  lemma FireIsLive(m: LitePhysicsManager, i: nat, st: SweepStart, fired: seq<TriggerEvent>, dropped: seq<TriggerEvent>)
    requires m.Sweeping(i, st, fired, dropped) && i < |m.currentEvents|
    ensures m.currentEvents[i] in m.currentEvents && m.currentEvents[i].state in {Enter, Stay}
  {
    assert m.currentEvents[i] in m.currentEvents;
  }

  /** One keep step of _fireEvent's loop keeps the walk's state, one index on. */
  twostate lemma FireKeepsSweeping(new m: LitePhysicsManager, i: nat, new st: SweepStart,
                                   new fired: seq<TriggerEvent>, new dropped: seq<TriggerEvent>, new e: TriggerEvent)
    requires old(allocated(m)) && old(allocated(st)) && old(allocated(fired)) && old(allocated(dropped)) && old(allocated(e))
    requires old(m.Sweeping(i, st, fired, dropped)) && i < old(|m.currentEvents|)
    requires e == old(m.currentEvents[i]) && !old(e.needUpdate)
    requires m.events == old(m.events) && m.currentEvents == old(m.currentEvents)
    requires m.eventPool == old(m.eventPool) && m.eventMap == old(m.eventMap)
    requires m.triggerLog == old(m.triggerLog) + [TriggerCall(old(e.state), e.index1, e.index2)]
    requires e.state == old(e.state) && e.needUpdate
    requires forall x {:trigger x in old(m.events)} :: x in old(m.events) && x != e ==>
      x.state == old(x.state) && x.needUpdate == old(x.needUpdate)
    ensures m.Sweeping(i + 1, st, fired + [e], dropped)
  {
    var cur := old(m.currentEvents);
    assert e in cur;
    KeepStep(st, cur, old(m.eventPool), old(m.eventMap), i, fired, dropped);
    LogStep(st, old(m.triggerLog), fired, e);
    FireKeepsValid(m);
    FireKeepsMarks(m, i, st, dropped, e);
  }

  /** A step that changes no list and no state keeps the event bookkeeping valid. */
  twostate lemma FireKeepsValid(new m: LitePhysicsManager)
    requires old(allocated(m)) && old(m.Valid())
    requires m.events == old(m.events) && m.currentEvents == old(m.currentEvents)
    requires m.eventPool == old(m.eventPool) && m.eventMap == old(m.eventMap)
    requires forall x {:trigger x in old(m.events)} :: x in old(m.events) ==> x.state == old(x.state)
    ensures m.Valid()
  {
    forall x | x in m.currentEvents ensures x in old(m.events) && old(x.state) != Exit {
    }
    forall x | x in m.eventPool ensures x in old(m.events) && old(x.state) == Exit {
    }
  }

  /** The keep step of event e at index i leaves the walk's marks one index on. */
  twostate lemma FireKeepsMarks(new m: LitePhysicsManager, i: nat, new st: SweepStart, new dropped: seq<TriggerEvent>,
                                new e: TriggerEvent)
    requires old(allocated(m)) && old(allocated(st)) && old(allocated(dropped)) && old(allocated(e))
    requires old(m.Valid()) && old(m.SweepMarks(i, st, dropped)) && old(m.eventPool) == st.pool + dropped
    requires i < old(|m.currentEvents|) && e == old(m.currentEvents[i]) && e in st.keep
    requires m.events == old(m.events) && m.currentEvents == old(m.currentEvents)
    requires e.state == old(e.state) && e.needUpdate
    requires forall x {:trigger x in old(m.events)} :: x in old(m.events) && x != e ==>
      x.state == old(x.state) && x.needUpdate == old(x.needUpdate)
    ensures m.SweepMarks(i + 1, st, dropped)
  {
    var cur := old(m.currentEvents);
    forall x | x in old(m.eventPool) ensures x in old(m.events) && x != e {
    }
    forall x | x in dropped ensures x in old(m.eventPool) {
      assert x in st.pool + dropped;
    }
    forall x | x in st.pool ensures x in old(m.eventPool) {
      assert x in st.pool + dropped;
    }
    forall k | 0 <= k < |cur| ensures cur[k] in old(m.events) && (k != i ==> cur[k] != e) {
      assert cur[k] in cur;
    }
  }

  /** The event the walk drops has a map entry for its first id, so its slot can be cleared. */
  lemma DropIsSafe(m: LitePhysicsManager, i: nat, st: SweepStart, fired: seq<TriggerEvent>, dropped: seq<TriggerEvent>)
    requires m.Sweeping(i, st, fired, dropped) && i < |m.currentEvents| && m.currentEvents[i].needUpdate
    ensures m.currentEvents[i] in m.currentEvents && m.currentEvents[i].index1 in m.eventMap
  {
    var e := m.currentEvents[i];
    assert e in m.currentEvents;
    assert e in st.current;
  }

  /** One drop step of _fireEvent's loop keeps the walk's state, at the same index. */
  twostate lemma DropKeepsSweeping(new m: LitePhysicsManager, i: nat, new st: SweepStart,
                                   new fired: seq<TriggerEvent>, new dropped: seq<TriggerEvent>, new e: TriggerEvent)
    requires old(allocated(m)) && old(allocated(st)) && old(allocated(fired)) && old(allocated(dropped)) && old(allocated(e))
    requires old(m.Sweeping(i, st, fired, dropped)) && i < old(|m.currentEvents|)
    requires e == old(m.currentEvents[i]) && old(e.needUpdate) && e.index1 in old(m.eventMap)
    requires m.events == old(m.events)
    requires m.currentEvents == DisorderedArray.DeleteByIndex(old(m.currentEvents), i)
    requires m.eventPool == old(m.eventPool) + [e]
    requires m.eventMap == old(m.eventMap)[e.index1 := old(m.eventMap)[e.index1] - {e.index2}]
    requires m.triggerLog == old(m.triggerLog) + [TriggerCall(Exit, e.index1, e.index2)]
    requires e.state == Exit && e.needUpdate
    requires forall x {:trigger x in old(m.events)} :: x in old(m.events) && x != e ==>
      x.state == old(x.state) && x.needUpdate == old(x.needUpdate)
    ensures m.Sweeping(i, st, fired + [e], dropped + [e])
  {
    var cur := old(m.currentEvents);
    assert e in cur;
    assert e in st.current;
    DropStep(st, cur, old(m.eventPool), old(m.eventMap), i, fired, dropped);
    LogStep(st, old(m.triggerLog), fired, e);
    DropKeepsValid(m, i, e);
    DropKeepsMarks(m, i, st, dropped, e);
  }

  /** The new-pair branch keeps the bookkeeping valid and the sweep safe. */
  twostate lemma StartKeepsValid(new m: LitePhysicsManager, new event: TriggerEvent, key: Pair)
    requires old(allocated(m)) && old(m.Valid()) && old(m.SweepSafe()) && key.0 in old(m.eventMap)
    requires m.eventMap == old(m.eventMap)[key.0 := old(m.eventMap)[key.0][key.1 := event]]
    requires old(m.eventPool) == [] ==> fresh(event) && m.eventPool == [] && m.events == old(m.events) + {event}
    requires old(m.eventPool) != [] ==>
      && event == old(m.eventPool)[|old(m.eventPool)| - 1]
      && m.eventPool == old(m.eventPool)[..|old(m.eventPool)| - 1]
      && m.events == old(m.events)
    requires m.currentEvents == old(m.currentEvents) + [event]
    requires event.state == Enter && !event.needUpdate
    requires forall e {:trigger e in old(m.events)} :: e in old(m.events) && e != event ==>
      e.state == old(e.state) && e.needUpdate == old(e.needUpdate)
    ensures m.Valid() && m.SweepSafe()
    ensures event !in old(m.currentEvents)
  {
    var cur, pool := old(m.currentEvents), old(m.eventPool);
    if pool != [] {
      assert event in pool;
      assert forall e {:trigger e in m.eventPool} :: e in m.eventPool ==> e in pool && e != event by {
        forall e | e in m.eventPool ensures e in pool && e != event {
          var k :| 0 <= k < |m.eventPool| && m.eventPool[k] == e;
          assert pool[k] == e;
        }
      }
      assert DisorderedArray.Distinct(m.eventPool) by {
        assert forall k :: 0 <= k < |m.eventPool| ==> m.eventPool[k] == pool[k];
      }
      assert (set e | e in pool) == (set e | e in m.eventPool) + {event};
    }
    assert event !in cur;
    forall e | e in m.currentEvents ensures e in cur || e == event {
    }
    forall e | e in cur ensures e in old(m.events) && e != event && old(e.state) != Exit {
    }
    forall e | e in m.eventPool ensures e in old(m.events) && e != event && old(e.state) == Exit {
    }
    assert (set e | e in m.currentEvents) == (set e | e in cur) + {event};
    forall j, k | 0 <= j < k < |m.currentEvents| ensures m.currentEvents[j] != m.currentEvents[k] {
      if k < |cur| {
        assert m.currentEvents[j] == cur[j] && m.currentEvents[k] == cur[k];
      } else {
        assert m.currentEvents[j] in cur;
      }
    }
    forall a, b | HasSlot(m.eventMap, a, b) ensures m.eventMap[a][b] in m.events {
      if (a, b) != key {
        assert HasSlot(old(m.eventMap), a, b);
      }
    }
  }

  /** The drop step keeps the event bookkeeping valid. */
  twostate lemma DropKeepsValid(new m: LitePhysicsManager, i: nat, new e: TriggerEvent)
    requires old(allocated(m)) && old(allocated(e))
    requires old(m.Valid()) && i < old(|m.currentEvents|) && e == old(m.currentEvents[i]) && e.index1 in old(m.eventMap)
    requires m.events == old(m.events)
    requires m.currentEvents == DisorderedArray.DeleteByIndex(old(m.currentEvents), i)
    requires m.eventPool == old(m.eventPool) + [e]
    requires m.eventMap == old(m.eventMap)[e.index1 := old(m.eventMap)[e.index1] - {e.index2}]
    requires e.state == Exit
    requires forall x {:trigger x in old(m.events)} :: x in old(m.events) && x != e ==> x.state == old(x.state)
    ensures m.Valid()
  {
    var cur, pool := old(m.currentEvents), old(m.eventPool);
    DisorderedArray.DeleteByIndexDistinct(cur, i);
    forall x | x in cur ensures x in old(m.events) && old(x.state) != Exit && x !in pool {
    }
    assert e in cur;
    forall x | x in pool ensures x in old(m.events) && x != e && old(x.state) == Exit {
    }
    forall a, b | HasSlot(m.eventMap, a, b) ensures m.eventMap[a][b] in m.events {
      assert HasSlot(old(m.eventMap), a, b);
    }
    assert (set x | x in m.currentEvents) + (set x | x in m.eventPool) == m.events by {
      assert (set x | x in cur) + (set x | x in pool) == m.events;
    }
    assert DisorderedArray.Distinct(m.eventPool) by {
      assert forall k :: 0 <= k < |pool| ==> m.eventPool[k] == pool[k];
    }
  }

  /** The drop step keeps the marks the walk leaves, with the dropped event now in Exit. */
  twostate lemma DropKeepsMarks(new m: LitePhysicsManager, i: nat, new st: SweepStart, new dropped: seq<TriggerEvent>,
                                new e: TriggerEvent)
    requires old(allocated(m)) && old(allocated(st)) && old(allocated(dropped)) && old(allocated(e))
    requires old(m.Valid()) && old(m.SweepMarks(i, st, dropped)) && old(m.eventPool) == st.pool + dropped
    requires i < old(|m.currentEvents|) && e == old(m.currentEvents[i]) && e in st.current
    requires m.events == old(m.events)
    requires m.currentEvents == DisorderedArray.DeleteByIndex(old(m.currentEvents), i)
    requires e.state == Exit && e.needUpdate
    requires forall x {:trigger x in old(m.events)} :: x in old(m.events) && x != e ==>
      x.state == old(x.state) && x.needUpdate == old(x.needUpdate)
    ensures m.SweepMarks(i, st, dropped + [e])
  {
    var cur, cur' := old(m.currentEvents), m.currentEvents;
    assert e in cur;
    forall x | x in old(m.eventPool) ensures x in old(m.events) && x != e {
    }
    forall x | x in dropped ensures x in old(m.eventPool) {
      assert x in st.pool + dropped;
    }
    forall x | x in st.pool ensures x in old(m.eventPool) {
      assert x in st.pool + dropped;
    }
    forall k | 0 <= k < i <= |cur'| ensures cur'[k] == cur[k] && cur[k] != e && cur[k] in old(m.events) {
      assert cur'[k] == cur'[..i][k];
      assert cur[k] in cur;
    }
    forall k | i <= k < |cur'| ensures exists j :: i < j < |cur| && cur'[k] == cur[j] && cur[j] in old(m.events) && cur[j] != e {
      var j := if k == i then |cur| - 1 else k;
      if k != i {
        assert cur'[k] == cur'[i + 1..][k - i - 1] == cur[i + 1..|cur| - 1][k - i - 1];
      }
      assert cur[j] in cur;
    }
  }

  /** The call the sweep logs for a recorded event is the one it carried before the sweep. */
  twostate lemma CallIsFired(new m: LitePhysicsManager, new st: SweepStart, new e: TriggerEvent)
    requires old(allocated(m)) && old(allocated(st)) && old(allocated(e))
    requires old(m.Valid()) && st == old(m.StartSweep()) && e in st.state
    ensures e in st.need && st.Call(e) == old(e.Fired())
  {
  }

  /** Before its first step the walk is at index 0, with nothing fired or dropped. */
  lemma StartSweeping(m: LitePhysicsManager)
    requires m.Valid() && m.SweepSafe()
    ensures m.Sweeping(0, m.StartSweep(), [], [])
  {
    assert LabelsOf([]) == {};
    ClearSlotsNone(m.eventMap);
    assert forall e {:trigger e in m.currentEvents} :: e in m.currentEvents ==> e in m.events;
    assert forall e {:trigger e in m.eventPool} :: e in m.eventPool ==> e in m.events;
  }

  /** What the walk's end says about the lists, the log and the events, in terms of the state before it. */
  twostate lemma SweepDone(new m: LitePhysicsManager, new st: SweepStart, order: Swept<TriggerEvent>)
    requires old(allocated(m)) && old(allocated(st))
    requires old(m.Valid()) && st == old(m.StartSweep()) && order == Sweep(st.current, st.keep, 0, [], [])
    requires m.Sweeping(|m.currentEvents|, st, order.fired, order.dropped)
    ensures order == Sweep(old(m.currentEvents), old(m.Confirmed()), 0, [], [])
    ensures m.currentEvents == order.remaining
    ensures m.eventPool == old(m.eventPool) + order.dropped
    ensures m.eventMap == ClearSlots(old(m.eventMap), LabelsOf(order.dropped))
    ensures m.triggerLog == old(m.triggerLog) + old(CallsOf(order.fired))
    ensures forall e {:trigger e in old(m.currentEvents)} :: e in old(m.currentEvents) ==>
      e.needUpdate && e.state == (if old(e.needUpdate) then Exit else old(e.state))
    ensures forall e {:trigger e in old(m.eventPool)} :: e in old(m.eventPool) ==>
      e.needUpdate == old(e.needUpdate) && e.state == old(e.state)
    ensures m.Valid() && m.Settled()
  {
    assert order == Swept(m.currentEvents, order.fired, order.dropped);
    SweepPartition(st.current, st.keep);
    SweptLog(m, st, order.fired);
  }

  /** The log the walk leaves is the log before it followed by the calls the fired events carried. */
  twostate lemma SweptLog(new m: LitePhysicsManager, new st: SweepStart, fired: seq<TriggerEvent>)
    requires old(allocated(m)) && old(allocated(st))
    requires old(m.Valid()) && st == old(m.StartSweep()) && st.LogOf(m.triggerLog, fired)
    ensures m.triggerLog == old(m.triggerLog) + old(CallsOf(fired))
  {
    var calls := old(CallsOf(fired));
    forall k | 0 <= k < |fired| ensures m.triggerLog[|old(m.triggerLog)| + k] == calls[k] {
      LogAt(st, m.triggerLog, fired, k);
      CallIsFired(m, st, fired[k]);
    }
    assert m.triggerLog == old(m.triggerLog) + calls;
  }

  /**
   * What update's loop relies on, read off the colliders before it: the rows
   * and ids describe the tracked shapes, every id has a map entry, and
   * without new pairs every overlapping pair of tracked shapes is live.
   */
  lemma UpdateReady(m: LitePhysicsManager, overlaps: Overlap)
    requires m.Registered()
    ensures var rows, ids := RowsOf(m.colliders), IdsOf(m.colliders);
      && m.Scene(rows) && Covers(ids, rows) && ids.Values <= m.eventMap.Keys
      && (m.NoNewPairs(overlaps) ==> forall s, t {:trigger t in Members(rows), s in Members(rows)} ::
            s in Members(rows) && t in Members(rows) && t != s && overlaps(t, s) ==> PairKey(ids[t], ids[s]) in m.LiveView())
  {
    var rows, ids := RowsOf(m.colliders), IdsOf(m.colliders);
    RowsOfMembers(m.colliders);
    forall r, s | r in rows && s in r ensures s in ids {
      assert s in Members(rows);
    }
    forall v | v in ids.Values ensures v in m.eventMap {
      var s :| s in ids && ids[s] == v;
    }
  }

  /** Between frames, a consistent map is Marked for a step from its own live pairs with nothing confirmed yet. */
  lemma SettledIsMarked(m: LitePhysicsManager)
    requires m.Consistent() && m.Settled()
    ensures m.Marked(m.LiveView(), {})
  {
    forall a, b | HasSlot(m.eventMap, a, b)
      ensures m.eventMap[a][b].needUpdate && m.eventMap[a][b].state == MidState(m.LiveView(), {}, (a, b))
    {
      assert m.eventMap[a][b] in m.currentEvents;
      assert (a, b) in Slots(m.eventMap);
    }
  }

  /** Under Marked, each current event carries the callback the step makes for its pair. */
  twostate lemma MarkedCalls(new m: LitePhysicsManager, new live: map<Pair, TriggerEventState>, new K: set<Pair>,
                             new fired: seq<TriggerEvent>)
    requires old(allocated(m)) && old(allocated(live)) && old(allocated(K)) && old(allocated(fired))
    requires old(m.Marked(live, K))
    requires forall x {:trigger x in fired} :: x in fired ==> x in old(m.currentEvents)
    ensures old(CallsOf(fired)) == StepCalls(live, K, fired)
  {
    var calls := old(CallsOf(fired));
    forall k | 0 <= k < |fired| ensures calls[k] == StepCall(live, K, fired[k].Labels()) {
      var x := fired[k];
      assert x in fired;
      assert HasSlot(old(m.eventMap), x.index1, x.index2);
      assert x.Labels() in Slots(old(m.eventMap));
    }
  }

  /**
   * A sweep that starts from a Marked map finishes the step: the list and the
   * map agree again, the live pairs are NextLive's, and the callbacks are the
   * step's, each once.
   */
  twostate lemma SweepIsStep(new m: LitePhysicsManager, new live: map<Pair, TriggerEventState>, new K: set<Pair>,
                             order: Swept<TriggerEvent>)
    requires old(allocated(m)) && old(allocated(live)) && old(allocated(K))
    requires old(m.Valid()) && old(m.Marked(live, K))
    requires order == Sweep(old(m.currentEvents), old(m.Confirmed()), 0, [], [])
    requires m.currentEvents == order.remaining
    requires m.eventMap == ClearSlots(old(m.eventMap), LabelsOf(order.dropped))
    requires m.triggerLog == old(m.triggerLog) + old(CallsOf(order.fired))
    requires forall e {:trigger e in old(m.currentEvents)} :: e in old(m.currentEvents) ==>
      e.state == (if old(e.needUpdate) then Exit else old(e.state))
    ensures m.Consistent()
    ensures m.LiveView() == NextLive(live, K)
    ensures m.triggerLog[|old(m.triggerLog)|..] == StepCalls(live, K, order.fired)
    ensures (set c | c in m.triggerLog[|old(m.triggerLog)|..]) == Fires(live, K)
    ensures DisorderedArray.Distinct(m.triggerLog[|old(m.triggerLog)|..])
  {
    var cur, M := old(m.currentEvents), old(m.eventMap);
    MarkedKeep(m, live, K);
    SweepAgrees(cur, M, live, K);
    SweepPartition(cur, KeepOf(cur, K));
    forall x | x in order.fired ensures x in cur {
      assert x in multiset(order.fired);
    }
    StepCallsSet(cur, M, live, K, order.fired);
    MarkedCalls(m, live, K, order.fired);
    SweptLive(m, live, K);
    assert m.triggerLog[|old(m.triggerLog)|..] == StepCalls(live, K, order.fired);
  }

  /** Under Marked, the events confirmed since the last sweep are exactly those of the pairs K. */
  twostate lemma MarkedKeep(new m: LitePhysicsManager, new live: map<Pair, TriggerEventState>, new K: set<Pair>)
    requires old(allocated(m)) && old(allocated(live)) && old(allocated(K))
    requires old(m.Marked(live, K))
    ensures old(m.Confirmed()) == KeepOf(old(m.currentEvents), K)
  {
    forall e | e in old(m.currentEvents) ensures !old(e.needUpdate) <==> e.Labels() in K {
      assert HasSlot(old(m.eventMap), e.index1, e.index2);
    }
  }

  /**
   * After a sweep from a Marked map, whose slots are now K, each slot holds
   * the confirmed event of that pair in its mid-step state: the live view is
   * NextLive's.
   */
  twostate lemma SweptLive(new m: LitePhysicsManager, new live: map<Pair, TriggerEventState>, new K: set<Pair>)
    requires old(allocated(m)) && old(allocated(live)) && old(allocated(K))
    requires old(m.Marked(live, K)) && Slots(m.eventMap) == K
    requires forall a, b {:trigger HasSlot(m.eventMap, a, b)} :: HasSlot(m.eventMap, a, b) ==>
      HasSlot(old(m.eventMap), a, b) && m.eventMap[a][b] == old(m.eventMap)[a][b]
    requires forall e {:trigger e in old(m.currentEvents)} :: e in old(m.currentEvents) ==>
      e.state == (if old(e.needUpdate) then Exit else old(e.state))
    ensures m.LiveView() == NextLive(live, K)
  {
    forall p | p in K ensures HasSlot(m.eventMap, p.0, p.1) && m.eventMap[p.0][p.1].state == NextLive(live, K)[p] {
      assert p in Slots(m.eventMap);
      assert HasSlot(m.eventMap, p.0, p.1);
      var x := m.eventMap[p.0][p.1];
      assert x in old(m.currentEvents);
    }
  }

  /** A new pair's event keeps the map Marked, with the pair now confirmed. */
  twostate lemma StartKeepsMarked(new m: LitePhysicsManager, new event: TriggerEvent, new key: Pair,
                                  new live0: map<Pair, TriggerEventState>, new K: set<Pair>)
    requires old(allocated(m)) && old(allocated(live0)) && old(allocated(K))
    requires old(m.Marked(live0, K))
    requires key.0 in old(m.eventMap) && key.1 !in old(m.eventMap)[key.0]
    requires m.eventMap == old(m.eventMap)[key.0 := old(m.eventMap)[key.0][key.1 := event]]
    requires m.currentEvents == old(m.currentEvents) + [event]
    requires event.state == Enter && !event.needUpdate && event.Labels() == key
    requires event !in old(m.currentEvents)
    requires forall e {:trigger e in old(m.currentEvents)} :: e in old(m.currentEvents) ==>
      e.state == old(e.state) && e.needUpdate == old(e.needUpdate)
    ensures m.Marked(live0, K + {key})
  {
    var K' := K + {key};
    assert key !in Slots(old(m.eventMap));
    forall a, b | HasSlot(m.eventMap, a, b)
      ensures (a, b) == key || (HasSlot(old(m.eventMap), a, b) && m.eventMap[a][b] == old(m.eventMap[a][b]))
    {
    }
    forall e | e in m.currentEvents
      ensures HasSlot(m.eventMap, e.index1, e.index2) && m.eventMap[e.index1][e.index2] == e
    {
      if e != event {
        assert e in old(m.currentEvents);
      }
    }
    forall a, b | HasSlot(m.eventMap, a, b)
      ensures m.eventMap[a][b] in m.currentEvents && m.eventMap[a][b].Labels() == (a, b)
      ensures m.eventMap[a][b].needUpdate == ((a, b) !in K') && m.eventMap[a][b].state == MidState(live0, K', (a, b))
    {
      if (a, b) != key {
        assert old(m.eventMap[a][b]) in old(m.currentEvents);
      }
    }
    assert Slots(m.eventMap) == Slots(old(m.eventMap)) + {key} by {
      forall p | p in Slots(m.eventMap) ensures p in Slots(old(m.eventMap)) + {key} {
        assert HasSlot(m.eventMap, p.0, p.1);
      }
      forall p | p in Slots(old(m.eventMap)) ensures p in Slots(m.eventMap) {
        assert HasSlot(old(m.eventMap), p.0, p.1);
      }
    }
  }

  /** Confirming a known pair's event keeps the map Marked, with the pair now confirmed. */
  twostate lemma ConfirmKeepsMarked(new m: LitePhysicsManager, new event: TriggerEvent, new key: Pair,
                                    new live0: map<Pair, TriggerEventState>, new K: set<Pair>)
    requires old(allocated(m)) && old(allocated(event)) && old(allocated(live0)) && old(allocated(K))
    requires old(m.Marked(live0, K))
    requires HasSlot(old(m.eventMap), key.0, key.1) && old(m.eventMap[key.0][key.1]) == event
    requires old(event.needUpdate) && old(event.state) != Exit
    requires m.eventMap == old(m.eventMap) && m.currentEvents == old(m.currentEvents)
    requires event.state == Stay && !event.needUpdate
    requires forall e {:trigger e in old(m.currentEvents)} :: e in old(m.currentEvents) && e != event ==>
      e.state == old(e.state) && e.needUpdate == old(e.needUpdate)
    ensures m.Marked(live0, K + {key})
  {
    var K' := K + {key};
    assert key !in K && key in live0;
    forall a, b | HasSlot(m.eventMap, a, b)
      ensures m.eventMap[a][b] in m.currentEvents && m.eventMap[a][b].Labels() == (a, b)
      ensures m.eventMap[a][b].needUpdate == ((a, b) !in K') && m.eventMap[a][b].state == MidState(live0, K', (a, b))
    {
      assert HasSlot(old(m.eventMap), a, b);
      assert old(m.eventMap[a][b]) in old(m.currentEvents);
    }
    assert Slots(m.eventMap) == Slots(old(m.eventMap));
  }
}
