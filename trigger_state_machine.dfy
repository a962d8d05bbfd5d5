/**
 * The trigger-event state machine both physics managers implement, as a pure
 * specification over pairs of shape ids.
 *
 * A step is given the pairs that are live before it (with their states) and
 * the pairs confirmed to overlap during it. A confirmed pair that was not live
 * fires Enter, a confirmed pair that was live fires Stay, and a live pair that
 * was not confirmed fires Exit and stops being live.
 */
module TriggerStateMachine {

  /** TriggerEventState of both managers. */
  datatype TriggerEventState = Enter | Stay | Exit

  /** A pair of shape ids, lower id first. */
  type Pair = (int, int)

  /** One callback: onTriggerEnter, onTriggerStay or onTriggerExit with its two ids. */
  datatype TriggerCall = TriggerCall(state: TriggerEventState, index1: int, index2: int)

  /**
   * The key the managers store a pair under: index1 < index2 ? (index1, index2)
   * : (index2, index1).
   */
  function PairKey(index1: int, index2: int): (p: Pair)
    ensures p.0 <= p.1
    ensures (p.0 == index1 && p.1 == index2) || (p.0 == index2 && p.1 == index1)
  {
    if index1 < index2 then (index1, index2) else (index2, index1)
  }

  /** Whichever shape is scanned first, the pair lands on the same key. */
  lemma PairKeySymmetric(a: int, b: int)
    ensures PairKey(a, b) == PairKey(b, a)
  {
  }

  /** The live pairs after a step: exactly the confirmed ones, new ones in Enter and old ones in Stay. */
  function NextLive(live: map<Pair, TriggerEventState>, confirmed: set<Pair>): (next: map<Pair, TriggerEventState>)
    ensures next.Keys == confirmed
    ensures forall p :: p in next ==> next[p] == (if p in live then Stay else Enter)
  {
    map p | p in confirmed :: if p in live then Stay else Enter
  }

  /** The callback a pair fires in a step, when it fires one. */
  function StepCall(live: map<Pair, TriggerEventState>, confirmed: set<Pair>, p: Pair): TriggerCall {
    TriggerCall(if p !in confirmed then Exit else if p in live then Stay else Enter, p.0, p.1)
  }

  /** Every callback of a step: one per pair that is live before it or confirmed during it. */
  function Fires(live: map<Pair, TriggerEventState>, confirmed: set<Pair>): set<TriggerCall> {
    set p | p in live.Keys + confirmed :: StepCall(live, confirmed, p)
  }

  /** The callbacks of a step that name the pair p. */
  function CallsFor(calls: set<TriggerCall>, p: Pair): set<TriggerCall> {
    set c | c in calls && c.index1 == p.0 && c.index2 == p.1
  }

  /** A step fires exactly one callback for each pair live before it or confirmed during it, and none for any other. */
  lemma {:induction false} FiresOncePerPair(live: map<Pair, TriggerEventState>, confirmed: set<Pair>, p: Pair)
    ensures p in live || p in confirmed ==> CallsFor(Fires(live, confirmed), p) == {StepCall(live, confirmed, p)}
    ensures p !in live && p !in confirmed ==> CallsFor(Fires(live, confirmed), p) == {}
  {
    var calls := CallsFor(Fires(live, confirmed), p);
    forall c | c in calls ensures c == StepCall(live, confirmed, p) && (p in live || p in confirmed) {
      var q :| q in live.Keys + confirmed && c == StepCall(live, confirmed, q);
      assert q == p;
    }
    if p in live || p in confirmed {
      assert StepCall(live, confirmed, p) in calls;
    }
  }

  /** No live pair is ever in Exit: an Exit is fired and the pair dropped in the same step. */
  lemma NextLiveHasNoExit(live: map<Pair, TriggerEventState>, confirmed: set<Pair>, p: Pair)
    requires p in NextLive(live, confirmed)
    ensures NextLive(live, confirmed)[p] != Exit
  {
  }

  /** The live pairs after running the steps whose confirmed sets are `steps`. */
  function RunLive(live: map<Pair, TriggerEventState>, steps: seq<set<Pair>>): map<Pair, TriggerEventState>
    decreases |steps|
  {
    if steps == [] then live else NextLive(RunLive(live, steps[..|steps| - 1]), steps[|steps| - 1])
  }

  /** The callback p fires in the last of the steps. */
  function LastCall(live: map<Pair, TriggerEventState>, steps: seq<set<Pair>>, p: Pair): TriggerCall
    requires steps != []
  {
    StepCall(RunLive(live, steps[..|steps| - 1]), steps[|steps| - 1], p)
  }

  /**
   * A pair that starts overlapping and keeps overlapping fires Enter in the
   * first step and Stay in every later one, and stays live throughout.
   */
  lemma {:induction false} EnterOnceThenStay(live: map<Pair, TriggerEventState>, steps: seq<set<Pair>>, p: Pair)
    requires steps != [] && p !in live
    requires forall k :: 0 <= k < |steps| ==> p in steps[k]
    ensures p in RunLive(live, steps)
    ensures RunLive(live, steps)[p] == (if |steps| == 1 then Enter else Stay)
    ensures LastCall(live, steps, p) == TriggerCall(if |steps| == 1 then Enter else Stay, p.0, p.1)
  {
    var init := steps[..|steps| - 1];
    if |steps| > 1 {
      forall k | 0 <= k < |init| ensures p in init[k] {
        assert init[k] == steps[k];
      }
      EnterOnceThenStay(live, init, p);
    }
  }

  /**
   * A live pair that is not confirmed fires Exit once and is dropped; if it is
   * not confirmed in the next step either, that step fires nothing for it.
   */
  lemma ExitOnce(live: map<Pair, TriggerEventState>, c1: set<Pair>, c2: set<Pair>, p: Pair)
    requires p in live && p !in c1 && p !in c2
    ensures CallsFor(Fires(live, c1), p) == {TriggerCall(Exit, p.0, p.1)}
    ensures p !in NextLive(live, c1)
    ensures CallsFor(Fires(NextLive(live, c1), c2), p) == {}
  {
    FiresOncePerPair(live, c1, p);
    FiresOncePerPair(NextLive(live, c1), c2, p);
  }

  /** A pair that separated and overlaps again fires a fresh Enter. */
  lemma ReEnter(live: map<Pair, TriggerEventState>, c1: set<Pair>, c2: set<Pair>, p: Pair)
    requires p in live && p !in c1 && p in c2
    ensures CallsFor(Fires(NextLive(live, c1), c2), p) == {TriggerCall(Enter, p.0, p.1)}
    ensures NextLive(NextLive(live, c1), c2)[p] == Enter
  {
    FiresOncePerPair(NextLive(live, c1), c2, p);
  }

  /** A pair that is not live and is never confirmed never fires and never becomes live. */
  lemma {:induction false} NeverConfirmedNeverFires(live: map<Pair, TriggerEventState>, steps: seq<set<Pair>>, p: Pair)
    requires p !in live
    requires forall k :: 0 <= k < |steps| ==> p !in steps[k]
    ensures p !in RunLive(live, steps)
    ensures forall k :: 0 <= k < |steps| ==> CallsFor(Fires(RunLive(live, steps[..k]), steps[k]), p) == {}
  {
    if steps != [] {
      var init := steps[..|steps| - 1];
      forall k | 0 <= k < |init| ensures p !in init[k] {
        assert init[k] == steps[k];
      }
      NeverConfirmedNeverFires(live, init, p);
      forall k | 0 <= k < |steps|
        ensures CallsFor(Fires(RunLive(live, steps[..k]), steps[k]), p) == {}
      {
        if k < |init| {
          assert steps[..k] == init[..k];
        } else {
          assert steps[..k] == init;
        }
        FiresOncePerPair(RunLive(live, steps[..k]), steps[k], p);
      }
    }
  }
}
