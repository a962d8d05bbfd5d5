/**
 * The closest-hit bookkeeping of the lite raycasts: a hit record, the
 * strictly-closer update of _updateHitResult, and the running minimum that
 * LiteCollider._raycast folds over its shapes.
 */
module LiteHitResults {
  import opened Geometry
  import opened Outcomes

  /** The fields of a LiteHitResult that a shape writes. */
  datatype HitRecord = HitRecord(shapeID: int, distance: real, point: Vector3)

  /** _updateHitResult's decision: a candidate replaces the record only when strictly closer. */
  function Closer(current: HitRecord, candidate: HitRecord): (r: HitRecord)
    ensures r.distance == Min(current.distance, candidate.distance)
    ensures r == current || r == candidate
    ensures r != current ==> candidate.distance < current.distance
  {
    if candidate.distance < current.distance then candidate else current
  }

  /** One shape's contribution: a missed shape (None) leaves the record alone. */
  function Offer(current: HitRecord, hit: Option<HitRecord>): HitRecord {
    if hit.Some? then Closer(current, hit.value) else current
  }

  /** The record after offering every shape's hit in order, starting from `start`. */
  function ClosestHit(start: HitRecord, hits: seq<Option<HitRecord>>): HitRecord
    decreases |hits|
  {
    if hits == [] then start
    else Offer(ClosestHit(start, hits[..|hits| - 1]), hits[|hits| - 1])
  }

  /** One more step of the fold: the prefix of length i + 1 offers hits[i] to the prefix of length i. */
  lemma ClosestHitStep(start: HitRecord, hits: seq<Option<HitRecord>>, i: nat)
    requires i < |hits|
    ensures ClosestHit(start, hits[..i + 1]) == Offer(ClosestHit(start, hits[..i]), hits[i])
  {
    assert hits[..i + 1][..i] == hits[..i];
  }

  /** Some offered hit is strictly below `bound`. */
  predicate AnyBelow(hits: seq<Option<HitRecord>>, bound: real) {
    exists h :: h in hits && h.Some? && h.value.distance < bound
  }

  /** Some offered hit exists at all, however far. */
  predicate AnyHit(hits: seq<Option<HitRecord>>) {
    exists h :: h in hits && h.Some?
  }

  /** Extending the offers by one: the longer list has a hit below `bound` when the shorter one does or the new offer is one. */
  lemma AnyStep(hits: seq<Option<HitRecord>>, bound: real, i: nat)
    requires i < |hits|
    ensures AnyBelow(hits[..i + 1], bound) <==> AnyBelow(hits[..i], bound) || (hits[i].Some? && hits[i].value.distance < bound)
    ensures AnyHit(hits[..i + 1]) <==> AnyHit(hits[..i]) || hits[i].Some?
  {
    assert hits[..i + 1] == hits[..i] + [hits[i]];
  }

  /**
   * What a collider's _raycast reports: no hit when none of its shapes' hits
   * is below Number.MAX_VALUE, otherwise the closest of them, first on ties.
   */
  function ColliderHit(probes: seq<Option<HitRecord>>): Option<HitRecord> {
    if AnyBelow(probes, MaxValue) then Some(ClosestHit(HitRecord(-1, MaxValue, Zero), probes)) else None
  }

  /**
   * A collider's record, started at Number.MAX_VALUE with whatever id and
   * point the shared record held, ends as the collider's hit when there is one.
   */
  lemma ColliderHitIs(start: HitRecord, probes: seq<Option<HitRecord>>)
    requires start.distance == MaxValue
    ensures AnyBelow(probes, MaxValue) ==> ClosestHit(start, probes) == ColliderHit(probes).value
    ensures AnyBelow(probes, MaxValue) <==> ClosestHit(start, probes).distance < MaxValue
  {
    ClosestHitLowers(start, probes);
    ClosestHitLowers(HitRecord(-1, MaxValue, Zero), probes);
    ClosestHitStartDistance(start, HitRecord(-1, MaxValue, Zero), probes);
  }

  /** The fold ends at or below its start and at or below every offered hit. */
  lemma {:induction false} ClosestHitIsMinimum(start: HitRecord, hits: seq<Option<HitRecord>>)
    ensures ClosestHit(start, hits).distance <= start.distance
    ensures forall k :: 0 <= k < |hits| && hits[k].Some? ==> ClosestHit(start, hits).distance <= hits[k].value.distance
  {
    if hits != [] {
      var init := hits[..|hits| - 1];
      ClosestHitIsMinimum(start, init);
      forall k | 0 <= k < |hits| - 1 && hits[k].Some?
        ensures ClosestHit(start, hits).distance <= hits[k].value.distance
      {
        assert init[k] == hits[k];
      }
    }
  }

  /** The fold's result is the start record or one of the offered hits. */
  lemma {:induction false} ClosestHitIsOffered(start: HitRecord, hits: seq<Option<HitRecord>>)
    ensures ClosestHit(start, hits) == start || Some(ClosestHit(start, hits)) in hits
  {
    if hits != [] {
      var init := hits[..|hits| - 1];
      ClosestHitIsOffered(start, init);
      if ClosestHit(start, init) != start {
        assert Some(ClosestHit(start, init)) in hits by {
          var k :| 0 <= k < |init| && init[k] == Some(ClosestHit(start, init));
          assert hits[k] == init[k];
        }
      }
    }
  }

  /** The fold goes below its start exactly when some offered hit does. */
  lemma {:induction false} ClosestHitLowers(start: HitRecord, hits: seq<Option<HitRecord>>)
    ensures ClosestHit(start, hits).distance < start.distance <==> AnyBelow(hits, start.distance)
  {
    if hits != [] {
      var init := hits[..|hits| - 1];
      var last := hits[|hits| - 1];
      ClosestHitLowers(start, init);
      ClosestHitIsMinimum(start, init);
      if AnyBelow(init, start.distance) {
        var h :| h in init && h.Some? && h.value.distance < start.distance;
        assert h in hits;
      }
      if AnyBelow(hits, start.distance) && !AnyBelow(init, start.distance) {
        var h :| h in hits && h.Some? && h.value.distance < start.distance;
        assert h !in init;
        assert hits == init + [last];
        assert h == last;
      }
    }
  }

  /**
   * Only the start distance matters: two starts at the same distance give the
   * same result, unless neither is improved on.
   */
  lemma {:induction false} ClosestHitStartDistance(a: HitRecord, b: HitRecord, hits: seq<Option<HitRecord>>)
    requires a.distance == b.distance
    ensures ClosestHit(a, hits) == ClosestHit(b, hits)
         || (ClosestHit(a, hits) == a && ClosestHit(b, hits) == b)
  {
    if hits != [] {
      ClosestHitStartDistance(a, b, hits[..|hits| - 1]);
    }
  }
}
