/**
 * The fold LitePhysicsManager.raycast performs over its colliders, as values.
 * Each collider offers its closest hit or nothing; the manager remembers
 * whether anything was hit, the distance still to beat, and the record (and
 * normal) copied into the static hitResult.
 */
module LiteRaycast {
  import opened Geometry
  import opened Outcomes
  import opened LiteHitResults

  /** The arguments of one call of raycast's hit callback. */
  datatype HitCall = HitCall(shapeID: int, distance: real, point: Vector3, normal: Vector3)

  /** The loop's variables: isHit, the distance to beat, and hitResult's fields. */
  datatype Scan = Scan(isHit: bool, dist: real, rec: HitRecord, normal: Vector3)

  /**
   * One collider's turn. A miss changes nothing. A hit sets isHit; when it is
   * closer than the distance to beat and a callback is wanted, the hit and the
   * current record's normal are copied and its distance is the one to beat.
   */
  function ScanStep(s: Scan, h: Option<HitRecord>, withHit: bool, normal: Vector3): Scan {
    if h.None? then s
    else if withHit && h.value.distance < s.dist then Scan(true, h.value.distance, h.value, normal)
    else s.(isHit := true)
  }

  /** The state after the colliders' offers `hits`, in order. */
  function ScanAll(init: Scan, hits: seq<Option<HitRecord>>, withHit: bool, normal: Vector3): Scan
    decreases |hits|
  {
    if hits == [] then init
    else ScanStep(ScanAll(init, hits[..|hits| - 1], withHit, normal), hits[|hits| - 1], withHit, normal)
  }

  /** One more collider: the prefix of length i + 1 is the prefix of length i and one step. */
  lemma ScanAllStep(init: Scan, hits: seq<Option<HitRecord>>, withHit: bool, normal: Vector3, i: nat)
    requires i < |hits|
    ensures ScanAll(init, hits[..i + 1], withHit, normal) == ScanStep(ScanAll(init, hits[..i], withHit, normal), hits[i], withHit, normal)
  {
    assert hits[..i + 1][..i] == hits[..i];
  }

  /** The fold's record seen as a HitRecord start: the record's id and point at the distance to beat. */
  function Start(init: Scan): HitRecord {
    HitRecord(init.rec.shapeID, init.dist, init.rec.point)
  }

  /**
   * What the fold computes, from a state that has hit nothing yet: the answer
   * is whether any collider was hit at all; with a callback, the record ends as
   * the closest hit below the starting distance (first on ties) with the
   * current normal, and is left untouched when no hit is that close; without
   * one, the record is never touched.
   */
  lemma {:induction false} ScanAllIs(init: Scan, hits: seq<Option<HitRecord>>, withHit: bool, normal: Vector3)
    requires !init.isHit
    ensures var r := ScanAll(init, hits, withHit, normal);
      && (r.isHit <==> AnyHit(hits))
      && (withHit ==> r.dist == ClosestHit(Start(init), hits).distance)
      && (withHit && AnyBelow(hits, init.dist) ==> r.rec == ClosestHit(Start(init), hits) && r.normal == normal)
      && (!withHit || !AnyBelow(hits, init.dist) ==> r.rec == init.rec && r.normal == init.normal)
  {
    if hits != [] {
      var n := |hits| - 1;
      ScanAllIs(init, hits[..n], withHit, normal);
      ScanAllStep(init, hits, withHit, normal, n);
      ClosestHitStep(Start(init), hits, n);
      ClosestHitLowers(Start(init), hits[..n]);
      ClosestHitIsMinimum(Start(init), hits[..n]);
      AnyStep(hits, init.dist, n);
      assert hits[..n + 1] == hits;
    }
  }

  /** Once something is hit, the answer stays true whatever the later colliders offer. */
  lemma {:induction false} ScanKeepsHit(init: Scan, hits: seq<Option<HitRecord>>, withHit: bool, normal: Vector3, i: nat)
    requires i <= |hits| && ScanAll(init, hits[..i], withHit, normal).isHit
    ensures ScanAll(init, hits, withHit, normal).isHit
    decreases |hits| - i
  {
    if i < |hits| {
      ScanAllStep(init, hits, withHit, normal, i);
      ScanKeepsHit(init, hits, withHit, normal, i + 1);
    } else {
      assert hits[..i] == hits;
    }
  }
}
