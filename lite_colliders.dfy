/**
 * The lite colliders and their shapes: LiteColliderShape with its box and
 * sphere variants, LiteCollider with its shape list and world transform, and
 * the hit record they write during a raycast.
 *
 * World matrices come from LiteTransform, which is not part of this model: they
 * are supplied by a Transforms oracle, one matrix per shape and per collider.
 */
module LiteColliders {
  import opened Geometry
  import opened Outcomes
  import opened LiteHitResults
  import opened LiteBoxShape
  import opened LiteSphereShape
  import DisorderedArray
  import opened JsArray

  /** The two concrete shape classes of the lite engine. */
  datatype ShapeKind = BoxShape | SphereShape

  /** The world matrices the LiteTransform objects would compute. */
  datatype Transforms = Transforms(
    shapeWorld: LiteColliderShape -> Matrix,
    colliderWorld: LiteCollider? -> Matrix)

  /** LiteHitResult: the record a raycast writes its closest hit into. */
  class LiteHitResult {
    var shapeID: int
    var distance: real
    var point: Vector3
    var normal: Vector3

    /** A record that reads as "no hit": the values raycast resets it to. */
    constructor ()
      ensures shapeID == -1 && distance == 0.0 && point == Zero && normal == Zero
    {
      shapeID := -1;
      distance := 0.0;
      point := Zero;
      normal := Zero;
    }

    /** Copies another record's normal, point, distance and shape id, as raycast does with the closest hit so far. */
    method CopyFrom(other: LiteHitResult)
      requires other != this
      modifies this
      ensures Record() == other.Record() && normal == other.normal
    {
      normal := other.normal;
      point := other.point;
      distance := other.distance;
      shapeID := other.shapeID;
    }

    /** The fields a shape writes, as a value. */
    function Record(): HitRecord
      reads this
    {
      HitRecord(shapeID, distance, point)
    }
  }

  /** The ray in a shape's local space: _getLocalRay with the inverse world matrix `inv`. */
  function LocalRay(ray: Ray, inv: Matrix, math: MathLib): (r: Ray)
    ensures r.origin == math.transformCoordinate(ray.origin, inv)
    ensures r.direction == math.normalize(math.transformNormal(ray.direction, inv))
  {
    Ray(math.transformCoordinate(ray.origin, inv), math.normalize(math.transformNormal(ray.direction, inv)))
  }

  class LiteColliderShape {
    const kind: ShapeKind
    var id: int
    var collider: LiteCollider?
    /** The local transform's position and scale. */
    var position: Vector3
    var scale: Vector3
    /** _inverseWorldMatFlag.flag: the world matrix changed since the inverse was cached. */
    var worldChanged: bool
    var invModelMatrix: Matrix
    /** Box variant. */
    var halfSize: Vector3
    var boxMin: Vector3
    var boxMax: Vector3
    /** Sphere variant. */
    var radius: real
    var maxScale: real

    /** The box's cached extents are the bounding box of its half size around its position. */
    ghost predicate BoxValid()
      reads this
    {
      kind == BoxShape ==> BoundingBox(boxMin, boxMax) == BondingBox(position, halfSize)
    }

    /** new LiteBoxColliderShape(uniqueID, size, material). */
    constructor CreateBox(uniqueID: int, size: Vector3)
      ensures kind == BoxShape && id == uniqueID && collider == null
      ensures position == Zero && scale == Vector3(1.0, 1.0, 1.0) && worldChanged
      ensures Add(halfSize, halfSize) == size
      ensures BoxValid() && Subtract(boxMax, boxMin) == size
    {
      kind := BoxShape;
      id := uniqueID;
      collider := null;
      position := Zero;
      scale := Vector3(1.0, 1.0, 1.0);
      worldChanged := true;
      invModelMatrix := Matrix([]);
      halfSize := HalfSize(size);
      var b := BondingBox(Zero, HalfSize(size));
      boxMin := b.min;
      boxMax := b.max;
      radius := 1.0;
      maxScale := 1.0;
    }

    /** new LiteSphereColliderShape(uniqueID, radius, material). */
    constructor CreateSphere(uniqueID: int, r: real)
      ensures kind == SphereShape && id == uniqueID && collider == null
      ensures position == Zero && scale == Vector3(1.0, 1.0, 1.0) && worldChanged
      ensures radius == r && maxScale == 1.0 && WorldRadius() == r
    {
      kind := SphereShape;
      id := uniqueID;
      collider := null;
      position := Zero;
      scale := Vector3(1.0, 1.0, 1.0);
      worldChanged := true;
      invModelMatrix := Matrix([]);
      halfSize := Zero;
      boxMin := Vector3(-0.5, -0.5, -0.5);
      boxMax := Vector3(0.5, 0.5, 0.5);
      radius := r;
      maxScale := 1.0;
    }

    /** The sphere's worldRadius getter. */
    function WorldRadius(): real
      reads this
    {
      LiteSphereShape.WorldRadius(radius, maxScale)
    }

    /** setPosition: moves the local transform; a box recomputes its extents around the new position. */
    method SetPosition(p: Vector3)
      modifies this`position, this`worldChanged, this`boxMin, this`boxMax
      ensures position == p && worldChanged
      ensures kind == BoxShape ==> BoundingBox(boxMin, boxMax) == BondingBox(p, halfSize)
      ensures kind == BoxShape ==> Scale(Add(boxMin, boxMax), 0.5) == p
      ensures kind == BoxShape ==> Subtract(boxMax, boxMin) == Subtract(old(boxMax), old(boxMin)) || !old(BoxValid())
      ensures kind == SphereShape ==> boxMin == old(boxMin) && boxMax == old(boxMax)
    {
      position := p;
      worldChanged := true;
      if kind == BoxShape {
        SetBondingBox();
      }
    }

    /** _setBondingBox: the box's extents around the current position. */
    method SetBondingBox()
      modifies this`boxMin, this`boxMax
      ensures BoundingBox(boxMin, boxMax) == BondingBox(position, halfSize)
      ensures kind == BoxShape ==> BoxValid()
    {
      var b := BondingBox(position, halfSize);
      boxMax := b.max;
      boxMin := b.min;
    }

    /**
     * setWorldScale: a box hands the scale to its transform; a sphere keeps only
     * _maxScale, the larger of the x and y components.
     */
    method SetWorldScale(s: Vector3)
      modifies this`scale, this`worldChanged, this`maxScale
      ensures kind == BoxShape ==> scale == s && worldChanged && maxScale == old(maxScale)
      ensures kind == SphereShape ==> maxScale == MaxScale(s) && scale == old(scale) && worldChanged == old(worldChanged)
    {
      if kind == BoxShape {
        scale := s;
        worldChanged := true;
      } else {
        maxScale := MaxScale(s);
      }
    }

    /** setSize on a box: new half size, extents recomputed around the unchanged position. */
    method SetSize(v: Vector3)
      requires kind == BoxShape
      modifies this`halfSize, this`boxMin, this`boxMax
      ensures Add(halfSize, halfSize) == v
      ensures BoxValid() && Subtract(boxMax, boxMin) == v
    {
      halfSize := HalfSize(v);
      SetBondingBox();
    }

    /** setRadius on a sphere: only _radius changes. */
    method SetRadius(v: real)
      requires kind == SphereShape
      modifies this`radius
      ensures radius == v
      ensures WorldRadius() == v * maxScale
    {
      radius := v;
    }

    method SetUniqueID(newId: int)
      modifies this`id
      ensures id == newId
    {
      id := newId;
    }

    /** setIsTrigger is not supported by the lite engine and always throws. */
    method SetIsTrigger(value: bool) returns (o: Outcome)
      ensures o.Fail?
    {
      o := Fail("Physics-lite don't support setIsTrigger. Use Physics-PhysX instead!");
    }

    /** setIsSceneQuery is not supported by the lite engine and always throws. */
    method SetIsSceneQuery(value: bool) returns (o: Outcome)
      ensures o.Fail?
    {
      o := Fail("Physics-lite don't support setIsSceneQuery. Use Physics-PhysX instead!");
    }

    /** setMaterial forwards to the debug backend (not modelled) and then throws. */
    method SetMaterial() returns (o: Outcome)
      ensures o.Fail?
    {
      o := Fail("Physics-lite don't support setMaterial. Use Physics-PhysX instead!");
    }

    /**
     * _getInvModelMatrix: inverts the world matrix only when the world-change
     * flag is raised, then lowers the flag; otherwise returns the cached inverse.
     */
    method GetInvModelMatrix(world: Matrix, math: MathLib) returns (m: Matrix)
      modifies this`invModelMatrix, this`worldChanged
      ensures !worldChanged && invModelMatrix == m
      ensures old(worldChanged) ==> m == math.invert(world)
      ensures !old(worldChanged) ==> m == old(invModelMatrix)
    {
      if worldChanged {
        invModelMatrix := math.invert(world);
        worldChanged := false;
      }
      m := invModelMatrix;
    }

    /** The inverse world matrix the next raycast will use. */
    ghost function InverseInUse(tf: Transforms, math: MathLib): Matrix
      reads this
    {
      if worldChanged then math.invert(tf.shapeWorld(this)) else invModelMatrix
    }

    /**
     * The hit _updateHitResult offers: the point at `rayDistance` along `ray`,
     * taken to world space unless the ray already is, and its distance from `origin`.
     */
    function HitAt(ray: Ray, rayDistance: real, origin: Vector3, isWorldRay: bool, world: Matrix, math: MathLib): (h: HitRecord)
      reads this
      ensures h.shapeID == id
      ensures isWorldRay ==> h.point == GetPoint(ray, rayDistance)
      ensures h.distance == math.distance(origin, h.point)
    {
      var p := if isWorldRay then GetPoint(ray, rayDistance) else math.transformCoordinate(GetPoint(ray, rayDistance), world);
      HitRecord(id, math.distance(origin, p), p)
    }

    /** _updateHitResult: the record takes this shape's hit only when it is strictly closer. */
    method UpdateHitResult(ray: Ray, rayDistance: real, outHit: LiteHitResult, origin: Vector3, isWorldRay: bool, world: Matrix, math: MathLib)
      modifies outHit
      ensures outHit.Record() == Closer(old(outHit.Record()), HitAt(ray, rayDistance, origin, isWorldRay, world, math))
      ensures outHit.distance < old(outHit.distance) ==> outHit.shapeID == id
      ensures outHit.normal == old(outHit.normal)
    {
      var hitPoint := GetPoint(ray, rayDistance);
      if !isWorldRay {
        hitPoint := math.transformCoordinate(hitPoint, world);
      }
      var distance := math.distance(origin, hitPoint);
      if distance < outHit.distance {
        outHit.point := hitPoint;
        outHit.distance := distance;
        outHit.shapeID := id;
      }
    }

    /** The world-space sphere a sphere shape is raycast against. */
    ghost function WorldSphere(tf: Transforms, math: MathLib): (s: BoundingSphere)
      reads this
      ensures s.radius == radius * maxScale
    {
      BoundingSphere(math.transformCoordinate(position, tf.colliderWorld(collider)), WorldRadius())
    }

    /**
     * What this shape's _raycast offers to the hit record: None for a miss
     * (the intersection routine returned -1), otherwise its hit.
     */
    ghost function Probe(ray: Ray, math: MathLib, tf: Transforms): Option<HitRecord>
      reads this
    {
      if kind == BoxShape then
        var localRay := LocalRay(ray, InverseInUse(tf, math), math);
        var d := math.intersectBox(localRay, LocalBox(halfSize));
        if d == -1.0 then None else Some(HitAt(localRay, d, ray.origin, false, tf.shapeWorld(this), math))
      else
        var d := math.intersectSphere(ray, WorldSphere(tf, math));
        if d == -1.0 then None else Some(HitAt(ray, d, ray.origin, true, Matrix([]), math))
    }

    /**
     * _raycast: a box intersects the ray, taken to local space, with the box
     * [-halfSize, halfSize]; a sphere intersects the world ray with its world
     * sphere. A hit is offered to the record; a miss leaves it alone.
     */
    method Raycast(ray: Ray, hit: LiteHitResult, math: MathLib, tf: Transforms) returns (isHit: bool)
      requires kind == SphereShape ==> collider != null
      modifies hit, this`invModelMatrix, this`worldChanged
      ensures isHit <==> old(Probe(ray, math, tf)).Some?
      ensures hit.Record() == Offer(old(hit.Record()), old(Probe(ray, math, tf)))
      ensures hit.normal == old(hit.normal)
      ensures Probe(ray, math, tf) == old(Probe(ray, math, tf))
      ensures InverseInUse(tf, math) == old(InverseInUse(tf, math))
    {
      if kind == BoxShape {
        var world := tf.shapeWorld(this);
        var worldToLocal := GetInvModelMatrix(world, math);
        var localRay := LocalRay(ray, worldToLocal, math);
        var rayDistance := math.intersectBox(localRay, LocalBox(halfSize));
        if rayDistance != -1.0 {
          UpdateHitResult(localRay, rayDistance, hit, ray.origin, false, world, math);
          isHit := true;
        } else {
          isHit := false;
        }
      } else {
        var sphere := BoundingSphere(math.transformCoordinate(position, tf.colliderWorld(collider)), WorldRadius());
        var rayDistance := math.intersectSphere(ray, sphere);
        if rayDistance != -1.0 {
          UpdateHitResult(ray, rayDistance, hit, ray.origin, true, Matrix([]), math);
          isHit := true;
        } else {
          isHit := false;
        }
      }
    }
  }

  /** The offers of a list of shapes, in list order. */
  ghost function ShapeProbes(shapes: seq<LiteColliderShape>, ray: Ray, math: MathLib, tf: Transforms): (r: seq<Option<HitRecord>>)
    reads set s | s in shapes
    ensures |r| == |shapes|
    ensures forall k :: 0 <= k < |shapes| ==> r[k] == shapes[k].Probe(ray, math, tf)
  {
    if shapes == [] then []
    else ShapeProbes(shapes[..|shapes| - 1], ray, math, tf) + [shapes[|shapes| - 1].Probe(ray, math, tf)]
  }

  /** What each collider's _raycast reports, in list order. */
  ghost function ColliderHits(cs: seq<LiteCollider>, ray: Ray, math: MathLib, tf: Transforms): (r: seq<Option<HitRecord>>)
    reads set c | c in cs, set c, s | c in cs && s in c.shapes :: s
    ensures |r| == |cs|
    ensures forall k {:trigger cs[k].Probes(ray, math, tf)} :: 0 <= k < |cs| ==> r[k] == ColliderHit(cs[k].Probes(ray, math, tf))
  {
    if cs == [] then []
    else
      var front := cs[..|cs| - 1];
      assert forall k :: 0 <= k < |front| ==> front[k] == cs[k];
      ColliderHits(front, ray, math, tf) + [ColliderHit(cs[|cs| - 1].Probes(ray, math, tf))]
  }

  /** indexOf followed by splice(index, 1) when found: the first occurrence of x removed. */
  function Removed<T(==)>(s: seq<T>, x: T): (r: seq<T>)
    ensures x !in s ==> r == s
    ensures x in s ==> r == RemoveAt(s, IndexOf(s, x))
  {
    var i := IndexOf(s, x);
    if i == -1 then s else RemoveAt(s, i)
  }

  /** Removing takes out exactly one occurrence of x, when there is one, and keeps everything else. */
  lemma RemovedCount<T>(s: seq<T>, x: T)
    ensures multiset(Removed(s, x)) == multiset(s) - multiset{x}
  {
    if x in s {
      var i := IndexOf(s, x);
      assert s == s[..i] + [x] + s[i + 1..];
      assert Removed(s, x) == s[..i] + s[i + 1..];
    } else {
      assert multiset(s)[x] == 0;
    }
  }

  /** Removing an element from a list without repetitions leaves the others, each once. */
  lemma RemovedDistinct<T>(s: seq<T>, x: T)
    requires DisorderedArray.Distinct(s)
    ensures DisorderedArray.Distinct(Removed(s, x))
    ensures forall y :: y in Removed(s, x) <==> y in s && y != x
  {
    var i := IndexOf(s, x);
    if i != -1 {
      var r := RemoveAt(s, i);
      forall y | y in s && y != x ensures y in r {
        var k :| 0 <= k < |s| && s[k] == y;
        if k < i { assert r[k] == y; } else { assert r[k - 1] == y; }
      }
      forall y | y in r ensures y in s && y != x {
        var k :| 0 <= k < |r| && r[k] == y;
        if k < i { assert s[k] == y; } else { assert s[k + 1] == y; }
      }
      forall j, k | 0 <= j < k < |r| ensures r[j] != r[k] {
        var jj := if j < i then j else j + 1;
        var kk := if k < i then k else k + 1;
        assert r[j] == s[jj] && r[k] == s[kk];
      }
    }
  }

  /**
   * The ownership invariant over a closed world of colliders and shapes: a
   * shape is in a collider's list exactly when its _collider is that collider,
   * no list repeats a shape, and every owner and owned shape is in the world.
   */
  ghost predicate Owned(cs: set<LiteCollider>, ss: set<LiteColliderShape>)
    reads cs, ss
  {
    && (forall c, s :: c in cs && s in ss ==> (s in c.shapes <==> s.collider == c))
    && (forall c :: c in cs ==> DisorderedArray.Distinct(c.shapes))
    && (forall c, s :: c in cs && s in c.shapes ==> s in ss)
    && (forall s :: s in ss && s.collider != null ==> s.collider in cs)
  }

  class LiteCollider {
    var shapes: seq<LiteColliderShape>
    /** The world transform's position and rotation. */
    var position: Vector3
    var rotation: Quaternion

    /** LiteStaticCollider's constructor: no shapes, the given world transform. */
    constructor (p: Vector3, r: Quaternion)
      ensures shapes == [] && position == p && rotation == r
    {
      shapes := [];
      position := p;
      rotation := r;
    }

    /**
     * addShape: a shape this collider already owns is left alone; otherwise it
     * is first removed from its previous owner, then appended here and claimed.
     */
    method AddShape(shape: LiteColliderShape, ghost cs: set<LiteCollider>, ghost ss: set<LiteColliderShape>)
      modifies this`shapes, shape`collider, (if shape.collider == null then {} else {shape.collider})`shapes
      ensures shape.collider == this
      ensures old(shape.collider) == this ==> shapes == old(shapes)
      ensures old(shape.collider) != this ==> shapes == old(shapes) + [shape]
      ensures old(shape.collider) != this && old(shape.collider) != null ==>
        old(shape.collider).shapes == Removed(old(shape.collider.shapes), shape)
      ensures old(Owned(cs, ss)) && this in cs && shape in ss ==> Owned(cs, ss)
    {
      var oldCollider := shape.collider;
      if oldCollider != this {
        if oldCollider != null {
          oldCollider.RemoveShape(shape, cs, ss);
        }
        ghost var mid := Owned(cs, ss) && this in cs && shape in ss;
        shapes := shapes + [shape];
        shape.collider := this;
        if mid {
          assert shape !in old(shapes);
          AppendedDistinct(old(shapes), shape);
        }
      }
    }

    /**
     * removeShape: an absent shape changes nothing; otherwise its first
     * occurrence is spliced out, keeping the others in order, and it loses its owner.
     */
    method RemoveShape(shape: LiteColliderShape, ghost cs: set<LiteCollider>, ghost ss: set<LiteColliderShape>)
      modifies this`shapes, shape`collider
      ensures shape !in old(shapes) ==> shapes == old(shapes) && shape.collider == old(shape.collider)
      ensures shape in old(shapes) ==> shapes == Removed(old(shapes), shape) && shape.collider == null
      ensures old(Owned(cs, ss)) && this in cs ==> Owned(cs, ss)
    {
      var index := IndexOf(shapes, shape);
      if index != -1 {
        if Owned(cs, ss) && this in cs {
          RemovedDistinct(shapes, shape);
        }
        shapes := RemoveAt(shapes, index);
        shape.collider := null;
      }
    }

    method SetWorldTransform(p: Vector3, r: Quaternion)
      modifies this`position, this`rotation
      ensures position == p && rotation == r
    {
      position := p;
      rotation := r;
    }

    /** getWorldTransform: the pair last set by setWorldTransform or the constructor. */
    method GetWorldTransform() returns (p: Vector3, r: Quaternion)
      ensures p == position && r == rotation
    {
      p := position;
      r := rotation;
    }

    /** The offers of this collider's shapes, in list order. */
    ghost function Probes(ray: Ray, math: MathLib, tf: Transforms): seq<Option<HitRecord>>
      reads this, set s | s in shapes
    {
      ShapeProbes(shapes, ray, math, tf)
    }

    /**
     * _raycast: resets the record's distance to Number.MAX_VALUE, offers it to
     * every shape in order, and reports whether some shape lowered it. The
     * record ends as the closest hit, the first one on ties.
     */
    method Raycast(ray: Ray, hit: LiteHitResult, math: MathLib, tf: Transforms) returns (isHit: bool)
      requires forall s :: s in shapes && s.kind == SphereShape ==> s.collider != null
      modifies hit, (set s | s in shapes)`invModelMatrix, (set s | s in shapes)`worldChanged
      ensures hit.Record() == ClosestHit(HitRecord(old(hit.shapeID), MaxValue, old(hit.point)), old(Probes(ray, math, tf)))
      ensures isHit <==> AnyBelow(old(Probes(ray, math, tf)), MaxValue)
      ensures hit.normal == old(hit.normal)
      ensures forall s :: s in shapes ==> s.Probe(ray, math, tf) == old(s.Probe(ray, math, tf))
      ensures forall s :: s in shapes ==> s.InverseInUse(tf, math) == old(s.InverseInUse(tf, math))
    {
      ghost var probes := Probes(ray, math, tf);
      ghost var start := HitRecord(hit.shapeID, MaxValue, hit.point);
      hit.distance := MaxValue;
      var i := 0;
      while i < |shapes|
        invariant 0 <= i <= |shapes|
        invariant hit.Record() == ClosestHit(start, probes[..i])
        invariant hit.normal == old(hit.normal)
        invariant forall k :: 0 <= k < |shapes| ==> shapes[k].Probe(ray, math, tf) == probes[k]
        invariant forall s :: s in shapes ==> s.InverseInUse(tf, math) == old(s.InverseInUse(tf, math))
      {
        OfferTo(i, ray, hit, math, tf, start, probes);
        i := i + 1;
      }
      assert probes[..i] == probes;
      forall s | s in shapes ensures s.Probe(ray, math, tf) == old(s.Probe(ray, math, tf)) {
        var k :| 0 <= k < |shapes| && shapes[k] == s;
        assert old(shapes[k].Probe(ray, math, tf)) == probes[k];
      }
      ClosestHitIsMinimum(start, probes);
      ClosestHitLowers(start, probes);
      isHit := hit.distance != MaxValue;
    }

    /** One turn of _raycast's loop: shape i is offered the record, and no shape's offer changes. */
    method OfferTo(i: nat, ray: Ray, hit: LiteHitResult, math: MathLib, tf: Transforms,
                   ghost start: HitRecord, ghost probes: seq<Option<HitRecord>>)
      requires i < |shapes| == |probes| && (shapes[i].kind == SphereShape ==> shapes[i].collider != null)
      requires hit.Record() == ClosestHit(start, probes[..i])
      requires forall k :: 0 <= k < |shapes| ==> shapes[k].Probe(ray, math, tf) == probes[k]
      modifies hit, {shapes[i]}`invModelMatrix, {shapes[i]}`worldChanged
      ensures hit.Record() == ClosestHit(start, probes[..i + 1])
      ensures hit.normal == old(hit.normal)
      ensures forall k :: 0 <= k < |shapes| ==> shapes[k].Probe(ray, math, tf) == probes[k]
      ensures forall s :: s in shapes ==> s.InverseInUse(tf, math) == old(s.InverseInUse(tf, math))
    {
      var shape := shapes[i];
      var _ := shape.Raycast(ray, hit, math, tf);
      ClosestHitStep(start, probes, i);
    }
  }

  /**
   * A raycast leaves a shape's offer alone: the offer depends on the shape's
   * fields only through the inverse matrix in use, which the cache keeps.
   */
  twostate lemma ProbeKept(new s: LiteColliderShape, new ray: Ray, new math: MathLib, new tf: Transforms)
    requires old(allocated(s)) && s.InverseInUse(tf, math) == old(s.InverseInUse(tf, math))
    requires unchanged(s`id, s`collider, s`position, s`halfSize, s`radius, s`maxScale)
    ensures s.Probe(ray, math, tf) == old(s.Probe(ray, math, tf))
  {
  }

  /** A collider's offers depend only on its shapes' offers. */
  twostate lemma ProbesKept(new c: LiteCollider, new ray: Ray, new math: MathLib, new tf: Transforms)
    requires old(allocated(c)) && c.shapes == old(c.shapes)
    requires forall s :: s in c.shapes ==> s.Probe(ray, math, tf) == old(s.Probe(ray, math, tf))
    ensures c.Probes(ray, math, tf) == old(c.Probes(ray, math, tf))
  {
  }

  /** Appending an element not yet present keeps a list without repetitions. */
  lemma AppendedDistinct<T>(s: seq<T>, x: T)
    requires DisorderedArray.Distinct(s) && x !in s
    ensures DisorderedArray.Distinct(s + [x])
  {
  }
}
