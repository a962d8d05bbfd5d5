/** The arithmetic of LiteBoxColliderShape: half extents and the local bounding box. */
module LiteBoxShape {
  import opened Geometry

  /** The constructor's and setSize's _halfSize: each component of size times 0.5. */
  function HalfSize(size: Vector3): (h: Vector3)
    ensures Add(h, h) == size
    ensures LessOrEqual(Zero, size) ==> LessOrEqual(Zero, h)
  {
    Scale(size, 0.5)
  }

  /**
   * _setBondingBox: _boxMax = centre + halfSize and _boxMin = centre - halfSize.
   * The box is centred on the shape position and spans twice the half size.
   */
  function BondingBox(center: Vector3, halfSize: Vector3): (b: BoundingBox)
    ensures Subtract(b.max, b.min) == Add(halfSize, halfSize)
    ensures Scale(Add(b.min, b.max), 0.5) == center
    ensures LessOrEqual(Zero, halfSize) ==> LessOrEqual(b.min, b.max)
  {
    BoundingBox(Subtract(center, halfSize), Add(center, halfSize))
  }

  /** The box _raycast intersects in local space: [-halfSize, halfSize], whatever the position. */
  function LocalBox(halfSize: Vector3): (b: BoundingBox)
    ensures b == BondingBox(Zero, halfSize)
  {
    BoundingBox(Negate(halfSize), halfSize)
  }

  /** Setting the size v gives a box whose extent is v on every axis. */
  lemma SizeIsExtent(center: Vector3, v: Vector3)
    ensures Subtract(BondingBox(center, HalfSize(v)).max, BondingBox(center, HalfSize(v)).min) == v
  {
  }
}
