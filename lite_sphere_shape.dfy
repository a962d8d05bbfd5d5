/** The arithmetic of LiteSphereColliderShape: the world radius and the scale it uses. */
module LiteSphereShape {
  import opened Geometry

  /** The worldRadius getter: the radius scaled by the largest scale component seen. */
  function WorldRadius(radius: real, maxScale: real): (r: real)
    ensures maxScale == 1.0 ==> r == radius
    ensures 0.0 <= radius && 1.0 <= maxScale ==> radius <= r
  {
    radius * maxScale
  }

  /**
   * setWorldScale's _maxScale = max(scale.x, max(scale.x, scale.y)).
   * The expression names x twice and never reads z.
   */
  function MaxScale(scale: Vector3): (m: real)
    ensures scale.x <= m && scale.y <= m
    ensures m == scale.x || m == scale.y
  {
    Max(scale.x, Max(scale.x, scale.y))
  }

  /** The z component of the scale has no influence on _maxScale. */
  lemma MaxScaleIgnoresZ(scale: Vector3, z: real)
    ensures MaxScale(scale) == MaxScale(Vector3(scale.x, scale.y, z))
  {
  }

  /** So a sphere stretched along z keeps a world radius below its stretched extent. */
  lemma StretchAlongZ(radius: real)
    requires radius > 0.0
    ensures WorldRadius(radius, MaxScale(Vector3(1.0, 1.0, 2.0))) < radius * 2.0
  {
  }
}
