/**
 * Stand-ins for the engine's math types (Vector3, Quaternion, Ray, BoundingBox,
 * BoundingSphere, Matrix) and for the math library routines the physics code
 * calls but does not define. Numbers are mathematical reals, not IEEE doubles.
 */
module Geometry {

  datatype Vector3 = Vector3(x: real, y: real, z: real)

  datatype Quaternion = Quaternion(x: real, y: real, z: real, w: real)

  /** A 4x4 matrix; its entries are only ever produced and consumed by the math library. */
  datatype Matrix = Matrix(elements: seq<real>)

  datatype Ray = Ray(origin: Vector3, direction: Vector3)

  datatype BoundingBox = BoundingBox(min: Vector3, max: Vector3)

  datatype BoundingSphere = BoundingSphere(center: Vector3, radius: real)

  const Zero: Vector3 := Vector3(0.0, 0.0, 0.0)

  /** JavaScript's Number.MAX_VALUE, (2^53 - 1) * 2^971, the "no hit yet" distance. */
  const MaxValue: real := 179769313486231570814527423731704356798070567525844996598917476803157260780028538760589558632766878171540458953514382464234321326889464182768467546703537516986049910576551282076245490090389328944075868508455133942304583236903222948165808559332123348274797826204144723168738177180919299881250404026184124858368.0

  function Add(a: Vector3, b: Vector3): Vector3 {
    Vector3(a.x + b.x, a.y + b.y, a.z + b.z)
  }

  function Subtract(a: Vector3, b: Vector3): Vector3 {
    Vector3(a.x - b.x, a.y - b.y, a.z - b.z)
  }

  function Scale(a: Vector3, k: real): Vector3 {
    Vector3(a.x * k, a.y * k, a.z * k)
  }

  function Negate(a: Vector3): Vector3 {
    Vector3(-a.x, -a.y, -a.z)
  }

  /** Componentwise a <= b. */
  predicate LessOrEqual(a: Vector3, b: Vector3) {
    a.x <= b.x && a.y <= b.y && a.z <= b.z
  }

  function Max(a: real, b: real): real {
    if a >= b then a else b
  }

  function Min(a: real, b: real): real {
    if a <= b then a else b
  }

  /** Ray.getPoint: the point at parameter t along the ray. */
  function GetPoint(ray: Ray, t: real): Vector3 {
    Add(ray.origin, Scale(ray.direction, t))
  }

  /**
   * The math-library routines the physics code calls, as uninterpreted
   * parameters. intersectBox and intersectSphere return -1 for a miss.
   */
  datatype MathLib = MathLib(
    intersectBox: (Ray, BoundingBox) -> real,
    intersectSphere: (Ray, BoundingSphere) -> real,
    invert: Matrix -> Matrix,
    transformCoordinate: (Vector3, Matrix) -> Vector3,
    transformNormal: (Vector3, Matrix) -> Vector3,
    normalize: Vector3 -> Vector3,
    distance: (Vector3, Vector3) -> real)
}

/** Optional values and the error result of an operation that throws. */
module Outcomes {
  datatype Option<T> = None | Some(value: T)

  datatype Outcome = Pass | Fail(message: string)
}
