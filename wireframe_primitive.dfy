/**
 * WireFramePrimitive.createCircleWireFrame: writes the vertices of a circle
 * into a position buffer and the line segments joining them, as a closed
 * loop, into a 16-bit index buffer. Math.PI, Math.cos and Math.sin are
 * parameters; numbers are mathematical reals.
 */
module WireFrame {
  import opened Geometry

  /** An element of a Uint16Array. */
  newtype uint16 = x: int | 0 <= x < 0x1_0000

  /** Math.PI, Math.cos and Math.sin. */
  datatype Trig = Trig(pi: real, cos: real -> real, sin: real -> real)

  /** The angle of vertex i of a circle of n vertices: i * (1 / n) * PI * 2. */
  function Theta(i: nat, n: nat, trig: Trig): real
    requires n > 0
  {
    (i as real) * (1.0 / n as real) * trig.pi * 2.0
  }

  /**
   * The position of the vertex at angle theta on a circle around `shift`
   * perpendicular to `axis` (0, 1 or 2): the axis coordinate is shift's, the
   * other two are shift's plus radius times the cosine and the sine.
   */
  function CirclePoint(radius: real, theta: real, axis: int, shift: Vector3, trig: Trig): (p: Vector3)
    requires 0 <= axis <= 2
    ensures axis == 0 ==> p.x == shift.x
    ensures axis == 1 ==> p.y == shift.y
    ensures axis == 2 ==> p.z == shift.z
  {
    var c := radius * trig.cos(theta);
    var s := radius * trig.sin(theta);
    if axis == 0 then Vector3(shift.x, c + shift.y, s + shift.z)
    else if axis == 1 then Vector3(c + shift.x, shift.y, s + shift.z)
    else Vector3(c + shift.x, s + shift.y, shift.z)
  }

  function SquaredDistance(a: Vector3, b: Vector3): real {
    (a.x - b.x) * (a.x - b.x) + (a.y - b.y) * (a.y - b.y) + (a.z - b.z) * (a.z - b.z)
  }

  /** Where cos and sin satisfy cos^2 + sin^2 = 1, the vertex lies at distance radius from shift. */
  lemma CirclePointOnCircle(radius: real, theta: real, axis: int, shift: Vector3, trig: Trig)
    requires 0 <= axis <= 2
    requires trig.cos(theta) * trig.cos(theta) + trig.sin(theta) * trig.sin(theta) == 1.0
    ensures SquaredDistance(CirclePoint(radius, theta, axis, shift, trig), shift) == radius * radius
  {
    var c, s := trig.cos(theta), trig.sin(theta);
    calc {
      (radius * c) * (radius * c) + (radius * s) * (radius * s);
      radius * radius * (c * c + s * s);
      radius * radius;
    }
  }

  /**
   * The segment of vertex i of vertexCount: from global index vertexBegin + i
   * to the next vertex, or back to vertexBegin for the last one.
   */
  function Segment(vertexBegin: nat, vertexCount: nat, i: nat): (int, int)
    requires i < vertexCount
  {
    var g := vertexBegin + i;
    if i < vertexCount - 1 then (g, g + 1) else (g, vertexBegin)
  }

  /**
   * The segments form one closed loop: the first starts at vertexBegin, each
   * one starts where the one before it ends, and the last ends where the first
   * starts.
   */
  lemma LoopIsClosed(vertexBegin: nat, vertexCount: nat)
    requires vertexCount > 0
    ensures Segment(vertexBegin, vertexCount, 0).0 == vertexBegin
    ensures forall i :: 0 < i < vertexCount ==>
      Segment(vertexBegin, vertexCount, i).0 == Segment(vertexBegin, vertexCount, i - 1).1
    ensures Segment(vertexBegin, vertexCount, vertexCount - 1).1 == Segment(vertexBegin, vertexCount, 0).0
  {
  }

  /**
   * Each vertex of the range starts exactly one segment and ends exactly one
   * segment, and every segment starts and ends inside the range.
   */
  lemma EachVertexOnce(vertexBegin: nat, vertexCount: nat, v: int)
    requires vertexBegin <= v < vertexBegin + vertexCount
    ensures Segment(vertexBegin, vertexCount, v - vertexBegin).0 == v
    ensures forall i :: 0 <= i < vertexCount && Segment(vertexBegin, vertexCount, i).0 == v ==> i == v - vertexBegin
    ensures var e := if v == vertexBegin then vertexCount - 1 else v - vertexBegin - 1;
      0 <= e < vertexCount && Segment(vertexBegin, vertexCount, e).1 == v
    ensures forall i, j ::
      (0 <= i < vertexCount && 0 <= j < vertexCount && Segment(vertexBegin, vertexCount, i).1 == v
       && Segment(vertexBegin, vertexCount, j).1 == v) ==> i == j
    ensures forall i :: 0 <= i < vertexCount ==>
      vertexBegin <= Segment(vertexBegin, vertexCount, i).1 < vertexBegin + vertexCount
  {
  }

  /**
   * createCircleWireFrame: for each of the vertexCount vertices from
   * vertexBegin, writes its position (when axis is 0, 1 or 2) and its segment
   * into indices[2g] and indices[2g + 1]. Nothing outside those slots changes.
   */
  method CreateCircleWireFrame(radius: real, vertexBegin: nat, vertexCount: nat, axis: int, shift: Vector3,
                               positions: array<Vector3>, indices: array<uint16>, trig: Trig)
    requires vertexBegin + vertexCount <= positions.Length
    requires 2 * (vertexBegin + vertexCount) <= indices.Length
    requires vertexBegin + vertexCount <= 0x1_0000
    modifies positions, indices
    ensures forall i :: 0 <= i < vertexCount ==>
      indices[2 * (vertexBegin + i)] as int == Segment(vertexBegin, vertexCount, i).0
      && indices[2 * (vertexBegin + i) + 1] as int == Segment(vertexBegin, vertexCount, i).1
    ensures forall k :: 0 <= k < indices.Length && !(2 * vertexBegin <= k < 2 * (vertexBegin + vertexCount)) ==>
      indices[k] == old(indices[k])
    ensures 0 <= axis <= 2 ==> forall i :: 0 <= i < vertexCount ==>
      positions[vertexBegin + i] == CirclePoint(radius, Theta(i, vertexCount, trig), axis, shift, trig)
    ensures forall g :: 0 <= g < positions.Length && !(0 <= axis <= 2 && vertexBegin <= g < vertexBegin + vertexCount) ==>
      positions[g] == old(positions[g])
  {
    var i := 0;
    while i < vertexCount
      invariant i <= vertexCount
      invariant forall j :: 0 <= j < i ==>
        indices[2 * (vertexBegin + j)] as int == Segment(vertexBegin, vertexCount, j).0
        && indices[2 * (vertexBegin + j) + 1] as int == Segment(vertexBegin, vertexCount, j).1
      invariant forall k :: 0 <= k < indices.Length && !(2 * vertexBegin <= k < 2 * (vertexBegin + i)) ==>
        indices[k] == old(indices[k])
      invariant 0 <= axis <= 2 ==> forall j :: 0 <= j < i ==>
        positions[vertexBegin + j] == CirclePoint(radius, Theta(j, vertexCount, trig), axis, shift, trig)
      invariant forall g :: 0 <= g < positions.Length && !(0 <= axis <= 2 && vertexBegin <= g < vertexBegin + i) ==>
        positions[g] == old(positions[g])
    {
      WriteVertex(radius, vertexBegin, vertexCount, i, axis, shift, positions, trig);
      WriteSegment(vertexBegin, vertexCount, i, indices);
      i := i + 1;
    }
  }

  /** The segment write of vertex i: indices[2g] and indices[2g + 1], and nothing else. */
  method WriteSegment(vertexBegin: nat, vertexCount: nat, i: nat, indices: array<uint16>)
    requires i < vertexCount && 2 * (vertexBegin + vertexCount) <= indices.Length
    requires vertexBegin + vertexCount <= 0x1_0000
    modifies indices
    ensures indices[2 * (vertexBegin + i)] as int == Segment(vertexBegin, vertexCount, i).0
    ensures indices[2 * (vertexBegin + i) + 1] as int == Segment(vertexBegin, vertexCount, i).1
    ensures forall k :: 0 <= k < indices.Length && k != 2 * (vertexBegin + i) && k != 2 * (vertexBegin + i) + 1 ==>
      indices[k] == old(indices[k])
  {
    var globalIndex := i + vertexBegin;
    if i < vertexCount - 1 {
      indices[2 * globalIndex] := globalIndex as uint16;
      indices[2 * globalIndex + 1] := (globalIndex + 1) as uint16;
    } else {
      indices[2 * globalIndex] := globalIndex as uint16;
      indices[2 * globalIndex + 1] := vertexBegin as uint16;
    }
  }

  /** The position write of vertex i: positions[g] when axis is 0, 1 or 2, and nothing else. */
  method WriteVertex(radius: real, vertexBegin: nat, vertexCount: nat, i: nat, axis: int, shift: Vector3,
                     positions: array<Vector3>, trig: Trig)
    requires i < vertexCount && vertexBegin + vertexCount <= positions.Length
    modifies positions
    ensures 0 <= axis <= 2 ==>
      positions[vertexBegin + i] == CirclePoint(radius, Theta(i, vertexCount, trig), axis, shift, trig)
    ensures forall g :: 0 <= g < positions.Length && !(0 <= axis <= 2 && g == vertexBegin + i) ==>
      positions[g] == old(positions[g])
  {
    var thetaDelta := (i as real) * (1.0 / vertexCount as real) * trig.pi * 2.0;
    var globalIndex := i + vertexBegin;
    assert thetaDelta == Theta(i, vertexCount, trig);
    if axis == 0 {
      positions[globalIndex] := Vector3(shift.x, radius * trig.cos(thetaDelta) + shift.y, radius * trig.sin(thetaDelta) + shift.z);
    } else if axis == 1 {
      positions[globalIndex] := Vector3(radius * trig.cos(thetaDelta) + shift.x, shift.y, radius * trig.sin(thetaDelta) + shift.z);
    } else if axis == 2 {
      positions[globalIndex] := Vector3(radius * trig.cos(thetaDelta) + shift.x, radius * trig.sin(thetaDelta) + shift.y, shift.z);
    }
  }
}
