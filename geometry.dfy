/** The per-face and per-edge geometry of `DensityMapping::mass_contribution`
    (DensityMapping.hpp:488-627): the plane through a face's first three
    vertices, the particle's signed distance to it and its projection onto
    it, and for each edge the distances, the in-plane offset R_0, the two
    wedge angles and the orientation volume s1. */
module Geometry {
  import opened Numerics

  datatype Vec = Vec(x: real, y: real, z: real)

  /** A face of a cell: its vertices in the cell's winding order. */
  type Face = seq<Vec>

  function Sub(a: Vec, b: Vec): Vec { Vec(a.x - b.x, a.y - b.y, a.z - b.z) }

  function Dot(a: Vec, b: Vec): real { a.x * b.x + a.y * b.y + a.z * b.z }

  function Cross(a: Vec, b: Vec): Vec {
    Vec(a.y * b.z - a.z * b.y, a.z * b.x - a.x * b.z, a.x * b.y - a.y * b.x)
  }

  /** `CoordinateVector::norm`. */
  function Norm(m: Maths, v: Vec): real { m.sqrt(Dot(v, v)) }

  /** The signed volume a . (b x c), as `s1` and `s2` are computed. */
  function Triple(a: Vec, b: Vec, c: Vec): real {
    a.x * (b.y * c.z - b.z * c.y) + a.y * (b.z * c.x - b.x * c.z) + a.z * (b.x * c.y - b.y * c.x)
  }

  /** Normal (A, B, C) of the plane through the first three vertices. */
  function Normal(f: Face): Vec
    requires |f| >= 3
  {
    Cross(Sub(f[1], f[0]), Sub(f[2], f[0]))
  }

  /** A face the source can fit a plane to: at least three vertices, the
      first three not collinear. */
  predicate WellFormedFace(f: Face) {
    |f| >= 3 && Dot(Normal(f), Normal(f)) > 0.0
  }

  /** What the first vertex iteration of a face computes: the first vertex,
      the signed distance r0 of the particle to the face's plane, its
      magnitude ar0, the projected particle and the orientation volume s2. */
  datatype Plane = Plane(v1: Vec, r0: real, ar0: real, proj: Vec, s2: real)

  function FacePlane(m: Maths, f: Face, p: Vec): (pl: Plane)
    requires SqrtPositive(m) && WellFormedFace(f)
    ensures pl.v1 == f[0] && pl.ar0 == Abs(pl.r0) && 0.0 <= pl.ar0
    ensures pl.r0 == 0.0 <==> Dot(Normal(f), Sub(p, f[0])) == 0.0
  {
    var n := Normal(f);
    var d := -n.x * f[0].x - n.y * f[0].y - n.z * f[0].z;
    var norm := m.sqrt(n.x * n.x + n.y * n.y + n.z * n.z);
    var num := n.x * p.x + n.y * p.y + n.z * p.z + d;
    assert num == Dot(n, Sub(p, f[0]));
    assert 0.0 < norm by { assert n.x * n.x + n.y * n.y + n.z * n.z == Dot(n, n); }
    var r0 := num / norm;
    assert r0 == 0.0 <==> num == 0.0 by {
      if r0 == 0.0 { assert num == r0 * norm; }
    }
    var proj := Vec(p.x - r0 * n.x / norm, p.y - r0 * n.y / norm, p.z - r0 * n.z / norm);
    Plane(f[0], r0, Abs(r0), proj, Triple(f[0], f[1], f[2]))
  }

  /** The quantities computed for one edge (v2, v3) of a face. `cosa` is
      None where the source divides 0 by 0 (an endpoint coincides with the
      projected particle, or the edge has length 0). */
  datatype EdgeGeometry = EdgeGeometry(
    r23: real, r12: real, r13: real, cosa: Option<real>,
    R0: real, s1: real, phi1: real, phi2: real)

  function EdgeGeometryOf(m: Maths, pl: Plane, v2: Vec, v3: Vec): (e: EdgeGeometry)
    ensures 0.0 <= e.R0 && 0.0 <= e.r12 && 0.0 <= e.r13 && 0.0 <= e.r23
    ensures (e.cosa.None? || Abs(e.cosa.value) >= 1.0) ==> e.R0 == 0.0
    ensures !(e.R0 < e.r12) ==> e.phi1 == 0.0
    ensures !(e.R0 < e.r13) ==> e.phi2 == 0.0
  {
    var r23 := Norm(m, Sub(v2, v3));
    var r12 := Norm(m, Sub(pl.proj, v2));
    var r13 := Norm(m, Sub(pl.proj, v3));
    var dot := Dot(Sub(v3, v2), Sub(pl.proj, v2));
    var cosa := if r12 != 0.0 && r23 != 0.0 then Some(dot / r12 / r23) else None;
    var R0 := Offset(m, r12, cosa);
    var s1 := Triple(pl.proj, v2, v3);
    var phi1 := if R0 < r12 then m.acos(R0 / r12) else 0.0;
    var phi2 := if R0 < r13 then m.acos(R0 / r13) else 0.0;
    EdgeGeometry(r23, r12, r13, cosa, R0, s1, phi1, phi2)
  }

  /** R_0 = r12 sqrt(1 - cosa^2), the distance from the projected particle
      to the line of the edge; 0 where cosa is undefined or |cosa| >= 1. */
  function Offset(m: Maths, r12: real, cosa: Option<real>): (R0: real)
    requires 0.0 <= r12
    ensures 0.0 <= R0
    ensures (cosa.None? || Abs(cosa.value) >= 1.0) ==> R0 == 0.0
  {
    if cosa.Some? && Abs(cosa.value) < 1.0 then
      SquareBelowOne(cosa);
      r12 * m.sqrt(1.0 - cosa.value * cosa.value)
    else 0.0
  }

  lemma SquareBelowOne(c: Option<real>)
    requires c.Some? && Abs(c.value) < 1.0
    ensures c.value * c.value < 1.0
  {
    assert c.value * c.value == Abs(c.value) * Abs(c.value) <= Abs(c.value);
  }

  /** The edge combination test: the foot of R_0 lies outside the edge. */
  predicate FootOutside(m: Maths, e: EdgeGeometry) {
    e.r12 * m.sin(e.phi1) >= e.r23 || e.r13 * m.sin(e.phi2) >= e.r23
  }

  /** The sign of an edge's contribution. */
  function EdgeSign(pl: Plane, e: EdgeGeometry): real {
    if e.s1 * pl.s2 * pl.r0 <= 0.0 then -1.0 else 1.0
  }
}
