/** Properties of the density-mapping model: what the built table holds,
    the lookup's exactness at the table nodes, its range and its bounds, and
    the structure of the sum computed by `mass_contribution`. */
module DensityLemmas {
  import opened Numerics
  import opened AxisMapping
  import opened Geometry
  import opened Density

  /** The layout `gridding` leaves: the sentinel slice repeats the last real
      slice below angular index 2N; radial slice 0 and angular index 2N
      hold 0. */
  lemma BuiltTableLayout(d: DensityMapping)
    requires d.Valid() && d.built
    ensures forall i, j, k :: i == RadialSize - 1 && 0 <= j < 2 * N && 0 <= k < 2 * N ==>
      d.table[i, j, k] == d.table[i - 1, j, k]
    ensures forall i, j, k :: 0 <= i < RadialSize && 0 <= j < AngularSize && 0 <= k < AngularSize ==>
      (i == 0 || j == 2 * N || k == 2 * N ==> d.table[i, j, k] == 0.0)
  {
  }

  /** Lookup at a table node: once built, the lookup at the coordinates of
      node (s, j, k) returns that node's value, and 0 at the last polar or
      azimuthal node. */
  lemma InterpolateAtNode(d: DensityMapping, s: int, j: int, k: int)
    requires d.Valid() && d.built
    requires 0 <= s <= RadialTop && 0 <= j <= AngularTop && 0 <= k <= AngularTop
    ensures d.Interpolate(Node(Radial, s), Node(Polar, j), Node(Azimuthal, k)) ==
      Some(if j == AngularTop || k == AngularTop then 0.0 else Expected(d.node, s, j, k))
  {
    MapAxisAtNode(Radial, s);
    MapAxisAtNode(Polar, j);
    MapAxisAtNode(Azimuthal, k);
  }

  /** For coordinates inside the axes the lookup reads only inside the
      table. */
  lemma InterpolateDefined(d: DensityMapping, r: real, mu: real, c: real)
    requires TableShape(d.table)
    requires 0.0 <= r <= 2.0 && 0.0 <= mu <= 1.0 && 0.0 <= c <= 1.0
    ensures d.Interpolate(r, mu, c).Some?
  {
    assert Node(Radial, RadialTop) == 2.0 && Node(Polar, AngularTop) == 1.0;
    MapAxisBounds(Radial, r);
    MapAxisBounds(Polar, mu);
    MapAxisBounds(Azimuthal, c);
  }

  /** The eight table entries around the bin (i, j, k) lie in [lo, hi]. */
  ghost predicate CornersWithin(d: DensityMapping, i: int, j: int, k: int, lo: real, hi: real)
    reads d, d.table
  {
    0 <= i && i + 1 < d.table.Length0 && 0 <= j && j + 1 < d.table.Length1 && 0 <= k && k + 1 < d.table.Length2 &&
    forall a, b, c :: i <= a <= i + 1 && j <= b <= j + 1 && k <= c <= k + 1 ==> lo <= d.table[a, b, c] <= hi
  }

  /** For coordinates inside the axes, the lookup reads only inside the
      table, and its value lies between the smallest and the largest of the
      eight surrounding entries, except at the last polar or azimuthal
      node, where it is 0. */
  lemma InterpolateBetweenCorners(d: DensityMapping, r: real, mu: real, c: real, lo: real, hi: real)
    requires TableShape(d.table)
    requires 0.0 <= r <= 2.0 && 0.0 <= mu <= 1.0 && 0.0 <= c <= 1.0
    requires CornersWithin(d, MapAxis(Radial, r).index, MapAxis(Polar, mu).index, MapAxis(Azimuthal, c).index, lo, hi)
    ensures d.Interpolate(r, mu, c).Some?
    ensures var v := d.Interpolate(r, mu, c).value;
      if mu == 1.0 || c == 1.0 then v == 0.0 else lo <= v <= hi
  {
    AngularTopExactly(mu, c);
    var bi, bj, bk := MapAxis(Radial, r), MapAxis(Polar, mu), MapAxis(Azimuthal, c);
    var i, j, k, t := bi.index, bj.index, bk.index, d.table;
    if j != AngularTop && k != AngularTop {
      TrilinearBetween(bi.frac, bj.frac, bk.frac,
        t[i, j, k], t[i + 1, j, k], t[i, j + 1, k], t[i + 1, j + 1, k],
        t[i, j, k + 1], t[i + 1, j, k + 1], t[i, j + 1, k + 1], t[i + 1, j + 1, k + 1], lo, hi);
    }
  }

  /** For cosines in [0, 1] the lookup lands in the last polar (azimuthal)
      bin exactly when the cosine is 1. */
  lemma AngularTopExactly(mu: real, c: real)
    requires 0.0 <= mu <= 1.0 && 0.0 <= c <= 1.0
    ensures MapAxis(Polar, mu).index == AngularTop <==> mu == 1.0
    ensures MapAxis(Azimuthal, c).index == AngularTop <==> c == 1.0
  {
    assert Node(Polar, AngularTop) == 1.0;
    MapAxisBounds(Polar, mu);
    MapAxisBounds(Azimuthal, c);
  }

  /** The nested blend of `gridded_integral` over eight values in [lo, hi],
      with weights in [0, 1], lies in [lo, hi]. */
  lemma TrilinearBetween(fi: real, fj: real, fk: real,
                         c000: real, c100: real, c010: real, c110: real,
                         c001: real, c101: real, c011: real, c111: real, lo: real, hi: real)
    requires 0.0 <= fi <= 1.0 && 0.0 <= fj <= 1.0 && 0.0 <= fk <= 1.0
    requires lo <= c000 <= hi && lo <= c100 <= hi && lo <= c010 <= hi && lo <= c110 <= hi
    requires lo <= c001 <= hi && lo <= c101 <= hi && lo <= c011 <= hi && lo <= c111 <= hi
    ensures lo <= Blend(fk, Blend(fj, Blend(fi, c111, c011), Blend(fi, c101, c001)),
                            Blend(fj, Blend(fi, c110, c010), Blend(fi, c100, c000))) <= hi
  {
    BlendBetween(fi, c100, c000, lo, hi);
    BlendBetween(fi, c110, c010, lo, hi);
    BlendBetween(fi, c101, c001, lo, hi);
    BlendBetween(fi, c111, c011, lo, hi);
    BlendBetween(fj, Blend(fi, c110, c010), Blend(fi, c100, c000), lo, hi);
    BlendBetween(fj, Blend(fi, c111, c011), Blend(fi, c101, c001), lo, hi);
    BlendBetween(fk, Blend(fj, Blend(fi, c111, c011), Blend(fi, c101, c001)),
                     Blend(fj, Blend(fi, c110, c010), Blend(fi, c100, c000)), lo, hi);
  }

  /** A blend with a weight in [0, 1] of two values in [lo, hi] lies in
      [lo, hi]. */
  lemma BlendBetween(f: real, x: real, y: real, lo: real, hi: real)
    requires 0.0 <= f <= 1.0 && lo <= x <= hi && lo <= y <= hi
    ensures lo <= Blend(f, x, y) <= hi
  {
    BlendWithin(f, x, y);
  }

  /** The polar cosine of a wedge with positive r0 and R_0 is defined and
      lies in (0, 1). */
  lemma PolarCosineInside(m: Maths, r0: real, R0: real)
    requires Sound(m) && 0.0 < r0 && 0.0 < R0
    ensures PolarCosine(m, r0, R0).Some? && 0.0 < PolarCosine(m, r0, R0).value < 1.0
  {
    var q := r0 * r0 + R0 * R0;
    SumOfSquaresPositive(r0, R0);
    SqrtFacts(m, q);
    var s := m.sqrt(q);
    RootOfSumAbove(s, r0, R0);
    RatioBelowOne(r0, s);
    RatioPositive(r0, s);
  }

  /** `gridded_integral` reads only inside the table: for every wedge whose
      azimuthal cosine cos(phi) lies in [0, 1] (or that it returns 0 for
      without reading), the result is defined. */
  lemma GriddedIntegralDefined(d: DensityMapping, m: Maths, phi: real, r0Old: real, R0Old: real, hOld: real)
    requires Sound(m) && TableShape(d.table) && 0.0 < hOld
    requires phi == 0.0 || r0Old <= 0.0 || R0Old <= 0.0 || 0.0 <= m.cos(phi) <= 1.0
    ensures d.GriddedIntegral(m, phi, r0Old, R0Old, hOld).Some?
  {
    forall r0, R0 | 0.0 < r0 && 0.0 < R0
      ensures PolarCosine(m, r0, R0).Some? && 0.0 < PolarCosine(m, r0, R0).value <= 1.0
    {
      PolarCosineInside(m, r0, R0);
    }
    forall r, mu, c | 0.0 <= r <= 2.0 && 0.0 <= mu <= 1.0 && 0.0 <= c <= 1.0
      ensures d.Interpolate(r, mu, c).Some?
    {
      InterpolateDefined(d, r, mu, c);
    }
    if 0.0 < r0Old && 0.0 < R0Old {
      assert 0.0 < r0Old / hOld && 0.0 < R0Old / hOld;
    }
  }

  /** The wedge angles of an edge have cosines in [0, 1): cos(phi1) is
      R_0/r12 and cos(phi2) is R_0/r13 whenever the angle is not 0. */
  lemma WedgeCosines(m: Maths, pl: Plane, v2: Vec, v3: Vec)
    requires Sound(m)
    ensures var e := EdgeGeometryOf(m, pl, v2, v3);
      (e.R0 < e.r12 ==> m.cos(e.phi1) == e.R0 / e.r12 && 0.0 <= e.R0 / e.r12 < 1.0) &&
      (e.R0 < e.r13 ==> m.cos(e.phi2) == e.R0 / e.r13 && 0.0 <= e.R0 / e.r13 < 1.0)
  {
    var e := EdgeGeometryOf(m, pl, v2, v3);
    if e.R0 < e.r12 {
      RatioBelowOne(e.R0, e.r12);
    }
    if e.R0 < e.r13 {
      RatioBelowOne(e.R0, e.r13);
    }
  }

  /** What `Sound` says of one square root. */
  lemma SqrtFacts(m: Maths, x: real)
    requires Sound(m) && 0.0 <= x
    ensures 0.0 <= m.sqrt(x) && m.sqrt(x) * m.sqrt(x) == x && (0.0 < x ==> 0.0 < m.sqrt(x))
  {
  }

  /** The in-plane offset R_0 is never longer than the distance r12 from the
      projected particle to the edge's first vertex it is computed from. */
  lemma OffsetWithinDistance(m: Maths, r12: real, cosa: Option<real>)
    requires Sound(m) && 0.0 <= r12
    ensures Offset(m, r12, cosa) <= r12
  {
    if cosa.Some? && Abs(cosa.value) < 1.0 {
      SineAtMostOne(m, cosa);
      ScaledAtMost(r12, m.sqrt(1.0 - cosa.value * cosa.value));
    }
  }

  /** sqrt(1 - c^2) lies in [0, 1] for |c| < 1. */
  lemma SineAtMostOne(m: Maths, cosa: Option<real>)
    requires Sound(m) && cosa.Some? && Abs(cosa.value) < 1.0
    ensures 0.0 <= m.sqrt(1.0 - cosa.value * cosa.value) <= 1.0
  {
    SquareBelowOne(cosa);
    assert 0.0 <= cosa.value * cosa.value;
    SquareOrder(1.0, m.sqrt(1.0 - cosa.value * cosa.value));
  }

  /** Every edge contribution computed from a built table is defined. */
  lemma EdgeTermDefined(d: DensityMapping, m: Maths, pl: Plane, v2: Vec, v3: Vec, h: real)
    requires Sound(m) && TableShape(d.table) && 0.0 < h && 0.0 <= pl.ar0
    ensures d.EdgeTerm(m, pl, v2, v3, h).Some?
  {
    var e := EdgeGeometryOf(m, pl, v2, v3);
    WedgeCosines(m, pl, v2, v3);
    GriddedIntegralDefined(d, m, e.phi1, pl.ar0, e.R0, h);
    GriddedIntegralDefined(d, m, e.phi2, pl.ar0, e.R0, h);
  }

  /** A sum of defined terms is defined. */
  lemma {:induction false} SumDefined(terms: seq<Option<real>>)
    requires forall u :: 0 <= u < |terms| ==> terms[u].Some?
    ensures Sum(terms).Some?
  {
    if |terms| > 0 {
      SumDefined(terms[..|terms| - 1]);
    }
  }

  /** A sum of zeros is zero. */
  lemma {:induction false} SumOfZeros(terms: seq<Option<real>>)
    requires forall u :: 0 <= u < |terms| ==> terms[u] == Some(0.0)
    ensures Sum(terms) == Some(0.0)
  {
    if |terms| > 0 {
      SumOfZeros(terms[..|terms| - 1]);
    }
  }

  lemma EdgesMassDefined(d: DensityMapping, m: Maths, f: Face, pl: Plane, h: real)
    requires Sound(m) && TableShape(d.table) && 0.0 < h && 0.0 <= pl.ar0
    ensures d.EdgesMass(m, f, pl, |f|, h).Some?
  {
    var terms := d.EdgeTerms(m, f, pl, h);
    d.EdgesMassIsSum(m, f, pl, h, terms);
    forall u | 0 <= u < |f| ensures terms[u].Some? {
      EdgeTermDefined(d, m, pl, f[u], Successor(f, u), h);
    }
    SumDefined(terms);
  }

  /** `mass_contribution` never reads outside a built table: the mass of
      every cell is defined. */
  lemma {:induction false} CellMassDefined(d: DensityMapping, m: Maths, cell: seq<Face>, p: Vec, h: real)
    requires Sound(m) && TableShape(d.table) && 0.0 < h && forall f :: f in cell ==> WellFormedFace(f)
    ensures d.CellMass(m, cell, p, h).Some?
  {
    if |cell| > 0 {
      var last := cell[|cell| - 1];
      CellMassDefined(d, m, cell[..|cell| - 1], p, h);
      EdgesMassDefined(d, m, last, FacePlane(m, last, p), h);
    }
  }

  /** An edge whose plane contains the particle (r0 = 0), or whose offset
      R_0 is 0, contributes exactly 0. */
  lemma EdgeTermZero(d: DensityMapping, m: Maths, pl: Plane, v2: Vec, v3: Vec, h: real)
    requires 0.0 < h
    requires pl.ar0 == 0.0 || EdgeGeometryOf(m, pl, v2, v3).R0 == 0.0
    ensures d.EdgeTerm(m, pl, v2, v3, h) == Some(0.0)
  {
    var e := EdgeGeometryOf(m, pl, v2, v3);
    assert d.GriddedIntegral(m, e.phi1, pl.ar0, e.R0, h) == Some(0.0);
    assert d.GriddedIntegral(m, e.phi2, pl.ar0, e.R0, h) == Some(0.0);
  }

  lemma EdgesMassInPlane(d: DensityMapping, m: Maths, f: Face, pl: Plane, h: real)
    requires 0.0 < h && pl.ar0 == 0.0
    ensures d.EdgesMass(m, f, pl, |f|, h) == Some(0.0)
  {
    var terms := d.EdgeTerms(m, f, pl, h);
    d.EdgesMassIsSum(m, f, pl, h, terms);
    forall u | 0 <= u < |f| ensures terms[u] == Some(0.0) {
      EdgeTermZero(d, m, pl, f[u], Successor(f, u), h);
    }
    SumOfZeros(terms);
  }

  /** A face whose plane contains the particle contributes exactly 0. */
  lemma FaceInPlaneMass(d: DensityMapping, m: Maths, f: Face, p: Vec, h: real)
    requires SqrtPositive(m) && 0.0 < h && WellFormedFace(f)
    requires Dot(Normal(f), Sub(p, f[0])) == 0.0
    ensures d.FaceMass(m, f, p, h) == Some(0.0)
  {
    EdgesMassInPlane(d, m, f, FacePlane(m, f, p), h);
  }

  /** The mass of a cell is the sum of the masses of any split of its faces
      into a first and a second part. */
  lemma {:induction false} CellMassAppend(d: DensityMapping, m: Maths, a: seq<Face>, b: seq<Face>, p: Vec, h: real)
    requires SqrtPositive(m) && 0.0 < h && forall f :: f in a + b ==> WellFormedFace(f)
    ensures d.CellMass(m, a + b, p, h) == Plus(d.CellMass(m, a, p, h), d.CellMass(m, b, p, h))
  {
    if |b| == 0 {
      assert a + b == a;
    } else {
      var b' := b[..|b| - 1];
      assert (a + b)[..|a + b| - 1] == a + b';
      assert (a + b)[|a + b| - 1] == b[|b| - 1];
      CellMassAppend(d, m, a, b', p, h);
      PlusAssociative(d.CellMass(m, a, p, h), d.CellMass(m, b', p, h), d.FaceMass(m, b[|b| - 1], p, h));
    }
  }
}
