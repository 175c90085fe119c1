/** The discrete layer of the density-mapping engine (DensityMapping.hpp):
    the lookup table of wedge integrals built by `gridding`, the
    interpolated evaluator `gridded_integral` that reads it, and
    `mass_contribution`, which walks the faces and edges of a cell and sums
    signed interpolated wedge integrals.

    The closed-form `full_integral` is not part of this model. The value
    `gridding` stores at a node is given by a parameter
    `nodeIntegral(r0, mu0, cphi)`: the wedge integral at radial distance r0,
    polar cosine mu0 and azimuthal cosine cphi (the source passes
    phi = acos(cphi) and R_0 = r0 sqrt(1 - mu0^2) / mu0 to `full_integral`). */
module Density {
  import opened Numerics
  import opened AxisMapping
  import opened Geometry

  /** Radial slices of the table: NR1 + NR2 real slices, slice 0 and the
      sentinel slice. */
  const RadialSize: int := NR1 + NR2 + 2
  /** Nodes along each angular axis of the table. */
  const AngularSize: int := 2 * N + 1
  /** `gridding` works in units of the smoothing length. */
  const H: real := 1.0

  predicate TableShape(t: array3<real>) {
    t.Length0 == RadialSize && t.Length1 == AngularSize && t.Length2 == AngularSize
  }

  /** The value `gridding` leaves at table position (i, j, k): the node value
      for radial slices 1 .. NR1 + NR2 and the sentinel slice (a copy of the
      last real slice), at polar and azimuthal indices below 2N; 0 in radial
      slice 0 and at angular index 2N. */
  ghost function Expected(nodeIntegral: (real, real, real) -> real, i: int, j: int, k: int): real {
    if 1 <= i < RadialSize && 0 <= j < 2 * N && 0 <= k < 2 * N then
      var s := if i == RadialSize - 1 then RadialTop else i;
      nodeIntegral(Node(Radial, s), Node(Polar, j), Node(Azimuthal, k))
    else 0.0
  }

  /** The positions of the table `gridding` writes: slices 1 .. last and the
      first `rows` polar rows of the sentinel slice, at angular indices
      below 2N. */
  ghost predicate Written(a: int, b: int, c: int, last: int, rows: int) {
    0 <= b < 2 * N && 0 <= c < 2 * N && (1 <= a <= last || (a == RadialSize - 1 && b < rows))
  }

  class DensityMapping {
    /** `_density_values`. */
    var table: array3<real>
    /** Whether `gridding` has filled the table, and with which node values. */
    ghost var built: bool
    ghost var node: (real, real, real) -> real
    /** The table positions `gridding` wrote, with their multiplicity. */
    ghost var writes: multiset<(int, int, int)>

    /** Once built, the table has its fixed shape and holds `Expected`. */
    ghost predicate Valid()
      reads this, table
    {
      built ==>
        TableShape(table) &&
        forall i, j, k :: 0 <= i < RadialSize && 0 <= j < AngularSize && 0 <= k < AngularSize ==>
          table[i, j, k] == Expected(node, i, j, k)
    }

    /** Before `gridding` the table is empty. */
    constructor ()
      ensures Valid() && !built && table.Length0 == 0
    {
      table := new real[0, 0, 0];
      built := false;
      writes := multiset{};
    }

    /** Progress of `gridding`: the positions `Written(.., last, rows)` hold
        their final value and were written once; the rest is zero and
        unwritten. */
    ghost predicate Filled(nodeIntegral: (real, real, real) -> real, last: int, rows: int)
      reads this, table
    {
      TableShape(table) &&
      (forall a, b, c :: 0 <= a < RadialSize && 0 <= b < AngularSize && 0 <= c < AngularSize ==>
        table[a, b, c] == if Written(a, b, c, last, rows) then Expected(nodeIntegral, a, b, c) else 0.0) &&
      (forall a, b, c :: writes[(a, b, c)] == if Written(a, b, c, last, rows) then 1 else 0)
    }

    /** `gridding`: allocates the zero-filled table, fills the NR1 slices of
        the dense radial segment and the NR2 slices of the coarse one, and
        copies the last slice into the sentinel slice. Every position of
        slices 1 .. NR1 + NR2 + 1 at angular indices below 2N is written
        exactly once; slice 0 and angular index 2N are never written. */
    method Gridding(nodeIntegral: (real, real, real) -> real)
      modifies this
      ensures Valid() && built && node == nodeIntegral && fresh(table)
      ensures forall a, b, c :: (writes[(a, b, c)] ==
        if 1 <= a < RadialSize && 0 <= b < 2 * N && 0 <= c < 2 * N then 1 else 0)
    {
      table := new real[RadialSize, AngularSize, AngularSize]((_, _, _) => 0.0);
      writes := multiset{};
      FillRadialSegments(nodeIntegral);
      CopySentinelSlice(nodeIntegral);
      built := true;
      node := nodeIntegral;
      FilledIsFinal();
    }

    /** Once the sentinel slice is copied, the table holds `Expected` and the
        positions written are exactly those of slices 1 .. NR1 + NR2 + 1 at
        angular indices below 2N. */
    lemma FilledIsFinal()
      requires Filled(node, NR1 + NR2, 2 * N) && built
      ensures Valid()
      ensures forall a, b, c :: (writes[(a, b, c)] ==
        if 1 <= a < RadialSize && 0 <= b < 2 * N && 0 <= c < 2 * N then 1 else 0)
    {
    }

    /** The two radial loops of `gridding`: slices 1 .. NR1 at r0 = s RL/NR1,
        then slices NR1 + 1 .. NR1 + NR2 at r0 = RL + i (2 - RL)/NR2. */
    method FillRadialSegments(nodeIntegral: (real, real, real) -> real)
      requires Filled(nodeIntegral, 0, 0)
      modifies table, this`writes
      ensures Filled(nodeIntegral, NR1 + NR2, 0)
    {
      var i := 0;
      while i < NR1
        invariant 0 <= i <= NR1
        invariant Filled(nodeIntegral, i, 0)
      {
        var r0 := (RL / NR1 as real) * (i + 1) as real * H;
        assert r0 == Node(Radial, i + 1);
        FillNextSlice(i + 1, r0, nodeIntegral);
        i := i + 1;
      }
      i := 1;
      while i <= NR2
        invariant 1 <= i <= NR2 + 1
        invariant Filled(nodeIntegral, NR1 + i - 1, 0)
      {
        var r0 := RL + ((2.0 - RL) / NR2 as real) * i as real * H;
        assert r0 == Node(Radial, NR1 + i);
        FillNextSlice(NR1 + i, r0, nodeIntegral);
        i := i + 1;
      }
    }

    /** The last loop of `gridding`: slice NR1 + NR2 + 1 receives slice
        NR1 + NR2 at polar and azimuthal indices below 2N. */
    method CopySentinelSlice(ghost nodeIntegral: (real, real, real) -> real)
      requires Filled(nodeIntegral, NR1 + NR2, 0)
      modifies table, this`writes
      ensures Filled(nodeIntegral, NR1 + NR2, 2 * N)
    {
      var j := 0;
      while j < 2 * N
        invariant 0 <= j <= 2 * N
        invariant Filled(nodeIntegral, NR1 + NR2, j)
      {
        CopyToSentinel(j, nodeIntegral);
        j := j + 1;
      }
    }

    /** Filling slice s, at the radial node r0 of that slice, extends the
        filled part of the table by that slice. */
    method FillNextSlice(s: int, r0: real, nodeIntegral: (real, real, real) -> real)
      requires 1 <= s <= NR1 + NR2 && r0 == Node(Radial, s) && Filled(nodeIntegral, s - 1, 0)
      modifies table, this`writes
      ensures Filled(nodeIntegral, s, 0)
    {
      FillSlice(s, r0, nodeIntegral);
    }

    /** One radial slice of `gridding`: the N polar rows of the dense polar
        segment, then the N rows of the coarse one. */
    method FillSlice(s: int, r0: real, nodeIntegral: (real, real, real) -> real)
      requires TableShape(table) && 1 <= s < RadialSize - 1
      modifies table, this`writes
      ensures forall a, b, c :: 0 <= a < RadialSize && 0 <= b < AngularSize && 0 <= c < AngularSize ==>
        table[a, b, c] ==
          if a == s && b < 2 * N && c < 2 * N then nodeIntegral(r0, Node(Polar, b), Node(Azimuthal, c))
          else old(table[a, b, c])
      ensures forall a, b, c :: (writes[(a, b, c)] ==
        old(writes)[(a, b, c)] + if a == s && 0 <= b < 2 * N && 0 <= c < 2 * N then 1 else 0)
    {
      var j := 0;
      while j < N
        invariant 0 <= j <= N
        invariant forall a, b, c :: 0 <= a < RadialSize && 0 <= b < AngularSize && 0 <= c < AngularSize ==>
          table[a, b, c] ==
            if a == s && b < j && c < 2 * N then nodeIntegral(r0, Node(Polar, b), Node(Azimuthal, c))
            else old(table[a, b, c])
        invariant forall a, b, c :: (writes[(a, b, c)] ==
          old(writes)[(a, b, c)] + if a == s && 0 <= b < j && 0 <= c < 2 * N then 1 else 0)
      {
        var mu0 := (MUL / (N - 1) as real) * j as real;
        assert mu0 == Node(Polar, j);
        FillRow(s, j, r0, mu0, nodeIntegral);
        j := j + 1;
      }
      j := 1;
      while j <= N
        invariant 1 <= j <= N + 1
        invariant forall a, b, c :: 0 <= a < RadialSize && 0 <= b < AngularSize && 0 <= c < AngularSize ==>
          table[a, b, c] ==
            if a == s && b < N + j - 1 && c < 2 * N then nodeIntegral(r0, Node(Polar, b), Node(Azimuthal, c))
            else old(table[a, b, c])
        invariant forall a, b, c :: (writes[(a, b, c)] ==
          old(writes)[(a, b, c)] + if a == s && 0 <= b < N + j - 1 && 0 <= c < 2 * N then 1 else 0)
      {
        var mu0 := MUL + ((1.0 - MUL) / N as real) * j as real;
        assert mu0 == Node(Polar, N + j - 1);
        FillRow(s, N + j - 1, r0, mu0, nodeIntegral);
        j := j + 1;
      }
    }

    /** One polar row of one radial slice: the N azimuthal nodes of the dense
        segment at indices 0 .. N-1, then the N of the coarse one at
        N .. 2N-1. */
    method FillRow(s: int, j: int, r0: real, mu0: real, nodeIntegral: (real, real, real) -> real)
      requires TableShape(table) && 0 <= s < RadialSize && 0 <= j < AngularSize
      modifies table, this`writes
      ensures forall a, b, c :: 0 <= a < RadialSize && 0 <= b < AngularSize && 0 <= c < AngularSize ==>
        table[a, b, c] ==
          if a == s && b == j && c < 2 * N then nodeIntegral(r0, mu0, Node(Azimuthal, c))
          else old(table[a, b, c])
      ensures forall a, b, c :: (writes[(a, b, c)] ==
        old(writes)[(a, b, c)] + if a == s && b == j && 0 <= c < 2 * N then 1 else 0)
    {
      var k := 0;
      while k < N
        invariant 0 <= k <= N
        invariant forall a, b, c :: 0 <= a < RadialSize && 0 <= b < AngularSize && 0 <= c < AngularSize ==>
          table[a, b, c] ==
            if a == s && b == j && c < k then nodeIntegral(r0, mu0, Node(Azimuthal, c))
            else old(table[a, b, c])
        invariant forall a, b, c :: (writes[(a, b, c)] ==
          old(writes)[(a, b, c)] + if a == s && b == j && 0 <= c < k then 1 else 0)
      {
        var cphi := (CPHIL / (N - 1) as real) * k as real;
        assert cphi == Node(Azimuthal, k);
        table[s, j, k] := nodeIntegral(r0, mu0, cphi);
        writes := writes + multiset{(s, j, k)};
        k := k + 1;
      }
      k := 1;
      while k <= N
        invariant 1 <= k <= N + 1
        invariant forall a, b, c :: 0 <= a < RadialSize && 0 <= b < AngularSize && 0 <= c < AngularSize ==>
          table[a, b, c] ==
            if a == s && b == j && c < N + k - 1 then nodeIntegral(r0, mu0, Node(Azimuthal, c))
            else old(table[a, b, c])
        invariant forall a, b, c :: (writes[(a, b, c)] ==
          old(writes)[(a, b, c)] + if a == s && b == j && 0 <= c < N + k - 1 then 1 else 0)
      {
        var cphi := CPHIL + ((1.0 - CPHIL) / N as real) * k as real;
        assert cphi == Node(Azimuthal, N + k - 1);
        table[s, j, N + k - 1] := nodeIntegral(r0, mu0, cphi);
        writes := writes + multiset{(s, j, N + k - 1)};
        k := k + 1;
      }
    }

    /** Polar row j of the sentinel copy: slice NR1 + NR2 + 1 receives slice
        NR1 + NR2 at azimuthal indices below 2N. */
    method CopyToSentinel(j: int, ghost nodeIntegral: (real, real, real) -> real)
      requires 0 <= j < 2 * N && Filled(nodeIntegral, NR1 + NR2, j)
      modifies table, this`writes
      ensures Filled(nodeIntegral, NR1 + NR2, j + 1)
    {
      var i := NR1 + NR2;
      var k := 0;
      while k < 2 * N
        invariant 0 <= k <= 2 * N
        invariant forall a, b, c :: 0 <= a < RadialSize && 0 <= b < AngularSize && 0 <= c < AngularSize ==>
          table[a, b, c] ==
            if Written(a, b, c, NR1 + NR2, j) || (a == i + 1 && b == j && c < k)
            then Expected(nodeIntegral, a, b, c) else 0.0
        invariant forall a, b, c :: (writes[(a, b, c)] ==
          if Written(a, b, c, NR1 + NR2, j) || (a == i + 1 && b == j && 0 <= c < k) then 1 else 0)
      {
        table[i + 1, j, k] := table[i, j, k];
        writes := writes + multiset{(i + 1, j, k)};
        k := k + 1;
      }
    }

    /** `get_gridded_density_value`: once built, the entry at (i, j, k) is the
        node value of that position (or 0 where `gridding` writes nothing). */
    function GetGriddedDensityValue(i: int, j: int, k: int): (v: real)
      requires 0 <= i < table.Length0 && 0 <= j < table.Length1 && 0 <= k < table.Length2
      reads this, table
      ensures Valid() && built ==> v == Expected(node, i, j, k)
    {
      table[i, j, k]
    }

    /** The index arithmetic and nested linear blend of `gridded_integral`
        for normalised coordinates r (radial, already clamped to 2), mu
        (polar cosine) and c (azimuthal cosine). None stands for a read
        outside the table, which the source only reports. At a table node
        (all three fractions 0) the value is the stored entry, and it is
        forced to 0 in the last polar or azimuthal bin. */
    function Interpolate(r: real, mu: real, c: real): (v: Option<real>)
      reads this, table
      ensures var bi, bj, bk := MapAxis(Radial, r), MapAxis(Polar, mu), MapAxis(Azimuthal, c);
        var i, j, k := bi.index, bj.index, bk.index;
        (v.Some? <==> 0 <= i && i + 1 < table.Length0 && 0 <= j && j + 1 < table.Length1 &&
                      0 <= k && k + 1 < table.Length2) &&
        (v.Some? && (j == AngularTop || k == AngularTop) ==> v.value == 0.0) &&
        (v.Some? && j != AngularTop && k != AngularTop && bi.frac == 0.0 && bj.frac == 0.0 && bk.frac == 0.0 ==>
           v.value == table[i, j, k])
    {
      var bi := MapAxis(Radial, r);
      var bj := MapAxis(Polar, mu);
      var bk := MapAxis(Azimuthal, c);
      var i := bi.index;
      var j := bj.index;
      var k := bk.index;
      if !(0 <= i && i + 1 < table.Length0 && 0 <= j && j + 1 < table.Length1 && 0 <= k && k + 1 < table.Length2)
      then None
      else
        var fx1 := Blend(bi.frac, table[i + 1, j, k], table[i, j, k]);
        var fx2 := Blend(bi.frac, table[i + 1, j + 1, k], table[i, j + 1, k]);
        var fx3 := Blend(bi.frac, table[i + 1, j, k + 1], table[i, j, k + 1]);
        var fx4 := Blend(bi.frac, table[i + 1, j + 1, k + 1], table[i, j + 1, k + 1]);
        var fy1 := Blend(bj.frac, fx2, fx1);
        var fy2 := Blend(bj.frac, fx4, fx3);
        var fz := Blend(bk.frac, fy2, fy1);
        Some(if j == AngularTop || k == AngularTop then 0.0 else fz)
    }

    /** `gridded_integral(phi, r0_old, R_0_old, h_old)`: normalises by h,
        clamps negative distances to 0, returns 0 for a degenerate wedge,
        computes mu0 from the unclamped r0, clamps r0 to 2 and interpolates. */
    function GriddedIntegral(m: Maths, phi: real, r0Old: real, R0Old: real, hOld: real): (v: Option<real>)
      requires 0.0 < hOld
      reads this, table
      ensures phi == 0.0 || r0Old <= 0.0 || R0Old <= 0.0 ==> v == Some(0.0)
    {
      var r0 := r0Old / hOld;
      var R0 := R0Old / hOld;
      var cphi := m.cos(phi);
      var r0 := if r0 < 0.0 then 0.0 else r0;
      var R0 := if R0 < 0.0 then 0.0 else R0;
      if r0 == 0.0 || R0 == 0.0 || phi == 0.0 then Some(0.0)
      else
        var mu0 := PolarCosine(m, r0, R0);
        var r0 := if r0 > 2.0 then 2.0 else r0;
        if mu0.None? then None else Interpolate(r0, mu0.value, cphi)
    }

    /** The signed contribution of the edge (v2, v3) of a face with plane
        `pl`, for a particle with smoothing length h: defined exactly when
        both wedge integrals are, and of the magnitude of their difference
        when the foot of the perpendicular lies outside the edge, of their
        sum otherwise; only its sign comes from the orientation. */
    function EdgeTerm(m: Maths, pl: Plane, v2: Vec, v3: Vec, h: real): (t: Option<real>)
      requires 0.0 < h
      reads this, table
      ensures var e := EdgeGeometryOf(m, pl, v2, v3);
        var g1, g2 := GriddedIntegral(m, e.phi1, pl.ar0, e.R0, h), GriddedIntegral(m, e.phi2, pl.ar0, e.R0, h);
        (t.Some? <==> g1.Some? && g2.Some?) &&
        (t.Some? ==> Abs(t.value) == if FootOutside(m, e) then Abs(g1.value - g2.value) else Abs(g1.value + g2.value))
    {
      var e := EdgeGeometryOf(m, pl, v2, v3);
      var g1 := GriddedIntegral(m, e.phi1, pl.ar0, e.R0, h);
      var g2 := GriddedIntegral(m, e.phi2, pl.ar0, e.R0, h);
      var value :=
        if FootOutside(m, e) then (if e.phi1 >= e.phi2 then Minus(g1, g2) else Minus(g2, g1))
        else Plus(g1, g2);
      Times(EdgeSign(pl, e), value)
    }

    /** The sum of the contributions of edges 0 .. t-1 of face f; edge u runs
        from vertex u to vertex u + 1, the last one back to vertex 0. */
    function EdgesMass(m: Maths, f: Face, pl: Plane, t: int, h: real): Option<real>
      requires 0.0 < h && 0 <= t <= |f|
      reads this, table
    {
      if t == 0 then Some(0.0)
      else Plus(EdgesMass(m, f, pl, t - 1, h), EdgeTerm(m, pl, f[t - 1], Successor(f, t - 1), h))
    }

    /** `terms` lists, in vertex order, the contributions of the first
        |terms| edges of face f with plane `pl`. The quantifier fires only on
        EdgeTerm itself, so a context that merely carries this fact does not
        unfold the edge computation. */
    ghost predicate EdgeTermsOf(terms: seq<Option<real>>, m: Maths, f: Face, pl: Plane, h: real)
      reads this, table
    {
      0.0 < h && |terms| <= |f| &&
      forall u {:trigger EdgeTerm(m, pl, f[u], Successor(f, u), h)} :: 0 <= u < |terms| ==>
        terms[u] == EdgeTerm(m, pl, f[u], Successor(f, u), h)
    }

    /** The contributions of the edges of face f, in vertex order. */
    ghost function EdgeTerms(m: Maths, f: Face, pl: Plane, h: real): (terms: seq<Option<real>>)
      requires 0.0 < h
      reads this, table
      ensures |terms| == |f| && EdgeTermsOf(terms, m, f, pl, h)
    {
      seq(|f|, u requires 0 <= u < |f| reads this, table => EdgeTerm(m, pl, f[u], Successor(f, u), h))
    }

    /** EdgesMass is the running sum of any sequence holding the edge
        contributions in vertex order. */
    lemma {:induction false} EdgesMassIsSum(m: Maths, f: Face, pl: Plane, h: real, terms: seq<Option<real>>)
      requires EdgeTermsOf(terms, m, f, pl, h)
      ensures EdgesMass(m, f, pl, |terms|, h) == Sum(terms)
    {
      if |terms| > 0 {
        var n := |terms| - 1;
        assert EdgeTermsOf(terms[..n], m, f, pl, h) by {
          forall u | 0 <= u < n ensures terms[..n][u] == EdgeTerm(m, pl, f[u], Successor(f, u), h) {
            assert terms[..n][u] == terms[u];
          }
        }
        EdgesMassIsSum(m, f, pl, h, terms[..n]);
        assert terms[n] == EdgeTerm(m, pl, f[n], Successor(f, n), h);
      }
    }

    /** `masses` lists, in order, the masses of the first |masses| faces of
        `cell`; as with EdgeTermsOf, the quantifier fires only on FaceMass. */
    ghost predicate FaceMassesOf(masses: seq<Option<real>>, m: Maths, cell: seq<Face>, p: Vec, h: real)
      reads this, table
    {
      SqrtPositive(m) && 0.0 < h && (forall f :: f in cell ==> WellFormedFace(f)) &&
      |masses| <= |cell| &&
      forall u {:trigger FaceMass(m, cell[u], p, h)} :: 0 <= u < |masses| ==>
        masses[u] == FaceMass(m, cell[u], p, h)
    }

    /** The masses of the faces of a cell, in order. */
    ghost function FaceMasses(m: Maths, cell: seq<Face>, p: Vec, h: real): (masses: seq<Option<real>>)
      requires SqrtPositive(m) && 0.0 < h && forall f :: f in cell ==> WellFormedFace(f)
      reads this, table
      ensures |masses| == |cell| && FaceMassesOf(masses, m, cell, p, h)
    {
      seq(|cell|, u requires 0 <= u < |cell| reads this, table => FaceMass(m, cell[u], p, h))
    }

    /** CellMass is the running sum of any sequence holding the face masses
        in order. */
    lemma {:induction false} CellMassIsSum(m: Maths, cell: seq<Face>, p: Vec, h: real, masses: seq<Option<real>>)
      requires FaceMassesOf(masses, m, cell, p, h) && |masses| == |cell|
      ensures CellMass(m, cell, p, h) == Sum(masses)
    {
      if |cell| > 0 {
        var n := |cell| - 1;
        assert FaceMassesOf(masses[..n], m, cell[..n], p, h) by {
          forall u | 0 <= u < n ensures masses[..n][u] == FaceMass(m, cell[..n][u], p, h) {
            assert masses[..n][u] == masses[u] && cell[..n][u] == cell[u];
          }
        }
        CellMassIsSum(m, cell[..n], p, h, masses[..n]);
        assert masses[n] == FaceMass(m, cell[n], p, h);
      }
    }

    /** The mass of face i is the sum of its edge contributions. */
    lemma FaceMassIsSum(m: Maths, cell: seq<Face>, i: int, p: Vec, h: real, masses: seq<Option<real>>, pl: Plane, terms: seq<Option<real>>)
      requires FaceMassesOf(masses, m, cell, p, h) && 0 <= i < |masses|
      requires pl == FacePlane(m, cell[i], p)
      requires EdgeTermsOf(terms, m, cell[i], pl, h) && |terms| == |cell[i]|
      ensures masses[i] == Sum(terms)
    {
      assert masses[i] == FaceMass(m, cell[i], p, h);
      EdgesMassIsSum(m, cell[i], pl, h, terms);
    }

    function FaceMass(m: Maths, f: Face, p: Vec, h: real): Option<real>
      requires SqrtPositive(m) && 0.0 < h && WellFormedFace(f)
      reads this, table
    {
      EdgesMass(m, f, FacePlane(m, f, p), |f|, h)
    }

    /** The sum over the faces of a cell, in order. */
    function CellMass(m: Maths, cell: seq<Face>, p: Vec, h: real): Option<real>
      requires SqrtPositive(m) && 0.0 < h && forall f :: f in cell ==> WellFormedFace(f)
      reads this, table
    {
      if |cell| == 0 then Some(0.0)
      else Plus(CellMass(m, cell[..|cell| - 1], p, h), FaceMass(m, cell[|cell| - 1], p, h))
    }

    /** `mass_contribution(cell, particle, h)`: for every face, the plane
        through its first three vertices is fitted at the first vertex; for
        every edge (the last vertex pairing with the first) the sign and the
        add-or-subtract rule combine two interpolated wedge integrals, and
        the results are summed. None if a table read fell outside the table. */
    method MassContribution(m: Maths, cell: seq<Face>, particle: Vec, h: real) returns (msum: Option<real>)
      requires SqrtPositive(m) && 0.0 < h && forall f :: f in cell ==> WellFormedFace(f)
      ensures msum == CellMass(m, cell, particle, h)
    {
      ghost var masses := FaceMasses(m, cell, particle, h);
      msum := Some(0.0);
      var i := 0;
      while i < |cell|
        invariant 0 <= i <= |cell|
        invariant msum == Sum(masses[..i])
      {
        var faceSum := FaceContribution(m, cell, i, particle, h, masses);
        assert masses[..i + 1][..i] == masses[..i];
        msum := Plus(msum, faceSum);
        i := i + 1;
      }
      assert masses[..|cell|] == masses;
      CellMassIsSum(m, cell, particle, h, masses);
    }

    /** Face i of the cell in `mass_contribution`, whose mass is masses[i]:
        the plane through its first three vertices, then the vertex loop.
        The source fits the plane in the iteration of the first vertex,
        before that iteration's edge is processed; here it is fitted just
        before the loop, which computes the same values. */
    method FaceContribution(m: Maths, cell: seq<Face>, i: int, particle: Vec, h: real, ghost masses: seq<Option<real>>)
      returns (fsum: Option<real>)
      requires FaceMassesOf(masses, m, cell, particle, h) && 0 <= i < |masses|
      ensures fsum == masses[i]
    {
      var face := cell[i];
      var pl := FacePlane(m, face, particle);
      ghost var terms := EdgeTerms(m, face, pl, h);
      fsum := EdgesContribution(m, face, pl, h, terms);
      FaceMassIsSum(m, cell, i, particle, h, masses, pl, terms);
    }

    /** The vertex loop of `mass_contribution` for one face with plane `pl`,
        whose edge contributions are `terms`: they are summed in vertex
        order. */
    method EdgesContribution(m: Maths, face: Face, pl: Plane, h: real, ghost terms: seq<Option<real>>)
      returns (fsum: Option<real>)
      requires EdgeTermsOf(terms, m, face, pl, h) && |terms| == |face| && 0 < |face| && pl.v1 == face[0]
      ensures fsum == Sum(terms)
    {
      fsum := Some(0.0);
      var j := 0;
      while j < |face|
        invariant 0 <= j <= |face|
        invariant fsum == Sum(terms[..j])
      {
        var term := EdgeContribution(m, pl, face, j, h, terms);
        assert terms[..j + 1][..j] == terms[..j];
        fsum := Plus(fsum, term);
        j := j + 1;
      }
      assert terms[..|face|] == terms;
    }

    /** One iteration of the vertex loop: the contribution of edge j, from
        vertex j to the next one (the last vertex pairs with the first). */
    method EdgeContribution(m: Maths, pl: Plane, face: Face, j: int, h: real, ghost terms: seq<Option<real>>)
      returns (term: Option<real>)
      requires EdgeTermsOf(terms, m, face, pl, h) && 0 <= j < |terms| && pl.v1 == face[0]
      ensures term == terms[j]
    {
      var v2 := face[j];
      var v3 := if j + 1 == |face| then pl.v1 else face[j + 1];
      var e := EdgeGeometryOf(m, pl, v2, v3);
      var M := EdgeSign(pl, e);
      var g1 := GriddedIntegral(m, e.phi1, pl.ar0, e.R0, h);
      var g2 := GriddedIntegral(m, e.phi2, pl.ar0, e.R0, h);
      var value: Option<real>;
      if FootOutside(m, e) {
        if e.phi1 >= e.phi2 {
          value := Minus(g1, g2);
        } else {
          value := Minus(g2, g1);
        }
      } else {
        value := Plus(g1, g2);
      }
      term := Times(M, value);
      assert terms[j] == EdgeTerm(m, pl, face[j], Successor(face, j), h);
    }
  }

  /** The polar cosine mu0 = r0 / sqrt(r0^2 + R_0^2) of the wedge with
      normal distance r0 and in-plane offset R_0; None if the root is 0, a
      division the source leaves undefined. Otherwise mu0 times the root is
      r0. */
  function PolarCosine(m: Maths, r0: real, R0: real): (mu: Option<real>)
    ensures mu.None? <==> m.sqrt(r0 * r0 + R0 * R0) == 0.0
    ensures mu.Some? ==> mu.value * m.sqrt(r0 * r0 + R0 * R0) == r0
  {
    if m.sqrt(r0 * r0 + R0 * R0) == 0.0 then None else Some(r0 / m.sqrt(r0 * r0 + R0 * R0))
  }

  /** The vertex following vertex u of face f, the last one wrapping round
      to the first. */
  function Successor(f: Face, u: int): Vec
    requires 0 <= u < |f|
  {
    if u + 1 == |f| then f[0] else f[u + 1]
  }

  /** The sum of partial values, left to right; None if any term is None. */
  function Sum(s: seq<Option<real>>): Option<real> {
    if |s| == 0 then Some(0.0) else Plus(Sum(s[..|s| - 1]), s[|s| - 1])
  }
}
