/** The two-segment axis mapping shared by table construction and table
    lookup (DensityMapping.hpp, `gridding` and `gridded_integral`). Each axis
    has a dense segment of equal-width bins below a breakpoint and a coarser
    segment above it. A coordinate maps to a bin index and the fractional
    offset of the coordinate inside that bin. */
module AxisMapping {
  import opened Numerics

  /** Radial bins below the breakpoint `RL` (`nr1`, `nr01`). */
  const NR1: int := 50
  /** Radial bins from `RL` up to the kernel support 2h (`nr2`, `nr02`). */
  const NR2: int := 199
  /** Nodes per angular segment (`n`, `nR_01`, `nR_02`, `nphi1`, `nphi2`). */
  const N: int := 150
  /** Radial breakpoint, in units of h. */
  const RL: real := 0.1
  /** Breakpoint of the polar cosine mu0. */
  const MUL: real := 0.98
  /** Breakpoint of the azimuthal cosine cos(phi). */
  const CPHIL: real := 0.98

  /** `width1` is the bin width below `breakpoint`, `offset` the index of the
      node at the breakpoint, `width2` the bin width above it. */
  datatype Axis = Axis(breakpoint: real, width1: real, offset: int, width2: real)

  /** Radial axis: NR1 bins of width RL/NR1, then NR2 bins of width (2-RL)/NR2. */
  const Radial: Axis := Axis(RL, RL / NR1 as real, NR1, (2.0 - RL) / NR2 as real)
  /** Polar axis: N-1 bins of width MUL/(N-1), then N bins of width (1-MUL)/N. */
  const Polar: Axis := Axis(MUL, MUL / (N - 1) as real, N - 1, (1.0 - MUL) / N as real)
  /** Azimuthal axis: same layout as the polar one, with breakpoint CPHIL. */
  const Azimuthal: Axis := Axis(CPHIL, CPHIL / (N - 1) as real, N - 1, (1.0 - CPHIL) / N as real)

  /** Index of the last node of the radial axis (r = 2h). */
  const RadialTop: int := NR1 + NR2
  /** Index of the last node of either angular axis (cosine 1). */
  const AngularTop: int := 2 * N - 1

  predicate IsTableAxis(a: Axis) {
    a == Radial || a == Polar || a == Azimuthal
  }

  function Top(a: Axis): int {
    if a == Radial then RadialTop else AngularTop
  }

  datatype Bin = Bin(index: int, frac: real)

  /** The index and fraction of x on one segment of bin width w, by the
      truncating conversion of the source: in bin units x is the index plus
      the fraction, and for a non-negative x the fraction lies in [0, 1). */
  function SegmentBin(w: real, x: real): (b: Bin)
    requires 0.0 < w
    ensures x / w == b.index as real + b.frac
    ensures 0.0 <= x ==> 0.0 <= b.frac < 1.0
  {
    var i := Trunc(x / w);
    var f := (x - w * i as real) / w;
    TruncatedBin(w, x, i, f);
    Bin(i, f)
  }

  /** The index and fraction computed in `gridded_integral`, for one axis:
      below the breakpoint the bin of x in the dense segment, above it the
      bin of x - breakpoint in the coarse segment, shifted by the offset;
      for a non-negative coordinate the fraction lies in [0, 1). */
  function MapAxis(a: Axis, x: real): (b: Bin)
    requires IsTableAxis(a)
    ensures x < a.breakpoint ==> x / a.width1 == b.index as real + b.frac
    ensures a.breakpoint <= x ==> (x - a.breakpoint) / a.width2 == (b.index - a.offset) as real + b.frac
    ensures 0.0 <= x ==> 0.0 <= b.frac < 1.0
  {
    TableAxisWidths(a);
    if x < a.breakpoint then
      SegmentBin(a.width1, x)
    else
      var s := SegmentBin(a.width2, x - a.breakpoint);
      Bin(a.offset + s.index, s.frac)
  }

  /** The bins of every table axis have a positive width. */
  lemma TableAxisWidths(a: Axis)
    requires IsTableAxis(a)
    ensures 0.0 < a.width1 && 0.0 < a.width2
  {
  }

  /** The coordinate of node `t` as `gridding` computes it. */
  function Node(a: Axis, t: int): real {
    if t <= a.offset then a.width1 * t as real
    else a.breakpoint + a.width2 * (t - a.offset) as real
  }

  /** Round trip: the lookup maps every node coordinate used by `gridding`
      back to that node's index, with fraction 0. */
  lemma MapAxisAtNode(a: Axis, t: int)
    requires IsTableAxis(a) && 0 <= t <= Top(a)
    ensures MapAxis(a, Node(a, t)) == Bin(t, 0.0)
  {
    if a == Radial {
      RadialAtNode(t);
    } else {
      AngularAtNode(t);
    }
  }

  lemma RadialAtNode(t: int)
    requires 0 <= t <= RadialTop
    ensures MapAxis(Radial, Node(Radial, t)) == Bin(t, 0.0)
  {
    assert Radial.width1 == 0.002 && Radial.width2 == 1.9 / 199.0;
    var x := Node(Radial, t);
    if t < NR1 {
      assert x == 0.002 * t as real < RL;
      assert x / 0.002 == t as real;
      assert Trunc(t as real) == t;
      assert (x - 0.002 * t as real) / 0.002 == 0.0;
    } else {
      var k := t - NR1;
      assert x == RL + (1.9 / 199.0) * k as real;
      assert (x - RL) / (1.9 / 199.0) == k as real;
      assert Trunc(k as real) == k;
      assert (x - RL - (1.9 / 199.0) * k as real) / (1.9 / 199.0) == 0.0;
    }
  }

  lemma AngularAtNode(t: int)
    requires 0 <= t <= AngularTop
    ensures MapAxis(Polar, Node(Polar, t)) == Bin(t, 0.0)
  {
    assert Polar.width1 == 0.98 / 149.0 && Polar.width2 == 0.02 / 150.0;
    var x := Node(Polar, t);
    if t < N - 1 {
      assert x == (0.98 / 149.0) * t as real < MUL;
      assert x / (0.98 / 149.0) == t as real;
      assert Trunc(t as real) == t;
      assert (x - (0.98 / 149.0) * t as real) / (0.98 / 149.0) == 0.0;
    } else {
      var k := t - (N - 1);
      assert x == MUL + (0.02 / 150.0) * k as real;
      assert (x - MUL) / (0.02 / 150.0) == k as real;
      assert Trunc(k as real) == k;
      assert (x - MUL - (0.02 / 150.0) * k as real) / (0.02 / 150.0) == 0.0;
    }
  }

  /** Every coordinate between 0 and the last node falls in a bin whose
      index lies in [0, Top] and whose fraction lies in [0, 1); the last
      index is reached exactly at the last node. */
  lemma MapAxisBounds(a: Axis, x: real)
    requires IsTableAxis(a) && 0.0 <= x <= Node(a, Top(a))
    ensures var b := MapAxis(a, x);
      0 <= b.index <= Top(a) && 0.0 <= b.frac < 1.0 &&
      (b.index == Top(a) <==> x == Node(a, Top(a)))
  {
    if a == Radial {
      RadialBounds(x);
    } else {
      AngularBounds(x);
    }
  }

  lemma RadialBounds(x: real)
    requires 0.0 <= x <= Node(Radial, RadialTop)
    ensures var b := MapAxis(Radial, x);
      0 <= b.index <= RadialTop && 0.0 <= b.frac < 1.0 &&
      (b.index == RadialTop <==> x == Node(Radial, RadialTop))
  {
  }

  lemma AngularBounds(x: real)
    requires 0.0 <= x <= Node(Polar, AngularTop)
    ensures var b := MapAxis(Polar, x);
      0 <= b.index <= AngularTop && 0.0 <= b.frac < 1.0 &&
      (b.index == AngularTop <==> x == Node(Polar, AngularTop))
  {
  }
}
