/**
 * The band discretiser of genomap.py: BoundaryNorm(np.linspace(vmin, vmax, 10), 9, clip=True)
 * maps a value to one of the nine bands 0..8, and Normalize(0, 8) maps a band to band/8.
 * Arithmetic is exact (real numbers), not IEEE doubles.
 */
module Bands {

  /** Number of colours handed to BoundaryNorm; the bands are 0 .. NColors - 1. */
  const NColors: nat := 9

  /** The boundaries np.linspace(vmin, vmax, 10): Edge(0) == vmin, Edge(9) == vmax. */
  function Edge(vmin: real, vmax: real, i: int): (e: real)
    ensures i == 0 ==> e == vmin
    ensures i == NColors ==> e == vmax
  {
    vmin + (i as real) * (vmax - vmin) / 9.0
  }

  /** np.clip(x, lo, hi), which is minimum(maximum(x, lo), hi): hi wins when lo > hi. */
  function Clip(x: real, lo: real, hi: real): (c: real)
    ensures c <= hi
    ensures lo <= hi ==> lo <= c
    ensures lo <= x <= hi ==> c == x
  {
    var m := if x < lo then lo else x;
    if m > hi then hi else m
  }

  /** The number of boundaries among the first n that lie at or below x (np.digitize for increasing boundaries). */
  function EdgesAtOrBelow(x: real, vmin: real, vmax: real, n: nat): (c: nat)
    ensures c <= n
    ensures n >= 1 && vmin <= x ==> c >= 1
  {
    if n == 0 then 0
    else EdgesAtOrBelow(x, vmin, vmax, n - 1) + (if Edge(vmin, vmax, n - 1) <= x then 1 else 0)
  }

  /** BoundaryNorm(..., clip=True)(x): clip, then the top band from vmax on, otherwise digitize - 1. */
  function Band(x: real, vmin: real, vmax: real): (b: nat)
    ensures b < NColors
  {
    var c := Clip(x, vmin, vmax);
    if c >= vmax then NColors - 1
    else EdgesAtOrBelow(c, vmin, vmax, 10) - 1
  }

  /** Normalize(0, 8)(b): the band rescaled to a colormap coordinate. */
  function Coordinate(b: int): (c: real)
    ensures 0 <= b < NColors ==> 0.0 <= c <= 1.0
    ensures b == 0 ==> c == 0.0
    ensures b == NColors - 1 ==> c == 1.0
  {
    (b as real - 0.0) / (8.0 - 0.0)
  }

  // ---------------------------------------------------------------------------------------

  /** With vmin < vmax the boundaries strictly increase. */
  lemma EdgeIncreasing(vmin: real, vmax: real, i: int, j: int)
    requires vmin < vmax && i < j
    ensures Edge(vmin, vmax, i) < Edge(vmin, vmax, j)
  {
    var d := (vmax - vmin) / 9.0;
    assert Edge(vmin, vmax, j) - Edge(vmin, vmax, i) == ((j - i) as real) * d;
    assert ((j - i) as real) * d >= d;
  }

  /** If boundary n-1 is at or below x, so are all the earlier ones. */
  lemma {:induction false} AllEdgesBelow(x: real, vmin: real, vmax: real, n: nat)
    requires vmin < vmax && n >= 1 && Edge(vmin, vmax, n - 1) <= x
    ensures EdgesAtOrBelow(x, vmin, vmax, n) == n
  {
    if n > 1 {
      EdgeIncreasing(vmin, vmax, n - 2, n - 1);
      AllEdgesBelow(x, vmin, vmax, n - 1);
    }
  }

  /** The count c of boundaries at or below x places x between boundary c-1 and boundary c. */
  lemma {:induction false} CountBrackets(x: real, vmin: real, vmax: real, n: nat)
    requires vmin < vmax
    ensures var c := EdgesAtOrBelow(x, vmin, vmax, n);
      (c > 0 ==> Edge(vmin, vmax, c - 1) <= x) && (c < n ==> x < Edge(vmin, vmax, c))
  {
    if n > 0 {
      if Edge(vmin, vmax, n - 1) <= x {
        AllEdgesBelow(x, vmin, vmax, n);
      } else {
        CountBrackets(x, vmin, vmax, n - 1);
      }
    }
  }

  /** More x never counts fewer boundaries. */
  lemma {:induction false} CountMonotone(x: real, y: real, vmin: real, vmax: real, n: nat)
    requires x <= y
    ensures EdgesAtOrBelow(x, vmin, vmax, n) <= EdgesAtOrBelow(y, vmin, vmax, n)
  {
    if n > 0 {
      CountMonotone(x, y, vmin, vmax, n - 1);
    }
  }

  /** Between the bounds, x is in band k exactly when Edge(k) <= x < Edge(k+1). */
  lemma BandIsEdgeInterval(x: real, vmin: real, vmax: real, k: int)
    requires vmin < vmax && vmin <= x < vmax && 0 <= k < NColors
    ensures Band(x, vmin, vmax) == k <==> Edge(vmin, vmax, k) <= x < Edge(vmin, vmax, k + 1)
  {
    var b := Band(x, vmin, vmax);
    assert Clip(x, vmin, vmax) == x;
    CountBrackets(x, vmin, vmax, 10);
    assert Edge(vmin, vmax, b) <= x < Edge(vmin, vmax, b + 1);
    if Edge(vmin, vmax, k) <= x < Edge(vmin, vmax, k + 1) && k != b {
      if k < b {
        EdgeIncreasing(vmin, vmax, k + 1, b);
      } else {
        EdgeIncreasing(vmin, vmax, b + 1, k);
      }
    }
  }

  /** Values at or below vmin fall in the lowest band. */
  lemma BandBelow(x: real, vmin: real, vmax: real)
    requires vmin < vmax && x <= vmin
    ensures Band(x, vmin, vmax) == 0
  {
    EdgeIncreasing(vmin, vmax, 0, 1);
    BandIsEdgeInterval(vmin, vmin, vmax, 0);
    assert Clip(x, vmin, vmax) == vmin;
  }

  /** Values at or above vmax fall in the top band. */
  lemma BandAbove(x: real, vmin: real, vmax: real)
    requires x >= vmax
    ensures Band(x, vmin, vmax) == NColors - 1
  {
  }

  /** With vmin >= vmax (the program does not reject it) every value falls in the top band. */
  lemma DegenerateBoundsTopBand(x: real, vmin: real, vmax: real)
    requires vmax <= vmin
    ensures Band(x, vmin, vmax) == NColors - 1
  {
  }

  /** The band is non-decreasing in the value. */
  lemma BandMonotone(x: real, y: real, vmin: real, vmax: real)
    requires x <= y
    ensures Band(x, vmin, vmax) <= Band(y, vmin, vmax)
  {
    var cx, cy := Clip(x, vmin, vmax), Clip(y, vmin, vmax);
    assert cx <= cy;
    if cy < vmax {
      CountMonotone(cx, cy, vmin, vmax, 10);
    }
  }

  /** The colormap coordinate of a value lies in [0, 1], is 0 below vmin, 1 from vmax on, and never decreases. */
  lemma CoordinateFacts(x: real, y: real, vmin: real, vmax: real)
    ensures 0.0 <= Coordinate(Band(x, vmin, vmax)) <= 1.0
    ensures vmin < vmax && x <= vmin ==> Coordinate(Band(x, vmin, vmax)) == 0.0
    ensures x >= vmax ==> Coordinate(Band(x, vmin, vmax)) == 1.0
    ensures x <= y ==> Coordinate(Band(x, vmin, vmax)) <= Coordinate(Band(y, vmin, vmax))
  {
    if vmin < vmax && x <= vmin {
      BandBelow(x, vmin, vmax);
    }
    if x <= y {
      BandMonotone(x, y, vmin, vmax);
    }
  }
}
