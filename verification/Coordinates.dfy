/** Conversion between robot coordinates (metres) and the tenths of a map cell used on the wire. */
module Coordinates {
  import opened Bytes

  type Resolution = r: real | r > 0.0 witness 0.05

  datatype Point = Point(x: real, y: real)

  // std::round: nearest integer, halves away from zero.
  function Round(r: real): int {
    if r >= 0.0 then (r + 0.5).Floor else -(0.5 - r).Floor
  }

  // MarsXToTuya and MarsYToTuya on one coordinate.
  function MarsToTuya(resolution: Resolution, c: real): int
  {
    Round(c * 10.0 / resolution)
  }

  // TuyaXYToMars on one coordinate.
  function TuyaToMars(resolution: Resolution, w: int): real {
    w as real * resolution / 10.0
  }

  // What is left of a coordinate after Mars -> wire bytes -> Mars.
  function Snap(resolution: Resolution, c: real): real
  {
    TuyaToMars(resolution, ToInt16(MarsToTuya(resolution, c)))
  }

  function SnapPoint(resolution: Resolution, p: Point): Point
  {
    Point(Snap(resolution, p.x), Snap(resolution, p.y))
  }

  function Abs(r: real): real {
    if r < 0.0 then -r else r
  }

  lemma RoundIsNearest(r: real, n: int)
    ensures Abs(Round(r) as real - r) <= 0.5
    ensures Abs(n as real - r) < 0.5 ==> Round(r) == n
  {}

  /** std::round in full: the nearest integer, of two the one further from zero. */
  lemma RoundIff(r: real, n: int)
    ensures Round(r) == n <==>
              Abs(n as real - r) < 0.5 || (Abs(n as real - r) == 0.5 && Abs(n as real) > Abs(r))
  {}

  lemma Rescale(resolution: Resolution, w: int)
    ensures TuyaToMars(resolution, w) * 10.0 / resolution == w as real
  {
    var a := w as real;
    assert a * resolution / 10.0 * 10.0 == a * resolution;
    assert a * resolution / resolution == a;
  }

  /** Every wire value comes back unchanged through robot coordinates. */
  lemma WireIdentity(resolution: Resolution, w: int)
    ensures MarsToTuya(resolution, TuyaToMars(resolution, w)) == w
  {
    Rescale(resolution, w);
    RoundIsNearest(w as real, w);
  }

  // Two distances measured in wire units and in metres.
  lemma Scaling(resolution: Resolution, w: int, c: real)
    ensures TuyaToMars(resolution, w) - c == (w as real - c * 10.0 / resolution) * resolution / 10.0
  {
    var s := c * 10.0 / resolution;
    assert s * resolution == c * 10.0;
  }

  lemma ScaleMonotone(resolution: Resolution, d: real)
    ensures Abs(d * resolution / 10.0) <= resolution / 20.0 <==> Abs(d) <= 0.5
  {
    assert d <= 0.5 ==> d * resolution <= 0.5 * resolution;
    assert d > 0.5 ==> d * resolution > 0.5 * resolution;
    assert d >= -0.5 ==> d * resolution >= -0.5 * resolution;
    assert d < -0.5 ==> d * resolution < -0.5 * resolution;
  }

  lemma WrapIsFar(w: int, s: real)
    requires Abs(w as real - s) <= 0.5
    ensures Abs(ToInt16(w) as real - s) <= 0.5 <==> FitsInt16(w)
  {
    var v := ToInt16(w);
    if v != w {
      assert v <= w - 2 || v >= w + 2;
    }
  }

  lemma NearestWrapped(s: real)
    ensures Abs(ToInt16(Round(s)) as real - s) <= 0.5 <==> FitsInt16(Round(s))
  {
    RoundIsNearest(s, 0);
    WrapIsFar(Round(s), s);
  }

  /** A coordinate moves by at most resolution/20 exactly when its scaled value fits the 16-bit field. */
  lemma SnapErrorBound(resolution: Resolution, c: real)
    ensures Abs(Snap(resolution, c) - c) <= resolution / 20.0 <==> FitsInt16(MarsToTuya(resolution, c))
  {
    var s := c * 10.0 / resolution;
    var v := ToInt16(Round(s));
    NearestWrapped(s);
    Scaling(resolution, v, c);
    ScaleMonotone(resolution, v as real - s);
  }

  /** Sending a snapped coordinate again emits the same word. */
  lemma SnapIdempotent(resolution: Resolution, c: real)
    ensures MarsToTuya(resolution, Snap(resolution, c)) == ToInt16(MarsToTuya(resolution, c))
    ensures Snap(resolution, Snap(resolution, c)) == Snap(resolution, c)
  {
    WireIdentity(resolution, ToInt16(MarsToTuya(resolution, c)));
  }

  /** The unit of the wire is a tenth of a map cell. */
  lemma TenToACell(resolution: Resolution, n: int)
    ensures TuyaToMars(resolution, 10 * n) == n as real * resolution
    ensures MarsToTuya(resolution, n as real * resolution) == 10 * n
  {
    var m := 10 * n;
    assert m as real == 10.0 * n as real;
    assert m as real * resolution == 10.0 * (n as real * resolution);
    WireIdentity(resolution, m);
  }
}
