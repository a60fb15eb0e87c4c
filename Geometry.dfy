/** Rectangles in UI (logical) and sensor (physical) coordinates, the
    scaling between them, and the fixed 0.75 ratio the activation scan uses
    to map sensor coordinates back. */
module Geometry {
  import opened Prelude

  /** System.Drawing.Rectangle: integer x, y, width, height. */
  datatype Rect = Rect(x: int, y: int, width: int, height: int)

  /** System.Windows.Rect and element offsets/sizes, whose components are doubles
      (taken here as exact reals). */
  datatype RectF = RectF(x: real, y: real, width: real, height: real)

  /** A width/height pair: ImageMetrics.Width/Height of the sensor image, or the
      window size appSize (a System.Drawing.Point whose X and Y are width and height). */
  datatype Size = Size(width: int, height: int)

  /** The sizes ScaleBoundingBox may divide by. */
  predicate PositiveSize(s: Size)
  {
    s.width > 0 && s.height > 0
  }

  /** Rectangle.IsEmpty: true only when all four components are zero. */
  predicate IsEmpty(r: Rect)
  {
    r.x == 0 && r.y == 0 && r.width == 0 && r.height == 0
  }

  /** new Rectangle((int)f.X, (int)f.Y, (int)f.Width, (int)f.Height). */
  function Truncate(f: RectF): (r: Rect)
    ensures f.x >= 0.0 ==> r.x >= 0 && r.x as real <= f.x < r.x as real + 1.0
    ensures f.y >= 0.0 ==> r.y >= 0 && r.y as real <= f.y < r.y as real + 1.0
    ensures f.width >= 0.0 ==> r.width >= 0 && r.width as real <= f.width < r.width as real + 1.0
    ensures f.height >= 0.0 ==> r.height >= 0 && r.height as real <= f.height < r.height as real + 1.0
  {
    Rect(TruncateReal(f.x), TruncateReal(f.y), TruncateReal(f.width), TruncateReal(f.height))
  }

  /** One component of ScaleBoundingBox: (int)(v * (num / den)) over exact
      rationals, i.e. v * num / den truncated toward zero. */
  function ScaleComponent(v: int, num: int, den: int): int
    requires den > 0
  {
    TruncDiv(v * num, den)
  }

  /** ScaleBoundingBox(boundingBox, metrics, appSize): x and width are scaled by
      metrics.width / appSize.width, y and height by metrics.height / appSize.height,
      each component truncated on its own. */
  function ScaleBoundingBox(box: Rect, metrics: Size, appSize: Size): Rect
    requires PositiveSize(appSize)
  {
    Rect(ScaleComponent(box.x, metrics.width, appSize.width),
         ScaleComponent(box.y, metrics.height, appSize.height),
         ScaleComponent(box.width, metrics.width, appSize.width),
         ScaleComponent(box.height, metrics.height, appSize.height))
  }

  /** The integer formula is the C# computation (int)(v * ((double)num / (double)den))
      carried out over exact reals. */
  lemma ScaleComponentIsTruncatedProduct(v: int, num: int, den: int)
    requires den > 0
    ensures ScaleComponent(v, num, den) == TruncateReal(v as real * (num as real / den as real))
  {
    var x := v as real * (num as real / den as real);
    var p := v * num;
    assert x == p as real / den as real;
    var q := TruncDiv(p, den);
    if p >= 0 {
      QuotientBounds(p, q, den);
      assert x.Floor == q;
    } else {
      QuotientBounds(-p, -q, den);
      assert -x == (-p) as real / den as real;
      assert (-x).Floor == -q;
    }
  }

  /** q * d <= p < (q + 1) * d over the integers places p / d in [q, q + 1) over the reals. */
  lemma QuotientBounds(p: int, q: int, d: int)
    requires d > 0 && q * d <= p < (q + 1) * d
    ensures q as real <= p as real / d as real < q as real + 1.0
  {
    assert (q * d) as real == q as real * d as real;
    assert ((q + 1) * d) as real == (q as real + 1.0) * d as real;
    AtMostQuotient(q as real, p as real, d as real);
    BelowQuotient(q as real + 1.0, p as real, d as real);
  }

  lemma AtMostQuotient(a: real, b: real, d: real)
    requires d > 0.0
    ensures a <= b / d <==> a * d <= b
  {
  }

  lemma BelowQuotient(a: real, b: real, d: real)
    requires d > 0.0
    ensures b / d < a <==> b < a * d
  {
  }

  /** When the sensor image and the window have the same size, scaling changes nothing. */
  lemma {:induction false} ScaleIdentity(box: Rect, size: Size)
    requires PositiveSize(size)
    ensures ScaleBoundingBox(box, size, size) == box
  {
    ComponentIdentity(box.x, size.width);
    ComponentIdentity(box.y, size.height);
    ComponentIdentity(box.width, size.width);
    ComponentIdentity(box.height, size.height);
  }

  lemma ComponentIdentity(v: int, n: int)
    requires n > 0
    ensures ScaleComponent(v, n, n) == v
  {
    var q := ScaleComponent(v, n, n);
    if v >= 0 {
      assert q * n <= v * n < (q + 1) * n;
      MulCancel(q, v, n);
      MulCancel(v, q + 1, n);
    } else {
      assert (q - 1) * n < v * n <= q * n;
      MulCancel(q - 1, v, n);
      MulCancel(v, q, n);
    }
  }

  /** Multiplying by a positive factor keeps strict and non-strict order. */
  lemma MulCancel(a: int, b: int, n: int)
    requires n > 0
    ensures a * n <= b * n <==> a <= b
    ensures a * n < b * n <==> a < b
  {
    if a < b {
      MulStrict(a, b, n);
    } else if b < a {
      MulStrict(b, a, n);
    }
  }

  lemma MulStrict(a: int, b: int, n: int)
    requires n > 0 && a < b
    ensures a * n < b * n
  {
    assert b * n == a * n + (b - a) * n;
    MulAtLeast(b - a, n);
  }

  lemma {:induction false} MulAtLeast(k: int, n: int)
    requires k >= 1 && n >= 1
    ensures k * n >= n
    decreases k
  {
    if k > 1 {
      MulAtLeast(k - 1, n);
      assert k * n == (k - 1) * n + n;
    }
  }

  /** A zero rectangle stays zero, so an empty crop request stays empty. */
  lemma ScaleKeepsEmpty(box: Rect, metrics: Size, appSize: Size)
    requires PositiveSize(appSize) && IsEmpty(box)
    ensures IsEmpty(ScaleBoundingBox(box, metrics, appSize))
  {
  }

  /** For non-negative inputs and sizes, every scaled component is non-negative and
      is the exact floor of v * num / den over the rationals. */
  lemma ScaleNonNegative(v: int, num: int, den: int)
    requires v >= 0 && num >= 0 && den > 0
    ensures var r := ScaleComponent(v, num, den);
      0 <= r && r as real <= v as real * num as real / den as real < r as real + 1.0
  {
    var r := ScaleComponent(v, num, den);
    assert v * num >= 0;
    QuotientBounds(v * num, r, den);
    assert (v * num) as real == v as real * num as real;
  }

  /** Scaling is monotone: a larger non-negative component never scales to a smaller one. */
  lemma ScaleMonotone(v1: int, v2: int, num: int, den: int)
    requires 0 <= v1 <= v2 && num >= 0 && den > 0
    ensures ScaleComponent(v1, num, den) <= ScaleComponent(v2, num, den)
  {
    assert v1 * num <= v2 * num by {
      assert v2 * num - v1 * num == (v2 - v1) * num;
    }
    var r1, r2 := ScaleComponent(v1, num, den), ScaleComponent(v2, num, den);
    assert r1 * den < (r2 + 1) * den;
    MulCancel(r1, r2 + 1, den);
  }

  /** The activation scan maps a sensor row or column back by (int)Math.Floor(v / 0.75);
      for integers this is (4 * v) / 3 with Dafny's flooring division. */
  function MapToLogical(v: int): int
  {
    (4 * v) / 3
  }

  /** (4 * v) / 3 is exactly the floor of v / 0.75 over the reals. */
  lemma MapToLogicalIsFloor(v: int)
    ensures MapToLogical(v) == (v as real / 0.75).Floor
  {
    var q := MapToLogical(v);
    assert 3 * q <= 4 * v < 3 * q + 3;
    assert v as real / 0.75 == (4 * v) as real / 3.0;
    QuotientBounds(4 * v, q, 3);
  }

  /** For non-negative coordinates the mapped value is at least the input and grows with it. */
  lemma MapToLogicalBounds(v: int, w: int)
    requires 0 <= v <= w
    ensures v <= MapToLogical(v) <= MapToLogical(w)
    ensures MapToLogical(v) <= v + v / 3
  {
  }

  /** The Surface's sensor image is 768x576 and its screen 1024x768. */
  const SurfaceSensor: Size := Size(768, 576)
  const SurfaceScreen: Size := Size(1024, 768)

  /** ScaleBoundingBox followed by the fixed 0.75 inverse is not a round trip:
      on the Surface geometry it loses up to one unit, and it does lose one for x = 101. */
  lemma {:induction false} ScaleThenMapLosesAtMostOne(v: int)
    requires v >= 0
    ensures var back := MapToLogical(ScaleComponent(v, SurfaceSensor.width, SurfaceScreen.width));
      v - 1 <= back <= v
    ensures v % 4 == 0 <==> MapToLogical(ScaleComponent(v, SurfaceSensor.width, SurfaceScreen.width)) == v
  {
    var s := ScaleComponent(v, 768, 1024);
    assert s == (3 * v) / 4 by {
      assert v * 768 == (3 * v) * 256;
      var q := (3 * v) / 4;
      assert q * 1024 <= v * 768 < (q + 1) * 1024;
    }
    var m := 3 * v - 4 * s;
    assert 0 <= m < 4;
    assert 4 * s == 3 * (v - 1) + (3 - m);
    if m == 0 {
      assert MapToLogical(s) == v;
    } else {
      assert MapToLogical(s) == v - 1;
    }
  }

  lemma RoundTripCounterexample()
    ensures MapToLogical(ScaleComponent(101, SurfaceSensor.width, SurfaceScreen.width)) == 100
  {
    ScaleThenMapLosesAtMostOne(101);
  }
}
