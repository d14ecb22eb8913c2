/**
 * output/image.go: where the composite PNG puts the original image and one
 * swatch per palette colour. The canvas has a Border gap around the image; the
 * swatches form a strip below it, Border apart, the last one stretched so that
 * the strip ends flush with the image.
 *
 * The float expressions of the source are modelled with exact real arithmetic:
 * Floor, Trunc (Go's float-to-int conversion and the integer part of
 * math.Modf) and Round (math.Round, halves away from zero).
 */
module ImageLayout {
  import opened Geometry
  import opened Arithmetic

  /** Gap in pixels around the original image and between swatches. */
  const Border := 4

  /** The integer part of x, rounding toward zero. */
  function Trunc(x: real): (t: int)
    ensures x >= 0.0 ==> t >= 0 && t as real <= x < t as real + 1.0
    ensures x < 0.0 ==> t <= 0 && t as real - 1.0 < x <= t as real
  {
    if x >= 0.0 then x.Floor else -((-x).Floor)
  }

  /** math.Round: the nearest integer, halves rounded away from zero. */
  function Round(x: real): (n: int)
    ensures x - 0.5 <= n as real <= x + 0.5
  {
    if x >= 0.0 then (x + 0.5).Floor else -((-x + 0.5).Floor)
  }

  /** Half of h, truncated toward zero, is h / 2 for h >= 0 and -((-h) / 2) below. */
  lemma HalfTruncated(h: int)
    ensures Trunc(0.5 * h as real) == if h >= 0 then h / 2 else -((-h) / 2)
  {
    var m := if h >= 0 then h else -h;
    var d, r := m / 2, m % 2;
    assert m == 2 * d + r && 0 <= r < 2;
    if h >= 0 {
      assert 0.5 * h as real == d as real + 0.5 * r as real;
    } else {
      assert -(0.5 * h as real) == d as real + 0.5 * r as real;
    }
  }

  /**
   * calcPaletteHeight: int(0.5 * float32(srcHeight)). The palette strip is half
   * the image height, rounded toward zero.
   */
  function CalcPaletteHeight(srcHeight: int): (h: int)
    ensures h == if srcHeight >= 0 then srcHeight / 2 else -((-srcHeight) / 2)
  {
    HalfTruncated(srcHeight);
    Trunc(0.5 * srcHeight as real)
  }

  /**
   * calcPaletteWidth: with room = srcWidth - Border*(nColors-1), the swatch
   * width and the remainder FloorAndRemainder(room, nColors). For nColors >= 1
   * this is integer division of the room; the remainder is the room's
   * remainder when the room is not negative, and minus the remainder of its
   * magnitude when it is.
   */
  function CalcPaletteWidth(srcWidth: int, nColors: int): (wr: (int, int))
    requires nColors != 0
    ensures nColors >= 1 && SwatchRoom(srcWidth, nColors) >= 0 ==>
      wr == (SwatchRoom(srcWidth, nColors) / nColors, SwatchRoom(srcWidth, nColors) % nColors)
    ensures nColors >= 1 && SwatchRoom(srcWidth, nColors) < 0 ==>
      wr == (SwatchRoom(srcWidth, nColors) / nColors, -((-SwatchRoom(srcWidth, nColors)) % nColors))
  {
    FloorAndRemainder(SwatchRoom(srcWidth, nColors), nColors)
  }

  /**
   * The float steps of calcPaletteWidth: calc = q / n, then Floor(calc) and
   * Round(frac * n), where frac is the fractional part math.Modf returns
   * (it has the sign of calc).
   */
  function FloorAndRemainder(q: int, n: int): (wr: (int, int))
    requires n != 0
    ensures n >= 1 && q >= 0 ==> wr == (q / n, q % n)
    ensures n >= 1 && q < 0 ==> wr == (q / n, -((-q) % n))
  {
    var quotient := q as real / n as real;
    QuotientParts(q, n);
    (quotient.Floor, ScaledFraction(quotient, n))
  }

  /** math.Round(frac * n), where frac is the fractional part math.Modf returns for x. */
  function ScaledFraction(x: real, n: int): int {
    var remainder := x - Trunc(x) as real;
    Round(remainder * n as real)
  }

  /** Room left for the swatches once the gaps between them are taken off: srcWidth - border*(nColors-1). */
  function SwatchRoom(srcWidth: int, nColors: int): int {
    srcWidth - Border * (nColors - 1)
  }

  /** q / n as a real splits into the integer quotient and remainder / n. */
  lemma RealQuotient(q: int, n: int, d: int, m: int)
    requires n >= 1 && q == d * n + m && 0 <= m < n
    ensures (q as real / n as real).Floor == d
    ensures q as real / n as real == d as real + m as real / n as real
    ensures 0.0 <= m as real / n as real < 1.0
    ensures (m as real / n as real) * n as real == m as real
  {
    var c := q as real / n as real;
    assert c * n as real == q as real;
    assert (d * n) as real == d as real * n as real;
    assert c == d as real + m as real / n as real;
    assert 0.0 <= m as real / n as real < 1.0;
  }

  /**
   * When the gaps fit, calcPaletteWidth is exact integer division: the width is
   * the quotient and the remainder the rest, so nColors swatches of that width
   * plus the remainder fill the room exactly.
   */
  lemma PaletteWidthDivMod(srcWidth: int, nColors: int)
    requires nColors >= 1 && SwatchRoom(srcWidth, nColors) >= 0
    ensures CalcPaletteWidth(srcWidth, nColors).0 >= 0
    ensures 0 <= CalcPaletteWidth(srcWidth, nColors).1 < nColors
    ensures CalcPaletteWidth(srcWidth, nColors).0 * nColors + CalcPaletteWidth(srcWidth, nColors).1
      == SwatchRoom(srcWidth, nColors)
  {
    var q, n := SwatchRoom(srcWidth, nColors), nColors;
    assert CalcPaletteWidth(srcWidth, nColors) == (q / n, q % n);
    assert q == (q / n) * n + q % n;
  }

  /** x == -(e + t) with t in [0, 1) and t * n == f: its Floor, Modf parts and the rounded remainder. */
  lemma NegativeParts(x: real, t: real, n: int, e: int, f: int)
    requires n >= 1 && e >= 0 && x == -(e as real + t)
    requires 0.0 <= t < 1.0 && t * n as real == f as real && (f == 0 <==> t == 0.0)
    ensures Trunc(x) == -e
    ensures (x - Trunc(x) as real) * n as real == -(f as real)
    ensures x.Floor == if f == 0 then -e else -e - 1
    ensures Round((x - Trunc(x) as real) * n as real) == -f
  {
    assert Trunc(x) == -e;
    assert x - Trunc(x) as real == -t;
    assert (-t) * n as real == -(t * n as real);
  }

  /** For a negative room q, with -q == e * n + f: Floor, Modf and Round of q / n. */
  lemma NegativeQuotient(q: int, n: int, e: int, f: int)
    requires n >= 1 && -q == e * n + f && 0 <= f < n && e >= 0
    ensures Trunc(q as real / n as real) == -e
    ensures (q as real / n as real).Floor == if f == 0 then -e else -e - 1
    ensures ScaledFraction(q as real / n as real, n) == -f
  {
    RealQuotient(-q, n, e, f);
    var t := f as real / n as real;
    assert q as real / n as real == -((-q) as real / n as real);
    assert f == 0 ==> t == 0.0;
    NegativeParts(q as real / n as real, t, n, e, f);
  }

  /**
   * When the image is narrower than the gaps, the width is still the floor of
   * the quotient but the remainder takes the sign of the room (math.Modf), so
   * unless nColors divides the room the swatches fall nColors pixels short.
   */
  lemma PaletteWidthNarrow(srcWidth: int, nColors: int)
    requires nColors >= 1 && SwatchRoom(srcWidth, nColors) < 0
    ensures CalcPaletteWidth(srcWidth, nColors).0 * nColors + CalcPaletteWidth(srcWidth, nColors).1
      == if (-SwatchRoom(srcWidth, nColors)) % nColors == 0 then SwatchRoom(srcWidth, nColors)
         else SwatchRoom(srcWidth, nColors) - nColors
  {
    var q, n := SwatchRoom(srcWidth, nColors), nColors;
    NarrowDivMod(q, n, (-q) / n, (-q) % n);
  }

  /** The integer side of PaletteWidthNarrow: -q == e * n + f expressed through q's own division. */
  lemma NarrowDivMod(q: int, n: int, e: int, f: int)
    requires n >= 1 && q < 0 && e == (-q) / n && f == (-q) % n
    ensures q / n == if f == 0 then -e else -e - 1
    ensures (if f == 0 then -e else -e - 1) * n - f == if f == 0 then q else q - n
  {
    assert -q == e * n + f;
    if f == 0 {
      assert q == (-e) * n + 0;
      DivModUnique(q, n, -e, 0);
    } else {
      assert q == (-e - 1) * n + (n - f);
      DivModUnique(q, n, -e - 1, n - f);
    }
  }

  /** For a room q >= 0, with q == d * n + m: Floor, Modf and Round of q / n. */
  lemma NonNegativeQuotient(q: int, n: int)
    requires n >= 1 && q >= 0
    ensures (q as real / n as real).Floor == q / n
    ensures ScaledFraction(q as real / n as real, n) == q % n
  {
    var d, m := q / n, q % n;
    RealQuotient(q, n, d, m);
    var quotient := q as real / n as real;
    assert Trunc(quotient) == d;
    assert (quotient - Trunc(quotient) as real) * n as real == m as real;
  }

  /** Floor and the rounded Modf remainder of q / n, for q of either sign. */
  lemma QuotientParts(q: int, n: int)
    requires n != 0
    ensures n >= 1 && q >= 0 ==>
      (q as real / n as real).Floor == q / n &&
      ScaledFraction(q as real / n as real, n) == q % n
    ensures n >= 1 && q < 0 ==>
      (q as real / n as real).Floor == q / n &&
      ScaledFraction(q as real / n as real, n) == -((-q) % n)
  {
    if n >= 1 && q >= 0 {
      NonNegativeQuotient(q, n);
    } else if n >= 1 {
      var e, f := (-q) / n, (-q) % n;
      NarrowDivMod(q, n, e, f);
      NegativeQuotient(q, n, e, f);
    }
  }

  /** imgRect: the canvas, the image plus a Border on each side and the palette strip below. */
  function ImgRect(srcWidth: int, srcHeight: int): (r: Rectangle)
    ensures srcWidth >= 0 && srcHeight >= 0 ==>
      r.min == Point(0, 0) &&
      r.Dx() == Border * 2 + srcWidth &&
      r.Dy() == Border * 3 + srcHeight + CalcPaletteHeight(srcHeight)
  {
    var width := Border * 2 + srcWidth;
    var height := Border * 3 + srcHeight + CalcPaletteHeight(srcHeight);
    Rect(0, 0, width, height)
  }

  /**
   * Swatch i of a strip of nColors swatches `width` wide, Border apart, the
   * last one `remainder` wider, `height` high and starting `yOffset` down.
   */
  function Swatch(width: int, remainder: int, height: int, yOffset: int, nColors: int, i: int): (s: Rectangle)
    ensures width >= 0 && remainder >= 0 && height >= 0 ==>
      && s.min == Point(i * (width + Border) + Border, yOffset)
      && s.Dx() == (if i == nColors - 1 then width + remainder else width)
      && s.Dy() == height
  {
    var xOffset := i * (width + Border) + Border;
    var w := if i == nColors - 1 then width + remainder else width;
    Rect(xOffset, yOffset, w + xOffset, height + yOffset)
  }

  /**
   * The rectangle colorRects gives the i-th of nColors swatches. When the
   * layout fits, with room = srcWidth - Border * (nColors - 1), it starts at
   * x = i * (room / nColors + Border) + Border, y = Border * 2 + srcHeight, is
   * room / nColors wide (the last one room % nColors wider) and half the image
   * height high.
   */
  function SwatchAt(srcWidth: int, srcHeight: int, nColors: int, i: int): (s: Rectangle)
    requires nColors >= 1
    ensures Fits(srcWidth, srcHeight, nColors) ==>
      var room := SwatchRoom(srcWidth, nColors);
      && s.min == Point(i * (room / nColors + Border) + Border, Border * 2 + srcHeight)
      && s.Dx() == (if i == nColors - 1 then room / nColors + room % nColors else room / nColors)
      && s.Dy() == srcHeight / 2
  {
    var (width, remainder) := CalcPaletteWidth(srcWidth, nColors);
    Swatch(width, remainder, CalcPaletteHeight(srcHeight), Border * 2 + srcHeight, nColors, i)
  }

  /** The swatch rectangles for nColors colours, in palette order. */
  function Swatches(srcWidth: int, srcHeight: int, nColors: int): (rs: seq<Rectangle>)
    ensures |rs| == if nColors <= 0 then 0 else nColors
  {
    if nColors <= 0 then []
    else seq(nColors, i requires 0 <= i < nColors => SwatchAt(srcWidth, srcHeight, nColors, i))
  }

  /**
   * colorRects: one rectangle per colour, each Border to the right of the
   * previous one, the last widened by the remainder.
   */
  method ColorRects(srcWidth: int, srcHeight: int, nColors: int) returns (ret: seq<Rectangle>)
    ensures |ret| == if nColors <= 0 then 0 else nColors
    ensures ret == Swatches(srcWidth, srcHeight, nColors)
  {
    ret := [];
    // The loop below runs no iteration; the source's calcPaletteWidth result
    // (a division by zero for nColors == 0) goes unused.
    if nColors <= 0 {
      return;
    }
    var width, remainder := CalcPaletteWidth(srcWidth, nColors).0, CalcPaletteWidth(srcWidth, nColors).1;
    var height := CalcPaletteHeight(srcHeight);
    var yOffset := (Border * 2) + srcHeight;
    for i := 0 to nColors
      invariant |ret| == i
      invariant width == CalcPaletteWidth(srcWidth, nColors).0 + (if i == nColors then remainder else 0)
      invariant forall k :: 0 <= k < i ==> ret[k] == SwatchAt(srcWidth, srcHeight, nColors, k)
    {
      var xOffset := i * (width + Border) + Border;
      if i == nColors - 1 {
        width := width + remainder;
      }
      ret := ret + [Rect(xOffset, yOffset, width + xOffset, height + yOffset)];
    }
  }

  /** The swatch layout applies: at least one colour, room for the gaps, a real image height. */
  predicate Fits(srcWidth: int, srcHeight: int, nColors: int) {
    nColors >= 1 && SwatchRoom(srcWidth, nColors) >= 0 && srcHeight >= 0
  }

  lemma {:induction false} MulMono(a: int, b: int, c: int)
    requires 0 <= a <= b && c >= 0
    ensures a * c <= b * c
  {
    if a < b {
      MulMono(a, b - 1, c);
      assert b * c == (b - 1) * c + c;
    }
  }

  /** Each swatch ends Border left of the next one's start, and no further right than the last. */
  lemma StripOrder(width: int, remainder: int, height: int, yOffset: int, nColors: int, i: int, j: int)
    requires width >= 0 && remainder >= 0 && height >= 0
    requires 0 <= i < j < nColors
    ensures Swatch(width, remainder, height, yOffset, nColors, i).max.x + Border
      <= Swatch(width, remainder, height, yOffset, nColors, j).min.x
    ensures i + 1 == j ==>
              Swatch(width, remainder, height, yOffset, nColors, i).max.x + Border
              == Swatch(width, remainder, height, yOffset, nColors, j).min.x
  {
    MulMono(i + 1, j, width + Border);
    assert (i + 1) * (width + Border) == i * (width + Border) + width + Border;
  }

  /** The last swatch ends at n * (width + Border) + remainder, the furthest right of all. */
  lemma StripRightEdge(width: int, remainder: int, height: int, yOffset: int, nColors: int, i: int)
    requires width >= 0 && remainder >= 0 && height >= 0
    requires 0 <= i < nColors
    ensures Swatch(width, remainder, height, yOffset, nColors, i).max.x
      <= width * nColors + remainder + Border * nColors
    ensures Swatch(width, remainder, height, yOffset, nColors, nColors - 1).max.x
      == width * nColors + remainder + Border * nColors
  {
    var n := nColors;
    MulMono(i, n - 1, width + Border);
    assert (n - 1) * (width + Border) == n * width - width + n * Border - Border;
  }

  /** What the layout lemmas need of calcPaletteWidth and calcPaletteHeight. */
  lemma FitsStrip(srcWidth: int, srcHeight: int, nColors: int)
    requires Fits(srcWidth, srcHeight, nColors)
    ensures CalcPaletteWidth(srcWidth, nColors).0 >= 0 && CalcPaletteWidth(srcWidth, nColors).1 >= 0
    ensures CalcPaletteWidth(srcWidth, nColors).0 * nColors + CalcPaletteWidth(srcWidth, nColors).1
      + Border * nColors == srcWidth + Border
    ensures CalcPaletteHeight(srcHeight) >= 0
  {
    PaletteWidthDivMod(srcWidth, nColors);
  }

  /**
   * Geometry of the strip: every swatch starts Border * 2 + srcHeight down and
   * is CalcPaletteHeight(srcHeight) high; the first starts at x = Border and
   * each next one Border right of the previous one's right edge; all but the
   * last are the quotient wide, the last also takes the remainder and ends at
   * Border + srcWidth, flush with the image.
   */
  lemma SwatchLayout(srcWidth: int, srcHeight: int, nColors: int)
    requires Fits(srcWidth, srcHeight, nColors)
    ensures var rs := Swatches(srcWidth, srcHeight, nColors);
      var width := CalcPaletteWidth(srcWidth, nColors).0;
      && |rs| == nColors
      && (forall i :: 0 <= i < nColors ==>
            rs[i].min.y == Border * 2 + srcHeight && rs[i].Dy() == CalcPaletteHeight(srcHeight))
      && rs[0].min.x == Border
      && (forall i :: 0 <= i < nColors - 1 ==> rs[i + 1].min.x == rs[i].max.x + Border)
      && (forall i :: 0 <= i < nColors - 1 ==> rs[i].Dx() == width)
      && rs[nColors - 1].Dx() == width + CalcPaletteWidth(srcWidth, nColors).1
      && rs[nColors - 1].max.x == Border + srcWidth
  {
    var rs := Swatches(srcWidth, srcHeight, nColors);
    var n := nColors;
    var width, remainder := CalcPaletteWidth(srcWidth, n).0, CalcPaletteWidth(srcWidth, n).1;
    var height, yOffset := CalcPaletteHeight(srcHeight), Border * 2 + srcHeight;
    FitsStrip(srcWidth, srcHeight, n);
    forall i | 0 <= i < n
      ensures rs[i] == Swatch(width, remainder, height, yOffset, n, i)
      ensures rs[i].min.y == yOffset && rs[i].Dy() == height
      ensures rs[i].Dx() == if i == n - 1 then width + remainder else width
    {
    }
    forall i | 0 <= i < n - 1
      ensures rs[i + 1].min.x == rs[i].max.x + Border
    {
      StripOrder(width, remainder, height, yOffset, n, i, i + 1);
    }
    StripRightEdge(width, remainder, height, yOffset, n, n - 1);
  }

  /**
   * The image, drawn at (Border, Border), lies on the canvas with the strip
   * below it. PNG.Write draws the image's bounds shifted by (Border, Border);
   * this is the rectangle below because decoded images have their bounds at
   * the origin.
   */
  lemma PictureOnCanvas(srcWidth: int, srcHeight: int)
    requires srcWidth >= 0 && srcHeight >= 0
    ensures var picture := Rect(Border, Border, Border + srcWidth, Border + srcHeight);
      && picture.Within(ImgRect(srcWidth, srcHeight))
      && ImgRect(srcWidth, srcHeight).max.x == picture.max.x + Border
      && ImgRect(srcWidth, srcHeight).max.y == picture.max.y + Border * 2 + CalcPaletteHeight(srcHeight)
  {
  }

  /**
   * Without room for the gaps the layout breaks: for a 4 pixel wide image and
   * 7 colours the width is -3, Rect turns each swatch around, and the first two
   * swatches overlap.
   */
  lemma NarrowSwatchesOverlap()
    ensures !Fits(4, 2, 7)
    ensures CalcPaletteWidth(4, 7) == (-3, -6)
    ensures var rs := Swatches(4, 2, 7);
      rs[0] == Rect(1, 10, 4, 11) && rs[1] == Rect(2, 10, 5, 11) && rs[1].min.x < rs[0].max.x
  {
  }

  /** A strip that spans the image's width, below it, lies on the canvas around both. */
  lemma StripOnCanvas(width: int, remainder: int, height: int, yOffset: int, srcWidth: int, srcHeight: int, nColors: int)
    requires width >= 0 && remainder >= 0 && height >= 0 && srcHeight >= 0 && nColors >= 1
    requires width * nColors + remainder + Border * nColors == srcWidth + Border
    requires yOffset == Border * 2 + srcHeight
    ensures var canvas := Rect(0, 0, Border * 2 + srcWidth, Border + yOffset + height);
      forall i :: 0 <= i < nColors ==> Swatch(width, remainder, height, yOffset, nColors, i).Within(canvas)
    ensures var picture := Rect(Border, Border, Border + srcWidth, Border + srcHeight);
      forall i :: 0 <= i < nColors ==> Swatch(width, remainder, height, yOffset, nColors, i).DisjointFrom(picture)
  {
    var canvas := Rect(0, 0, Border * 2 + srcWidth, Border + yOffset + height);
    var picture := Rect(Border, Border, Border + srcWidth, Border + srcHeight);
    MulMono(0, nColors, width);
    assert canvas == Rectangle(Point(0, 0), Point(Border * 2 + srcWidth, Border + yOffset + height));
    assert picture.max.y == Border + srcHeight;
    forall i | 0 <= i < nColors
      ensures Swatch(width, remainder, height, yOffset, nColors, i).Within(canvas)
      ensures Swatch(width, remainder, height, yOffset, nColors, i).DisjointFrom(picture)
    {
      SwatchBounds(width, remainder, height, yOffset, nColors, i);
    }
  }

  /** Swatch i of a strip lies between x = Border and the strip's right end, and spans the strip's rows. */
  lemma SwatchBounds(width: int, remainder: int, height: int, yOffset: int, nColors: int, i: int)
    requires width >= 0 && remainder >= 0 && height >= 0
    requires 0 <= i < nColors
    ensures var s := Swatch(width, remainder, height, yOffset, nColors, i);
      && s.min.x >= Border && s.max.x <= width * nColors + remainder + Border * nColors
      && s.min.y == yOffset && s.max.y == yOffset + height
  {
    StripRightEdge(width, remainder, height, yOffset, nColors, i);
  }

  /** Every swatch lies on the canvas and below the image. */
  lemma SwatchesOnCanvas(srcWidth: int, srcHeight: int, nColors: int)
    requires Fits(srcWidth, srcHeight, nColors)
    ensures var rs := Swatches(srcWidth, srcHeight, nColors);
      var picture := Rect(Border, Border, Border + srcWidth, Border + srcHeight);
      && (forall i :: 0 <= i < |rs| ==> rs[i].Within(ImgRect(srcWidth, srcHeight)))
      && (forall i :: 0 <= i < |rs| ==> rs[i].DisjointFrom(picture))
  {
    var rs := Swatches(srcWidth, srcHeight, nColors);
    var width, remainder := CalcPaletteWidth(srcWidth, nColors).0, CalcPaletteWidth(srcWidth, nColors).1;
    var height := CalcPaletteHeight(srcHeight);
    FitsStrip(srcWidth, srcHeight, nColors);
    var yOffset := Border * 2 + srcHeight;
    StripOnCanvas(width, remainder, height, yOffset, srcWidth, srcHeight, nColors);
    assert ImgRect(srcWidth, srcHeight) == Rect(0, 0, Border * 2 + srcWidth, Border + yOffset + height);
    forall i | 0 <= i < nColors
      ensures rs[i] == Swatch(width, remainder, height, yOffset, nColors, i)
    {
    }
  }

  /** No two swatches overlap: each ends Border or more left of every later one. */
  lemma SwatchesDisjoint(srcWidth: int, srcHeight: int, nColors: int)
    requires Fits(srcWidth, srcHeight, nColors)
    ensures var rs := Swatches(srcWidth, srcHeight, nColors);
      forall i, j :: 0 <= i < j < |rs| ==> rs[i].max.x + Border <= rs[j].min.x
  {
    var rs := Swatches(srcWidth, srcHeight, nColors);
    var n := nColors;
    var width, remainder := CalcPaletteWidth(srcWidth, n).0, CalcPaletteWidth(srcWidth, n).1;
    var height, yOffset := CalcPaletteHeight(srcHeight), Border * 2 + srcHeight;
    FitsStrip(srcWidth, srcHeight, n);
    forall i, j | 0 <= i < j < n ensures rs[i].max.x + Border <= rs[j].min.x {
      assert rs[i] == Swatch(width, remainder, height, yOffset, n, i);
      assert rs[j] == Swatch(width, remainder, height, yOffset, n, j);
      StripOrder(width, remainder, height, yOffset, n, i, j);
    }
  }
}
