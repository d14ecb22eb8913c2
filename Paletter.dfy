/**
 * paletter.go: the pipeline that turns an image into a palette. Pixels are
 * scanned into L*a*b* observations, partitioned by k-means, and the cluster
 * centres are sorted by lightness and converted back to displayable colours,
 * which are handed to an output sink.
 *
 * The colour conversions of the go-colorful library and the k-means
 * partitioner are not part of this model; they are parameters:
 *   toLab            colorful.MakeColor(c) followed by .Lab()
 *   toColor          colorful.Lab(l, a, b).Clamped()
 *   calculatePalette CalculatePalette, i.e. kmeans.Partition with DeltaThreshold
 */
module Paletter {
  import opened Wrappers
  import opened Geometry
  import opened Colors
  import opened Arithmetic

  /** Go's image.Image: its bounds and the device colour at each point. */
  datatype Image<P> = Image(bounds: Rectangle, at: (int, int) -> P)

  /** A cluster as the k-means library returns it: a centre and its members. */
  datatype Cluster = Cluster(center: seq<real>, observations: seq<ColorLab>)

  /** The number of colours wanted and the image to take them from. */
  datatype Paletter<P> = Paletter(nColors: int, image: Image<P>)

  /** FromImage keeps the image and the colour count exactly as given. */
  function FromImage<P>(image: Image<P>, nColors: int): (p: Paletter<P>)
    ensures p.nColors == nColors && p.image == image
  {
    Paletter(nColors, image)
  }

  /** Position in the row-major scan of `b` of the pixel (x, y) of `b`. */
  function ScanIndex(b: Rectangle, x: int, y: int): int {
    (y - b.min.y) * b.Columns() + (x - b.min.x)
  }

  /** The pixel a row-major scan of `b` visits at position k. */
  function PixelAt(b: Rectangle, k: nat): (p: (int, int))
    requires b.Columns() > 0
  {
    (b.min.x + k % b.Columns(), b.min.y + k / b.Columns())
  }

  /**
   * The observations of `img`: one per pixel of its bounds, in row-major
   * order, each the L*a*b* conversion of that pixel's colour.
   */
  function Observations<P>(img: Image<P>, toLab: P -> ColorLab): (obs: seq<ColorLab>)
    ensures |obs| == img.bounds.Columns() * img.bounds.Rows()
  {
    var b := img.bounds;
    if b.Columns() == 0 then []
    else seq(b.Columns() * b.Rows(), k requires 0 <= k => toLab(img.at(PixelAt(b, k).0, PixelAt(b, k).1)))
  }

  /** A scan position of a pixel inside the bounds is below Rows * Columns. */
  lemma ScanIndexBound(row: int, col: int, w: int, h: int)
    requires 0 <= row < h && 0 <= col < w
    ensures 0 <= row * w + col < h * w
  {
    assert row * w <= (h - 1) * w;
    assert (h - 1) * w + w == h * w;
  }

  /**
   * Every pixel inside the bounds has its observation at position
   * (y - Min.Y) * Dx + (x - Min.X), and that position exists.
   */
  lemma ObservationAt<P>(img: Image<P>, toLab: P -> ColorLab, x: int, y: int)
    requires img.bounds.min.x <= x < img.bounds.max.x
    requires img.bounds.min.y <= y < img.bounds.max.y
    ensures 0 <= ScanIndex(img.bounds, x, y) < |Observations(img, toLab)|
    ensures Observations(img, toLab)[ScanIndex(img.bounds, x, y)] == toLab(img.at(x, y))
  {
    var b := img.bounds;
    var row, col := y - b.min.y, x - b.min.x;
    ScanIndexBound(row, col, b.Columns(), b.Rows());
    DivModUnique(row * b.Columns() + col, b.Columns(), row, col);
  }

  /**
   * ImageToObservation scans the bounds row by row and appends one
   * observation per pixel.
   */
  method ImageToObservation<P>(img: Image<P>, toLab: P -> ColorLab) returns (ret: seq<ColorLab>)
    ensures |ret| == img.bounds.Columns() * img.bounds.Rows()
    ensures ret == Observations(img, toLab)
  {
    ret := [];
    var bounds := img.bounds;
    var w := bounds.Columns();
    var y := bounds.min.y;
    while y < bounds.max.y
      invariant y == bounds.min.y || bounds.min.y < y <= bounds.max.y
      invariant |ret| == (y - bounds.min.y) * w
      invariant forall k :: 0 <= k < |ret| ==>
        w > 0 && ret[k] == toLab(img.at(PixelAt(bounds, k).0, PixelAt(bounds, k).1))
    {
      var x := bounds.min.x;
      while x < bounds.max.x
        invariant x == bounds.min.x || bounds.min.x < x <= bounds.max.x
        invariant |ret| == (y - bounds.min.y) * w + (x - bounds.min.x)
        invariant forall k :: 0 <= k < |ret| ==>
          w > 0 && ret[k] == toLab(img.at(PixelAt(bounds, k).0, PixelAt(bounds, k).1))
      {
        DivModUnique((y - bounds.min.y) * w + (x - bounds.min.x), w, y - bounds.min.y, x - bounds.min.x);
        var labColor := toLab(img.at(x, y));
        ret := ret + [labColor];
        x := x + 1;
      }
      assert (y - bounds.min.y) * w + w == (y + 1 - bounds.min.y) * w;
      y := y + 1;
    }
    assert |ret| == bounds.Rows() * w;
  }

  /** Every cluster centre has the three coordinates ColorsFromClusters reads. */
  predicate HasLabCenters(cs: seq<Cluster>) {
    forall i :: 0 <= i < |cs| ==> |cs[i].center| >= 3
  }

  /** The centres of `cs` read as colours, in cluster order. */
  function LabCenters(cs: seq<Cluster>): (colors: seq<ColorLab>)
    requires HasLabCenters(cs)
  {
    seq(|cs|, i requires 0 <= i < |cs| => FromCoordinates(cs[i].center))
  }

  /** Each colour of `s` converted for display, in order. */
  function Converted<C>(s: seq<ColorLab>, toColor: ColorLab -> C): (r: seq<C>) {
    seq(|s|, i requires 0 <= i < |s| => toColor(s[i]))
  }

  /**
   * `ret` is what ColorsFromClusters may return for `cs`: the centres sorted
   * by non-increasing lightness (equally light ones in any order), each
   * converted for display.
   */
  ghost predicate IsAssembly<C>(ret: seq<C>, cs: seq<Cluster>, toColor: ColorLab -> C)
    requires HasLabCenters(cs)
  {
    exists sorted :: IsLightnessOrder(sorted, LabCenters(cs)) && ret == Converted(sorted, toColor)
  }

  /**
   * ColorsFromClusters: one colour per cluster, taken from its centre, sorted
   * by descending lightness and converted (with clamping) for display.
   */
  method ColorsFromClusters<C>(cs: seq<Cluster>, toColor: ColorLab -> C) returns (ret: seq<C>)
    requires HasLabCenters(cs)
    ensures |ret| == |cs|
    ensures IsAssembly(ret, cs, toColor)
  {
    ret := [];
    var colors := new ColorLab[|cs|];
    for i := 0 to |cs|
      invariant forall k :: 0 <= k < i ==> colors[k] == FromCoordinates(cs[k].center)
    {
      colors[i] := FromCoordinates(cs[i].center);
    }
    ghost var centers := colors[..];
    assert centers == LabCenters(cs);

    Sort(colors);

    for i := 0 to colors.Length
      invariant |ret| == i
      invariant forall k :: 0 <= k < i ==> ret[k] == toColor(colors[k])
    {
      ret := ret + [toColor(colors[i])];
    }
    assert ret == Converted(colors[..], toColor);
    assert IsLightnessOrder(colors[..], LabCenters(cs));
    assert |colors[..]| == |cs| by {
      assert |multiset(colors[..])| == |multiset(centers)|;
    }
  }

  /**
   * An output sink (output.Output). Writing performs the sink's I/O, which is
   * not modelled: the model records every palette written, in order, and
   * takes the sink's verdict on a palette from `outcome`.
   */
  class Output<C, E> {
    var written: seq<seq<C>>
    const outcome: seq<C> -> Option<E>

    constructor (outcome: seq<C> -> Option<E>)
      ensures this.outcome == outcome && written == []
    {
      this.outcome := outcome;
      written := [];
    }

    /** Write: hand the palette to the sink and report its error, if any. */
    method Write(colors: seq<C>) returns (err: Option<E>)
      modifies this
      ensures written == old(written) + [colors]
      ensures err == outcome(colors)
    {
      written := written + [colors];
      err := outcome(colors);
    }
  }

  /**
   * Generate: extract the observations, partition them into p.nColors
   * clusters, assemble the palette and write it. A partitioning error is
   * returned unchanged and nothing is written; otherwise exactly one palette
   * is written and the sink's result is returned.
   */
  method Generate<P, C, E>(p: Paletter<P>, out: Output<C, E>, toLab: P -> ColorLab,
                           calculatePalette: (seq<ColorLab>, int) -> Result<seq<Cluster>, E>,
                           toColor: ColorLab -> C)
    returns (err: Option<E>)
    requires calculatePalette(Observations(p.image, toLab), p.nColors).Success? ==>
      HasLabCenters(calculatePalette(Observations(p.image, toLab), p.nColors).value)
    modifies out
    ensures calculatePalette(Observations(p.image, toLab), p.nColors).Failure? ==>
      err == Some(calculatePalette(Observations(p.image, toLab), p.nColors).error) &&
      out.written == old(out.written)
    ensures calculatePalette(Observations(p.image, toLab), p.nColors).Success? ==>
      |out.written| == |old(out.written)| + 1 &&
      out.written[..|old(out.written)|] == old(out.written) &&
      IsAssembly(out.written[|old(out.written)|], calculatePalette(Observations(p.image, toLab), p.nColors).value, toColor) &&
      err == out.outcome(out.written[|old(out.written)|])
  {
    var obs := ImageToObservation(p.image, toLab);
    var cs := calculatePalette(obs, p.nColors);
    if cs.Failure? {
      return Some(cs.error);
    }
    var colors := ColorsFromClusters(cs.value, toColor);
    err := out.Write(colors);
    assert out.written[|old(out.written)|] == colors;
    assert out.written[..|old(out.written)|] == old(out.written);
  }
}
