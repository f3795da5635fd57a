/** The segmentation post-processing of `App/segmentation.py`: turning the
    segmentation model's probability mask into a 0/1 mask, measuring the
    diseased area, and drawing the red overlay. The model itself, the
    contour tracer with its convex hulls, and the blur are parameters. */
module Segmentation {
  import opened Tensors
  import opened Geometry

  /** Side of the square every image is resized to. */
  const Size: nat := 256

  /** A cell of the probability mask counts as diseased above this value. */
  const Cutoff: real := 0.5

  /** An RGB pixel; channels are 0..255 in an image, 0..1 once normalised. */
  datatype Pixel = Pixel(r: real, g: real, b: real)

  /** The colour written over diseased cells, on the normalised scale. */
  const Red: Pixel := Pixel(1.0, 0.0, 0.0)

  /** An image after `resize((256, 256))`, as rows of pixels. */
  type Raster = seq<seq<Pixel>>

  function Width(raster: Raster): nat
  {
    if |raster| == 0 then 0 else |raster[0]|
  }

  /** Every row has the same length. */
  predicate IsRaster(raster: Raster)
  {
    forall i :: 0 <= i < |raster| ==> |raster[i]| == Width(raster)
  }

  predicate InByteRange(p: Pixel)
  {
    0.0 <= p.r <= 255.0 && 0.0 <= p.g <= 255.0 && 0.0 <= p.b <= 255.0
  }

  predicate InUnitRange(p: Pixel)
  {
    0.0 <= p.r <= 1.0 && 0.0 <= p.g <= 1.0 && 0.0 <= p.b <= 1.0
  }

  predicate IsByteImage(raster: Raster)
  {
    forall i, j :: 0 <= i < |raster| && 0 <= j < |raster[i]| ==> InByteRange(raster[i][j])
  }

  datatype Error =
    | NotAGrid      // the mask is not a one-channel two-dimensional image
    | ZeroDivision  // Python's ZeroDivisionError in the metrics
    | ShapeMismatch // the mask does not index the 256 x 256 image

  datatype Result<T> = Ok(value: T) | Err(error: Error)

  // ---------------------------------------------------------------------
  // preprocess_image

  /** `img_to_array(img) / 255.0` on one pixel. */
  function Normalize(p: Pixel): (q: Pixel)
    ensures InByteRange(p) ==> InUnitRange(q)
  {
    Pixel(p.r / 255.0, p.g / 255.0, p.b / 255.0)
  }

  /** Channel c (0 red, 1 green, 2 blue) of a pixel. */
  function Channel(p: Pixel, c: nat): real
    requires c < 3
  {
    if c == 0 then p.r else if c == 1 then p.g else p.b
  }

  /** One row of normalised pixels, channel-last. */
  function FlattenRow(row: seq<Pixel>): (data: seq<real>)
    ensures |data| == 3 * |row|
    ensures (forall k :: 0 <= k < |row| ==> InByteRange(row[k])) ==>
      forall k :: 0 <= k < |data| ==> 0.0 <= data[k] <= 1.0
  {
    if row == [] then []
    else
      var q := Normalize(row[0]);
      [q.r, q.g, q.b] + FlattenRow(row[1..])
  }

  /** Channel c of pixel k sits at offset 3k + c of the flattened row. */
  lemma {:induction false} FlattenRowAt(row: seq<Pixel>, k: nat, c: nat)
    requires k < |row| && c < 3
    ensures 3 * k + c < |FlattenRow(row)|
    ensures FlattenRow(row)[3 * k + c] == Channel(Normalize(row[k]), c)
  {
    if k > 0 {
      FlattenRowAt(row[1..], k - 1, c);
      assert row[1..][k - 1] == row[k];
    }
  }

  /** Every value lies in [0, 1]. */
  predicate InUnitInterval(data: seq<real>)
  {
    forall k :: 0 <= k < |data| ==> 0.0 <= data[k] <= 1.0
  }

  /** All rows of normalised pixels, row-major and channel-last. */
  function FlattenRows(rows: seq<seq<Pixel>>, w: nat): (data: seq<real>)
    requires forall i :: 0 <= i < |rows| ==> |rows[i]| == w
    ensures |data| == |rows| * (3 * w)
  {
    if rows == [] then []
    else
      assert |rows| * (3 * w) == 3 * w + |rows[1..]| * (3 * w);
      FlattenRow(rows[0]) + FlattenRows(rows[1..], w)
  }

  /** Where row i starts in the flattened rows of width w: after i rows of
      3w values each. */
  function RowOffset(i: nat, w: nat): nat
  {
    if i == 0 then 0 else 3 * w + RowOffset(i - 1, w)
  }

  lemma {:induction false} RowOffsetIsProduct(i: nat, w: nat)
    ensures RowOffset(i, w) == i * (3 * w)
  {
    if i > 0 {
      RowOffsetIsProduct(i - 1, w);
      assert i * (3 * w) == 3 * w + (i - 1) * (3 * w);
    }
  }

  /** Channel c of pixel (i, j) sits at offset RowOffset(i, w) + 3j + c. */
  lemma {:induction false} FlattenRowsAt(rows: seq<seq<Pixel>>, w: nat, i: nat, j: nat, c: nat)
    requires forall i :: 0 <= i < |rows| ==> |rows[i]| == w
    requires i < |rows| && j < w && c < 3
    ensures RowOffset(i, w) + (3 * j + c) < |FlattenRows(rows, w)|
    ensures FlattenRows(rows, w)[RowOffset(i, w) + (3 * j + c)] == Channel(Normalize(rows[i][j]), c)
  {
    var first, rest := FlattenRow(rows[0]), FlattenRows(rows[1..], w);
    assert FlattenRows(rows, w) == first + rest;
    if i == 0 {
      FlattenRowAt(rows[0], j, c);
    } else {
      FlattenRowsAt(rows[1..], w, i - 1, j, c);
      assert rows[1..][i - 1] == rows[i];
      var x := RowOffset(i - 1, w) + (3 * j + c);
      assert (first + rest)[|first| + x] == rest[x];
    }
  }

  /** Normalising a 0..255 image gives values in [0, 1]. */
  lemma {:induction false} FlattenRowsInRange(rows: seq<seq<Pixel>>, w: nat)
    requires forall i :: 0 <= i < |rows| ==> |rows[i]| == w
    requires IsByteImage(rows)
    ensures InUnitInterval(FlattenRows(rows, w))
  {
    if rows != [] {
      var rest := rows[1..];
      forall i, j | 0 <= i < |rest| && 0 <= j < |rest[i]|
        ensures InByteRange(rest[i][j])
      {
        assert rest[i] == rows[i + 1];
      }
      FlattenRowsInRange(rest, w);
      assert forall k :: 0 <= k < |rows[0]| ==> InByteRange(rows[0][k]);
      var first := FlattenRow(rows[0]);
      var all := FlattenRows(rows, w);
      assert all == first + FlattenRows(rest, w);
      forall k | 0 <= k < |all|
        ensures 0.0 <= all[k] <= 1.0
      {
        if k >= |first| {
          assert all[k] == FlattenRows(rest, w)[k - |first|];
        }
      }
    }
  }

  lemma BatchShapeProduct(h: nat, w: nat)
    ensures Product([1, h, w, 3]) == h * (3 * w)
  {
    var s := [1, h, w, 3];
    assert s[1..][1..][1..][1..] == [];
    assert Product(s[1..][1..][1..]) == 3;
    assert Product(s[1..][1..]) == w * 3;
    assert Product(s[1..]) == h * (w * 3);
  }

  /** The row-major offset of cell (0, i, j, c) in a (1, H, W, 3) array. */
  function CellIndex(w: nat, i: nat, j: nat, c: nat): nat
  {
    (i * w + j) * 3 + c
  }

  lemma BatchOffset(i: nat, j: nat, c: nat, w: nat)
    ensures CellIndex(w, i, j, c) == RowOffset(i, w) + (3 * j + c)
  {
    RowOffsetIsProduct(i, w);
  }

  /** Channel c of pixel (i, j) sits at offset (i * W + j) * 3 + c. */
  lemma FlattenRowsCells(rows: seq<seq<Pixel>>, w: nat)
    requires forall i :: 0 <= i < |rows| ==> |rows[i]| == w
    ensures forall i, j, c :: 0 <= i < |rows| && 0 <= j < w && 0 <= c < 3 ==>
      CellIndex(w, i, j, c) < |FlattenRows(rows, w)| &&
      FlattenRows(rows, w)[CellIndex(w, i, j, c)] == Channel(Normalize(rows[i][j]), c)
  {
    forall i, j, c | 0 <= i < |rows| && 0 <= j < w && 0 <= c < 3
      ensures CellIndex(w, i, j, c) < |FlattenRows(rows, w)|
      ensures FlattenRows(rows, w)[CellIndex(w, i, j, c)] == Channel(Normalize(rows[i][j]), c)
    {
      FlattenRowsAt(rows, w, i, j, c);
      BatchOffset(i, j, c, w);
    }
  }

  /** `preprocess_image`: the resized image, normalised to [0, 1], with a
      leading batch axis: shape (1, H, W, 3), whose cell (0, i, j, c) is
      channel c of pixel (i, j) divided by 255. */
  function PreprocessImage(raster: Raster): (t: NdArray)
    requires IsRaster(raster)
    ensures t.shape == [1, |raster|, Width(raster), 3] && t.Valid()
    ensures forall i, j, c :: 0 <= i < |raster| && 0 <= j < Width(raster) && 0 <= c < 3 ==>
      CellIndex(Width(raster), i, j, c) < |t.data| &&
      t.data[CellIndex(Width(raster), i, j, c)] == Channel(Normalize(raster[i][j]), c)
    ensures IsByteImage(raster) ==> InUnitInterval(t.data)
  {
    BatchShapeProduct(|raster|, Width(raster));
    FlattenRowsCells(raster, Width(raster));
    assert IsByteImage(raster) ==> InUnitInterval(FlattenRows(raster, Width(raster))) by {
      if IsByteImage(raster) {
        FlattenRowsInRange(raster, Width(raster));
      }
    }
    NdArray([1, |raster|, Width(raster), 3], FlattenRows(raster, Width(raster)))
  }

  // ---------------------------------------------------------------------
  // postprocess_mask

  /** `(a > 0.5).astype(np.uint8)`: 1 where the value exceeds the cutoff, else 0. */
  function Threshold(a: NdArray): (r: NdArray)
    ensures r.shape == a.shape && |r.data| == |a.data|
    ensures IsBinary(r)
    ensures forall k :: 0 <= k < |a.data| ==> (r.data[k] == 1.0 <==> a.data[k] > Cutoff)
  {
    NdArray(a.shape, seq(|a.data|, k requires 0 <= k < |a.data| => if a.data[k] > Cutoff then 1.0 else 0.0))
  }

  /** A 0/1 mask thresholded again is unchanged. */
  lemma ThresholdIdempotent(a: NdArray)
    requires IsBinary(a)
    ensures Threshold(a) == a
  {
    var r := Threshold(a);
    assert forall k :: 0 <= k < |a.data| ==> r.data[k] == a.data[k];
    assert r.data == a.data;
  }

  /** `postprocess_mask`: squeeze, then threshold. */
  function PostprocessMask(a: NdArray): (r: NdArray)
    ensures r.shape == DropOnes(a.shape) && |r.data| == |a.data|
    ensures IsBinary(r)
    ensures forall k :: 0 <= k < |a.data| ==> (r.data[k] == 1.0 <==> a.data[k] > Cutoff)
  {
    Threshold(Squeeze(a))
  }

  /** Post-processing a post-processed mask changes nothing. */
  lemma PostprocessIdempotent(a: NdArray)
    ensures PostprocessMask(PostprocessMask(a)) == PostprocessMask(a)
  {
    var m := PostprocessMask(a);
    assert Squeeze(m) == m;
    ThresholdIdempotent(m);
  }

  /** Cell (i, j) of a post-processed grid is 1 exactly when cell (i, j) of
      the squeezed input exceeds the cutoff. */
  lemma PostprocessedCell(a: NdArray, i: nat, j: nat)
    requires Squeeze(a).IsGrid() && i < Squeeze(a).shape[0] && j < Squeeze(a).shape[1]
    ensures PostprocessMask(a).IsGrid()
    ensures Cell(PostprocessMask(a), i, j) == 1.0 <==> Cell(Squeeze(a), i, j) > Cutoff
  {
    var s, m := Squeeze(a), PostprocessMask(a);
    CellOffset(s, i, j);
    CellOffset(m, i, j);
  }

  /** The model's (1, H, W, 1) output becomes a well-formed H x W 0/1 grid
      whose cell (i, j) is 1 exactly when the model's value at (0, i, j, 0)
      exceeds the cutoff. */
  lemma PostprocessModelOutput(a: NdArray, h: nat, w: nat)
    requires a.Valid() && a.shape == [1, h, w, 1] && h != 1 && w != 1
    ensures PostprocessMask(a).IsGrid() && PostprocessMask(a).shape == [h, w]
    ensures Squeeze(a).shape == [h, w] && Squeeze(a).IsGrid() && Squeeze(a).data == a.data
    ensures forall i, j :: 0 <= i < h && 0 <= j < w ==>
      (Cell(PostprocessMask(a), i, j) == 1.0 <==> Cell(Squeeze(a), i, j) > Cutoff)
  {
    SqueezeBatchAndChannel(a, h, w);
    forall i, j | 0 <= i < h && 0 <= j < w
      ensures Cell(PostprocessMask(a), i, j) == 1.0 <==> Cell(Squeeze(a), i, j) > Cutoff
    {
      PostprocessedCell(a, i, j);
    }
  }

  // ---------------------------------------------------------------------
  // calculate_disease_percentage

  /** `sum([cv2.contourArea(hull) for hull in hulls])`. */
  function DefectedArea(hulls: seq<Polygon>): (area: real)
    ensures area >= 0.0
    ensures hulls == [] ==> area == 0.0
  {
    if hulls == [] then 0.0 else ContourArea(hulls[0]) + DefectedArea(hulls[1..])
  }

  /** The hull areas of two lists of hulls add up: with SingleHullArea this
      makes DefectedArea the sum of the areas of all the hulls. */
  lemma {:induction false} DefectedAreaConcat(a: seq<Polygon>, b: seq<Polygon>)
    ensures DefectedArea(a + b) == DefectedArea(a) + DefectedArea(b)
  {
    if a == [] {
      assert a + b == b;
    } else {
      assert (a + b)[0] == a[0];
      assert (a + b)[1..] == a[1..] + b;
      DefectedAreaConcat(a[1..], b);
    }
  }

  lemma SingleHullArea(hull: Polygon)
    ensures DefectedArea([hull]) == ContourArea(hull)
  {
    assert [hull][1..] == [];
  }

  /** The mask shapes the metrics can measure: OpenCV takes an (H, W) array,
      and an (H, W, 1) array, as a one-channel image, and line 36 then reads
      the first two axes. Any other rank makes `findContours` or the
      `shape[1]` of line 36 fail. */
  predicate IsMaskImage(shape: seq<nat>)
  {
    |shape| == 2 || (|shape| == 3 && shape[2] == 1)
  }

  /** `pred_mask.shape[0] * pred_mask.shape[1]`. */
  function TotalArea(mask: NdArray): (area: real)
    requires |mask.shape| >= 2
    ensures area >= 0.0
    ensures area == 0.0 <==> mask.shape[0] == 0 || mask.shape[1] == 0
  {
    (mask.shape[0] * mask.shape[1]) as real
  }

  datatype Metrics = Metrics(diseasePercentage: real, defectionRatio: real)

  /** The hull area the metrics sum for `predMask`: the tracer (findContours
      with RETR_EXTERNAL, then convexHull per contour) sees the thresholded
      mask. */
  function HullAreaOf(predMask: NdArray, traceHulls: NdArray -> seq<Polygon>): (area: real)
    ensures area >= 0.0
    ensures traceHulls(Threshold(predMask)) == [] ==> area == 0.0
  {
    DefectedArea(traceHulls(Threshold(predMask)))
  }

  /** `calculate_disease_percentage`, including the two divisions Python
      refuses: `defected / undefected` when the hulls cover the whole frame
      (the guard looks at the total area, not the undefected one), and
      `defected / total` for an empty frame (where the guard's fallback 0 is
      computed and then lost). */
  function CalculateDiseasePercentage(predMask: NdArray, traceHulls: NdArray -> seq<Polygon>): (r: Result<Metrics>)
    ensures r.Ok? ==> IsMaskImage(predMask.shape)
    ensures r.Err? ==> r.error == NotAGrid || r.error == ZeroDivision
    ensures r.Err? ==> (r.error == NotAGrid <==> !IsMaskImage(predMask.shape))
  {
    var mask := Threshold(predMask);
    if !IsMaskImage(mask.shape) then Err(NotAGrid)
    else
      var defected := DefectedArea(traceHulls(mask));
      var total := TotalArea(mask);
      var undefected := total - defected;
      if total > 0.0 && undefected == 0.0 then Err(ZeroDivision)
      else
        var ratio := if total > 0.0 then defected / undefected else 0.0;
        if total == 0.0 then Err(ZeroDivision)
        else Ok(Metrics(defected / total * 100.0, ratio))
  }

  // Facts about real division that the metrics lemmas need.

  lemma QuotientProduct(d: real, t: real)
    requires t != 0.0
    ensures (d / t) * t == d
  {
  }

  lemma QuotientBelowOne(d: real, t: real)
    requires 0.0 <= d < t
    ensures 0.0 <= d / t < 1.0
  {
    var q := d / t;
    assert q * t == d;
  }

  lemma QuotientNonNegative(d: real, u: real)
    requires 0.0 <= d && 0.0 < u
    ensures d / u >= 0.0
  {
    var q := d / u;
    assert q * u == d;
  }

  lemma QuotientAboveOne(d: real, t: real)
    requires 0.0 < t < d
    ensures d / t * 100.0 > 100.0 && d / (t - d) < 0.0
  {
    var q := d / t;
    assert q * t == d;
    var u := d / (t - d);
    assert u * (t - d) == d;
  }

  lemma RatioFromPercentage(d: real, t: real)
    requires 0.0 < t && d != t
    ensures (d / (t - d)) * (100.0 - d / t * 100.0) == d / t * 100.0
  {
    var q := d / t;
    var u := d / (t - d);
    assert q * t == d;
    assert u * (t - d) == d;
    assert u * (1.0 - q) * t == u * (t - q * t);
    assert u * (1.0 - q) * t == q * t;
    assert u * (1.0 - q) == q;
    assert u * (100.0 - q * 100.0) == 100.0 * (u * (1.0 - q));
  }

  /** The metrics exist exactly for a non-empty one-channel mask, (H, W) or
      (H, W, 1), whose hulls do not cover the whole frame. */
  lemma MetricsDefinedIff(predMask: NdArray, traceHulls: NdArray -> seq<Polygon>)
    ensures CalculateDiseasePercentage(predMask, traceHulls).Ok? <==>
      IsMaskImage(predMask.shape) && TotalArea(predMask) > 0.0 &&
      HullAreaOf(predMask, traceHulls) != TotalArea(predMask)
  {
  }

  /** Hulls that cover exactly the frame make `defected / undefected` divide
      by zero: the guard of line 39 tests the total area, which is not 0. */
  lemma HullsCoverFrameFails(predMask: NdArray, traceHulls: NdArray -> seq<Polygon>)
    requires IsMaskImage(predMask.shape) && TotalArea(predMask) > 0.0
    requires HullAreaOf(predMask, traceHulls) == TotalArea(predMask)
    ensures CalculateDiseasePercentage(predMask, traceHulls) == Err(ZeroDivision)
  {
  }

  /** For an empty frame the guard's fallback ratio 0 never reaches the
      caller: the percentage's division fails first. */
  lemma EmptyFrameFails(predMask: NdArray, traceHulls: NdArray -> seq<Polygon>)
    requires IsMaskImage(predMask.shape) && TotalArea(predMask) == 0.0
    ensures CalculateDiseasePercentage(predMask, traceHulls) == Err(ZeroDivision)
  {
  }

  /** On success the percentage is defected / total * 100 and the ratio is
      defected / undefected; the two are tied by ratio = p / (100 - p). */
  lemma MetricsValues(predMask: NdArray, traceHulls: NdArray -> seq<Polygon>)
    requires CalculateDiseasePercentage(predMask, traceHulls).Ok?
    ensures var m := CalculateDiseasePercentage(predMask, traceHulls).value;
      var d, t := HullAreaOf(predMask, traceHulls), TotalArea(predMask);
      m.diseasePercentage * t == d * 100.0 &&
      m.defectionRatio * (t - d) == d &&
      m.defectionRatio * (100.0 - m.diseasePercentage) == m.diseasePercentage
  {
    var d, t := HullAreaOf(predMask, traceHulls), TotalArea(predMask);
    QuotientProduct(d, t);
    QuotientProduct(d, t - d);
    RatioFromPercentage(d, t);
  }

  /** While the hulls cover less than the frame, the percentage lies in
      [0, 100) and the ratio is non-negative. */
  lemma MetricsInRange(predMask: NdArray, traceHulls: NdArray -> seq<Polygon>)
    requires IsMaskImage(predMask.shape) && TotalArea(predMask) > 0.0
    requires HullAreaOf(predMask, traceHulls) < TotalArea(predMask)
    ensures CalculateDiseasePercentage(predMask, traceHulls).Ok?
    ensures var m := CalculateDiseasePercentage(predMask, traceHulls).value;
      0.0 <= m.diseasePercentage < 100.0 && 0.0 <= m.defectionRatio
  {
    var d, t := HullAreaOf(predMask, traceHulls), TotalArea(predMask);
    QuotientBelowOne(d, t);
    QuotientNonNegative(d, t - d);
  }

  /** Overlapping hulls (one contour lying in the concave part of another's
      hull) can add up to more than the frame; then the percentage exceeds
      100 and the ratio is negative. */
  lemma OvercountedMetrics(predMask: NdArray, traceHulls: NdArray -> seq<Polygon>)
    requires IsMaskImage(predMask.shape) && TotalArea(predMask) > 0.0
    requires HullAreaOf(predMask, traceHulls) > TotalArea(predMask)
    ensures CalculateDiseasePercentage(predMask, traceHulls).Ok?
    ensures var m := CalculateDiseasePercentage(predMask, traceHulls).value;
      m.diseasePercentage > 100.0 && m.defectionRatio < 0.0
  {
    QuotientAboveOne(HullAreaOf(predMask, traceHulls), TotalArea(predMask));
  }

  /** A mask in which the tracer finds no contour (an all-zero mask) has
      disease percentage 0 and defection ratio 0. */
  lemma NoContoursNoDisease(predMask: NdArray, traceHulls: NdArray -> seq<Polygon>)
    requires IsMaskImage(predMask.shape) && TotalArea(predMask) > 0.0
    requires traceHulls(Threshold(predMask)) == []
    ensures CalculateDiseasePercentage(predMask, traceHulls) == Ok(Metrics(0.0, 0.0))
  {
  }

  /** The metrics re-threshold their input, so the raw probability mask and
      the post-processed mask give the same answer. */
  lemma RawAndBinaryMaskAgree(predMask: NdArray, traceHulls: NdArray -> seq<Polygon>)
    ensures CalculateDiseasePercentage(Threshold(predMask), traceHulls) ==
            CalculateDiseasePercentage(predMask, traceHulls)
  {
    ThresholdIdempotent(Threshold(predMask));
  }

  /** The metrics of a mask whose hulls add up to a given area. */
  lemma MetricsOfArea(predMask: NdArray, traceHulls: NdArray -> seq<Polygon>, d: real, t: real)
    requires IsMaskImage(predMask.shape) && TotalArea(predMask) == t && t > 0.0
    requires HullAreaOf(predMask, traceHulls) == d && d != t
    ensures CalculateDiseasePercentage(predMask, traceHulls) == Ok(Metrics(d / t * 100.0, d / (t - d)))
  {
  }

  /** On a 256 x 256 mask, hulls of total area 225 give percentage
      22500/65536 and ratio 225/65311. */
  lemma MetricsOf225(predMask: NdArray, traceHulls: NdArray -> seq<Polygon>)
    requires predMask.shape == [Size, Size]
    requires HullAreaOf(predMask, traceHulls) == 225.0
    ensures CalculateDiseasePercentage(predMask, traceHulls) ==
      Ok(Metrics(22500.0 / 65536.0, 225.0 / 65311.0))
  {
    assert TotalArea(predMask) == 65536.0;
    MetricsOfArea(predMask, traceHulls, 225.0, 65536.0);
    assert 225.0 / 65536.0 * 100.0 == 22500.0 / 65536.0;
    assert 65536.0 - 225.0 == 65311.0;
  }

  /** A solid 16 x 16 block in the corner of a 256 x 256 mask: the tracer
      returns the hull through the centres of its corner pixels, (0, 0) to
      (15, 15), so the area counted is 15 * 15 = 225, not 256. */
  lemma CornerBlockMetrics(predMask: NdArray, traceHulls: NdArray -> seq<Polygon>)
    requires predMask.shape == [Size, Size]
    requires traceHulls(Threshold(predMask)) == [Rectangle(0, 0, 15, 15)]
    ensures CalculateDiseasePercentage(predMask, traceHulls) ==
      Ok(Metrics(22500.0 / 65536.0, 225.0 / 65311.0))
  {
    RectangleArea(0, 0, 15, 15);
    SingleHullArea(Rectangle(0, 0, 15, 15));
    MetricsOf225(predMask, traceHulls);
  }

  // ---------------------------------------------------------------------
  // segmentation_display

  /** `(output_image * 255)` on one pixel. */
  function Scale255(p: Pixel): (q: Pixel)
    ensures Normalize(q) == p
  {
    Pixel(p.r * 255.0, p.g * 255.0, p.b * 255.0)
  }

  /** The overlay pixel after `overlay[pred_mask == 1, :] = [1, 0, 0]`. */
  function OverlayPixel(original: Pixel, cell: real): Pixel
  {
    if cell == 1.0 then Red else original
  }

  /** `np.where(mask, overlay, blurred)` on one pixel: any non-zero cell
      picks the overlay. */
  function ComposedPixel(overlay: Pixel, blurred: Pixel, cell: real): Pixel
  {
    if cell != 0.0 then overlay else blurred
  }

  /** The displayed pixel for an image pixel and its mask cell. */
  function DisplayPixel(p: Pixel, cell: real, blur: Pixel -> Pixel): Pixel
  {
    var q := Normalize(p);
    Scale255(ComposedPixel(OverlayPixel(q, cell), blur(q), cell))
  }

  /** On a 0/1 mask a diseased cell shows pure red (255, 0, 0) and a
      healthy cell shows the blurred pixel back on the 0..255 scale. */
  lemma DisplayOfBinaryCell(p: Pixel, cell: real, blur: Pixel -> Pixel)
    requires cell == 0.0 || cell == 1.0
    ensures cell == 1.0 ==> DisplayPixel(p, cell, blur) == Pixel(255.0, 0.0, 0.0)
    ensures cell == 0.0 ==> DisplayPixel(p, cell, blur) == Scale255(blur(Normalize(p)))
  {
  }

  /** With the 1 x 1 kernel the blur leaves a pixel as it is, and a healthy
      pixel comes back exactly as it was in the resized image. */
  lemma UnblurredBackgroundUnchanged(p: Pixel, blur: Pixel -> Pixel)
    requires blur(Normalize(p)) == Normalize(p)
    ensures DisplayPixel(p, 0.0, blur) == p
  {
  }

  /** A cell that is neither 0 nor 1 selects the overlay, which was not
      painted there: the displayed pixel is the unblurred original. */
  lemma NonBinaryCellShowsOriginal(p: Pixel, cell: real, blur: Pixel -> Pixel)
    requires cell != 0.0 && cell != 1.0
    ensures DisplayPixel(p, cell, blur) == p
  {
  }

  /** `img_to_array(image.resize((256, 256))) / 255.0` into a fresh array. */
  method NormalizedArray(raster: Raster) returns (img: array2<Pixel>)
    requires IsRaster(raster)
    ensures fresh(img)
    ensures img.Length0 == |raster| && img.Length1 == Width(raster)
    ensures forall i, j :: 0 <= i < img.Length0 && 0 <= j < img.Length1 ==>
      img[i, j] == Normalize(raster[i][j])
  {
    img := new Pixel[|raster|, Width(raster)];
    var i := 0;
    while i < img.Length0
      invariant 0 <= i <= img.Length0
      invariant forall i', j :: 0 <= i' < i && 0 <= j < img.Length1 ==> img[i', j] == Normalize(raster[i'][j])
    {
      var j := 0;
      while j < img.Length1
        invariant 0 <= j <= img.Length1
        invariant forall i', j' :: 0 <= i' < i && 0 <= j' < img.Length1 ==> img[i', j'] == Normalize(raster[i'][j'])
        invariant forall j' :: 0 <= j' < j ==> img[i, j'] == Normalize(raster[i][j'])
      {
        img[i, j] := Normalize(raster[i][j]);
        j := j + 1;
      }
      i := i + 1;
    }
  }

  /** A fresh array holding `f` of every pixel of `src`: the copy of line 82
      (with the identity), the blur of line 86 and the scaling of line 88. */
  method MapPixels(src: array2<Pixel>, f: Pixel -> Pixel) returns (dst: array2<Pixel>)
    ensures fresh(dst)
    ensures dst.Length0 == src.Length0 && dst.Length1 == src.Length1
    ensures forall i, j :: 0 <= i < dst.Length0 && 0 <= j < dst.Length1 ==> dst[i, j] == f(src[i, j])
  {
    dst := new Pixel[src.Length0, src.Length1];
    var i := 0;
    while i < dst.Length0
      invariant 0 <= i <= dst.Length0
      invariant forall i', j :: 0 <= i' < i && 0 <= j < dst.Length1 ==> dst[i', j] == f(src[i', j])
    {
      var j := 0;
      while j < dst.Length1
        invariant 0 <= j <= dst.Length1
        invariant forall i', j' :: 0 <= i' < i && 0 <= j' < dst.Length1 ==> dst[i', j'] == f(src[i', j'])
        invariant forall j' :: 0 <= j' < j ==> dst[i, j'] == f(src[i, j'])
      {
        dst[i, j] := f(src[i, j]);
        j := j + 1;
      }
      i := i + 1;
    }
  }

  /** `overlay[pred_mask == 1, :] = [1, 0, 0]`, in place. */
  method PaintMasked(overlay: array2<Pixel>, mask: NdArray)
    requires mask.IsGrid() && mask.shape == [overlay.Length0, overlay.Length1]
    modifies overlay
    ensures forall i, j :: 0 <= i < overlay.Length0 && 0 <= j < overlay.Length1 ==>
      overlay[i, j] == OverlayPixel(old(overlay[i, j]), Cell(mask, i, j))
  {
    var i := 0;
    while i < overlay.Length0
      invariant 0 <= i <= overlay.Length0
      invariant forall i', j :: 0 <= i' < i && 0 <= j < overlay.Length1 ==>
        overlay[i', j] == OverlayPixel(old(overlay[i', j]), Cell(mask, i', j))
      invariant forall i', j :: i <= i' < overlay.Length0 && 0 <= j < overlay.Length1 ==>
        overlay[i', j] == old(overlay[i', j])
    {
      var j := 0;
      while j < overlay.Length1
        invariant 0 <= j <= overlay.Length1
        invariant forall i', j' :: 0 <= i' < i && 0 <= j' < overlay.Length1 ==>
          overlay[i', j'] == OverlayPixel(old(overlay[i', j']), Cell(mask, i', j'))
        invariant forall j' :: 0 <= j' < j ==>
          overlay[i, j'] == OverlayPixel(old(overlay[i, j']), Cell(mask, i, j'))
        invariant forall i', j' :: i <= i' < overlay.Length0 && 0 <= j' < overlay.Length1 && (i' > i || j' >= j) ==>
          overlay[i', j'] == old(overlay[i', j'])
      {
        if Cell(mask, i, j) == 1.0 {
          overlay[i, j] := Red;
        }
        j := j + 1;
      }
      i := i + 1;
    }
  }

  /** `np.where(np.repeat(pred_mask[:, :, np.newaxis], 3, axis=2), overlay, blurred)`. */
  method SelectPixels(mask: NdArray, overlay: array2<Pixel>, blurred: array2<Pixel>) returns (out: array2<Pixel>)
    requires mask.IsGrid() && mask.shape == [overlay.Length0, overlay.Length1]
    requires blurred.Length0 == overlay.Length0 && blurred.Length1 == overlay.Length1
    ensures fresh(out)
    ensures out.Length0 == overlay.Length0 && out.Length1 == overlay.Length1
    ensures forall i, j :: 0 <= i < out.Length0 && 0 <= j < out.Length1 ==>
      out[i, j] == ComposedPixel(overlay[i, j], blurred[i, j], Cell(mask, i, j))
  {
    out := new Pixel[overlay.Length0, overlay.Length1];
    var i := 0;
    while i < out.Length0
      invariant 0 <= i <= out.Length0
      invariant forall i', j :: 0 <= i' < i && 0 <= j < out.Length1 ==>
        out[i', j] == ComposedPixel(overlay[i', j], blurred[i', j], Cell(mask, i', j))
    {
      var j := 0;
      while j < out.Length1
        invariant 0 <= j <= out.Length1
        invariant forall i', j' :: 0 <= i' < i && 0 <= j' < out.Length1 ==>
          out[i', j'] == ComposedPixel(overlay[i', j'], blurred[i', j'], Cell(mask, i', j'))
        invariant forall j' :: 0 <= j' < j ==>
          out[i, j'] == ComposedPixel(overlay[i, j'], blurred[i, j'], Cell(mask, i, j'))
      {
        out[i, j] := ComposedPixel(overlay[i, j], blurred[i, j], Cell(mask, i, j));
        j := j + 1;
      }
      i := i + 1;
    }
  }

  /** `segmentation_display`: every pixel of the 256 x 256 x 3 result is the
      displayed pixel of the resized image and its mask cell. The overlay is
      painted on a fresh copy of the normalised image, and the result is a
      fresh array that shares nothing with the caller's state. */
  method SegmentationDisplay(raster: Raster, mask: NdArray, blur: Pixel -> Pixel) returns (final: array2<Pixel>)
    requires IsRaster(raster)
    requires mask.IsGrid() && mask.shape == [|raster|, Width(raster)]
    ensures fresh(final)
    ensures final.Length0 == |raster| && final.Length1 == Width(raster)
    ensures forall i, j :: 0 <= i < final.Length0 && 0 <= j < final.Length1 ==>
      final[i, j] == DisplayPixel(raster[i][j], Cell(mask, i, j), blur)
  {
    var original := NormalizedArray(raster);
    var overlay := MapPixels(original, p => p);
    PaintMasked(overlay, mask);
    var blurred := MapPixels(original, blur);
    var output := SelectPixels(mask, overlay, blurred);
    final := MapPixels(output, Scale255);
  }

  // ---------------------------------------------------------------------
  // segmentation_process

  datatype Segmented = Segmented(overlay: array2<Pixel>, diseasePercentage: real, defectionRatio: real)

  /** The mask the pipeline derives from the image. */
  function PipelineMask(raster: Raster, predict: NdArray -> NdArray): (mask: NdArray)
    requires IsRaster(raster)
    ensures mask.shape == DropOnes(predict(PreprocessImage(raster)).shape) && IsBinary(mask)
  {
    PostprocessMask(predict(PreprocessImage(raster)))
  }

  /** The mask has the image's height and width, as boolean indexing needs. */
  predicate FitsImage(mask: NdArray, raster: Raster)
  {
    mask.IsGrid() && mask.shape == [|raster|, Width(raster)]
  }

  /** `segmentation_process`: preprocess, predict, post-process, display,
      then the metrics, all from the one post-processed mask. A mask that
      does not fit the image stops at the display, before the metrics. */
  method SegmentationProcess(raster: Raster, predict: NdArray -> NdArray,
                             traceHulls: NdArray -> seq<Polygon>, blur: Pixel -> Pixel)
    returns (r: Result<Segmented>)
    requires IsRaster(raster)
    ensures var mask := PipelineMask(raster, predict);
      var metrics := CalculateDiseasePercentage(mask, traceHulls);
      && (!FitsImage(mask, raster) ==> r == Err(ShapeMismatch))
      && (FitsImage(mask, raster) && metrics.Err? ==> r == Err(metrics.error))
      && (FitsImage(mask, raster) && metrics.Ok? ==> r.Ok?)
      && (r.Ok? ==>
            && fresh(r.value.overlay)
            && FitsImage(mask, raster) && metrics.Ok?
            && r.value.diseasePercentage == metrics.value.diseasePercentage
            && r.value.defectionRatio == metrics.value.defectionRatio
            && r.value.overlay.Length0 == |raster| && r.value.overlay.Length1 == Width(raster)
            && forall i, j :: 0 <= i < |raster| && 0 <= j < Width(raster) ==>
                 r.value.overlay[i, j] == DisplayPixel(raster[i][j], Cell(mask, i, j), blur))
  {
    var imageArray := PreprocessImage(raster);
    var predMask := predict(imageArray);
    predMask := PostprocessMask(predMask);
    if !FitsImage(predMask, raster) {
      return Err(ShapeMismatch);
    }
    var outputImage := SegmentationDisplay(raster, predMask, blur);
    var metrics := CalculateDiseasePercentage(predMask, traceHulls);
    if metrics.Err? {
      return Err(metrics.error);
    }
    r := Ok(Segmented(outputImage, metrics.value.diseasePercentage, metrics.value.defectionRatio));
  }

  /** A model that returns a well-formed (1, H, W, 1) mask for the H x W
      image always gets past the display's shape check. */
  lemma ModelShapedMaskFits(raster: Raster, predict: NdArray -> NdArray)
    requires IsRaster(raster) && |raster| != 1 && Width(raster) != 1
    requires predict(PreprocessImage(raster)).Valid()
    requires predict(PreprocessImage(raster)).shape == [1, |raster|, Width(raster), 1]
    ensures FitsImage(PipelineMask(raster, predict), raster)
  {
    PostprocessModelOutput(predict(PreprocessImage(raster)), |raster|, Width(raster));
  }
}
