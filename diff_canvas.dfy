/** The pixel diff engine of the `DiffCanvas` component: both images are drawn
    on a canvas as large as the larger of the two, and a third RGBA buffer is
    filled pixel by pixel with either a red marker (the colour distance exceeds
    the threshold) or the grey level of the "before" pixel. */
module DiffCanvas {
  import opened Seqs
  import opened Percent
  import opened Decimal

  datatype Dimensions = Dimensions(width: nat, height: nat)

  /** A loaded image: its display name, its natural size and its decoded
      content. Only drawing it (`Renderer`) looks at the content, so `pixels`
      is read by no operation of the engine itself. */
  datatype Image = Image(name: string, naturalWidth: nat, naturalHeight: nat, pixels: seq<int>)

  /** The diff image handed to the caller (the canvas behind the data URL)
      and the percentage text. */
  datatype DiffOutput = DiffOutput(size: Dimensions, pixels: seq<int>, percentage: string)

  function Max(x: nat, y: nat): nat {
    if x >= y then x else y
  }

  /** The canvas is as wide as the wider image and as high as the higher one. */
  function CanvasSize(before: Image, after: Image): (d: Dimensions)
    ensures d.width >= before.naturalWidth && d.width >= after.naturalWidth
    ensures d.width == before.naturalWidth || d.width == after.naturalWidth
    ensures d.height >= before.naturalHeight && d.height >= after.naturalHeight
    ensures d.height == before.naturalHeight || d.height == after.naturalHeight
  {
    Dimensions(Max(before.naturalWidth, after.naturalWidth), Max(before.naturalHeight, after.naturalHeight))
  }

  function PixelCount(d: Dimensions): nat {
    d.width * d.height
  }

  predicate IsByte(x: int) {
    0 <= x < 256
  }

  predicate AllBytes(data: seq<int>) {
    forall i :: 0 <= i < |data| ==> IsByte(data[i])
  }

  /** `data` is an RGBA buffer of the given size, four bytes per pixel. */
  predicate IsRaster(data: seq<int>, d: Dimensions) {
    |data| == 4 * PixelCount(d) && AllBytes(data)
  }

  /** Drawing an image scaled onto a canvas of the given size and reading the
      canvas back (`drawImage` followed by `getImageData`). */
  type Renderer = (Image, Dimensions) -> seq<int>

  /** What `getImageData` returns for a rectangle of positive area: an RGBA
      buffer of that size. (A rectangle of zero width or height makes it
      throw instead, see `Drawable`.) */
  ghost predicate Renders(render: Renderer) {
    forall img, d :: PixelCount(d) > 0 ==> IsRaster(render(img, d), d)
  }

  /** The two images can be compared: their canvas has a positive area.
      Otherwise `getImageData` on the zero-area canvas throws an
      `IndexSizeError` and the effect stops before any pixel is compared. */
  predicate Drawable(before: Image, after: Image) {
    PixelCount(CanvasSize(before, after)) > 0
  }

  /** A canvas has a positive area exactly when both sides are positive. */
  lemma {:induction false} PixelCountPositive(d: Dimensions)
    ensures PixelCount(d) > 0 <==> d.width > 0 && d.height > 0
  {
    if d.width > 0 && d.height > 0 {
      assert d.width * d.height >= d.height;
    }
  }

  /** `x²`, built up from `(x ∓ 1)²` one step at a time so that every
      unfolding the solver sees is linear; `SquareIsProduct` ties it to `x * x`. */
  function Square(x: int): nat
    decreases if x < 0 then -x else x
  {
    if x == 0 then 0
    else if x > 0 then Square(x - 1) + 2 * x - 1
    else Square(x + 1) - 2 * x - 1
  }

  lemma {:induction false} SquareIsProduct(x: int)
    ensures Square(x) == x * x
    decreases if x < 0 then -x else x
  {
    if x > 0 {
      SquareIsProduct(x - 1);
      assert (x - 1) * (x - 1) == x * x - 2 * x + 1;
    } else if x < 0 {
      SquareIsProduct(x + 1);
      assert (x + 1) * (x + 1) == x * x + 2 * x + 1;
    }
  }

  /** `dr² + dg² + db²`: the squared length of a colour difference. */
  function SquaredNorm(dr: int, dg: int, db: int): nat {
    Square(dr) + Square(dg) + Square(db)
  }

  /** The squared colour distance between pixel `p` of `a` and of `b`; alpha
      is not read. */
  function SquaredDistance(a: seq<int>, b: seq<int>, p: nat): nat
    requires 4 * p + 3 < |a| && 4 * p + 3 < |b|
  {
    SquaredNorm(a[4 * p] - b[4 * p], a[4 * p + 1] - b[4 * p + 1], a[4 * p + 2] - b[4 * p + 2])
  }

  /** The squared distance of two pixels is zero exactly when their colours
      agree; alpha plays no part. */
  lemma DistanceZeroIffSameColour(a: seq<int>, b: seq<int>, p: nat)
    requires 4 * p + 3 < |a| && 4 * p + 3 < |b|
    ensures SquaredDistance(a, b, p) == 0 <==>
      a[4 * p] == b[4 * p] && a[4 * p + 1] == b[4 * p + 1] && a[4 * p + 2] == b[4 * p + 2]
  {
  }

  /** Squaring keeps the order of non-negative integers. */
  lemma {:induction false} SquareMonotone(x: nat, y: nat)
    requires x <= y
    ensures Square(x) <= Square(y)
    decreases y - x
  {
    if x < y {
      SquareMonotone(x, y - 1);
    }
  }

  /** `Math.sqrt(squared) > threshold`, decided on integers: a distance is
      never negative, and for `threshold >= 0` squaring keeps the order. */
  predicate Exceeds(squared: int, threshold: int) {
    threshold < 0 || squared > Square(threshold)
  }

  /** Pixel `p` differs by more than `threshold`. */
  predicate Flagged(a: seq<int>, b: seq<int>, threshold: int, p: nat)
    requires 4 * p + 3 < |a| && 4 * p + 3 < |b|
  {
    Exceeds(SquaredDistance(a, b, p), threshold)
  }

  /** Squaring keeps the order of non-negative reals. */
  lemma RealSquareBelow(x: real, y: real)
    requires 0.0 <= x < y
    ensures x * x < y * y
  {
    var d := y - x;
    assert d > 0.0 && y + x > 0.0;
    assert d * (y + x) > 0.0;
    assert y * y - x * x == d * (y + x);
  }

  /** The integer test agrees with comparing the Euclidean distance itself:
      `distance` is the square root of `squared`. */
  lemma ExceedsIffDistanceAbove(squared: int, threshold: int, distance: real)
    requires distance >= 0.0 && distance * distance == squared as real
    ensures Exceeds(squared, threshold) <==> distance > threshold as real
  {
    if threshold >= 0 {
      var t := threshold as real;
      var s := Square(threshold);
      SquareIsProduct(threshold);
      assert s as real == t * t;
      if distance > t {
        RealSquareBelow(t, distance);
        assert s < squared;
      } else if distance < t {
        RealSquareBelow(distance, t);
        assert squared < s;
      } else {
        assert squared == s;
      }
    }
  }

  /** A pixel is flagged exactly when the Euclidean distance of its colours
      exceeds the threshold. */
  lemma FlaggedIffDistanceAboveThreshold(a: seq<int>, b: seq<int>, threshold: int, p: nat, distance: real)
    requires 4 * p + 3 < |a| && 4 * p + 3 < |b|
    requires distance >= 0.0 && distance * distance == SquaredDistance(a, b, p) as real
    ensures Flagged(a, b, threshold, p) <==> distance > threshold as real
  {
    ExceedsIffDistanceAbove(SquaredDistance(a, b, p), threshold, distance);
  }

  /** `Math.round(0.3 R + 0.59 G + 0.11 B)`: the nearest integer to the
      luminance, halves upwards, always a byte. */
  function Grey(r: int, g: int, b: int): (v: int)
    requires IsByte(r) && IsByte(g) && IsByte(b)
    ensures IsByte(v)
    ensures 100 * v - 50 <= 30 * r + 59 * g + 11 * b < 100 * v + 50
  {
    (30 * r + 59 * g + 11 * b + 50) / 100
  }

  /** The colour written for a flagged pixel: red, alpha 200. */
  const Marker: seq<int> := [255, 50, 50, 200]
  /** The alpha written for an unflagged pixel. */
  const UnchangedAlpha := 128

  /** The four bytes written for one pixel: the marker when it is flagged,
      otherwise its grey level with the low alpha. */
  function PixelOf(flagged: bool, grey: int): (px: seq<int>)
    ensures |px| == 4
  {
    if flagged then Marker else [grey, grey, grey, UnchangedAlpha]
  }

  /** The diff bytes of pixels with the given decisions and grey levels, in
      scan order. */
  function Paint(flags: seq<bool>, greys: seq<int>): (r: seq<int>)
    requires |flags| == |greys|
    ensures |r| == 4 * |flags|
  {
    if |flags| == 0 then []
    else Paint(flags[..|flags| - 1], greys[..|greys| - 1]) + PixelOf(flags[|flags| - 1], greys[|greys| - 1])
  }

  /** Pixel `p` occupies bytes `4 p` to `4 p + 3` of the painted buffer. */
  lemma {:induction false} PaintAt(flags: seq<bool>, greys: seq<int>, p: nat)
    requires |flags| == |greys| && p < |flags|
    ensures Paint(flags, greys)[4 * p..4 * p + 4] == PixelOf(flags[p], greys[p])
  {
    var n := |flags|;
    var front := Paint(flags[..n - 1], greys[..n - 1]);
    var last := PixelOf(flags[n - 1], greys[n - 1]);
    if p < n - 1 {
      PaintAt(flags[..n - 1], greys[..n - 1], p);
      SliceOfFront(front, last, 4 * p, 4 * p + 4);
    } else {
      SliceOfBack(front, last);
    }
  }

  /** Scanning one more pixel appends its four bytes to the painted prefix
      and adds its decision to the count. */
  lemma ScanStep(flags: seq<bool>, greys: seq<int>, n: nat, done: seq<int>, count: nat)
    requires |flags| == |greys| && n < |flags|
    requires done == Paint(flags[..n], greys[..n]) && count == CountTrue(flags[..n])
    ensures done + PixelOf(flags[n], greys[n]) == Paint(flags[..n + 1], greys[..n + 1])
    ensures count + (if flags[n] then 1 else 0) == CountTrue(flags[..n + 1])
  {
    assert flags[..n + 1][..n] == flags[..n];
    assert greys[..n + 1][..n] == greys[..n];
  }

  /** The decision for every pixel, in scan order. */
  function Flags(a: seq<int>, b: seq<int>, threshold: int): (f: seq<bool>)
    requires |a| == |b| && |a| % 4 == 0
    ensures |f| == |a| / 4
    decreases |a|
  {
    if |a| == 0 then [] else [Flagged(a, b, threshold, 0)] + Flags(a[4..], b[4..], threshold)
  }

  /** The grey level of every pixel of `a`, in scan order. */
  function Greys(a: seq<int>): (g: seq<int>)
    requires |a| % 4 == 0 && AllBytes(a)
    ensures |g| == |a| / 4
    decreases |a|
  {
    if |a| == 0 then [] else [Grey(a[0], a[1], a[2])] + Greys(a[4..])
  }

  /** Pixel `p` of a buffer of whole pixels lies inside the buffer. */
  lemma PixelInRange(n: nat, p: nat)
    requires n % 4 == 0 && p < n / 4
    ensures 4 * p + 3 < n
  {
  }

  /** Entry `p` of the decisions is the decision for pixel `p`. */
  lemma {:induction false} FlagsAt(a: seq<int>, b: seq<int>, threshold: int, p: nat)
    requires |a| == |b| && |a| % 4 == 0 && p < |a| / 4
    ensures Flags(a, b, threshold)[p] == Flagged(a, b, threshold, p)
    decreases p
  {
    if p > 0 {
      FlagsAt(a[4..], b[4..], threshold, p - 1);
      FlaggedShift(a, b, threshold, p);
    }
  }

  /** Dropping the first pixel moves pixel `p` to position `p - 1`. */
  lemma FlaggedShift(a: seq<int>, b: seq<int>, threshold: int, p: nat)
    requires 0 < p && 4 * p + 3 < |a| && 4 * p + 3 < |b|
    ensures Flagged(a[4..], b[4..], threshold, p - 1) == Flagged(a, b, threshold, p)
  {
    assert a[4..][4 * (p - 1)] == a[4 * p] && b[4..][4 * (p - 1)] == b[4 * p];
    assert a[4..][4 * (p - 1) + 1] == a[4 * p + 1] && b[4..][4 * (p - 1) + 1] == b[4 * p + 1];
    assert a[4..][4 * (p - 1) + 2] == a[4 * p + 2] && b[4..][4 * (p - 1) + 2] == b[4 * p + 2];
  }

  /** Entry `p` of the grey levels is the grey level of pixel `p`. */
  lemma {:induction false} GreysAt(a: seq<int>, p: nat)
    requires |a| % 4 == 0 && AllBytes(a) && p < |a| / 4
    ensures Greys(a)[p] == Grey(a[4 * p], a[4 * p + 1], a[4 * p + 2])
    decreases p
  {
    if p > 0 {
      GreysAt(a[4..], p - 1);
      assert a[4..][4 * (p - 1)] == a[4 * p];
      assert a[4..][4 * (p - 1) + 1] == a[4 * p + 1];
      assert a[4..][4 * (p - 1) + 2] == a[4 * p + 2];
    }
  }

  /** The whole diff buffer. */
  function DiffRaster(a: seq<int>, b: seq<int>, threshold: int): seq<int>
    requires |a| == |b| && |a| % 4 == 0 && AllBytes(a)
  {
    Paint(Flags(a, b, threshold), Greys(a))
  }

  /** The number of flagged pixels. */
  function DiffCount(a: seq<int>, b: seq<int>, threshold: int): nat
    requires |a| == |b| && |a| % 4 == 0
  {
    CountTrue(Flags(a, b, threshold))
  }

  /** The diff buffer is as long as the inputs and holds bytes only. */
  lemma DiffRasterShape(a: seq<int>, b: seq<int>, threshold: int)
    requires |a| == |b| && |a| % 4 == 0 && AllBytes(a)
    ensures |DiffRaster(a, b, threshold)| == |a| && AllBytes(DiffRaster(a, b, threshold))
  {
    GreysAllBytes(a);
    PaintAllBytes(Flags(a, b, threshold), Greys(a));
  }

  lemma {:induction false} GreysAllBytes(a: seq<int>)
    requires |a| % 4 == 0 && AllBytes(a)
    ensures AllBytes(Greys(a))
    decreases |a|
  {
    if |a| > 0 {
      GreysAllBytes(a[4..]);
    }
  }

  /** Painting bytes from grey levels that are bytes gives bytes. */
  lemma {:induction false} PaintAllBytes(flags: seq<bool>, greys: seq<int>)
    requires |flags| == |greys| && AllBytes(greys)
    ensures AllBytes(Paint(flags, greys))
  {
    var n := |flags|;
    if n > 0 {
      PaintAllBytes(flags[..n - 1], greys[..n - 1]);
      assert IsByte(greys[n - 1]);
    }
  }

  /** What the component computes for two images, `None` when it throws:
      the specification of `ComputeDiff`. */
  function Diff(before: Image, after: Image, threshold: int, render: Renderer): (out: Option<DiffOutput>)
    requires Renders(render)
    ensures out.Some? <==> Drawable(before, after)
    ensures out.Some? ==> out.value.size == CanvasSize(before, after) && IsRaster(out.value.pixels, out.value.size)
  {
    var size := CanvasSize(before, after);
    if PixelCount(size) == 0 then None
    else
      var a, b := render(before, size), render(after, size);
      assert IsRaster(a, size) && IsRaster(b, size);
      DiffRasterShape(a, b, threshold);
      Some(DiffOutput(size, DiffRaster(a, b, threshold), ToFixed2(OfCounts(DiffCount(a, b, threshold), PixelCount(size)))))
  }

  /** Four writes from byte `i` on extend the prefix before `i` by those
      four values. */
  lemma WriteFour(before: seq<int>, after: seq<int>, i: nat, v0: int, v1: int, v2: int, v3: int)
    requires i + 4 <= |before|
    requires after == before[i := v0][i + 1 := v1][i + 2 := v2][i + 3 := v3]
    ensures after[..i + 4] == before[..i] + [v0, v1, v2, v3]
    ensures after[i + 4..] == before[i + 4..]
  {
  }

  /** One pass of the scan's loop body: compare the pixel whose bytes start
      at `i` and write either the marker or its grey level there. */
  method PaintPixel(buffer: array<int>, pixelsA: seq<int>, pixelsB: seq<int>, threshold: int, i: nat, ghost p: nat)
    returns (flagged: bool)
    requires |pixelsA| == |pixelsB| && |pixelsA| % 4 == 0 && AllBytes(pixelsA)
    requires i == 4 * p && i < |pixelsA| == buffer.Length
    modifies buffer
    ensures flagged == Flags(pixelsA, pixelsB, threshold)[p]
    ensures buffer[..i + 4] == old(buffer[..i]) + PixelOf(flagged, Greys(pixelsA)[p])
    ensures buffer[i + 4..] == old(buffer[i + 4..])
  {
    ghost var before := buffer[..];
    var dr := pixelsA[i] - pixelsB[i];
    var dg := pixelsA[i + 1] - pixelsB[i + 1];
    var db := pixelsA[i + 2] - pixelsB[i + 2];
    var squared := SquaredNorm(dr, dg, db);
    assert squared == SquaredDistance(pixelsA, pixelsB, p);
    flagged := Exceeds(squared, threshold);
    FlagsAt(pixelsA, pixelsB, threshold, p);
    GreysAt(pixelsA, p);

    var red, green, blue, alpha;
    if flagged {
      red, green, blue, alpha := 255, 50, 50, 200;
    } else {
      var gray := Grey(pixelsA[i], pixelsA[i + 1], pixelsA[i + 2]);
      red, green, blue, alpha := gray, gray, gray, UnchangedAlpha;
    }
    buffer[i] := red;
    buffer[i + 1] := green;
    buffer[i + 2] := blue;
    buffer[i + 3] := alpha;
    WriteFour(before, buffer[..], i, red, green, blue, alpha);
  }

  /** The scan over the two drawn buffers: four bytes at a time, write the
      marker or the grey level into a fresh buffer and count the flagged
      pixels. */
  method ScanPixels(pixelsA: seq<int>, pixelsB: seq<int>, threshold: int)
    returns (diff: seq<int>, diffCount: nat)
    requires |pixelsA| == |pixelsB| && |pixelsA| % 4 == 0 && AllBytes(pixelsA)
    ensures diff == DiffRaster(pixelsA, pixelsB, threshold)
    ensures diffCount == DiffCount(pixelsA, pixelsB, threshold)
  {
    var buffer := new int[|pixelsA|];
    ghost var flags, greys := Flags(pixelsA, pixelsB, threshold), Greys(pixelsA);
    diffCount := 0;
    var i := 0;
    ghost var p := 0;
    while i < |pixelsA|
      invariant i == 4 * p && p <= |flags|
      invariant buffer[..i] == Paint(flags[..p], greys[..p])
      invariant diffCount == CountTrue(flags[..p])
    {
      ScanStep(flags, greys, p, buffer[..i], diffCount);
      var flagged := PaintPixel(buffer, pixelsA, pixelsB, threshold, i, p);
      if flagged {
        diffCount := diffCount + 1;
      }
      i, p := i + 4, p + 1;
    }
    assert flags[..p] == flags && greys[..p] == greys;
    diff := buffer[..];
  }

  /** The effect body of the component: draw both images on a canvas of the
      larger size, scan the two buffers and format the percentage; `None`
      stands for the exception a zero-area canvas raises. */
  method ComputeDiff(beforeImg: Image, afterImg: Image, threshold: int, render: Renderer)
    returns (out: Option<DiffOutput>)
    requires Renders(render)
    ensures out == Diff(beforeImg, afterImg, threshold, render)
  {
    var width := Max(beforeImg.naturalWidth, afterImg.naturalWidth);
    var height := Max(beforeImg.naturalHeight, afterImg.naturalHeight);
    var size := Dimensions(width, height);
    PixelCountPositive(size);
    if width == 0 || height == 0 {
      return None;
    }
    var pixelsA := render(beforeImg, size);
    var pixelsB := render(afterImg, size);
    assert IsRaster(pixelsA, size) && IsRaster(pixelsB, size);
    var totalPixels := width * height;
    var diff, diffCount := ScanPixels(pixelsA, pixelsB, threshold);
    out := Some(DiffOutput(size, diff, ToFixed2(OfCounts(diffCount, totalPixels))));
  }

  // Properties of the engine.

  /** No more pixels are flagged than the canvas holds. */
  lemma DiffCountAtMostPixels(a: seq<int>, b: seq<int>, threshold: int)
    requires |a| == |b| && |a| % 4 == 0
    ensures DiffCount(a, b, threshold) <= |a| / 4
  {
    CountTrueAtMostLength(Flags(a, b, threshold));
  }

  /** The counter is the number of flagged pixels. */
  lemma DiffCountIsNumberFlagged(a: seq<int>, b: seq<int>, threshold: int)
    requires |a| == |b| && |a| % 4 == 0
    ensures DiffCount(a, b, threshold) == |set p: nat | p < |a| / 4 && Flagged(a, b, threshold, p)|
  {
    var f := Flags(a, b, threshold);
    forall p | 0 <= p < |f|
      ensures f[p] == Flagged(a, b, threshold, p)
    {
      FlagsAt(a, b, threshold, p);
    }
    CountTrueIsCardinality(f);
    assert TrueIndices(f) == (set p: nat | p < |a| / 4 && Flagged(a, b, threshold, p));
  }

  /** The four bytes painted for pixel `p`, one by one. */
  lemma PaintedBytes(flags: seq<bool>, greys: seq<int>, p: nat)
    requires |flags| == |greys| && p < |flags|
    ensures var r := Paint(flags, greys);
      (flags[p] <==> r[4 * p + 3] == Marker[3]) &&
      (flags[p] ==> r[4 * p..4 * p + 4] == Marker) &&
      (!flags[p] ==> r[4 * p] == r[4 * p + 1] == r[4 * p + 2] == greys[p] && r[4 * p + 3] == UnchangedAlpha)
  {
    var r := Paint(flags, greys);
    PaintAt(flags, greys, p);
    var px := r[4 * p..4 * p + 4];
    assert r[4 * p] == px[0] && r[4 * p + 1] == px[1] && r[4 * p + 2] == px[2] && r[4 * p + 3] == px[3];
  }

  /** The alpha byte of each diff pixel tells whether the pixel was flagged,
      and an unflagged pixel is grey. */
  lemma DiffPixelReveals(a: seq<int>, b: seq<int>, threshold: int, p: nat)
    requires |a| == |b| && |a| % 4 == 0 && AllBytes(a) && 4 * p < |a|
    ensures var r := DiffRaster(a, b, threshold);
      4 * p + 3 < |r| &&
      (Flagged(a, b, threshold, p) <==> r[4 * p + 3] == Marker[3]) &&
      (Flagged(a, b, threshold, p) ==> r[4 * p..4 * p + 4] == Marker) &&
      (!Flagged(a, b, threshold, p) ==>
        r[4 * p] == r[4 * p + 1] == r[4 * p + 2] == Grey(a[4 * p], a[4 * p + 1], a[4 * p + 2]) &&
        r[4 * p + 3] == UnchangedAlpha)
  {
    PaintedBytes(Flags(a, b, threshold), Greys(a), p);
    FlagsAt(a, b, threshold, p);
    GreysAt(a, p);
  }

  /** No threshold that is not negative is exceeded by a zero distance. */
  lemma ZeroNotExceeding(threshold: int)
    requires threshold >= 0
    ensures !Exceeds(0, threshold)
  {
  }

  lemma SameBufferZeroDistance(a: seq<int>, p: nat)
    requires 4 * p + 3 < |a|
    ensures SquaredDistance(a, a, p) == 0
  {
  }

  /** A pixel compared with itself is not flagged. */
  lemma IdenticalPixelUnflagged(a: seq<int>, threshold: int, p: nat)
    requires threshold >= 0 && 4 * p + 3 < |a|
    ensures !Flagged(a, a, threshold, p)
  {
    SameBufferZeroDistance(a, p);
    ZeroNotExceeding(threshold);
  }

  /** No decision for a buffer compared with itself is a flag. */
  lemma {:induction false} IdenticalFlagsNone(a: seq<int>, threshold: int)
    requires threshold >= 0 && |a| % 4 == 0
    ensures true !in Flags(a, a, threshold)
    decreases |a|
  {
    if |a| > 0 {
      IdenticalPixelUnflagged(a, threshold, 0);
      IdenticalFlagsNone(a[4..], threshold);
    }
  }

  /** Comparing a buffer with itself flags nothing when the threshold is not
      negative. */
  lemma IdenticalBuffersUnflagged(a: seq<int>, threshold: int)
    requires threshold >= 0 && |a| % 4 == 0
    ensures DiffCount(a, a, threshold) == 0
  {
    IdenticalFlagsNone(a, threshold);
    CountTrueNone(Flags(a, a, threshold));
  }

  /** Every pixel of a buffer compared with itself is painted as its own
      grey level with the unchanged alpha. */
  lemma IdenticalRasterGrey(a: seq<int>, threshold: int, p: nat)
    requires threshold >= 0 && |a| % 4 == 0 && AllBytes(a) && p < |a| / 4
    ensures 4 * p + 3 < |DiffRaster(a, a, threshold)|
    ensures var r := DiffRaster(a, a, threshold);
      r[4 * p] == r[4 * p + 1] == r[4 * p + 2] == Grey(a[4 * p], a[4 * p + 1], a[4 * p + 2]) &&
      r[4 * p + 3] == UnchangedAlpha
  {
    PixelInRange(|a|, p);
    DiffPixelReveals(a, a, threshold, p);
    IdenticalPixelUnflagged(a, threshold, p);
  }

  /** The whole diff of a buffer against itself is the buffer in grey. */
  lemma IdenticalRasterAllGrey(a: seq<int>, threshold: int)
    requires threshold >= 0 && |a| % 4 == 0 && AllBytes(a)
    ensures |DiffRaster(a, a, threshold)| == |a|
    ensures var r := DiffRaster(a, a, threshold);
      forall p: nat :: p < |a| / 4 ==>
        r[4 * p] == r[4 * p + 1] == r[4 * p + 2] == Grey(a[4 * p], a[4 * p + 1], a[4 * p + 2]) &&
        r[4 * p + 3] == UnchangedAlpha
  {
    DiffRasterShape(a, a, threshold);
    forall p: nat | p < |a| / 4
      ensures var r := DiffRaster(a, a, threshold);
        r[4 * p] == r[4 * p + 1] == r[4 * p + 2] == Grey(a[4 * p], a[4 * p + 1], a[4 * p + 2]) &&
        r[4 * p + 3] == UnchangedAlpha
    {
      IdenticalRasterGrey(a, threshold, p);
    }
  }

  /** Comparing an image with itself: it fails exactly when the image has no
      area; otherwise the canvas has the image's own size, the percentage is
      0.00 and the diff is the image in grey, every pixel with the low
      alpha of an unflagged pixel. */
  lemma SameImageNoDifference(img: Image, threshold: int, render: Renderer)
    requires Renders(render) && threshold >= 0
    ensures var out := Diff(img, img, threshold, render);
      (out.Some? <==> img.naturalWidth > 0 && img.naturalHeight > 0) &&
      (out.Some? ==>
        var size, r := out.value.size, out.value.pixels;
        var a := render(img, size);
        size == Dimensions(img.naturalWidth, img.naturalHeight) &&
        out.value.percentage == "0.00" &&
        forall p: nat :: p < PixelCount(size) ==>
          r[4 * p] == r[4 * p + 1] == r[4 * p + 2] == Grey(a[4 * p], a[4 * p + 1], a[4 * p + 2]) &&
          r[4 * p + 3] == UnchangedAlpha)
  {
    var size := CanvasSize(img, img);
    PixelCountPositive(size);
    if PixelCount(size) > 0 {
      var a := render(img, size);
      assert IsRaster(a, size);
      IdenticalBuffersUnflagged(a, threshold);
      OfCountsRange(0, PixelCount(size));
      assert NatToString(0) == "0";
      IdenticalRasterAllGrey(a, threshold);
    }
  }

  /** A larger threshold is exceeded by fewer distances. */
  lemma ExceedsAntitone(squared: int, t1: int, t2: int)
    requires t1 <= t2 && Exceeds(squared, t2)
    ensures Exceeds(squared, t1)
  {
    if t1 >= 0 {
      SquareMonotone(t1, t2);
    }
  }

  /** Raising the threshold never increases the number of flagged pixels. */
  lemma DiffCountAntitone(a: seq<int>, b: seq<int>, t1: int, t2: int)
    requires t1 <= t2 && |a| == |b| && |a| % 4 == 0
    ensures DiffCount(a, b, t2) <= DiffCount(a, b, t1)
  {
    var f1, f2 := Flags(a, b, t1), Flags(a, b, t2);
    forall p | 0 <= p < |f2| && f2[p]
      ensures f1[p]
    {
      FlagsAt(a, b, t1, p);
      FlagsAt(a, b, t2, p);
      ExceedsAntitone(SquaredDistance(a, b, p), t1, t2);
    }
    CountTrueMonotone(f2, f1);
  }

  /** A comparison fails at every threshold or at none; when it succeeds,
      its percentage reads as a value in [0, 100] that never rises with the
      threshold. */
  lemma DiffPercentage(before: Image, after: Image, t1: int, t2: int, render: Renderer)
    requires Renders(render) && t1 <= t2
    ensures var d1, d2 := Diff(before, after, t1, render), Diff(before, after, t2, render);
      d1.Some? == d2.Some? &&
      (d1.Some? ==>
        var p1, p2 := ParseFloat(d1.value.percentage), ParseFloat(d2.value.percentage);
        p1.Hundredths? && p2.Hundredths? && p2.h <= p1.h <= 10000)
  {
    var size := CanvasSize(before, after);
    if PixelCount(size) > 0 {
      var a, b := render(before, size), render(after, size);
      assert IsRaster(a, size) && IsRaster(b, size);
      var c1, c2 := DiffCount(a, b, t1), DiffCount(a, b, t2);
      ParseToFixed2(OfCounts(c1, PixelCount(size)));
      ParseToFixed2(OfCounts(c2, PixelCount(size)));
      DiffCountAtMostPixels(a, b, t1);
      DiffCountAntitone(a, b, t1, t2);
      OfCountsMonotone(c2, c1, PixelCount(size));
      OfCountsRange(c1, PixelCount(size));
    }
  }

  /** Two buffers agree on colour: they may differ only in alpha bytes. */
  predicate SameColours(x: seq<int>, y: seq<int>) {
    |x| == |y| && forall i :: 0 <= i < |x| && i % 4 != 3 ==> x[i] == y[i]
  }

  lemma SameColoursPixel(x: seq<int>, y: seq<int>, p: nat)
    requires SameColours(x, y) && 4 * p + 3 < |x|
    ensures x[4 * p] == y[4 * p] && x[4 * p + 1] == y[4 * p + 1] && x[4 * p + 2] == y[4 * p + 2]
  {
    assert (4 * p) % 4 == 0 && (4 * p + 1) % 4 == 1 && (4 * p + 2) % 4 == 2;
  }

  /** Changing only alpha bytes leaves every colour distance as it was. */
  lemma SameColoursSameDistance(a: seq<int>, b: seq<int>, a2: seq<int>, b2: seq<int>, p: nat)
    requires SameColours(a, a2) && SameColours(b, b2) && 4 * p + 3 < |a| && 4 * p + 3 < |b|
    ensures SquaredDistance(a, b, p) == SquaredDistance(a2, b2, p)
  {
    SameColoursPixel(a, a2, p);
    SameColoursPixel(b, b2, p);
  }

  lemma SameColoursFlagsAt(a: seq<int>, b: seq<int>, a2: seq<int>, b2: seq<int>, threshold: int, p: nat)
    requires |a| == |b| && |a| % 4 == 0 && SameColours(a, a2) && SameColours(b, b2) && p < |a| / 4
    ensures Flags(a, b, threshold)[p] == Flags(a2, b2, threshold)[p]
  {
    FlagsAt(a, b, threshold, p);
    FlagsAt(a2, b2, threshold, p);
    SameColoursSameDistance(a, b, a2, b2, p);
  }

  lemma SameColoursGreysAt(a: seq<int>, a2: seq<int>, p: nat)
    requires |a| % 4 == 0 && AllBytes(a) && AllBytes(a2) && SameColours(a, a2) && p < |a| / 4
    ensures Greys(a)[p] == Greys(a2)[p]
  {
    GreysAt(a, p);
    GreysAt(a2, p);
    SameColoursPixel(a, a2, p);
  }

  /** The alpha channel of the inputs influences neither the diff buffer nor
      the count. */
  lemma AlphaIgnored(a: seq<int>, b: seq<int>, a2: seq<int>, b2: seq<int>, threshold: int)
    requires |a| == |b| && |a| % 4 == 0 && AllBytes(a) && AllBytes(a2)
    requires SameColours(a, a2) && SameColours(b, b2)
    ensures DiffRaster(a, b, threshold) == DiffRaster(a2, b2, threshold)
    ensures DiffCount(a, b, threshold) == DiffCount(a2, b2, threshold)
  {
    forall p | 0 <= p < |a| / 4
      ensures Flags(a, b, threshold)[p] == Flags(a2, b2, threshold)[p]
      ensures Greys(a)[p] == Greys(a2)[p]
    {
      SameColoursFlagsAt(a, b, a2, b2, threshold, p);
      SameColoursGreysAt(a, a2, p);
    }
    assert Flags(a, b, threshold) == Flags(a2, b2, threshold);
    assert Greys(a) == Greys(a2);
  }

  /** Two pixels of grey level `g` against the same pixel and one whose red
      is 20 higher, threshold 10: the second pixel alone is flagged. `g` is
      at most 235 so that every byte of both buffers is a byte. */
  lemma HalfChangedFlags(g: int)
    requires 0 <= g <= 235
    ensures var same, redder := [g, g, g, 255], [g + 20, g, g, 255];
      Flags(same + same, same + redder, 10) == [false, true]
  {
    var same, redder := [g, g, g, 255], [g + 20, g, g, 255];
    var a, b := same + same, same + redder;
    IdenticalPixelUnflagged(same, 10, 0);
    RedderFlagged(g);
    assert a[4..] == same && b[4..] == redder;
    assert SquaredDistance(a, b, 0) == SquaredDistance(same, same, 0);
  }

  /** A grey pixel against one whose red is 20 higher is flagged at threshold 10. */
  lemma RedderFlagged(g: int)
    requires 0 <= g <= 235
    ensures Flags([g, g, g, 255], [g + 20, g, g, 255], 10) == [true]
  {
    var same, redder := [g, g, g, 255], [g + 20, g, g, 255];
    SquareIsProduct(10);
    SquareIsProduct(-20);
    assert SquaredDistance(same, redder, 0) == Square(-20);
    assert Flagged(same, redder, 10, 0);
  }

  /** One flagged pixel of two reads as 50.00 percent. */
  lemma HalfPercentage()
    ensures ToFixed2(OfCounts(1, 2)) == "50.00"
  {
    assert RoundedHundredths(1, 2) == 5000;
    assert NatToString(50) == "50";
  }

  /** ... so that comparison reports one flagged pixel, 50.00 percent. */
  lemma HalfChangedExample(g: int)
    requires 0 <= g <= 235
    ensures var same, redder := [g, g, g, 255], [g + 20, g, g, 255];
      var a, b := same + same, same + redder;
      DiffCount(a, b, 10) == 1 && ToFixed2(OfCounts(DiffCount(a, b, 10), 2)) == "50.00"
  {
    HalfChangedFlags(g);
    var f: seq<bool> := [false, true];
    assert f[..1] == [false] && [false][..0] == [];
    assert CountTrue(f) == 1;
    HalfPercentage();
  }
}
