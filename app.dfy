/** The application shell of Image Compare: one "before" image compared with
    every image of a chosen folder, the results filtered by a maximum
    difference, charted, and exported as CSV text. */
module App {
  import opened Seqs
  import opened Percent
  import opened CsvRow
  import opened DiffCanvas

  // Settings.

  /** The colour distance above which a pixel counts as changed: the
      sensitivity slider runs the other way, and its positions 1 to 150 are
      exactly the sensitivities that give a threshold from 1 to 150. */
  function ThresholdOf(sensitivity: int): (t: int)
    ensures 1 <= sensitivity <= 150 <==> 1 <= t <= 150
  {
    151 - sensitivity
  }

  /** A higher sensitivity flags at least as many pixels of the same two
      buffers. */
  lemma HigherSensitivityFlagsMore(a: seq<int>, b: seq<int>, s1: int, s2: int)
    requires s1 <= s2 && |a| == |b| && |a| % 4 == 0
    ensures DiffCount(a, b, ThresholdOf(s1)) <= DiffCount(a, b, ThresholdOf(s2))
  {
    DiffCountAntitone(a, b, ThresholdOf(s2), ThresholdOf(s1));
  }

  /** ... and so never reports a smaller percentage for the same pair of
      images. */
  lemma HigherSensitivityNoLowerPercentage(before: Image, after: Image, s1: int, s2: int, render: Renderer)
    requires Renders(render) && s1 <= s2
    ensures var d1, d2 := Diff(before, after, ThresholdOf(s1), render), Diff(before, after, ThresholdOf(s2), render);
      d1.Some? ==>
        d2.Some? &&
        var p1, p2 := ParseFloat(d1.value.percentage), ParseFloat(d2.value.percentage);
        p1.Hundredths? && p2.Hundredths? && p1.h <= p2.h
  {
    DiffPercentage(before, after, ThresholdOf(s2), ThresholdOf(s1), render);
  }

  // The batch comparison.

  /** A comparison can start once there is a before image and at least one
      folder image. */
  predicate CanCompare(beforeImage: Option<Image>, folderImages: seq<Image>) {
    beforeImage.Some? && |folderImages| > 0
  }

  /** One result row: the folder image, the diff canvas (the pixels behind
      the PNG data URL) and the percentage text. */
  datatype CompareResult = CompareResult(afterImage: Image, diffSize: Dimensions, diffPixels: seq<int>, percentage: string)

  /** Every folder image can be compared with the before image, so no engine
      run throws. */
  predicate AllDrawable(before: Image, folder: seq<Image>) {
    forall k :: 0 <= k < |folder| ==> Drawable(before, folder[k])
  }

  /** The record pushed for one folder image. */
  function ResultFor(before: Image, img: Image, threshold: int, render: Renderer): (r: CompareResult)
    requires Renders(render) && Drawable(before, img)
    ensures r.afterImage == img && r.diffSize == CanvasSize(before, img)
    ensures IsRaster(r.diffPixels, r.diffSize)
  {
    var diff := Diff(before, img, threshold, render).value;
    CompareResult(img, diff.size, diff.pixels, diff.percentage)
  }

  /** The results of a batch in which no engine run throws, in folder order:
      the specification of `CompareAll`. */
  function Batch(before: Image, folder: seq<Image>, threshold: int, render: Renderer): (rs: seq<CompareResult>)
    requires Renders(render) && AllDrawable(before, folder)
    ensures |rs| == |folder|
  {
    if |folder| == 0 then []
    else Batch(before, folder[..|folder| - 1], threshold, render) + [ResultFor(before, folder[|folder| - 1], threshold, render)]
  }

  /** Result `k` of a batch is folder image `k` compared with the same before
      image at the same threshold as every other result. */
  lemma {:induction false} BatchAt(before: Image, folder: seq<Image>, threshold: int, render: Renderer, k: nat)
    requires Renders(render) && AllDrawable(before, folder) && k < |folder|
    ensures Batch(before, folder, threshold, render)[k] == ResultFor(before, folder[k], threshold, render)
  {
    var n := |folder|;
    var init := folder[..n - 1];
    assert AllDrawable(before, init) by {
      forall j | 0 <= j < |init| ensures Drawable(before, init[j]) {
        assert init[j] == folder[j];
      }
    }
    var front := Batch(before, init, threshold, render);
    var last := ResultFor(before, folder[n - 1], threshold, render);
    if k < n - 1 {
      BatchAt(before, init, threshold, render, k);
      assert init[k] == folder[k];
      assert (front + [last])[k] == front[k];
    }
  }

  /** Each result holds its folder image, the diff against the before image
      and that diff's percentage. */
  lemma BatchResult(before: Image, folder: seq<Image>, threshold: int, render: Renderer, k: nat)
    requires Renders(render) && AllDrawable(before, folder) && k < |folder|
    ensures var r := Batch(before, folder, threshold, render)[k];
      var diff := Diff(before, folder[k], threshold, render).value;
      r.afterImage == folder[k] && r.diffSize == CanvasSize(before, folder[k]) &&
      r.diffPixels == diff.pixels && r.percentage == diff.percentage
  {
    BatchAt(before, folder, threshold, render, k);
  }

  /** One more image that can be compared extends the batch by its result. */
  lemma BatchStep(before: Image, folder: seq<Image>, threshold: int, render: Renderer, k: nat)
    requires Renders(render) && k < |folder|
    requires AllDrawable(before, folder[..k]) && Drawable(before, folder[k])
    ensures AllDrawable(before, folder[..k + 1])
    ensures Batch(before, folder[..k + 1], threshold, render) ==
      Batch(before, folder[..k], threshold, render) + [ResultFor(before, folder[k], threshold, render)]
  {
    assert folder[..k + 1][..k] == folder[..k];
  }

  /** The loop of the compare handler: one engine run per folder image,
      pushed in order. The first run that throws ends the loop, and `None`
      stands for that exception. */
  method CompareAll(before: Image, folder: seq<Image>, threshold: int, render: Renderer)
    returns (newResults: Option<seq<CompareResult>>)
    requires Renders(render)
    ensures newResults.Some? <==> AllDrawable(before, folder)
    ensures newResults.Some? ==> newResults.value == Batch(before, folder, threshold, render)
  {
    var pushed := [];
    for k := 0 to |folder|
      invariant AllDrawable(before, folder[..k])
      invariant pushed == Batch(before, folder[..k], threshold, render)
    {
      var diff := ComputeDiff(before, folder[k], threshold, render);
      if diff.None? {
        assert !Drawable(before, folder[k]);
        return None;
      }
      BatchStep(before, folder, threshold, render, k);
      pushed := pushed + [CompareResult(folder[k], diff.value.size, diff.value.pixels, diff.value.percentage)];
    }
    assert folder[..|folder|] == folder;
    return Some(pushed);
  }

  // Filtering and charting.

  /** `parseFloat(r.percentage) <= maxDiff`. */
  predicate Shown(r: CompareResult, maxDiff: int) {
    AtMost(ParseFloat(r.percentage), maxDiff)
  }

  /** The rows kept on screen, in the order of the results. */
  function Visible(results: seq<CompareResult>, maxDiff: int): seq<CompareResult> {
    Filter(results, r => Shown(r, maxDiff))
  }

  /** A result is visible exactly when it is one of the results and its
      percentage is at most the limit. */
  lemma VisibleMembers(results: seq<CompareResult>, maxDiff: int, r: CompareResult)
    ensures r in Visible(results, maxDiff) <==> r in results && Shown(r, maxDiff)
  {
    var v := Visible(results, maxDiff);
    if r in v {
      var k :| 0 <= k < |v| && v[k] == r;
    }
    if r in results && Shown(r, maxDiff) {
      var k :| 0 <= k < |results| && results[k] == r;
    }
  }

  /** Filtering keeps relative order: the visible rows of two runs of
      results are those of the first followed by those of the second. */
  lemma VisibleKeepsOrder(xs: seq<CompareResult>, ys: seq<CompareResult>, maxDiff: int)
    ensures Visible(xs + ys, maxDiff) == Visible(xs, maxDiff) + Visible(ys, maxDiff)
  {
    FilterConcat(xs, ys, r => Shown(r, maxDiff));
  }

  /** Raising the limit hides no row that was visible. */
  lemma VisibleWidens(results: seq<CompareResult>, m1: int, m2: int, r: CompareResult)
    requires m1 <= m2 && r in Visible(results, m1)
    ensures r in Visible(results, m2)
  {
    VisibleMembers(results, m1, r);
    VisibleMembers(results, m2, r);
  }

  /** Every result records a percentage of at most 100.00. */
  lemma ResultWithinRange(before: Image, img: Image, threshold: int, render: Renderer)
    requires Renders(render) && Drawable(before, img)
    ensures Shown(ResultFor(before, img, threshold, render), 100)
  {
    var size := CanvasSize(before, img);
    var a, b := render(before, size), render(img, size);
    assert IsRaster(a, size) && IsRaster(b, size);
    var count := DiffCount(a, b, threshold);
    DiffCountAtMostPixels(a, b, threshold);
    OfCountsRange(count, PixelCount(size));
    ParseToFixed2(OfCounts(count, PixelCount(size)));
  }

  /** With the limit at 100 every result of a batch stays visible. */
  lemma FullRangeShowsAll(before: Image, folder: seq<Image>, threshold: int, render: Renderer)
    requires Renders(render) && AllDrawable(before, folder)
    ensures Visible(Batch(before, folder, threshold, render), 100) == Batch(before, folder, threshold, render)
  {
    var rs := Batch(before, folder, threshold, render);
    forall k | 0 <= k < |rs|
      ensures Shown(rs[k], 100)
    {
      BatchAt(before, folder, threshold, render, k);
      ResultWithinRange(before, folder[k], threshold, render);
    }
    FilterKeepsAll(rs, r => Shown(r, 100));
  }

  /** One bar of the chart: the image name and the parsed percentage. */
  datatype ChartPoint = ChartPoint(name: string, diff: Percentage)

  function ChartData(visible: seq<CompareResult>): (points: seq<ChartPoint>)
    ensures |points| == |visible|
  {
    seq(|visible|, k requires 0 <= k < |visible| => ChartPoint(visible[k].afterImage.name, ParseFloat(visible[k].percentage)))
  }

  /** Every bar of the chart is a number between 0 and the limit, labelled
      with the name of the row it stands for. */
  lemma ChartWithinLimit(results: seq<CompareResult>, maxDiff: int)
    ensures var v := Visible(results, maxDiff);
      var c := ChartData(v);
      forall k :: 0 <= k < |c| ==>
        c[k].name == v[k].afterImage.name && c[k].diff.Hundredths? && c[k].diff.h <= 100 * maxDiff
  {
  }

  // CSV export.

  const Header: string := "Förebild,Efterbild,Skillnad"

  /** `"<before name>","<image name>","<percentage>%"`. */
  function Row(beforeName: string, r: CompareResult): string {
    RenderRow([beforeName, r.afterImage.name, r.percentage + "%"])
  }

  function Rows(beforeName: string, visible: seq<CompareResult>): (rows: seq<string>)
    ensures |rows| == |visible|
  {
    seq(|visible|, k requires 0 <= k < |visible| => Row(beforeName, visible[k]))
  }

  /** The header and one row per visible result, joined by line breaks. */
  function CsvText(beforeName: string, visible: seq<CompareResult>): string {
    Join([Header] + Rows(beforeName, visible), '\n')
  }

  /** The export handler's text. Reading the before image's name fails when
      there is none and at least one row needs it. */
  function CsvExport(beforeImage: Option<Image>, visible: seq<CompareResult>): (csv: Option<string>)
    ensures csv.None? <==> beforeImage.None? && |visible| > 0
  {
    if beforeImage.None? && |visible| > 0 then None
    else Some(CsvText(if beforeImage.Some? then beforeImage.value.name else "", visible))
  }

  /** A row whose names hold no double quote reads back as its three fields. */
  lemma RowFields(beforeName: string, r: CompareResult)
    requires '"' !in beforeName && '"' !in r.afterImage.name
    requires ParseFloat(r.percentage).Hundredths?
    ensures ParseRow(Row(beforeName, r)) == Some([beforeName, r.afterImage.name, r.percentage + "%"])
  {
    ParsedPlain(r.percentage);
    ParseRenderRow([beforeName, r.afterImage.name, r.percentage + "%"]);
  }

  /** A row whose names hold no line break is a single line. */
  lemma RowOneLine(beforeName: string, r: CompareResult)
    requires '\n' !in beforeName && '\n' !in r.afterImage.name
    requires ParseFloat(r.percentage).Hundredths?
    ensures '\n' !in Row(beforeName, r)
  {
    ParsedPlain(r.percentage);
    RenderRowAvoids([beforeName, r.afterImage.name, r.percentage + "%"], '\n');
  }

  /** When no name holds a line break, the lines of the export are the
      header followed by one row per visible result, in order. */
  lemma CsvLines(beforeName: string, results: seq<CompareResult>, maxDiff: int)
    requires '\n' !in beforeName
    requires forall k :: 0 <= k < |results| ==> '\n' !in results[k].afterImage.name
    ensures var v := Visible(results, maxDiff);
      Split(CsvText(beforeName, v), '\n') == [Header] + Rows(beforeName, v)
  {
    var v := Visible(results, maxDiff);
    var lines := [Header] + Rows(beforeName, v);
    forall k | 0 <= k < |lines|
      ensures '\n' !in lines[k]
    {
      if k > 0 {
        VisibleMembers(results, maxDiff, v[k - 1]);
        RowOneLine(beforeName, v[k - 1]);
      }
    }
    SplitJoin(lines, '\n');
  }

  /** When no name holds a line break or a double quote, line `k + 1` of the
      export reads back as the before name, the name of visible result `k`
      and its percentage followed by `%`. */
  lemma CsvRowsReadBack(beforeName: string, results: seq<CompareResult>, maxDiff: int, k: nat)
    requires '\n' !in beforeName && '"' !in beforeName
    requires forall j :: 0 <= j < |results| ==> '\n' !in results[j].afterImage.name && '"' !in results[j].afterImage.name
    requires k < |Visible(results, maxDiff)|
    ensures var v := Visible(results, maxDiff);
      var lines := Split(CsvText(beforeName, v), '\n');
      |lines| == |v| + 1 && lines[0] == Header &&
      ParseRow(lines[k + 1]) == Some([beforeName, v[k].afterImage.name, v[k].percentage + "%"])
  {
    var v := Visible(results, maxDiff);
    CsvLines(beforeName, results, maxDiff);
    VisibleMembers(results, maxDiff, v[k]);
    RowFields(beforeName, v[k]);
  }

  /** Quotes inside a name are not escaped: an image named `x"y` gives a row
      that does not read back as its fields. */
  lemma QuoteInNameBreaksRow()
    ensures ParseRow(RenderRow(["x\"y", "n", "1.00%"])) == None
  {
    var s := RenderRow(["x\"y", "n", "1.00%"]);
    assert s[1..][0] == 'x' && s[1..][1] == '"';
    assert IndexOf(s[1..], '"') == 1;
    assert s[3] == 'y';
  }

  // The component state.

  /** A file chosen in the folder picker: its name and MIME type. */
  datatype File = File(name: string, mimeType: string)

  predicate StartsWith(s: string, prefix: string) {
    |prefix| <= |s| && s[..|prefix|] == prefix
  }

  predicate IsImageFile(f: File) {
    StartsWith(f.mimeType, "image/")
  }

  /** The chosen files whose type starts with `image/`, in order. */
  function ImageFiles(files: seq<File>): seq<File> {
    Filter(files, IsImageFile)
  }

  /** A file is loaded exactly when it was chosen and is an image. */
  lemma ImageFilesMembers(files: seq<File>, f: File)
    ensures f in ImageFiles(files) <==> f in files && IsImageFile(f)
  {
    var kept := ImageFiles(files);
    if f in kept {
      var k :| 0 <= k < |kept| && kept[k] == f;
    }
    if f in files && IsImageFile(f) {
      var k :| 0 <= k < |files| && files[k] == f;
    }
  }

  /** Loading every kept file, in order (`Promise.all` keeps the order of its
      input). */
  function LoadAll(files: seq<File>, load: File -> Image): (images: seq<Image>)
    ensures |images| == |files|
  {
    seq(|files|, k requires 0 <= k < |files| => load(files[k]))
  }

  class AppState {
    var beforeImage: Option<Image>
    var folderImages: seq<Image>
    var sensitivity: int
    var maxDiff: int
    var results: seq<CompareResult>
    var processing: bool

    /** The sliders keep sensitivity within 1..150 and the limit within
        0..100. */
    predicate Valid()
      reads this
    {
      1 <= sensitivity <= 150 && 0 <= maxDiff <= 100
    }

    /** The initial state: nothing chosen, sensitivity 120, limit 100. */
    constructor ()
      ensures Valid()
      ensures beforeImage == None && folderImages == [] && results == []
      ensures sensitivity == 120 && maxDiff == 100 && !processing
    {
      beforeImage := None;
      folderImages := [];
      sensitivity := 120;
      maxDiff := 100;
      results := [];
      processing := false;
    }

    method SetBeforeImage(img: Image)
      requires Valid()
      modifies this
      ensures Valid() && beforeImage == Some(img)
      ensures folderImages == old(folderImages) && results == old(results) && processing == old(processing)
      ensures sensitivity == old(sensitivity) && maxDiff == old(maxDiff)
    {
      beforeImage := Some(img);
    }

    method SetSensitivity(value: int)
      requires Valid() && 1 <= value <= 150
      modifies this
      ensures Valid() && sensitivity == value
      ensures beforeImage == old(beforeImage) && folderImages == old(folderImages)
      ensures results == old(results) && processing == old(processing) && maxDiff == old(maxDiff)
    {
      sensitivity := value;
    }

    method SetMaxDiff(value: int)
      requires Valid() && 0 <= value <= 100
      modifies this
      ensures Valid() && maxDiff == value
      ensures beforeImage == old(beforeImage) && folderImages == old(folderImages)
      ensures results == old(results) && processing == old(processing) && sensitivity == old(sensitivity)
    {
      maxDiff := value;
    }

    /** Keep the image files of the chosen folder, load them and drop the
        results of the previous folder. */
    method HandleFolderSelect(files: seq<File>, load: File -> Image)
      requires Valid()
      modifies this
      ensures Valid()
      ensures folderImages == LoadAll(ImageFiles(files), load) && results == []
      ensures beforeImage == old(beforeImage) && processing == old(processing)
      ensures sensitivity == old(sensitivity) && maxDiff == old(maxDiff)
    {
      var images := LoadAll(ImageFiles(files), load);
      folderImages := images;
      results := [];
    }

    /** Compare the before image with every folder image at the current
        threshold, which the sliders keep within 1..150; without a before
        image or folder images nothing changes. When an engine run throws,
        the handler stops with `processing` still set and no results. */
    method HandleCompare(render: Renderer)
      requires Valid() && Renders(render)
      modifies this
      ensures Valid() && 1 <= ThresholdOf(sensitivity) <= 150
      ensures old(CanCompare(beforeImage, folderImages) && AllDrawable(beforeImage.value, folderImages)) ==>
        results == Batch(old(beforeImage).value, old(folderImages), ThresholdOf(old(sensitivity)), render) && !processing
      ensures old(CanCompare(beforeImage, folderImages) && !AllDrawable(beforeImage.value, folderImages)) ==>
        results == [] && processing
      ensures !old(CanCompare(beforeImage, folderImages)) ==>
        results == old(results) && processing == old(processing)
      ensures beforeImage == old(beforeImage) && folderImages == old(folderImages)
      ensures sensitivity == old(sensitivity) && maxDiff == old(maxDiff)
    {
      if !CanCompare(beforeImage, folderImages) {
        return;
      }
      processing := true;
      results := [];
      var newResults := CompareAll(beforeImage.value, folderImages, ThresholdOf(sensitivity), render);
      if newResults.None? {
        return;
      }
      results := newResults.value;
      processing := false;
    }
  }

  /** After a comparison that completes, every folder image has its result,
      in order, and with the limit at 100 every one of them is visible. */
  lemma CompareThenShowAll(before: Image, folder: seq<Image>, sensitivity: int, render: Renderer)
    requires Renders(render) && AllDrawable(before, folder)
    ensures var rs := Batch(before, folder, ThresholdOf(sensitivity), render);
      |Visible(rs, 100)| == |folder| &&
      forall k :: 0 <= k < |folder| ==> Visible(rs, 100)[k].afterImage == folder[k]
  {
    var rs := Batch(before, folder, ThresholdOf(sensitivity), render);
    FullRangeShowsAll(before, folder, ThresholdOf(sensitivity), render);
    forall k | 0 <= k < |folder|
      ensures rs[k].afterImage == folder[k]
    {
      BatchAt(before, folder, ThresholdOf(sensitivity), render, k);
    }
  }
}
