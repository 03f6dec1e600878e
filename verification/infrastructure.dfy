/**
 The infrastructure services of the colour-reduction core (infrastructure.py):
 the downscale rule that `_prepare_image` and `create_thumbnail` share, and the
 error-wrapping shell of `find_dominant_colors`. The resampling library
 (`cv2.resize` with area interpolation) and the clustering library (`KMeans`)
 are parameters: the model decides which sizes are requested and what is done
 with the answers, not how pixels are resampled or clustered.
 */
module Infrastructure {
  import opened Sequences
  import opened Domain

  /** The pixel grid used to discover colours is at most this many pixels on its longer side. */
  const AnalysisBound: nat := 800

  /** `cv2.resize(pixels, (new_width, new_height))`: a resized image, or the library's failure. */
  type Resampler = (Image, nat, nat) -> Result<Image>

  /**
   `KMeans(n_clusters=count, random_state=42, n_init=10).fit(pixels)`, with each
   centre already truncated by `int`: the centres, or the library's failure.
   */
  type ClusterOracle = (seq<Color>, int) -> Result<seq<Triple>>

  /** A resampler whose successful results have the requested width and height. */
  ghost predicate HonestResampler(resize: Resampler) {
    forall im: Image, w: nat, h: nat ::
      resize(im, w, h).Ok? ==> Dimensions(resize(im, w, h).value) == (h, w)
  }

  /**
   The (height, width) an image of `height x width` is brought to for the bound
   `bound`: unchanged when its longer side fits, otherwise the longer side
   becomes `bound` and the shorter one is scaled by the same factor and
   truncated. A side that truncates to 0 stays 0.
   */
  function TargetDims(height: nat, width: nat, bound: nat): (d: (nat, nat))
    ensures Max(height, width) <= bound ==> d == (height, width)
    ensures Max(height, width) > bound && width > height ==>
              d.1 == bound && d.0 * width <= height * bound < (d.0 + 1) * width
    ensures Max(height, width) > bound && width <= height ==>
              d.0 == bound && d.1 * height <= width * bound < (d.1 + 1) * height
  {
    if Max(height, width) <= bound then (height, width)
    else if width > height then
      var scaled := FloorDiv(height * bound, width);
      (scaled, bound)
    else
      var scaled := FloorDiv(width * bound, height);
      (bound, scaled)
  }

  /**
   The exact floor of `n / d`, standing in for the float expression
   `int(side * (bound / longer))` of the downscale rule with `n = side * bound`
   and `d = longer`.
   */
  function FloorDiv(n: nat, d: nat): (q: nat)
    requires d > 0
    ensures q * d <= n < (q + 1) * d
  {
    n / d
  }

  /** A resized image fits the bound on both sides, and its longer side is the bound. */
  lemma {:induction false} TargetDimsFit(height: nat, width: nat, bound: nat)
    requires Max(height, width) > bound
    ensures TargetDims(height, width, bound).0 <= bound
    ensures TargetDims(height, width, bound).1 <= bound
    ensures Max(TargetDims(height, width, bound).0, TargetDims(height, width, bound).1) == bound
  {
    var d := TargetDims(height, width, bound);
    if width > height {
      ScaledSideBound(height, width, bound, d.0);
    } else {
      ScaledSideBound(width, height, bound, d.1);
    }
  }

  /** The shorter side, scaled by `bound / longer < 1`, neither grows nor passes the bound. */
  lemma ScaledSideBound(shorter: nat, longer: nat, bound: nat, scaled: nat)
    requires shorter <= longer && bound < longer
    requires scaled * longer <= shorter * bound
    ensures scaled <= shorter && scaled <= bound
  {
    MulMonotone(bound, longer, shorter);
    MulCancel(scaled, shorter, longer);
    MulMonotone(shorter, longer, bound);
    MulCancel(scaled, bound, longer);
  }

  lemma MulMonotone(a: nat, b: nat, c: nat)
    requires a <= b
    ensures a * c <= b * c && c * a <= c * b
  {
  }

  lemma MulCancel(x: nat, y: nat, k: nat)
    requires k > 0 && x * k <= y * k
    ensures x <= y
  {
    if x > y {
      MulMonotone(y + 1, x, k);
      assert false;
    }
  }

  /** Downscaling never makes a side longer, and keeps landscape images no taller than wide. */
  lemma TargetDimsShrink(height: nat, width: nat, bound: nat)
    ensures TargetDims(height, width, bound).0 <= height
    ensures TargetDims(height, width, bound).1 <= width
    ensures width >= height ==> TargetDims(height, width, bound).0 <= TargetDims(height, width, bound).1
  {
    if Max(height, width) > bound {
      TargetDimsFit(height, width, bound);
      var d := TargetDims(height, width, bound);
      if width > height {
        ScaledSideBound(height, width, bound, d.0);
      } else {
        ScaledSideBound(width, height, bound, d.1);
      }
    }
  }

  /** No guard keeps the shorter side positive: a 1 x 2000 strip is sized to 0 x 800. */
  lemma ThinStripLosesItsHeight()
    ensures TargetDims(1, 2000, AnalysisBound) == (0, 800)
  {
  }

  /**
   `ColorAnalyzer._prepare_image`: the image itself when its longer side fits the
   bound, otherwise the resampler's answer for the downscaled size.
   */
  function PrepareImage(image: Image, bound: nat, resize: Resampler): (r: Result<Image>)
    ensures Max(Height(image), image.width) <= bound ==> r == Ok(image)
    ensures Max(Height(image), image.width) > bound ==>
              r == resize(image, TargetDims(Height(image), image.width, bound).1, TargetDims(Height(image), image.width, bound).0)
    ensures HonestResampler(resize) && r.Ok? ==>
              Dimensions(r.value) == TargetDims(Height(image), image.width, bound)
  {
    var d := TargetDims(Height(image), image.width, bound);
    if Max(Height(image), image.width) <= bound then Ok(image)
    else resize(image, d.1, d.0)
  }

  /** A prepared image always fits the bound, so preparing it again changes nothing. */
  lemma PrepareImageFits(image: Image, bound: nat, resize: Resampler)
    requires HonestResampler(resize)
    requires PrepareImage(image, bound, resize).Ok?
    ensures var p := PrepareImage(image, bound, resize).value;
            Max(Height(p), p.width) <= bound
    ensures var p := PrepareImage(image, bound, resize).value;
            PrepareImage(p, bound, resize) == Ok(p)
  {
    if Max(Height(image), image.width) > bound {
      TargetDimsFit(Height(image), image.width, bound);
    }
  }

  /**
   `ColorAnalyzer.create_thumbnail`: a copy of the pixels when they fit
   `maxSize`, otherwise the resampler's answer for the downscaled size.
   */
  function CreateThumbnail(pixels: Image, maxSize: nat, resize: Resampler): (r: Result<Image>)
    ensures Max(Height(pixels), pixels.width) <= maxSize ==> r == Ok(pixels)
    ensures Max(Height(pixels), pixels.width) > maxSize ==>
              r == resize(pixels, TargetDims(Height(pixels), pixels.width, maxSize).1, TargetDims(Height(pixels), pixels.width, maxSize).0)
    ensures HonestResampler(resize) && r.Ok? ==>
              Dimensions(r.value) == TargetDims(Height(pixels), pixels.width, maxSize)
  {
    var d := TargetDims(Height(pixels), pixels.width, maxSize);
    if Max(Height(pixels), pixels.width) <= maxSize then Ok(pixels)
    else resize(pixels, d.1, d.0)
  }

  /** The thumbnail and the prepared image are the same computation for the same bound. */
  lemma ThumbnailIsPreparedImage(pixels: Image, bound: nat, resize: Resampler)
    ensures CreateThumbnail(pixels, bound, resize) == PrepareImage(pixels, bound, resize)
  {
  }

  /** The list comprehension over the centres: each centre made a colour, the first invalid one failing. */
  function ColorsFromTuples(centers: seq<Triple>): (res: Result<seq<Color>>)
    ensures res.Ok? <==> forall i :: 0 <= i < |centers| ==> FromTuple(centers[i]).Ok?
    ensures res.Ok? ==> Tuples(res.value) == centers
    ensures res.Err? ==> res.error == InvalidColor
  {
    if forall i :: 0 <= i < |centers| ==> FromTuple(centers[i]).Ok? then
      var colors := seq(|centers|, i requires 0 <= i < |centers| => FromTuple(centers[i]).value);
      assert Tuples(colors) == centers by {
        assert forall i :: 0 <= i < |centers| ==> Tuples(colors)[i] == Tuple(colors[i]) == centers[i];
      }
      Ok(colors)
    else
      Err(InvalidColor)
  }

  /** The analysis pipeline inside `find_dominant_colors`, before its failures are wrapped. */
  function DiscoverPalette(image: Image, count: int, cluster: ClusterOracle, resize: Resampler): Result<Palette> {
    match PrepareImage(image, AnalysisBound, resize)
    case Err(e) => Err(e)
    case Ok(prepared) =>
      match cluster(Flatten(prepared.rows), count)
      case Err(e) => Err(e)
      case Ok(centers) =>
        match ColorsFromTuples(centers)
        case Err(e) => Err(e)
        case Ok(colors) => MakePalette(colors)
  }

  /**
   `ColorAnalyzer.find_dominant_colors`: the palette of the cluster centres
   found on the image prepared for the bound 800, with any failure on the way
   (resampling, clustering, an invalid centre, no centres) reported as a
   `ColorProcessingException` whose cause is the original failure.
   */
  function FindDominantColors(image: Image, count: int, cluster: ClusterOracle, resize: Resampler): (r: Result<Palette>)
    ensures r.Err? ==> r.error.ColorProcessing? && r.error.stage == Analysis
    ensures r.Ok? ==>
              && PrepareImage(image, AnalysisBound, resize).Ok?
              && var centers := cluster(Flatten(PrepareImage(image, AnalysisBound, resize).value.rows), count);
                 centers.Ok? && Tuples(r.value.colors) == centers.value
    ensures PrepareImage(image, AnalysisBound, resize).Err? ==>
              r == Err(ColorProcessing(Analysis, PrepareImage(image, AnalysisBound, resize).error))
    ensures (&& PrepareImage(image, AnalysisBound, resize).Ok?
             && var centers := cluster(Flatten(PrepareImage(image, AnalysisBound, resize).value.rows), count);
                && centers.Ok? && |centers.value| > 0
                && forall i :: 0 <= i < |centers.value| ==> FromTuple(centers.value[i]).Ok?)
            ==> r.Ok?
  {
    match DiscoverPalette(image, count, cluster, resize)
    case Err(e) => Err(ColorProcessing(Analysis, e))
    case Ok(p) => Ok(p)
  }

  /** A clustering failure reaches the caller as the cause of the analysis failure. */
  lemma ClusterFailureIsWrapped(image: Image, count: int, cluster: ClusterOracle, resize: Resampler)
    requires PrepareImage(image, AnalysisBound, resize).Ok?
    requires cluster(Flatten(PrepareImage(image, AnalysisBound, resize).value.rows), count).Err?
    ensures FindDominantColors(image, count, cluster, resize)
         == Err(ColorProcessing(Analysis, cluster(Flatten(PrepareImage(image, AnalysisBound, resize).value.rows), count).error))
  {
  }

  /** A clustering answer with no centres, or with a centre outside 0..255, is a failure too. */
  lemma BadCentersAreWrapped(image: Image, count: int, cluster: ClusterOracle, resize: Resampler)
    requires PrepareImage(image, AnalysisBound, resize).Ok?
    requires cluster(Flatten(PrepareImage(image, AnalysisBound, resize).value.rows), count).Ok?
    ensures var centers := cluster(Flatten(PrepareImage(image, AnalysisBound, resize).value.rows), count).value;
            |centers| == 0 ==> FindDominantColors(image, count, cluster, resize) == Err(ColorProcessing(Analysis, EmptyPalette))
    ensures var centers := cluster(Flatten(PrepareImage(image, AnalysisBound, resize).value.rows), count).value;
            (exists i :: 0 <= i < |centers| && FromTuple(centers[i]).Err?) ==>
              FindDominantColors(image, count, cluster, resize) == Err(ColorProcessing(Analysis, InvalidColor))
  {
  }
}
