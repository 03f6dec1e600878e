/**
 The colour-reduction service (application.py): nearest-colour assignment with
 an optional colour mapping, the rank-based luminosity mapping between two
 palettes, and the automatic and manual reduction workflows with their error
 wrapping.
 */
module Application {
  import opened Sequences
  import opened Domain
  import StableSort
  import opened Infrastructure

  /** The output of a reduction is computed on the image prepared for this bound. */
  const OutputBound: nat := 1200

  // ---------------------------------------------------------------- nearest colour

  /**
   The squared Euclidean distance between two RGB triples. The source compares
   `np.linalg.norm` distances; the square root is monotone, so the nearest
   colour is the same.
   */
  function SqDist(a: Triple, b: Triple): (d: nat)
    ensures d == 0 <==> a == b
  {
    var dr := a.0 - b.0;
    var dg := a.1 - b.1;
    var db := a.2 - b.2;
    dr * dr + dg * dg + db * db
  }

  /** `k` is what `np.argmin` returns: an index of minimum distance, the first such index. */
  ghost predicate IsFirstNearest(palette: seq<Triple>, p: Triple, k: nat) {
    && k < |palette|
    && (forall j :: 0 <= j < |palette| ==> SqDist(p, palette[k]) <= SqDist(p, palette[j]))
    && (forall j :: 0 <= j < k ==> SqDist(p, palette[k]) < SqDist(p, palette[j]))
  }

  /** `np.argmin` over the distances from `p` to the palette. */
  function FirstNearest(palette: seq<Triple>, p: Triple): (k: nat)
    requires |palette| > 0
    ensures IsFirstNearest(palette, p, k)
  {
    if |palette| == 1 then 0
    else
      var k := FirstNearest(palette[..|palette| - 1], p);
      if SqDist(p, palette[|palette| - 1]) < SqDist(p, palette[k]) then |palette| - 1 else k
  }

  /** The first index of minimum distance is unique. */
  lemma FirstNearestUnique(palette: seq<Triple>, p: Triple, k: nat)
    requires |palette| > 0
    requires IsFirstNearest(palette, p, k)
    ensures k == FirstNearest(palette, p)
  {
  }

  /** A pixel that is already a palette colour is assigned that colour. */
  lemma NearestOfPaletteColor(palette: seq<Triple>, i: nat)
    requires i < |palette|
    ensures palette[FirstNearest(palette, palette[i])] == palette[i]
  {
    var k := FirstNearest(palette, palette[i]);
    assert SqDist(palette[i], palette[k]) <= SqDist(palette[i], palette[i]);
  }

  /** `mapping.get(c, c)`: the mapped colour if `c` has an entry, `c` itself otherwise. */
  function MapOrKeep(mapping: map<Color, Color>, c: Color): (d: Color)
    ensures c in mapping ==> d == mapping[c] && d in mapping.Values
    ensures c !in mapping ==> d == c
    ensures mapping == map[] ==> d == c
  {
    if c in mapping then mapping[c] else c
  }

  /** The palette colour chosen for pixel `p`: the first colour at minimum distance. */
  function NearestColor(palette: Palette, p: Color): (c: Color)
    ensures c in palette.colors
    ensures exists k: nat :: IsFirstNearest(Tuples(palette.colors), Tuple(p), k) && c == palette.colors[k]
  {
    palette.colors[FirstNearest(Tuples(palette.colors), Tuple(p))]
  }

  /** The colour written for pixel `p` by `_apply_color_mapping`. */
  function ReducePixel(palette: Palette, mapping: map<Color, Color>, p: Color): Color {
    MapOrKeep(mapping, NearestColor(palette, p))
  }

  // ---------------------------------------------------------------- applying a palette

  /**
   `_apply_color_mapping`: on the image prepared for the bound 1200, every pixel
   becomes its nearest palette colour, passed through `mapping` when the mapping
   has an entry for it; the result has the prepared image's shape.
   */
  function ApplyColorMapping(image: Image, palette: Palette, mapping: map<Color, Color>, resize: Resampler): (r: Result<Image>)
    ensures PrepareImage(image, OutputBound, resize).Err? ==> r == Err(PrepareImage(image, OutputBound, resize).error)
    ensures PrepareImage(image, OutputBound, resize).Ok? ==> r.Ok?
    ensures r.Ok? ==>
              && PrepareImage(image, OutputBound, resize).Ok?
              && var prepared := PrepareImage(image, OutputBound, resize).value;
                 && Dimensions(r.value) == Dimensions(prepared)
                 && forall i, j :: 0 <= i < Height(prepared) && 0 <= j < prepared.width ==>
                      r.value.rows[i][j] == ReducePixel(palette, mapping, prepared.rows[i][j])
  {
    match PrepareImage(image, OutputBound, resize)
    case Err(e) => Err(e)
    case Ok(prepared) =>
      var pixels := Flatten(prepared.rows);
      var reduced := seq(|pixels|, i requires 0 <= i < |pixels| => ReducePixel(palette, mapping, pixels[i]));
      FlattenIndex(prepared.rows, prepared.width);
      var out := RawImage(prepared.width, Reshape(reduced, Height(prepared), prepared.width));
      Ok(out)
  }

  /** `_apply_palette`: the colour mapping with no entries. */
  function ApplyPalette(image: Image, palette: Palette, resize: Resampler): (r: Result<Image>)
    ensures r.Ok? ==> forall i, j :: 0 <= i < Height(r.value) && 0 <= j < r.value.width ==>
              r.value.rows[i][j] in palette.colors
  {
    ApplyColorMapping(image, palette, map[], resize)
  }

  /** A pixel that already has a palette colour keeps it when the palette is applied. */
  lemma ReducePixelOfPaletteColor(palette: Palette, c: Color)
    requires c in palette.colors
    ensures ReducePixel(palette, map[], c) == c
  {
    var k :| 0 <= k < |palette.colors| && palette.colors[k] == c;
    NearestOfPaletteColor(Tuples(palette.colors), k);
    TupleInjective(NearestColor(palette, c), c);
  }

  /**
   An image that fits the output bound and whose pixels are all palette colours
   (an image of flat regions in exactly the palette's colours) is reproduced.
   */
  lemma ApplyPaletteFixesPaletteImages(image: Image, palette: Palette, resize: Resampler)
    requires Max(Height(image), image.width) <= OutputBound
    requires forall i, j :: 0 <= i < Height(image) && 0 <= j < image.width ==> image.rows[i][j] in palette.colors
    ensures ApplyPalette(image, palette, resize) == Ok(image)
  {
    var out := ApplyPalette(image, palette, resize).value;
    assert Dimensions(out) == Dimensions(image);
    forall i | 0 <= i < Height(image)
      ensures out.rows[i] == image.rows[i]
    {
      forall j | 0 <= j < image.width
        ensures out.rows[i][j] == image.rows[i][j]
      {
        ReducePixelOfPaletteColor(palette, image.rows[i][j]);
      }
    }
    assert out.rows == image.rows;
  }

  /** Applying a palette to an image already reduced to it changes nothing. */
  lemma ApplyPaletteIdempotent(image: Image, palette: Palette, resize: Resampler)
    requires HonestResampler(resize)
    requires ApplyPalette(image, palette, resize).Ok?
    ensures var once := ApplyPalette(image, palette, resize).value;
            ApplyPalette(once, palette, resize) == Ok(once)
  {
    var once := ApplyPalette(image, palette, resize).value;
    PrepareImageFits(image, OutputBound, resize);
    ApplyPaletteFixesPaletteImages(once, palette, resize);
  }

  // ---------------------------------------------------------------- luminosity mapping

  /**
   The dictionary built by the loop of `_create_luminosity_mapping`: rank `i` of
   the sorted source maps to rank `min(i, len(target) - 1)` of the sorted target,
   a later rank overwriting an earlier one for a repeated colour.
   */
  function RankMapping(sourceSorted: seq<Color>, targetSorted: seq<Color>): (m: map<Color, Color>)
    requires |targetSorted| > 0
    ensures forall c :: c in m <==> c in sourceSorted
    ensures forall c :: c in sourceSorted ==>
              m[c] == targetSorted[Min(LastIndexOf(sourceSorted, c), |targetSorted| - 1)]
  {
    if |sourceSorted| == 0 then map[]
    else
      var n := |sourceSorted| - 1;
      var prefix := sourceSorted[..n];
      var m := RankMapping(prefix, targetSorted);
      assert sourceSorted == prefix + [sourceSorted[n]];
      m[sourceSorted[n] := targetSorted[Min(n, |targetSorted| - 1)]]
  }

  /** `_create_luminosity_mapping(source, target)`. */
  function LuminosityMapping(source: Palette, target: Palette): (m: map<Color, Color>)
    ensures forall c :: c in m <==> c in source.colors
    ensures forall c :: c in m ==> m[c] in target.colors
  {
    var ss := SortedByLuminosity(source).colors;
    var ts := SortedByLuminosity(target).colors;
    SameElements(ss, source.colors);
    SameElements(ts, target.colors);
    RankMappingValues(ss, ts);
    RankMapping(ss, ts)
  }

  /** Every value of the rank mapping is one of the target colours. */
  lemma RankMappingValues(sourceSorted: seq<Color>, targetSorted: seq<Color>)
    requires |targetSorted| > 0
    ensures forall c :: c in RankMapping(sourceSorted, targetSorted) ==>
              RankMapping(sourceSorted, targetSorted)[c] in targetSorted
  {
    var m := RankMapping(sourceSorted, targetSorted);
    forall c | c in m ensures m[c] in targetSorted {
      var k := Min(LastIndexOf(sourceSorted, c), |targetSorted| - 1);
      assert m[c] == targetSorted[k];
    }
  }

  /** The source colour of sorted rank `i` maps to target rank `min(i, len(target) - 1)` when the source has no repeats. */
  lemma LuminosityMappingRanks(source: Palette, target: Palette, i: nat)
    requires Distinct(source.colors)
    requires i < Len(source)
    ensures var ss := SortedByLuminosity(source).colors;
            var ts := SortedByLuminosity(target).colors;
            LuminosityMapping(source, target)[ss[i]] == ts[Min(i, Len(target) - 1)]
  {
    var ss := SortedByLuminosity(source).colors;
    DistinctPermutation(source.colors, ss);
    LastIndexOfDistinct(ss, i);
  }

  /** Surplus source ranks all collapse onto the last target colour in luminosity order. */
  lemma LuminosityMappingSaturates(source: Palette, target: Palette, i: nat)
    requires i < Len(source) && i >= Len(target) - 1
    ensures var ss := SortedByLuminosity(source).colors;
            var ts := SortedByLuminosity(target).colors;
            LuminosityMapping(source, target)[ss[i]] == ts[Len(target) - 1]
  {
    var ss := SortedByLuminosity(source).colors;
    var ts := SortedByLuminosity(target).colors;
    assert LuminosityMapping(source, target) == RankMapping(ss, ts);
    LastIndexAtLeast(ss, i);
    var m := RankMapping(ss, ts);
    assert m[ss[i]] == ts[Min(LastIndexOf(ss, ss[i]), |ts| - 1)];
  }

  /** In a luminosity-sorted sequence, a darker colour sits at an earlier position. */
  lemma SortedRanksOrdered(s: seq<Color>, i: nat, j: nat)
    requires StableSort.SortedBy(s, Luminosity)
    requires i < |s| && j < |s| && Luminosity(s[i]) < Luminosity(s[j])
    ensures i < j
  {
  }

  /** A brighter source colour never maps to a darker target colour. */
  lemma LuminosityMappingMonotone(source: Palette, target: Palette, a: Color, b: Color)
    requires a in source.colors && b in source.colors
    requires Luminosity(a) < Luminosity(b)
    ensures Luminosity(LuminosityMapping(source, target)[a]) <= Luminosity(LuminosityMapping(source, target)[b])
  {
    var ss := SortedByLuminosity(source).colors;
    var ts := SortedByLuminosity(target).colors;
    assert a in multiset(source.colors) && b in multiset(source.colors);
    assert a in multiset(ss) && b in multiset(ss);
    var ia := LastIndexOf(ss, a);
    var ib := LastIndexOf(ss, b);
    SortedRanksOrdered(ss, ia, ib);
    assert Min(ia, |ts| - 1) <= Min(ib, |ts| - 1);
    if Min(ia, |ts| - 1) < Min(ib, |ts| - 1) {
      assert Luminosity(ts[Min(ia, |ts| - 1)]) <= Luminosity(ts[Min(ib, |ts| - 1)]);
    }
  }

  /**
   With as many distinct source colours as target colours, the mapping pairs
   them rank for rank and every target colour is used.
   */
  lemma LuminosityMappingOnto(source: Palette, target: Palette)
    requires Distinct(source.colors)
    requires Len(source) == Len(target)
    ensures var m := LuminosityMapping(source, target);
            forall t :: t in target.colors <==> exists c :: c in m && m[c] == t
  {
    var m := LuminosityMapping(source, target);
    var ss := SortedByLuminosity(source).colors;
    var ts := SortedByLuminosity(target).colors;
    forall t | t in target.colors
      ensures exists c :: c in m && m[c] == t
    {
      assert t in multiset(target.colors);
      assert t in multiset(ts);
      var i :| 0 <= i < |ts| && ts[i] == t;
      LuminosityMappingRanks(source, target, i);
      assert ss[i] in multiset(ss);
      assert ss[i] in multiset(source.colors);
      assert ss[i] in m;
    }
  }

  /** With no more source than target colours, both distinct, no two source colours share a target colour. */
  lemma LuminosityMappingInjective(source: Palette, target: Palette, a: Color, b: Color)
    requires Distinct(source.colors) && Distinct(target.colors)
    requires Len(source) <= Len(target)
    requires a in source.colors && b in source.colors
    ensures var m := LuminosityMapping(source, target);
            m[a] == m[b] ==> a == b
  {
    var ss := SortedByLuminosity(source).colors;
    SortedLength(source);
    assert a in multiset(source.colors) && b in multiset(source.colors);
    var i :| 0 <= i < |ss| && ss[i] == a;
    var j :| 0 <= j < |ss| && ss[j] == b;
    DistinctRanksDistinctImages(source, target, i, j);
  }

  /** Two sorted source ranks below len(target) map to the target colours of the same ranks. */
  lemma DistinctRanksDistinctImages(source: Palette, target: Palette, i: nat, j: nat)
    requires Distinct(source.colors) && Distinct(target.colors)
    requires i < Len(source) <= Len(target) && j < Len(source)
    ensures var ss := SortedByLuminosity(source).colors;
            var m := LuminosityMapping(source, target);
            m[ss[i]] == m[ss[j]] ==> i == j
  {
    var ts := SortedByLuminosity(target).colors;
    SortedLength(target);
    assert Min(i, Len(target) - 1) == i && Min(j, Len(target) - 1) == j;
    LuminosityMappingRanks(source, target, i);
    LuminosityMappingRanks(source, target, j);
    DistinctPermutation(target.colors, ts);
  }

  lemma SortedLength(p: Palette)
    ensures |SortedByLuminosity(p).colors| == Len(p)
  {
    assert |multiset(SortedByLuminosity(p).colors)| == |multiset(p.colors)|;
  }

  // ---------------------------------------------------------------- workflows

  /**
   `auto_reduce_colors`: discover `count` colours and reduce the image to them;
   any failure is re-raised as a `ColorProcessingException` of the automatic
   reduction, and a success uses only discovered colours.
   */
  function AutoReduce(image: Image, count: int, cluster: ClusterOracle, resize: Resampler): (r: Result<Image>)
    ensures r.Err? ==> r.error.ColorProcessing? && r.error.stage == AutoReduction
    ensures FindDominantColors(image, count, cluster, resize).Err? ==>
              r == Err(ColorProcessing(AutoReduction, FindDominantColors(image, count, cluster, resize).error))
    ensures FindDominantColors(image, count, cluster, resize).Ok? && PrepareImage(image, OutputBound, resize).Err? ==>
              r == Err(ColorProcessing(AutoReduction, PrepareImage(image, OutputBound, resize).error))
    ensures FindDominantColors(image, count, cluster, resize).Ok? && PrepareImage(image, OutputBound, resize).Ok? ==>
              var dominant := FindDominantColors(image, count, cluster, resize).value;
              var prepared := PrepareImage(image, OutputBound, resize).value;
              && r.Ok?
              && Dimensions(r.value) == Dimensions(prepared)
              && forall i, j :: 0 <= i < Height(prepared) && 0 <= j < prepared.width ==>
                   r.value.rows[i][j] == NearestColor(dominant, prepared.rows[i][j])
    ensures r.Ok? ==>
              && FindDominantColors(image, count, cluster, resize).Ok?
              && forall i, j :: 0 <= i < Height(r.value) && 0 <= j < r.value.width ==>
                   r.value.rows[i][j] in FindDominantColors(image, count, cluster, resize).value.colors
  {
    match FindDominantColors(image, count, cluster, resize)
    case Err(e) => Err(ColorProcessing(AutoReduction, e))
    case Ok(dominant) =>
      match ApplyPalette(image, dominant, resize)
      case Err(e) => Err(ColorProcessing(AutoReduction, e))
      case Ok(out) => Ok(out)
  }

  /**
   `manual_reduce_colors`: discover as many colours as there are filament
   colours, map them onto the filament colours by luminosity rank, and reduce
   the image through that mapping; any failure is re-raised as a
   `ColorProcessingException` of the manual reduction, and a success uses only
   filament colours.
   */
  function ManualReduce(image: Image, filament: Palette, cluster: ClusterOracle, resize: Resampler): (r: Result<Image>)
    ensures r.Err? ==> r.error.ColorProcessing? && r.error.stage == ManualReduction
    ensures FindDominantColors(image, Len(filament), cluster, resize).Err? ==>
              r == Err(ColorProcessing(ManualReduction, FindDominantColors(image, Len(filament), cluster, resize).error))
    ensures FindDominantColors(image, Len(filament), cluster, resize).Ok? && PrepareImage(image, OutputBound, resize).Err? ==>
              r == Err(ColorProcessing(ManualReduction, PrepareImage(image, OutputBound, resize).error))
    ensures FindDominantColors(image, Len(filament), cluster, resize).Ok? && PrepareImage(image, OutputBound, resize).Ok? ==>
              var dominant := FindDominantColors(image, Len(filament), cluster, resize).value;
              var prepared := PrepareImage(image, OutputBound, resize).value;
              var mapping := LuminosityMapping(dominant, filament);
              && r.Ok?
              && Dimensions(r.value) == Dimensions(prepared)
              && forall i, j :: 0 <= i < Height(prepared) && 0 <= j < prepared.width ==>
                   NearestColor(dominant, prepared.rows[i][j]) in mapping &&
                   r.value.rows[i][j] == mapping[NearestColor(dominant, prepared.rows[i][j])]
    ensures r.Ok? ==>
              && FindDominantColors(image, Len(filament), cluster, resize).Ok?
              && forall i, j :: 0 <= i < Height(r.value) && 0 <= j < r.value.width ==>
                   r.value.rows[i][j] in filament.colors
  {
    match FindDominantColors(image, Len(filament), cluster, resize)
    case Err(e) => Err(ColorProcessing(ManualReduction, e))
    case Ok(dominant) =>
      var mapping := LuminosityMapping(dominant, filament);
      LuminosityMappedPixels(image, dominant, filament, resize);
      match ApplyColorMapping(image, dominant, mapping, resize)
      case Err(e) => Err(ColorProcessing(ManualReduction, e))
      case Ok(out) => Ok(out)
  }

  /** Through the luminosity mapping every pixel's nearest colour has an entry, so every output pixel is a mapped colour. */
  lemma LuminosityMappedPixels(image: Image, source: Palette, target: Palette, resize: Resampler)
    ensures PrepareImage(image, OutputBound, resize).Ok? ==>
              var prepared := PrepareImage(image, OutputBound, resize).value;
              var mapping := LuminosityMapping(source, target);
              var r := ApplyColorMapping(image, source, mapping, resize);
              && r.Ok?
              && Dimensions(r.value) == Dimensions(prepared)
              && forall i, j :: 0 <= i < Height(prepared) && 0 <= j < prepared.width ==>
                   NearestColor(source, prepared.rows[i][j]) in mapping &&
                   r.value.rows[i][j] == mapping[NearestColor(source, prepared.rows[i][j])]
  {
  }

  /** `analyze_image_colors`: the discovered palette, with the analysis failure not wrapped again. */
  function AnalyzeImageColors(image: Image, count: int, cluster: ClusterOracle, resize: Resampler): (r: Result<Palette>)
    ensures r.Err? ==> r.error.ColorProcessing? && r.error.stage == Analysis
    ensures r.Err? ==> r == FindDominantColors(image, count, cluster, resize)
    ensures r.Ok? ==> FindDominantColors(image, count, cluster, resize) == r
  {
    FindDominantColors(image, count, cluster, resize)
  }
}
