/**
 The older, self-contained reduction path of the Tkinter application
 (color_reduction_gui.py): its own luminosity function, its own rank mapping
 from the analysed (dominant) colours to the chosen filament colours, and the
 pixel loop of "process for printing" with its guards.

 Its mapping differs from the service's: dominant ranks beyond the number of
 filament colours get NO entry (truncation) instead of collapsing onto the
 last filament colour in luminosity order (saturation), so the pixel loop lets those dominant
 colours through unchanged. `LegacyMappingVersusService` states the contrast.
 */
module LegacyGui {
  import opened Sequences
  import opened Domain
  import StableSort
  import Application

  /**
   `calculate_luminosity`, scaled to an integer in the same way as
   `Domain.Luminosity`: the same weights on the channels over 255.
   */
  function CalculateLuminosity(rgb: Triple): (l: int)
    ensures FromTuple(rgb).Ok? ==> l == Luminosity(FromTuple(rgb).value)
    ensures FromTuple(rgb).Ok? ==> 0 <= l <= MaxLuminosity
  {
    2126 * rgb.0 + 7152 * rgb.1 + 722 * rgb.2
  }

  lemma CalculateLuminosityAgrees(c: Color)
    ensures CalculateLuminosity(Tuple(c)) == Luminosity(c)
  {
  }

  /** The sort key of `get_color_mapping`: the luminosity of the colour's triple. */
  function LegacyKey(c: Color): int {
    CalculateLuminosity(Tuple(c))
  }

  /** The legacy sort orders colours exactly as `sorted_by_luminosity` does. */
  lemma LegacySortIsLuminositySort(colors: seq<Color>)
    ensures StableSort.SortBy(colors, LegacyKey) == StableSort.SortBy(colors, Luminosity)
  {
    StableSort.SortByCongruent(colors, LegacyKey, Luminosity);
  }

  /**
   The loop of `get_color_mapping`: rank `i` of the sorted dominant colours maps
   to rank `i` of the sorted filament colours, and only while `i` is a rank of
   the filament colours; a later rank overwrites an earlier one for a repeated
   colour.
   */
  function TruncatedRankMapping(domSorted: seq<Color>, userSorted: seq<Color>): (m: map<Color, Color>)
    ensures forall c :: c in m <==> c in domSorted[..Min(|domSorted|, |userSorted|)]
    ensures forall c :: c in m ==>
              m[c] == userSorted[LastIndexOf(domSorted[..Min(|domSorted|, |userSorted|)], c)]
    ensures |m| <= Min(|domSorted|, |userSorted|)
  {
    RankPairsSize(domSorted[..Min(|domSorted|, |userSorted|)], userSorted);
    RankPairs(domSorted[..Min(|domSorted|, |userSorted|)], userSorted)
  }

  /** The writes `mapping[ranked[i]] = targets[i]` for every rank `i` of `ranked`, in order. */
  function RankPairs(ranked: seq<Color>, targets: seq<Color>): (m: map<Color, Color>)
    requires |ranked| <= |targets|
    ensures forall c :: c in m <==> c in ranked
    ensures forall c :: c in m ==> m[c] == targets[LastIndexOf(ranked, c)]
  {
    if |ranked| == 0 then map[]
    else
      var n := |ranked| - 1;
      var m := RankPairs(ranked[..n], targets);
      assert ranked == ranked[..n] + [ranked[n]];
      m[ranked[n] := targets[n]]
  }

  /** Each rank writes one entry, so there are at most as many entries as ranks. */
  lemma {:induction false} RankPairsSize(ranked: seq<Color>, targets: seq<Color>)
    requires |ranked| <= |targets|
    ensures |RankPairs(ranked, targets)| <= |ranked|
  {
    if |ranked| > 0 {
      var n := |ranked| - 1;
      var m := RankPairs(ranked[..n], targets);
      RankPairsSize(ranked[..n], targets);
      assert RankPairs(ranked, targets).Keys == m.Keys + {ranked[n]};
    }
  }

  /**
   `get_color_mapping(user_colors)`: empty when nothing has been analysed;
   otherwise keyed by dominant colours, valued by filament colours, with at most
   as many entries as the shorter of the two lists.
   */
  function GetColorMapping(dominant: seq<Color>, user: seq<Color>): (m: map<Color, Color>)
    ensures |dominant| == 0 ==> m == map[]
    ensures forall c :: c in m ==> c in dominant && m[c] in user
    ensures |m| <= Min(|dominant|, |user|)
  {
    if |dominant| == 0 then map[]
    else
      var ds := StableSort.SortBy(dominant, LegacyKey);
      var us := StableSort.SortBy(user, LegacyKey);
      var m := TruncatedRankMapping(ds, us);
      assert forall c :: c in m ==> c in dominant && m[c] in user by {
        forall c | c in m ensures c in dominant && m[c] in user {
          assert c in ds;
          assert c in multiset(ds);
          assert m[c] in us;
          assert m[c] in multiset(us);
        }
      }
      m
  }

  /**
   For distinct dominant colours: the dominant colour of sorted rank `i` maps to
   the filament colour of the same rank when there is one, and has no entry
   otherwise.
   */
  lemma GetColorMappingRanks(dominant: seq<Color>, user: seq<Color>, i: nat)
    requires Distinct(dominant) && i < |dominant|
    ensures var ds := StableSort.SortBy(dominant, LegacyKey);
            var us := StableSort.SortBy(user, LegacyKey);
            var m := GetColorMapping(dominant, user);
            && (i < |user| ==> ds[i] in m && m[ds[i]] == us[i])
            && (i >= |user| ==> ds[i] !in m)
  {
    var ds := StableSort.SortBy(dominant, LegacyKey);
    var us := StableSort.SortBy(user, LegacyKey);
    var m := GetColorMapping(dominant, user);
    assert m == TruncatedRankMapping(ds, us);
    DistinctPermutation(dominant, ds);
    var prefix := ds[..Min(|ds|, |us|)];
    if i < |user| {
      assert prefix[i] == ds[i];
      assert Distinct(prefix);
      LastIndexOfDistinct(prefix, i);
    } else {
      assert ds[i] !in prefix;
    }
  }

  /** Where the legacy mapping has an entry, the service's luminosity mapping has the same one. */
  lemma LegacyMappingWithinService(dominant: Palette, user: Palette)
    requires Distinct(dominant.colors)
    ensures var legacy := GetColorMapping(dominant.colors, user.colors);
            var service := Application.LuminosityMapping(dominant, user);
            forall c :: c in legacy ==> c in service && legacy[c] == service[c]
  {
    var legacy := GetColorMapping(dominant.colors, user.colors);
    var ds := StableSort.SortBy(dominant.colors, LegacyKey);
    SameElements(ds, dominant.colors);
    forall c | c in legacy
      ensures var service := Application.LuminosityMapping(dominant, user);
              c in service && legacy[c] == service[c]
    {
      var i :| 0 <= i < |ds| && ds[i] == c;
      LegacyRankAgrees(dominant, user, i);
    }
  }

  /** The legacy entry of the dominant colour of sorted rank `i`, when there is one, is the service's entry. */
  lemma LegacyRankAgrees(dominant: Palette, user: Palette, i: nat)
    requires Distinct(dominant.colors) && i < Len(dominant)
    ensures var c := StableSort.SortBy(dominant.colors, LegacyKey)[i];
            var legacy := GetColorMapping(dominant.colors, user.colors);
            var service := Application.LuminosityMapping(dominant, user);
            c in legacy ==> c in service && legacy[c] == service[c]
  {
    LegacySortIsLuminositySort(dominant.colors);
    LegacySortIsLuminositySort(user.colors);
    GetColorMappingRanks(dominant.colors, user.colors, i);
    Application.LuminosityMappingRanks(dominant, user, i);
  }

  /** With no more distinct dominant colours than filament colours, every dominant colour has a legacy entry. */
  lemma LegacyMappingCoversDominant(dominant: Palette, user: Palette)
    requires Distinct(dominant.colors) && Len(dominant) <= Len(user)
    ensures forall c :: c in dominant.colors ==> c in GetColorMapping(dominant.colors, user.colors)
  {
    var ds := StableSort.SortBy(dominant.colors, LegacyKey);
    forall c | c in dominant.colors
      ensures c in GetColorMapping(dominant.colors, user.colors)
    {
      assert c in multiset(dominant.colors);
      assert c in multiset(ds);
      var i :| 0 <= i < |ds| && ds[i] == c;
      GetColorMappingRanks(dominant.colors, user.colors, i);
    }
  }

  lemma LegacyMappingEqualsService(dominant: Palette, user: Palette)
    requires Distinct(dominant.colors) && Len(dominant) <= Len(user)
    ensures GetColorMapping(dominant.colors, user.colors) == Application.LuminosityMapping(dominant, user)
  {
    var legacy := GetColorMapping(dominant.colors, user.colors);
    var service := Application.LuminosityMapping(dominant, user);
    LegacyMappingWithinService(dominant, user);
    LegacyMappingCoversDominant(dominant, user);
    MapsEqual(legacy, service);
  }

  /** Two maps with the same entries are equal. */
  lemma MapsEqual(a: map<Color, Color>, b: map<Color, Color>)
    requires forall c :: c in a ==> c in b && a[c] == b[c]
    requires forall c :: c in b ==> c in a
    ensures a == b
  {
    assert a.Keys == b.Keys;
  }

  /** With more distinct dominant colours than filament colours, the last in luminosity order has a service entry and no legacy entry. */
  lemma LegacyMappingMissesBrightest(dominant: Palette, user: Palette)
    requires Distinct(dominant.colors) && Len(dominant) > Len(user)
    ensures var last := StableSort.SortBy(dominant.colors, LegacyKey)[Len(dominant) - 1];
            && last in Application.LuminosityMapping(dominant, user)
            && last !in GetColorMapping(dominant.colors, user.colors)
  {
    var ds := StableSort.SortBy(dominant.colors, LegacyKey);
    var i := Len(dominant) - 1;
    assert |ds| == Len(dominant);
    LegacyMappingOmits(dominant.colors, user.colors, i);
    assert ds[i] in multiset(ds);
    assert ds[i] in dominant.colors;
    assert ds[i] in Application.LuminosityMapping(dominant, user);
  }

  /** For distinct dominant colours, a sorted rank with no filament colour of the same rank has no entry. */
  lemma LegacyMappingOmits(dominant: seq<Color>, user: seq<Color>, i: nat)
    requires Distinct(dominant) && |user| <= i < |dominant|
    ensures StableSort.SortBy(dominant, LegacyKey)[i] !in GetColorMapping(dominant, user)
  {
    GetColorMappingRanks(dominant, user, i);
  }

  /**
   The legacy mapping is the whole of the service's luminosity mapping exactly
   when there are no more dominant colours than filament colours (for distinct
   dominant colours); otherwise the last dominant colour in luminosity order is missing.
   */
  lemma LegacyMappingVersusService(dominant: Palette, user: Palette)
    requires Distinct(dominant.colors)
    ensures GetColorMapping(dominant.colors, user.colors) == Application.LuminosityMapping(dominant, user)
            <==> Len(dominant) <= Len(user)
  {
    if Len(dominant) <= Len(user) {
      LegacyMappingEqualsService(dominant, user);
    } else {
      LegacyMappingMissesBrightest(dominant, user);
    }
  }

  // ---------------------------------------------------------------- processing for print

  datatype PrintOutcome =
    | NoImage       // "Please upload an image first."
    | NoColors      // "Please select filament colors first."
    | NoAnalysis    // "Please analyze image colors first."
    | Processed(image: Image)

  /** How many slots of `selected` hold a colour. */
  ghost function CountSome(selected: seq<Option<Color>>): nat {
    if |selected| == 0 then 0
    else CountSome(selected[..|selected| - 1]) + (if selected[|selected| - 1].Some? then 1 else 0)
  }

  /**
   `[c['color'] for c in self.selected_colors if c['color'] is not None]`: one
   entry per set slot, in slot order, the slot `k` landing after the set slots
   before it.
   */
  function ChosenColors(selected: seq<Option<Color>>): (user: seq<Color>)
    ensures forall c :: c in user <==> Some(c) in selected
    ensures |user| == 0 <==> forall k :: 0 <= k < |selected| ==> selected[k].None?
    ensures |user| == CountSome(selected)
    ensures forall k :: 0 <= k < |selected| && selected[k].Some? ==>
              CountSome(selected[..k]) < |user| && user[CountSome(selected[..k])] == selected[k].value
  {
    if |selected| == 0 then []
    else
      var n := |selected| - 1;
      var front := selected[..n];
      var chosen := ChosenColors(front);
      var user := chosen + (if selected[n].Some? then [selected[n].value] else []);
      assert selected == front + [selected[n]];
      assert CountSome(selected) == CountSome(front) + (if selected[n].Some? then 1 else 0);
      forall k | 0 <= k < |selected| && selected[k].Some?
        ensures CountSome(selected[..k]) < |user| && user[CountSome(selected[..k])] == selected[k].value
      {
        if k < n {
          assert front[..k] == selected[..k];
        } else {
          assert selected[..k] == front;
        }
      }
      user
  }

  /** The colour the pixel loop writes for pixel `p`: its first nearest dominant colour, mapped if it has an entry. */
  function LegacyPixel(dominant: seq<Color>, mapping: map<Color, Color>, p: Color): (c: Color)
    requires |dominant| > 0
    ensures exists k: nat :: Application.IsFirstNearest(Tuples(dominant), Tuple(p), k) &&
              c == (if dominant[k] in mapping then mapping[dominant[k]] else dominant[k])
    ensures c in dominant || c in mapping.Values
  {
    Application.MapOrKeep(mapping, dominant[Application.FirstNearest(Tuples(dominant), Tuple(p))])
  }

  /**
   `process_print_image` on an image already loaded and downscaled: refused
   without an image, without a chosen filament colour or without analysed
   colours; otherwise every pixel becomes `LegacyPixel` of it and the shape is
   kept.
   */
  function ProcessPrintImage(image: Option<Image>, selected: seq<Option<Color>>, dominant: seq<Color>): (r: PrintOutcome)
    ensures r == NoImage <==> image.None?
    ensures r == NoColors <==> image.Some? && forall k :: 0 <= k < |selected| ==> selected[k].None?
    ensures r == NoAnalysis <==>
              image.Some? && (exists k :: 0 <= k < |selected| && selected[k].Some?) && |dominant| == 0
    ensures r.Processed? ==>
              && image.Some? && |dominant| > 0
              && Dimensions(r.image) == Dimensions(image.value)
              && var mapping := GetColorMapping(dominant, ChosenColors(selected));
                 forall i, j :: 0 <= i < Height(image.value) && 0 <= j < image.value.width ==>
                   r.image.rows[i][j] == LegacyPixel(dominant, mapping, image.value.rows[i][j])
  {
    if image.None? then NoImage
    else
      var user := ChosenColors(selected);
      if |user| == 0 then NoColors
      else if |dominant| == 0 then NoAnalysis
      else
        Processed(ReduceForPrint(image.value, dominant, GetColorMapping(dominant, user)))
  }

  /** The pixel loop of `process_print_image`, reshaped to the image's shape. */
  function ReduceForPrint(img: Image, dominant: seq<Color>, mapping: map<Color, Color>): (out: Image)
    requires |dominant| > 0
    ensures Dimensions(out) == Dimensions(img)
    ensures forall i, j :: 0 <= i < Height(img) && 0 <= j < img.width ==>
              out.rows[i][j] == LegacyPixel(dominant, mapping, img.rows[i][j])
  {
    var pixels := Flatten(img.rows);
    var reduced := seq(|pixels|, i requires 0 <= i < |pixels| => LegacyPixel(dominant, mapping, pixels[i]));
    FlattenIndex(img.rows, img.width);
    RawImage(img.width, Reshape(reduced, Height(img), img.width))
  }

  /**
   With more distinct dominant colours than filament colours, a pixel of the
   last dominant colour in luminosity order comes out unchanged: it is not
   mapped to a filament colour, where the service would map it to the last
   filament colour in luminosity order.
   */
  lemma SurplusDominantPassesThrough(dominant: seq<Color>, user: seq<Color>)
    requires Distinct(dominant) && |dominant| > |user|
    ensures var last := StableSort.SortBy(dominant, LegacyKey)[|dominant| - 1];
            LegacyPixel(dominant, GetColorMapping(dominant, user), last) == last
  {
    var ds := StableSort.SortBy(dominant, LegacyKey);
    var i := |dominant| - 1;
    var mapping := GetColorMapping(dominant, user);
    LegacyMappingOmits(dominant, user, i);
    assert ds[i] !in mapping;
    assert ds[i] in multiset(dominant);
    UnmappedDominantPassesThrough(dominant, mapping, ds[i]);
  }

  /** A dominant colour without a mapping entry is its own nearest dominant colour, so it is kept. */
  lemma UnmappedDominantPassesThrough(dominant: seq<Color>, mapping: map<Color, Color>, c: Color)
    requires c in dominant && c !in mapping
    ensures LegacyPixel(dominant, mapping, c) == c
  {
    var k :| 0 <= k < |dominant| && dominant[k] == c;
    Application.NearestOfPaletteColor(Tuples(dominant), k);
    TupleInjective(dominant[Application.FirstNearest(Tuples(dominant), Tuple(c))], c);
  }
}
