# Colour reduction for 3D-print previews — a Dafny model

This project models the colour-reduction core of a small image tool. The tool reduces a photo to a few colours, for example the filament colours a multi-colour 3D printer has loaded. It models the parts of that core that decide colours, sizes and errors:

- **Value types** (`domain.py`, module `Domain`). `RGBColor` validates each channel to 0..255 and derives its tuple, its `#rrggbb` hex string and its luminosity. `ColorPalette` is a non-empty colour sequence with a stable luminosity sort. `Image` is a rectangular pixel grid with its dimensions and pixel count; numpy's `reshape` appears as `Flatten` and `Reshape`.
- **Infrastructure** (`infrastructure.py`, module `Infrastructure`). This holds the downscale rule shared by `_prepare_image` and `create_thumbnail`, and the error-wrapping shell of `find_dominant_colors`.
- **The reduction service** (`application.py`, module `Application`). It has nearest-colour assignment (`np.argmin`, first index on ties), the map-or-keep step and the rank-based luminosity mapping. It also has the automatic, manual and analysis workflows, with their `ColorProcessingException` wrapping.
- **The legacy GUI path** (`color_reduction_gui.py`, module `LegacyGui`). This covers `calculate_luminosity`, the truncating `get_color_mapping`, and the guards and pixel loop of `process_print_image`.

Two generic modules support these. `StableSort` is Python's `sorted` with a key, proved a permutation, ordered and stable; it is also the only sequence with those properties. `Sequences` holds min/max, distinctness and the last position of a value. The last position matters because a Python dict keeps the last value written for a repeated key.

Modelling choices:

- **Integers only.** Luminosity is the integer key `2126 r + 7152 g + 722 b`. This is the float formula `0.2126 r/255 + 0.7152 g/255 + 0.0722 b/255` scaled by 2 550 000, so it orders colours the same way, up to float rounding. Distance is the squared Euclidean distance. The square root is monotone, so the argmin is unchanged.
- **Libraries as parameters.** Clustering (`KMeans`) is a `ClusterOracle` parameter. It returns the cluster centres, already truncated by `int`, or a failure. Resampling (`cv2.resize`) is a `Resampler` parameter. It returns an image or a failure. Lemmas that need the resampler to honour the requested size say so with `HonestResampler`.
- **Exceptions as results.** An exception is an `Err` of a `Result`. `ColorProcessing(stage, cause)` stands for `ColorProcessingException`. The stage records which message prefix was used ("Color analysis failed", "Auto reduction failed", "Manual reduction failed"), and the cause is the wrapped failure.
- **Downscaling.** The downscale rule truncates the shorter side and never clamps it to at least 1. A 1 × 2000 strip is sized to 0 × 800, as `ThinStripLosesItsHeight` shows. The resampler then decides what happens to that size.
- **Legacy colours.** The legacy GUI keeps colours as plain integer triples. The model uses the validated `Color`, because cluster centres of 8-bit pixels and colour-chooser results always lie in 0..255.

## Model

| member | source | states |
|---|---|---|
| Domain.MakeColor | domain.py:6-15 | construction succeeds exactly when all three channels lie in 0..255, keeps the channels, and otherwise fails with the invalid-colour error |
| Domain.Tuple | domain.py:17-19 | the tuple of a colour has every component in 0..255 |
| Domain.FromTuple | domain.py:30-32 | `from_tuple` succeeds exactly on in-range triples and then gives back a colour whose tuple is the input triple |
| Domain.FromTupleOfTuple | domain.py:17-32 | `from_tuple` of a colour's tuple is that colour |
| Domain.TupleInjective | domain.py:17-19 | two colours have the same tuple exactly when they are equal |
| Domain.Hex | domain.py:21-23 | the hex string is `#` followed by six lower-case hex digits and parses back to the colour |
| Domain.HexInjective | domain.py:21-23 | distinct colours have distinct hex strings, and equal colours have equal ones |
| Domain.Luminosity | domain.py:25-28 | luminosity lies between 0 and its maximum; it is 0 exactly for black and maximal exactly for white |
| Domain.LuminosityMonotone | domain.py:25-28 | raising any channel never lowers luminosity |
| Domain.BlackDarkestWhiteBrightest | domain.py:25-28 | black is the darkest colour and white the brightest |
| Domain.MakePalette | domain.py:34-41 | a palette is constructed exactly when the colour tuple is non-empty, keeps its colours, and otherwise fails with the empty-palette error |
| Domain.Len | domain.py:48-49 | every constructed palette has length at least 1 |
| Domain.SortedByLuminosity | domain.py:43-46 | the sorted palette has the same colours with the same multiplicities, in non-decreasing luminosity, with equal-luminosity colours in their original order |
| Domain.SortedByLuminosityIdempotent | domain.py:43-46 | sorting a sorted palette again changes nothing |
| Domain.SortedByLuminositySingleton | domain.py:43-46 | a one-colour palette sorts to itself |
| StableSort.SortByIsStableSort | domain.py:46 | the key sort is ordered by key and keeps every group of equal keys in input order, so it is a permutation |
| StableSort.StableSortIsUnique | domain.py:46 | any ordered, group-preserving rearrangement equals the key sort, so the stable sort is determined by its specification |
| StableSort.SortByIdempotent | domain.py:46 | sorting twice is sorting once |
| StableSort.SortByCongruent | color_reduction_gui.py:338-339 | two keys that agree on every element sort the sequence identically |
| Domain.Flatten | application.py:57 | a colour occurs in the row-major pixel list exactly when it occurs in some row |
| Domain.Reshape | application.py:75 | the reshaped grid has `height` rows of `width` pixels, and pixel (i, j) is entry i·width + j of the flat list |
| Domain.ReshapeFlatten | application.py:57-75 | reshaping the row-major pixel list back to height × width restores the pixel grid |
| Domain.FlattenIndex | application.py:57 | the row-major list has height × width pixels, and pixel (i, j) is at position i·width + j |
| Domain.TotalPixels | domain.py:57-63 | the pixel count is the number of pixels in the row-major pixel list |
| Infrastructure.TargetDims | infrastructure.py:64-76 | an image that fits the bound keeps its size; otherwise the longer side becomes the bound and the shorter side is the floor of side × bound / longer side |
| Infrastructure.FloorDiv | infrastructure.py:73 | the truncated quotient q satisfies q·d ≤ n < (q+1)·d |
| Infrastructure.TargetDimsFit | infrastructure.py:66-76 | after resizing, both sides are at most the bound and the larger side equals it |
| Infrastructure.TargetDimsShrink | infrastructure.py:71-76 | no side ever grows, and a landscape image stays no taller than it is wide |
| Infrastructure.ThinStripLosesItsHeight | infrastructure.py:71-73 | the shorter side is not clamped: 1 × 2000 at bound 800 becomes 0 × 800 |
| Infrastructure.PrepareImage | infrastructure.py:64-84 | an image that fits is returned unchanged; an oversized one is handed to the resampler at the target width and height and the resampler's answer, image or failure, is returned; with an honest resampler that answer has exactly the target dimensions |
| Infrastructure.PrepareImageFits | infrastructure.py:64-84 | a prepared image fits the bound, so preparing it again returns it unchanged |
| Infrastructure.CreateThumbnail | infrastructure.py:86-100 | pixels that fit are copied unchanged; oversized pixels are handed to the resampler at the target width and height and its answer is returned, with exactly the target dimensions when the resampler is honest |
| Infrastructure.ThumbnailIsPreparedImage | infrastructure.py:86-98 | the thumbnail and the prepared image are the same for the same bound |
| Infrastructure.ColorsFromTuples | infrastructure.py:54-57 | the centres become colours exactly when every centre is in range, with tuples equal to the centres; otherwise the invalid-colour error |
| Infrastructure.FindDominantColors | infrastructure.py:44-62 | every failure is a colour-analysis `ColorProcessingException`, and a resize failure is its cause; it succeeds whenever the resize succeeds and the clustering gives a non-empty list of in-range centres; a success is the clustering answer on the image prepared for 800, centre for centre |
| Infrastructure.ClusterFailureIsWrapped | infrastructure.py:51-62 | a clustering failure is reported as the cause of the analysis failure |
| Infrastructure.BadCentersAreWrapped | infrastructure.py:54-62 | no centres give an analysis failure caused by the empty-palette error; a centre out of range gives one caused by the invalid-colour error |
| Application.SqDist | application.py:63 | the distance is zero exactly between equal triples |
| Application.FirstNearest | application.py:63-64 | the chosen index has minimum distance, and every earlier index is strictly farther (first occurrence, as in `np.argmin`) |
| Application.FirstNearestUnique | application.py:64 | only one index is a first minimum, so the tie-break determines the choice |
| Application.NearestOfPaletteColor | application.py:63-64 | a pixel equal to a palette colour is assigned that colour |
| Application.MapOrKeep | application.py:68-73 | a colour with a mapping entry becomes its entry, a colour without one is kept, and the empty mapping keeps every colour |
| Application.NearestColor | application.py:60-69 | the chosen colour is in the palette and sits at a first-minimum index |
| Application.ApplyColorMapping | application.py:54-75 | a resize failure is passed on, and otherwise the call succeeds; the output has the prepared image's shape, and each pixel is its nearest palette colour, replaced by the mapped colour when the mapping has an entry and kept otherwise |
| Application.ApplyPalette | application.py:50-52 | with the empty mapping, every output pixel is a palette colour |
| Application.ReducePixelOfPaletteColor | application.py:63-73 | with the empty mapping, a pixel that is already a palette colour is kept |
| Application.ApplyPaletteFixesPaletteImages | application.py:50-75 | an image within the bound whose pixels are all palette colours is reproduced exactly |
| Application.ApplyPaletteIdempotent | application.py:50-75 | applying a palette to its own result changes nothing |
| Application.RankMapping | application.py:42-46 | keys are exactly the sorted source colours; a colour's value is the target at min(last rank, len(target) − 1) |
| Application.LuminosityMapping | application.py:37-48 | the mapping has an entry for every source colour and no other, and every value is a target colour |
| Application.RankMappingValues | application.py:43-46 | every value of the rank loop is a target colour |
| Application.LuminosityMappingRanks | application.py:39-46 | for distinct source colours, sorted rank i maps to target rank min(i, len(target) − 1) |
| Application.LuminosityMappingSaturates | application.py:44-46 | every source rank at or beyond len(target) − 1 maps to the last target colour in luminosity order |
| Application.LuminosityMappingMonotone | application.py:39-46 | a strictly brighter source colour never maps to a darker target colour |
| Application.LuminosityMappingOnto | application.py:39-46 | with equal lengths and distinct source colours, every target colour is the image of some source colour |
| Application.LuminosityMappingInjective | application.py:39-46 | with distinct source colours, distinct target colours and no more source than target colours, two source colours with the same image are the same colour |
| Application.AutoReduce | application.py:12-18 | every failure is an auto-reduction failure whose cause is the discovery or resize failure; when both succeed the result succeeds, has the shape of the image prepared for 1200, and gives each pixel its nearest discovered colour |
| Application.ManualReduce | application.py:20-31 | discovery is asked for exactly len(filament) colours; every failure is a manual-reduction failure whose cause is the discovery or resize failure; when both succeed the result succeeds, has the prepared shape, and gives each pixel the luminosity-mapped filament colour of its nearest discovered colour |
| Application.LuminosityMappedPixels | application.py:26-29 | with the luminosity mapping, the nearest colour of every prepared pixel has an entry, and the output pixel is that entry |
| Application.AnalyzeImageColors | application.py:33-35 | a failure is exactly the discovery's analysis failure, not wrapped again, and a success is the discovered palette |
| LegacyGui.CalculateLuminosity | color_reduction_gui.py:327-329 | on any in-range triple, the GUI's luminosity is the domain luminosity of that colour and lies between 0 and its maximum |
| LegacyGui.CalculateLuminosityAgrees | color_reduction_gui.py:327-329 | the GUI's luminosity equals the domain luminosity on every colour |
| LegacyGui.LegacySortIsLuminositySort | color_reduction_gui.py:335-339 | the GUI's sort orders colours exactly as `sorted_by_luminosity` |
| LegacyGui.TruncatedRankMapping | color_reduction_gui.py:341-344 | keys are exactly the first min(len(dominant), len(user)) sorted dominant colours, each valued by the user colour of its last rank; the map has at most that many entries |
| LegacyGui.RankPairs | color_reduction_gui.py:341-344 | writing rank i of the dominant list to rank i of the user list gives an entry for exactly the listed dominant colours, each valued by the user colour at its last rank |
| LegacyGui.RankPairsSize | color_reduction_gui.py:341-344 | the rank writes leave at most one entry per written rank |
| LegacyGui.GetColorMapping | color_reduction_gui.py:331-346 | no dominant colours give the empty map; keys are dominant colours, values are user colours, and there are at most min(len(dominant), len(user)) entries |
| LegacyGui.GetColorMappingRanks | color_reduction_gui.py:335-344 | for distinct dominant colours, rank i maps to user rank i when i < len(user), and ranks from len(user) on have no entry |
| LegacyGui.LegacyMappingWithinService | color_reduction_gui.py:331-346 | for distinct dominant colours, wherever the GUI mapping has an entry, the service's luminosity mapping has the same entry (with a repeated dominant colour the two can differ, because the GUI's truncated loop can stop before the repeat's last rank) |
| LegacyGui.LegacyMappingEqualsService | color_reduction_gui.py:341-344 | when the dominant colours are pairwise distinct and there are at most len(user) of them, the two mappings are equal |
| LegacyGui.LegacyMappingMissesBrightest | color_reduction_gui.py:342-344 | when the dominant colours are pairwise distinct and there are more than len(user) of them, the last dominant colour in luminosity order has a service entry but no GUI entry |
| LegacyGui.LegacyMappingOmits | color_reduction_gui.py:342-344 | for distinct dominant colours, a sorted rank with no user colour of the same rank gets no entry |
| LegacyGui.LegacyRankAgrees | color_reduction_gui.py:341-344 | when the dominant colours are pairwise distinct, wherever the dominant colour of a sorted rank has a legacy entry, the service mapping has the same entry |
| LegacyGui.LegacyMappingVersusService | color_reduction_gui.py:331-346 | for distinct dominant colours, the GUI mapping equals the service mapping exactly when len(dominant) ≤ len(user) |
| LegacyGui.LegacyMappingCoversDominant | color_reduction_gui.py:342-344 | when the dominant colours are pairwise distinct and there are at most len(user) of them, every dominant colour has an entry |
| LegacyGui.ChosenColors | color_reduction_gui.py:409 | the chosen list has one entry per set slot, in slot order (set slot k sits after the set slots before it), so its colours are exactly the set slots and it is empty exactly when none is set |
| LegacyGui.LegacyPixel | color_reduction_gui.py:436-450 | a pixel becomes the dominant colour at a first minimum-distance index, as `np.argmin` picks it, replaced by the mapped user colour when that colour has an entry; the result is a dominant colour or a mapping value |
| LegacyGui.ReduceForPrint | color_reduction_gui.py:433-452 | the output has the image's shape, and every pixel is the legacy pixel rule applied to the input pixel |
| LegacyGui.ProcessPrintImage | color_reduction_gui.py:404-452 | processing is refused exactly when there is no image, then exactly when no colour is chosen, then exactly when nothing was analysed; otherwise the output has the image's shape with every pixel reduced |
| LegacyGui.SurplusDominantPassesThrough | color_reduction_gui.py:445-450 | when the dominant colours are pairwise distinct and there are more than len(user) of them, a pixel of the last dominant colour in luminosity order comes out unchanged |

## Left out

- K-means clustering (`KMeans` with seed 42 and 10 restarts) is a foreign library with float centroids. It is the `ClusterOracle` parameter. The model does not assume that the oracle returns `color_count` centres.
- `cv2.resize` pixel resampling, `cv2.imread`/`imwrite`/`cvtColor` and all PIL calls are image I/O and resampling. Resampling is the `Resampler` parameter, and only the requested size is modelled. `ImageRepository.load`/`save` and `Image.file_path` are left out.
- Infrastructure.TargetDims: the shorter side is computed as the exact floor of side × bound / longer side. The source computes `int(side * (bound / longer))` in floating point, which can differ by one in rare cases. The model does not reproduce that rounding.
- Domain.Luminosity: it is an exact integer key, not the source's float. Colours with different keys differ by at least 1/2 550 000 in exact luminosity, far more than the rounding error, so they sort the same way. Colours with the same key sort differently in one case. An example pair is (246, 0, 78) and (0, 81, 0), both with key 579 312. If their float luminosities differ in the last bit, the source's `sorted` orders them by that rounding. The model keeps them in input order.
- Application.SqDist: the nearest colour is chosen by exact squared distance rather than the float `np.linalg.norm`. The argmin is the same, because distinct integers up to 3 · 255² have distinct double square roots.
- The pixel-count downscale with `** 0.5` in the GUI (color_reduction_gui.py:292-296, 382-386, 427-431) is floating-point square-root arithmetic. `ProcessPrintImage` takes the image after that step.
- The GUI's `analyze_image_colors` (color_reduction_gui.py:278-309) and `process_auto_image` (color_reduction_gui.py:368-402) call K-means directly. The first keeps the integer cluster centres as the dominant colours, which is the `dominant` argument of `ProcessPrintImage`. The second paints each pixel with its cluster's centre using K-means' labels. Beyond the clustering oracle, neither contains logic of its own.
- The GUI's `image_path` check is modelled as the presence of an `Option<Image>`. The GUI's status bar, message boxes and widgets, and everything in `interface.py` and `main.py`, are user interface.
- Exception message text is kept only as the stage of `ColorProcessing` and its cause. The formatted strings are not modelled.
