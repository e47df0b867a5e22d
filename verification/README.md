# MSTP-Generator core in Dafny

This project models the computational core of MSTP-Generator, a generator of multi-scale Turing patterns. An image is a field of samples. One step of the generator does four things:

- It blurs the field once per scale at the scale's activator radius and once at its inhibitor radius.
- At every pixel it keeps the scale whose activator minus inhibitor is smallest in magnitude.
- It nudges the pixel up or down by that scale's increment.
- It rescales the field onto [0, 1], or onto [-1, 1] in the C engine.

Around that step sit the symmetry averaging, the colormaps that turn samples into colours, and the CGI string helpers of the GIF front end.

Samples are `real` and every operation is a pure function or a method over sequences, so results are exact. The modules follow the source files.

| module | file | models |
|---|---|---|
| `Window` | window.dfy | the clipped sliding window shared by every blur pass: `WindowSum`, `WindowMean`, `Span`, and the int32 conversion of the left-edge tests |
| `Grid` | grid.dfy | images as sequences of lines; the two blur passes (`InnerPass`, `OuterPass`) and their composition, the clipped-rectangle `BoxBlur` |
| `Flat` | flat.dfy | row-major buffers (`x + y*W`) and their rows; `Blurred`, the box blur of a buffer |
| `BlurLine` | blur_line.dfy | the weighted moving average of one line as src/blur.cpp and src/blur.c compute it, with the closed-form span |
| `PatternGenerator` | pattern_generator.dfy | `PatternGenerator::blur*`, `generate` and `normalize` of src/pattern_generator.cpp |
| `BlurCpp`, `BlurC` | blur_cpp.dfy, blur_c.dfy | `blur`, `blur_x`, `blur_y` of src/blur.cpp (flat buffer) and src/blur.c (`s[x][y]` arrays) |
| `Extrema` | extrema.dfy | `max_array` / `min_array` with their FLT_MIN / FLT_MAX seeds (src/utils.c and the copy in src/muscatupa.cpp) |
| `Normalization` | normalization.dfy | the min/max rescaling onto [0, 1] and [-1, 1]; a zero range is the outcome `AllNaN` |
| `Competition` | competition.dfy | the per-pixel running arg-min over scales with its strict `<` tie-break, and the ± nudge |
| `MuscatupaCpp`, `MuscatupaC`, `BlindQuarter` | muscatupa_cpp.dfy, muscatupa_c.dfy, blind_quarter.dfy | the three engines `muscatupa_step`, `step` (with `compute_var`, `find_best_scale`, `update`, `normalize`, `convert_image`) and `blind_quarter_step` |
| `SymmetryTable` | symmetry_table.dfy | `symmetry_init`, the order-2/3/4 tables and `symmetry_apply` of src/symmetry.cpp |
| `SymmetryList` | symmetry_list.dfy | `build_sym_list` for orders 0 and 1, `add_sym`, `add_xy` and `symmetrize` of src/symmetry.c; the linked lists are kept as node stores indexed by pointer |
| `FloatCast` | float_cast.dfy | float-to-integer casts as truncation of reals, and their integer counterparts |
| `ColormapArgb` | colormap_argb.dfy | `colormap_init`, `build_colormap`, `build_argb_gradient`, `compute_gradient` and `colormap_ARGB8888` of src/colormap.cpp |
| `ColormapRgb` | colormap_rgb.dfy | `colormap_build`, `gradient2` and `gradient3` of src/colormap.c |
| `Cgi` | cgi.dfy | `unescape`, `x2c` and the `isempty`, `strninit`, `strsqueeze`, `trimwhite` macros of src/gifsave/gifgraph.c |

Every in-place loop of the source is a method over sequences. Its loop invariants tie the running state to a reference definition:

- the running `sum` and `span` to `WindowSum` and `Span`;
- the running best scale to `RunningBest`;
- the colormap writes to a log of written indices;
- the two string cursors of `unescape` to the recursive decoder `Decode`.

Three facts about the code shape the contracts:

- **Radius and image size.** The seed window `0 .. r` of each pass is summed without a bound check (src/blur.cpp:60-64, src/blur.c:60-64, src/pattern_generator.cpp:92-95). So the blur methods require `r < W` when there are rows and `r < H` when there are columns.
- **Blur gain.** Both passes multiply by `wt` (src/blur.cpp:64, 82, 101 and 110; src/blur.c:64, 82, 104 and 113). So `BlurCpp.Blur` and `BlurC.Blur` state a gain of `wt*wt`.
- **Flat field.** Every `normalize` divides by `max - min` (src/muscatupa.c:173-179, src/muscatupa.cpp:113-117, src/blind_quarter.cpp:104-108, src/pattern_generator.cpp:34). For a flat field that is a division by zero. The model reports it as `Rescaled.AllNaN` and does not exclude the case.

## Model

| member | source | states |
|---|---|---|
| Window.WindowSumStep | src/pattern_generator.cpp:99-111 | moving the window one column right adds the entering sample only when x + r is inside the line and subtracts the leaving sample only when x - r - 1 >= 0 |
| Window.SpanStep | src/pattern_generator.cpp:100-110 | the span changes by +1 when only the left edge is clipped, by -1 when only the right edge is clipped, and not at all otherwise |
| Window.SpanPositive | src/pattern_generator.cpp:88-112 | every clipped window around an in-line column holds at least one sample, so no division is by zero |
| Window.WindowMeanRadiusZero | src/pattern_generator.cpp:75-81 | with radius 0 the window mean is the sample itself |
| Window.WindowMeanConst | src/pattern_generator.cpp:75-81 | over a constant line every window mean is that constant |
| Window.WindowMeanScale | src/blur.cpp:64-82 | multiplying every sample by the weight multiplies the window sum and the window mean by it |
| Window.ToInt32Exact | src/pattern_generator.cpp:106 | a value in the int32 range is unchanged by the signed conversion of the left-edge test |
| Grid.Separable | src/blur.cpp:40-49 | a pass along the inner index with gain a followed by a pass along the outer index with gain b is the clipped-rectangle box mean with gain a*b |
| Grid.BoxMeanRadiusZero | src/pattern_generator.cpp:75-81 | the box mean of radius 0 is the sample itself |
| Grid.BoxMeanConst | src/pattern_generator.cpp:75-81 | over a constant image every box mean is that constant |
| Grid.BoxBlurRadiusZero | src/pattern_generator.cpp:75-81 | the box blur of radius 0 with gain 1 returns the image unchanged |
| Grid.BoxBlurConst | src/blur.c:64-113 | the box blur of a constant image c with gain g is the constant g*c |
| Grid.TransposeInvolution | src/blur.c:40-46 | transposing twice gives the image back, so the column layout `s[x][y]` and the row layout describe the same image |
| Grid.TransposeOuterPass | src/blur.c:88-116 | a pass along the columns' index is, transposed, a pass along the rows |
| Grid.TransposeInnerPass | src/blur.c:48-86 | a pass along the rows' index is, transposed, a pass along the columns |
| Flat.FlattenRows | src/pattern_generator.cpp:86-148 | cutting a W*H buffer into rows and concatenating them gives the buffer back |
| Flat.RowsFlatten | src/pattern_generator.cpp:86-148 | concatenating H rows of W samples and cutting the result into rows gives the rows back |
| Flat.RowsAt | src/pattern_generator.cpp:93 | sample (x, y) of the row view is the buffer element at x + y*W, which lies inside the buffer |
| Flat.IndexUnique | src/blur.cpp:62-110 | two in-image positions share the buffer index x + y*w only when they are the same position |
| Flat.BlurredAt | src/blur.cpp:82 | element x + y*W of the blurred buffer is the gain times the box mean of the clipped rectangle around (x, y) |
| Flat.BlurredRadiusZero | src/pattern_generator.cpp:75-81 | a blur of radius 0 with gain 1 returns the buffer unchanged |
| Flat.BlurredConst | src/blur.cpp:64-110 | a blur of a constant buffer c with gain g is the constant g*c |
| BlurLine.ClosedSpanIsSpan | src/blur.cpp:79-81 | below 2^31 samples the closed-form span with its int32 test equals the clipped window size and is at least 1 |
| BlurLine.LeftTestExact | src/blur.cpp:71-78 | below 2^31 samples the test `(int32_t)(x - r - 1) >= 0` holds exactly when x >= r + 1 |
| BlurLine.LeftTestWraps | src/blur.cpp:71-74 | a witness: at x = 1 with radius 2^31 + 1 the int32 test reads the negative x - r - 1 as non-negative, the hazard the comment warns about |
| BlurLine.Slide | src/blur.cpp:75-83 | one step of the running sum turns the window sum at x - 1 into the window sum at x and stores wt times the window mean at x |
| BlurLine.WeightedMovingAverage | src/blur.cpp:54-85 | the seed window 0 .. r plus one slide per column produce wt times the clipped window mean at every position |
| PatternGenerator.MovingAverage | src/pattern_generator.cpp:86-113 | the running sum and the running span of one line give the clipped window mean at every column |
| PatternGenerator.BlurHorizontal | src/pattern_generator.cpp:83-115 | every row of the destination is the clipped moving average of the source row |
| PatternGenerator.BlurVertical | src/pattern_generator.cpp:117-149 | every column of the destination is the clipped moving average of the source column |
| PatternGenerator.Blur | src/pattern_generator.cpp:75-81 | the horizontal pass into a temporary followed by the vertical pass yields the mean over the clipped rectangle |
| PatternGenerator.VariationsAt | src/pattern_generator.cpp:47-60 | a scale's variation at a pixel is its activator blur minus its inhibitor blur there |
| PatternGenerator.CompareScale | src/pattern_generator.cpp:56-65 | after scale t every pixel holds the variation and the signed increment of the earliest scale among 0 .. t whose variation is smallest in magnitude |
| PatternGenerator.SettledIsStepped | src/pattern_generator.cpp:68-69 | once every scale has been compared, adding the stored increments moves every pixel by the winning scale's increment |
| PatternGenerator.Generate | src/pattern_generator.cpp:39-73 | with no scale the pattern is returned as it is and not normalised; otherwise it is moved by the winners' increments and normalised onto [0, 1] |
| BlurCpp.BlurX | src/blur.cpp:51-86 | every row of d is wt times the clipped moving average of the row of s |
| BlurCpp.BlurY | src/blur.cpp:88-113 | every column of d is wt times the clipped moving average of the column of s |
| BlurCpp.Blur | src/blur.cpp:40-49 | the two passes through a temporary give the clipped box mean scaled by wt squared, since both passes multiply by wt |
| BlurC.BlurX | src/blur.c:48-86 | `d[x][y]` is wt times the mean of `s[k][y]` over the clipped window of x |
| BlurC.BlurY | src/blur.c:88-116 | `d[x][y]` is wt times the mean of `s[x][k]` over the clipped window of y |
| BlurC.Blur | src/blur.c:40-46 | the two passes through a temporary give, in the column layout, the clipped box mean scaled by wt squared |
| BlurC.BlurConst | src/blur.c:64-113 | a constant input c comes out as wt squared times c |
| Extrema.MaxFrom | src/utils.c:15-24 | the seeded maximum is at least the seed and every element, and is the seed or one of the elements |
| Extrema.MinFrom | src/utils.c:34-43 | the seeded minimum is at most the seed and every element, and is the seed or one of the elements |
| Extrema.SeededMaxUnique | src/utils.c:17-24 | a seeded maximum scan has exactly one possible value and index to report |
| Extrema.SeededMaxValue | src/utils.c:10-27 | the value a seeded maximum scan reports is the larger of FLT_MIN and every element |
| Extrema.SeededMinUnique | src/utils.c:36-43 | a seeded minimum scan has exactly one possible value and index to report |
| Extrema.SeededMinValue | src/utils.c:29-46 | the value a seeded minimum scan reports is the smaller of FLT_MAX and every element |
| Extrema.MaxArray | src/utils.c:10-27 | `max_array` returns the larger of FLT_MIN and every element, with the first index holding it when it exceeds FLT_MIN and 0 otherwise; index 0 and FLT_MIN for an empty array; the copy in src/muscatupa.cpp:121-138 is the same code |
| Extrema.MinArray | src/utils.c:29-46 | `min_array` returns the smaller of FLT_MAX and every element, with the first index holding it when it is below FLT_MAX and 0 otherwise; index 0 and FLT_MAX for an empty array; the copy in src/muscatupa.cpp:140-157 is the same code |
| Extrema.MaxArrayNonPositive | src/utils.c:15-24 | an array with no element above zero reports FLT_MIN at index 0 |
| Extrema.MaxFromSeqMax | src/utils.c:15 | once some element reaches FLT_MIN the seeded maximum is the true maximum |
| Extrema.MinFromSeqMin | src/utils.c:34 | once some element is at most FLT_MAX the seeded minimum is the true minimum |
| Extrema.MaxMinScan | src/blind_quarter.cpp:90-103 | the single scan updating both running extrema ends with the same values as the two seeded scans |
| Normalization.Rescale | src/pattern_generator.cpp:34-36 | the result is all NaN exactly when the range is zero over a non-empty image; otherwise each sample is recovered as lo + value*(hi - lo) |
| Normalization.RescaleSymmetric | src/muscatupa.c:173-179 | the result is all NaN exactly when the range is zero over a non-empty image; otherwise 2(e - lo) == (value + 1)*(hi - lo) for every sample |
| Normalization.RescaleUnit | src/pattern_generator.cpp:30-37 | inside [lo, hi] with lo < hi every value lies in [0, 1], exactly the samples equal to lo map to 0 and those equal to hi to 1, and the order of every pair is kept |
| Normalization.UnitNormalizeSpec | src/pattern_generator.cpp:30-37 | with max > min the minimum maps to 0, the maximum to 1, all values lie in [0, 1] and order is kept; with max == min every sample becomes 0/0 |
| Normalization.UnitNormalizeIdempotent | src/pattern_generator.cpp:30-37 | normalising an already normalised pattern changes nothing |
| Normalization.SeededNormalizeSpec | src/muscatupa.cpp:106-119 | with the seeded extrema and a non-zero range every sample lands in [0, 1], the minimum maps to 0, order is kept, and the maximum maps to 1 once it is at least FLT_MIN |
| Normalization.SeededSymmetricNormalizeSpec | src/muscatupa.c:166-182 | with the seeded extrema and a non-zero range every sample lands in [-1, 1], the minimum maps to -1 and the maximum to 1 once it is at least FLT_MIN |
| Competition.EarliestArgMinUnique | src/muscatupa.cpp:81 | the earliest position of a smallest magnitude is unique, so the strict comparison fixes the tie-break |
| Competition.RunningBest | src/muscatupa.c:136-144 | the scan that seeds position 0 and replaces only on a strictly smaller value ends on the earliest position of a smallest value |
| Competition.WinnerSmallest | src/muscatupa.cpp:66-87 | the winning scale's magnitude is at most every scale's and strictly below every earlier scale's |
| Competition.WinnerStep | src/muscatupa.cpp:81-85 | admitting one more scale makes it the winner exactly when its magnitude is strictly smaller than the current winner's |
| Competition.CompeteScale | src/muscatupa.cpp:73-86 | after scale t every pixel holds the index and the variation of the earliest scale among 0 .. t whose variation is smallest in magnitude |
| Competition.FindBestScale | src/muscatupa.c:136-145 | pattern 0 seeds the winner, later ones replace it only when strictly smaller, and the result is the earliest index of a smallest magnitude |
| MuscatupaCpp.VariationsAt | src/muscatupa.cpp:69-80 | a pattern's variation is its activator blur minus its inhibitor blur, both made with that pattern's own weight |
| MuscatupaCpp.Update | src/muscatupa.cpp:91-101 | every pixel moves by the small amount of its winning pattern, up when the winning variation is positive and down otherwise, zero included |
| MuscatupaCpp.Normalize | src/muscatupa.cpp:106-119 | every sample becomes (e - min)/(max - min) with the seeded extrema of `max_array` and `min_array`, or 0/0 everywhere when they are equal |
| MuscatupaCpp.BlurPattern | src/muscatupa.cpp:69-70 | the activator and inhibitor arrays are the box blurs at the pattern's two radii, both with the pattern's weight applied in both passes |
| MuscatupaCpp.CompetePattern | src/muscatupa.cpp:66-87 | one pattern's blurs and pixel loop extend the running winner from patterns 0 .. i-1 to 0 .. i |
| MuscatupaCpp.Compete | src/muscatupa.cpp:58-87 | after all patterns every pixel holds the earliest pattern whose variation is smallest in magnitude, and that variation |
| MuscatupaCpp.Step | src/muscatupa.cpp:55-104 | one step moves every pixel by its winning pattern's small amount and normalises the result with the seeded extrema |
| MuscatupaCpp.MovedSpec | src/muscatupa.cpp:91-101 | each moved pixel is the old pixel plus or minus the small amount of a pattern of smallest magnitude that is strictly smaller than every earlier pattern's |
| MuscatupaCpp.StepRange | src/muscatupa.cpp:103-119 | after a step over a non-empty image the result is all NaN exactly when the moved image's seeded extrema coincide; otherwise every sample lies in [0, 1], and the moved minimum maps to 0 once it is at most FLT_MAX |
| MuscatupaC.ColumnsAt | src/muscatupa.c:171-172 | sample (x, y) of `float im[w][h]` is element y + x*h of the buffer handed to `max_array` and `min_array` |
| MuscatupaC.ColumnBlurredAt | src/blur.c:40-46 | sample (x, y) of the blurred column-major buffer is wt squared times the box mean around (x, y) |
| MuscatupaC.BlurImage | src/muscatupa.c:95-99 | each blur of the image is the column-layout box blur with the pattern's weight applied in both passes |
| MuscatupaC.BlurAll | src/muscatupa.c:94-99 | the activator and inhibitor arrays of every pattern are the box blurs at its two radii |
| MuscatupaC.ComputeVar | src/muscatupa.c:107-123 | `var[i][x][y]` is the absolute difference of activator and inhibitor for every pattern and pixel |
| MuscatupaC.FindBestScales | src/muscatupa.c:125-148 | at every pixel the chosen pattern is the earliest of smallest variation and lies below n |
| MuscatupaC.Update | src/muscatupa.c:150-164 | each pixel gains the winning pattern's small amount when its activator exceeds its inhibitor and loses it otherwise, ties included |
| MuscatupaC.StagesMove | src/muscatupa.c:101-103 | `compute_var`, `find_best_scale` and `update` together move every pixel by its winning pattern's small amount |
| MuscatupaC.Normalize | src/muscatupa.c:166-182 | every sample becomes 2(e - min)/(max - min) - 1 with the seeded extrema, or 0/0 everywhere when they are equal |
| MuscatupaC.Step | src/muscatupa.c:86-105 | one step moves every pixel by its winning pattern's small amount and rescales the image onto [-1, 1]; this is the corrected `inh[n][w][h]` layout, which agrees with the source only for square images (see Findings) |
| MuscatupaC.GreyLevel | src/muscatupa.c:193 | the grey level of a sample in [-1, 1] is a byte |
| MuscatupaC.GreyLevelSpec | src/muscatupa.c:184-196 | the grey level is the quantisation step of [-1, 1] holding the sample; -1 gives 0, 1 gives 255, and the level never decreases as the sample grows |
| MuscatupaC.ConvertImage | src/muscatupa.c:184-196 | every byte of the converted image is the grey level of its sample |
| MuscatupaC.StepInRange | src/muscatupa.c:104 | after a step over a non-empty image the result is all NaN exactly when the moved image's seeded extrema coincide; otherwise every sample lies in [-1, 1], so `convert_image` may follow, and the moved minimum maps to -1 once it is at most FLT_MAX |
| MuscatupaC.InhibitorSlotsAgree | src/muscatupa.c:88-89 | as written, with two or more patterns the offsets that `blur` writes into `inh[n][w][w]` and the offsets `compute_var` reads agree exactly when w == h |
| MuscatupaC.InhibitorReadUnwritten | src/muscatupa.c:98-119 | a witness of the code as written: for a 2 x 1 image `compute_var` reads the inhibitor of pattern 1 at pixel (0, 0) from an offset that no blur wrote |
| MuscatupaC.InhibitorOverflow | src/muscatupa.c:89-98 | as written, when h > w the last blur writes past the end of the `inh` array |
| MuscatupaC.CorrectedLayout | src/muscatupa.c:88-90 | with slots of w*h floats every element is inside the array and offsets grow strictly in (pattern, column, row) order, so each read returns what `blur` wrote |
| BlindQuarter.Normalize | src/blind_quarter.cpp:88-110 | one scan seeded with FLT_MIN and FLT_MAX, then (e - min)/(max - min) for every sample, or 0/0 everywhere when they are equal |
| BlindQuarter.Step | src/blind_quarter.cpp:30-86 | with no pattern the image is returned as it is and not normalised; otherwise every pixel moves by the small amount of the earliest pattern of smallest variation and the image is normalised |
| SymmetryTable.Order2Spec | src/symmetry.cpp:105-118 | the order-2 table has w*h/2 rows of two distinct in-image indices, the rows are pairwise disjoint, and an index is in some row exactly when w*h is even or it is not the centre w*h/2 |
| SymmetryTable.FoldUnique | src/symmetry.cpp:136-139 | a coordinate below n/2 and its mirror n-1-v are inside [0, n) and never coincide |
| SymmetryTable.MirrorUnique | src/symmetry.cpp:131-142 | the four mirror indices of (x, y) with x < w/2 and y < h/2 are in the image, and two of them coincide only for the same position and the same mirror |
| SymmetryTable.Order4Origin | src/symmetry.cpp:131-142 | row k of the order-4 table holds the four mirrors of x = k / (h/2), y = k % (h/2), in the loops' x-major order |
| SymmetryTable.Order4Spec | src/symmetry.cpp:127-145 | the order-4 table has rows of four distinct in-image indices and its rows are pairwise disjoint |
| SymmetryTable.Order4Apart | src/symmetry.cpp:127-145 | two entries of the order-4 table are equal only when they are the same entry of the same row |
| SymmetryTable.TableFor | src/symmetry.cpp:84-99 | the table stored for each order from 2 to 4 is well formed: rows of `order` distinct in-image indices, pairwise disjoint |
| SymmetryTable.InitOrder2 | src/symmetry.cpp:105-118 | the loop builds the rows (i, w*h-1-i) for i < w*h/2 |
| SymmetryTable.InitOrder4 | src/symmetry.cpp:127-145 | the nested loops build the four-mirror rows in x-major order |
| SymmetryTable.Init | src/symmetry.cpp:82-103 | the tables for orders 2, 3 and 4, the order-3 one empty, are appended after those already stored; on the empty store they become the tables at positions 0 to 2 that `symmetry_apply` reads, and a later call leaves positions 0 to 2 as they were |
| SymmetryTable.InitAgainStale | src/symmetry.cpp:101 | after a second `symmetry_init` for an image with another number of pairs, positions 0 to 2 still hold the first image's tables and not the new one's |
| SymmetryTable.ApplyTableDisjoint | src/symmetry.cpp:154-167 | with disjoint rows every index of a row ends up holding that row's original sum divided by the order, and an index in no row keeps its value |
| SymmetryTable.ApplyTableKeepsSums | src/symmetry.cpp:154-167 | averaging preserves the sum of every row |
| SymmetryTable.ApplyTableIdempotent | src/symmetry.cpp:154-167 | averaging the rows of a well-formed table twice gives the same image as once |
| SymmetryTable.SumGroup | src/symmetry.cpp:156-160 | the loop's sum is the sum of the image over the row's indices |
| SymmetryTable.FillGroup | src/symmetry.cpp:162-166 | every index of the row holds the average afterwards and every other index is unchanged |
| SymmetryTable.Apply | src/symmetry.cpp:147-169 | an order outside [2, 4] leaves the image unchanged; otherwise every index of a row holds that row's mean, indices in no row are unchanged, and order 3 changes nothing |
| SymmetryTable.ApplyIdempotent | src/symmetry.cpp:147-169 | applying the same order twice gives the same image as applying it once |
| SymmetryList.LinkExtends | src/symmetry.c:160-175 | linking a new node after the tail makes the walk from the head the old walk plus the new value, with the new node as the last one |
| SymmetryList.LinkKeeps | src/symmetry.c:160-175 | linking after one list's tail leaves every list that does not end at that tail unchanged |
| SymmetryList.Append | src/symmetry.c:135-149 | the first call sets the head; every call appends the value at the tail, keeps insertion order, and leaves other lists of the same store unchanged |
| SymmetryList.SingletonsAt | src/symmetry.c:64-73 | group y + x*dim of the order-1 list is the single coordinate (x, y) |
| SymmetryList.AddPixel | src/symmetry.c:68-71 | a fresh coordinate list of one pixel is appended as the last group |
| SymmetryList.BuildSymList | src/symmetry.c:38-74 | order 0 leaves head and tail null; order 1 yields dim*dim singleton groups in x-major, y-minor order |
| SymmetryList.SumGroup | src/symmetry.c:303-311 | the first pass over a coordinate list yields the sum of the image over the group and the group's length |
| SymmetryList.FillGroup | src/symmetry.c:313-320 | the second pass writes the value at every coordinate of the group and nowhere else |
| SymmetryList.AverageGroup | src/symmetry.c:302-320 | one group's two passes replace its coordinates by the mean of the values current at that moment |
| SymmetryList.Symmetrize | src/symmetry.c:293-324 | the image becomes the groups averaged one after the other in list order, each from the values current when it is visited |
| SymmetryList.SymmetrizedStep | src/symmetry.c:300-323 | visiting one more group averages that group over the image the earlier groups left |
| SymmetryList.SymmetrizedOutside | src/symmetry.c:300-323 | a coordinate in no group keeps its value |
| SymmetryList.LastGroupAveraged | src/symmetry.c:300-323 | every coordinate of the last group holds the mean of that group over the image left by the earlier groups |
| SymmetryList.SymmetrizedSingletons | src/symmetry.c:300-323 | averaging any number of one-pixel groups leaves the image unchanged |
| SymmetryList.OrderOneIdentity | src/symmetry.c:62-73 | with the order-1 list every group lies in the image and symmetrising is the identity |
| FloatCast.FloorQuotient | src/colormap.c:68 | the floor of the real quotient n/d is the integer quotient, so a cast of a non-negative quotient is integer division |
| FloatCast.TruncStep | src/colormap.cpp:228-231 | truncating i times the real gradient delta/depth is the truncated integer quotient i*delta/depth |
| ColormapArgb.Unpack | src/colormap.cpp:207-214 | the alpha, red, green and blue bytes are the colour's bits 24-31, 16-23, 8-15 and 0-7 |
| ColormapArgb.PackUnpack | src/colormap.cpp:207-214 | packing the four extracted channels gives the colour back |
| ColormapArgb.Pack | src/colormap.cpp:232 | each channel of the packed colour lands in its own byte: extracting the channels gives the four bytes back |
| ColormapArgb.Gradient | src/colormap.cpp:236-240 | the per-step change of a channel times the depth is the whole change end - begin, and it is non-negative exactly when the channel does not fall |
| ColormapArgb.ChannelStep | src/colormap.cpp:228-231 | within a segment the truncated step i*gradient lies between 0 and end - begin, on the side of the channel's direction |
| ColormapArgb.Channel | src/colormap.cpp:228-231 | at i = 0 the channel is its begin value, and within a segment it stays between its begin and end values |
| ColormapArgb.RisingCastDefined | src/colormap.cpp:228-239 | for a channel that does not decrease, i*gradient within the segment is a valid `uint8_t` |
| ColormapArgb.FallingCastUndefined | src/colormap.cpp:228-239 | for a decreasing channel i*gradient truncates to at most 0 for every i >= 1, and the cast to `uint8_t` is out of range exactly when i*(begin - end) >= depth |
| ColormapArgb.EntryFirst | src/colormap.cpp:226-233 | the first entry of every gradient is its begin colour, because each channel adds 0 at i = 0 |
| ColormapArgb.EntryOpaque | src/colormap.cpp:228-232 | a gradient between two opaque colours stays opaque |
| ColormapArgb.BuildArgbGradient | src/colormap.cpp:203-234 | the gradient holds `gradient_depth` entries, its first entry is the begin colour, and each entry packs the four channels |
| ColormapArgb.SegmentsFit | src/colormap.cpp:186-197 | the n - 1 segments of 255/(n - 1) entries fit in the table and leave fewer than n - 1 entries for the tail |
| ColormapArgb.ColormapSegment | src/colormap.cpp:187-191 | entry k of segment i is entry k of the gradient between anchors i and i + 1 |
| ColormapArgb.SegmentStart | src/colormap.cpp:186-191 | the first entry of segment i is anchor i |
| ColormapArgb.ColormapTail | src/colormap.cpp:197-200 | every entry after the last segment is the last anchor colour |
| ColormapArgb.ColormapOpaque | src/colormap.cpp:182-200 | with opaque anchors every entry of the table is opaque |
| ColormapArgb.BuildColormap | src/colormap.cpp:182-201 | the segment loop and the tail loop write all 255 entries exactly once, in order, and leave the table the reference colormap |
| ColormapArgb.FillSegments | src/colormap.cpp:186-191 | the segment loop writes indices 0 .. (n - 1)*d - 1 once each, in order, with the segment gradients |
| ColormapArgb.FillTail | src/colormap.cpp:197-200 | the tail loop writes the remaining indices up to 255 with the last anchor |
| ColormapArgb.Splice | src/colormap.cpp:189-190 | a gradient written at i*d extends the written prefix of the table by one segment and leaves the rest as it was |
| ColormapArgb.Palette | src/colormap.cpp:128-177 | each known name selects its anchor list, an unknown name falls back to black and white, every list has 2 to 7 opaque anchors |
| ColormapArgb.ColormapInit | src/colormap.cpp:128-180 | the table is the colormap of the selected palette, the black and white one for an unknown name, and every entry is opaque |
| ColormapArgb.LookupIndex | src/colormap.cpp:247 | the index trunc(s*255) is below the table size exactly when s < 1 |
| ColormapArgb.LookupOverrun | src/colormap.cpp:93 | a witness of the code as written: for s = 1.0 the index equals the size of the 255-entry table, one past its end |
| ColormapArgb.ClampedIndex | src/colormap.cpp:247-248 | corrected: the index is always inside the table and equals trunc(s*255) for every s < 1 |
| ColormapArgb.ClampedIndexMonotone | src/colormap.cpp:247 | the corrected index never decreases as the sample grows |
| ColormapArgb.ColormapArgb8888 | src/colormap.cpp:242-250 | corrected: every pixel with s < 1 gets the entry at trunc(s*255), as the source reads it, and a pixel with s = 1 gets the last entry, index 254, where the source reads index 255, one past the end |
| ColormapRgb.NumeratorBetween | src/colormap.c:68 | the interpolation numerator lo*(depth - i) + hi*i lies between lo*depth and hi*depth |
| ColormapRgb.LerpBounds | src/colormap.c:61-68 | the interpolated level is lo at i = 0 and lies between lo and hi for every i up to depth |
| ColormapRgb.LevelIsLerp | src/colormap.c:61-68 | the truncated value of i*(max - min)/depth + min is the integer interpolation (min*(depth - i) + max*i)/depth |
| ColormapRgb.Level | src/colormap.c:68 | at i = 0 the level is the first colour's channel, and it stays between the two colours' channels |
| ColormapRgb.Gradient2 | src/colormap.c:53-71 | exactly the 3*depth entries from the offset are written, once each and in order; entry 3i + j is the level of channel j at step i; every other entry is unchanged |
| ColormapRgb.Gradient3 | src/colormap.c:73-78 | the first half runs min to mid over depth/2 steps from 0, the second runs mid to max from 3*depth/2, and nothing at or after 3*depth is touched |
| ColormapRgb.Gradient3Tiling | src/colormap.c:76-77 | for even depth the two halves write [0, 3*depth) exactly once, in order; for odd depth entry 3*(depth/2) is written by neither, and the second half starts one entry into a triple |
| ColormapRgb.ColormapBuild | src/colormap.c:38-51 | the map's 768 colour entries are written once each, entry 0 is black, entry 128 is purple (80, 0, 80), every channel is a byte, and the terminator -1 sits at index 768 |
| Cgi.HexDigit | src/gifsave/gifgraph.c:514-515 | every value below 16 has an upper-case hex digit whose value it is |
| Cgi.DigitOfHex | src/gifsave/gifgraph.c:524-529 | for a hex digit of either case, the upper-casing and the `& 0xdf` arithmetic give its value |
| Cgi.Char8Arithmetic | src/gifsave/gifgraph.c:526-530 | the multiply and add in an 8-bit `char` leave the byte 16*high + low |
| Cgi.IsPrint | src/gifsave/gifgraph.c:512 | every hex digit is printable and NUL is not, so blanking never alters the digits of an escape and never ends the string early |
| Cgi.X2c | src/gifsave/gifgraph.c:523-531 | two hex digits of either case decode to the byte 16*hex(d0) + hex(d1) |
| Cgi.DecodeLength | src/gifsave/gifgraph.c:511-519 | the decoded length is the input length minus two per decoded escape |
| Cgi.DecodeNoPercent | src/gifsave/gifgraph.c:512-513 | without a `%` the output is the input with every non-printable character blanked |
| Cgi.NoRescan | src/gifsave/gifgraph.c:511-517 | for every string that starts with an escape, the escape decodes on its own to the character it codes and the rest decodes independently, so decoded output is never scanned again |
| Cgi.NoRescanExample | src/gifsave/gifgraph.c:511-517 | an instance: `%2541` decodes to `%41`, not to `A` |
| Cgi.LiteralPercent | src/gifsave/gifgraph.c:513-515 | for every string starting with a `%` that two hex digits do not follow, the `%` is copied as it is and decoding resumes at the next character, including at the end of the string |
| Cgi.LiteralPercentExamples | src/gifsave/gifgraph.c:513-515 | instances: `%4` and `%G1` come out unchanged |
| Cgi.EncodeChar | src/gifsave/gifgraph.c:513-517 | every byte has a three-character escape that starts an escape and decodes to it |
| Cgi.DecodeEncode | src/gifsave/gifgraph.c:505-520 | decoding the percent-encoding of any byte string gives the string back |
| Cgi.DecodeFrom | src/gifsave/gifgraph.c:513-517 | decoding from a cursor consumes one escape of three characters or one single character |
| Cgi.UnescapeStep | src/gifsave/gifgraph.c:512-517 | one turn of the loop writes one output character, moves the read cursor past the consumed input, and keeps the unread input intact |
| Cgi.UnescapeBuffer | src/gifsave/gifgraph.c:509-519 | the in-place loop leaves the decoded string followed by a NUL at the front of the buffer and returns its length |
| Cgi.Unescape | src/gifsave/gifgraph.c:505-520 | a null pointer returns 0; otherwise the string becomes its decoding and the result is its length minus two per decoded escape |
| Cgi.IsEmpty | src/gifsave/gifgraph.c:274 | true exactly for the null pointer and the empty string |
| Cgi.StrSqueeze | src/gifsave/gifgraph.c:300-303 | a null pointer stays null; otherwise the first n characters are dropped, and the string is emptied when n reaches its length |
| Cgi.StrSqueezeTwice | src/gifsave/gifgraph.c:298-303 | squeezing by a and then by b is squeezing by a + b |
| Cgi.StrnInit | src/gifsave/gifgraph.c:278-284 | a null target or negative n leaves the target alone; otherwise the target becomes the first min(n, length) characters of the source, or empty for n = 0 or a null source |
| Cgi.RightEnd | src/gifsave/gifgraph.c:290-294 | the backward scan stops after the last non-white character, and everything after it is white |
| Cgi.LeftStart | src/gifsave/gifgraph.c:295 | the span of leading white characters ends at the first non-white character |
| Cgi.TrimmedSpec | src/gifsave/gifgraph.c:288-296 | the trimmed string is a slice of the input with only white characters around it, and its first and last characters are not white |
| Cgi.TrimmedIdempotent | src/gifsave/gifgraph.c:288-296 | trimming a trimmed string changes nothing |
| Cgi.TrimWhite | src/gifsave/gifgraph.c:289-296 | a null pointer is left alone; otherwise both loops and the squeeze leave exactly the trimmed string |

## Left out

- MuscatupaC.Step: states the step with the corrected `inh[n][w][h]` layout for every width and height. The source declares `inh[n][w][w]`, so it computes this step only for square images, the only shape its driver uses. For other shapes the model does not follow the out-of-layout reads and writes, which the Findings row exhibits.
- IEEE-754 arithmetic. Samples are exact reals: no rounding, no overflow to infinity, and `fabs` is the real absolute value. `FLT_MIN` and `FLT_MAX` are their exact values, 2^-126 and (2^24 - 1)*2^104. NaN appears only as the `AllNaN` outcome of normalising a flat field. It is not propagated into later steps.
- Random initialisation (`init_image`, `muscatupa_init_image`, `blind_quarter_init_image`, `PatternGenerator::randomize`). The initial field is a parameter, because these functions draw from an entropy source.
- The two `std::thread` blurs of `generate`. They are two sequential calls writing separate results, because they share only read-only input.
- Memory management (`new`/`delete`, `malloc`, `free_sym`, `free_xy`) and the temporaries of the blurs. Results are fresh sequences.
- The global table vector of src/symmetry.cpp. It is the parameter `tables`, which `SymmetryTable.Init` extends. `SymmetryTable.Apply` requires positions 0 to 2 to hold the tables of the image being averaged, because the source indexes an empty vector when `symmetry_init` was never called.
- SymmetryTable.Apply: requires positions 0 to 2 to hold the tables of the image's own size. After `symmetry_init` is called again for another size, the source keeps averaging with the first size's tables (`InitAgainStale`), whose indices may lie outside a smaller image. That call is not modelled.
- The `s >= 2` branch of `build_sym_list`, and `rotate`, `compare` and `check_sym_list` of src/symmetry.c. They are driven by trigonometry and float rounding, or they only print.
- `gifgraph()` and the CGI `main` of src/gifsave/gifgraph.c, and `colormap_check` of src/colormap.c. They depend on pipes, environment variables and output streams.
- Encoders, display and input code: src/VideoEncoder.*, src/gifsave_wrapper.c, src/image_provider.*, src/main.c, src/main.cpp, src/InputReader.*, src/PatternGenerator.*, src/Image.*. The records of src/pattern.cpp and src/scale.hpp are the datatypes `MuscatupaCpp.Pattern` and `PatternGenerator.Scale`.
- Image sizes below 2^31. Widths and heights go through `int`/`int32_t` in the left-edge tests, and the blur methods require them to be below 2^31. `BlurLine.LeftTestWraps` shows what the test does beyond that.
- PatternGenerator.Generate: requires a non-empty pattern when there is a scale, because `normalize` dereferences `min_element` of the pattern, which is undefined for an empty one.
- MuscatupaCpp.Step: requires at least one pattern, because with none the source reads `var` and `best_scale` uninitialised. The same holds for MuscatupaC.Step, whose `update` reads the winner's arrays.
- ColormapArgb.Channel: the cast of a negative `i*gradient` to `uint8_t` is undefined behaviour in C++. The model takes the truncated value modulo 256, which is what the usual targets produce. `ColormapArgb.FallingCastUndefined` states exactly which steps are out of range.
- ColormapArgb.Pack: `alpha << 24` is computed on a promoted `int` and overflows for alpha >= 0x80. The model takes the 32-bit result modulo 2^32, the value stored in the `uint32_t`.
- ColormapArgb.BuildColormap: requires at least two anchors, because with one anchor `COLOR_DEPTH/(n_colors - 1)` divides by zero. Every palette has 2 to 7 anchors.
- ColormapArgb.LookupIndex: requires samples in [0, 1], the range the normalisers produce. Outside it the conversion to `uint8_t` is undefined. The same holds for ColormapArgb.ColormapArgb8888.
- ColormapRgb.Gradient2: the anchor channels are bytes. The `uint32_t` anchor arrays could hold larger values, but `colormap_build` passes only bytes.
- Cgi.Unescape: `%00` decodes to a NUL character. The model keeps it inside the string and counts it in the returned length, as `unescape` does. A C caller reading the result as a string stops at that NUL.
- Cgi.IsPrint: `isprint` and `isxdigit` are those of the "C" locale. A character outside 7-bit ASCII is not printable and is blanked, which is what `isprint` yields for byte values 0x80-0xFF passed as `unsigned char`. A negative `char` passed to `isprint` is undefined behaviour and is not modelled.
- Cgi.StrSqueeze: `n` is a natural number. The macro's comment says it also works for a negative `n`, but that would read before the start of the string. That case is not modelled.
- Cgi.StrnInit: the target buffer's capacity is not modelled. The result is the new contents of the target.
- ColormapRgb.Gradient3: for odd depths the two halves leave a gap, which `Gradient3Tiling` exhibits. `COLOR_DEPTH` is 256, so `colormap_build` never meets that case, and it is not reported as a finding.

## Findings

| source | as written | input that shows it | evidently intended | confidence | as-written member | corrected member |
|---|---|---|---|---|---|---|
| src/muscatupa.c:88-89 | `float inh[n][w][w]`, while `blur` writes and `compute_var` reads it with the `[n][w][h]` strides | n = 2, w = 2, h = 1: `compute_var` reads the inhibitor of pattern 1 at pixel (0, 0) from offset 2, which no blur wrote; with h > w the last blur writes past the array | `float inh[n][w][h]` | not executed | MuscatupaC.InhibitorReadUnwritten, MuscatupaC.InhibitorOverflow, MuscatupaC.InhibitorSlotsAgree | MuscatupaC.CorrectedLayout, MuscatupaC.Step |
| src/colormap.cpp:247-248 | `uint8_t pixel = (s[i]*COLOR_DEPTH)` indexes `colormap_lookup[COLOR_DEPTH]`, 255 entries | s[i] = 1.0, which `normalize` gives the maximum sample: the index is 255, one past the end of the table | clamp the top sample onto the last entry, index 254 | not executed | ColormapArgb.LookupIndex, ColormapArgb.LookupOverrun | ColormapArgb.ClampedIndex, ColormapArgb.ColormapArgb8888 |
