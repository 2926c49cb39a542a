# Depth-quality tool: metric history, trend and report model

This project models the computational core of librealsense's depth-quality
tool (`tools/depth-quality/depth-quality-model.cpp`):

- **Metric history and trend** (`metric_history.dfy`, module `MetricHistory`).
  A `metric_plot` keeps the last `SIZE` = 100 samples of one metric in a ring
  buffer with write cursor `_idx`. The model is the class `MetricPlot`, with an
  `array<real>` buffer.
  - `HasTrend` is `has_trend` with its two loops. It is proved equal to the
    pure specification `HasTrendSpec`.
  - The lemmas say what the heuristic means. It fires when more than 44 of
    the 101 long-window positions count. No sample counts in both
    directions. A constant buffer never trends. A metric whose ten newest
    samples sit on the best value, with every older sample off by the same
    amount, trends up and not down.
  - The lemmas also record the source's window quirks. Window position 0
    reads the oldest slot. Under the model's Euclidean index, positions 10
    and 110 read the same slot. For a cursor below 10, the source's own
    index at the last positions is negative (signed) or wrapped (unsigned);
    see the findings.
  - `Current` is the value shown by `metric_plot::render`.
- **CSV export** (`metrics_csv.dfy`, module `MetricsCsv`). `MetricsModel.SerializeToCsv`
  is `metrics_model::serialize_to_csv`, with its header loop and its nested row
  loops. It produces the stream of fields, commas and line ends that the
  source writes. That stream is proved equal to `CsvDocument`.
  - A strict reader `Parse` reads the stream back into its rows. This gives
    the layout as a round trip: a header of plot names, then `SIZE` rows of
    one sample per plot.
  - Data row `i` reads slot `(_idx + i) % SIZE`. The rows visit every slot
    once, oldest first, and the last row holds the current value.
- **Session rules** (`session.dfy`, module `Session`):
  - The ROI combo box and the ROI rectangle. `ToolModel.SelectRoi` holds the
    `_roi_percent` state.
  - The routing of polled frames to the viewer and the metrics worker.
  - The stereo-baseline lookup in `update_configuration`.
  - The file names written by "Save Report".
- **Shared definitions** (`basics.dfy`, module `Basics`): the `Option`
  datatype and `Abs`, the absolute value `fabs` computes.
- **ROI in single precision** (`roi_single_precision.dfy`, module
  `RoiSinglePrecision`). This is the ROI rectangle as the source computes it,
  in IEEE-754 binary32 arithmetic. It is kept only to document the finding
  below, and to show that the float rectangle still lies inside the frame.
  The rest of the model uses the exact rectangle `Session.RoiRect`.

Modelling choices:
- Sample values are `real`.
- The ROI percent is an integer percent (80, 40, 20).
- The buffer index `(SIZE + _idx - i) % SIZE` is taken with Euclidean `%`.
  The header declaring `_idx` and `SIZE` is not part of this model. For
  `_idx < i - SIZE`, the C++ expression is negative or wraps, depending on
  those types.
- Every plot satisfies 0 <= `_idx` < `SIZE`. This is the `Valid()` invariant.
  `add_value` is not part of this model.
- `serialize_to_csv` and `has_trend` only read their state. The methods that
  model them have no `modifies` clause, so Dafny's framing guarantees that
  every buffer and cursor is unchanged.

## Model

| member | source | states |
|---|---|---|
| Basics.Abs | tools/depth-quality/depth-quality-model.cpp:363 | `fabs` gives a non-negative value equal to its argument or to its negation |
| MetricHistory.TrendSlot | tools/depth-quality/depth-quality-model.cpp:363 | the slot read for window position i lies in [0, SIZE) and is i slots behind the cursor, modulo SIZE |
| MetricHistory.TrendWindowSlots | tools/depth-quality/depth-quality-model.cpp:363-370 | window position 0 reads slot `_idx` (the oldest sample); position 1 reads the current value's slot; positions 10 and 110 read the same slot |
| MetricHistory.TrendSlotAsWritten | tools/depth-quality/depth-quality-model.cpp:363-370 | with C++ `%` on signed ints, the slot expression agrees with `TrendSlot` whenever `SIZE + _idx - i` is not negative |
| MetricHistory.TrendSlotAsWrittenNegative | tools/depth-quality/depth-quality-model.cpp:368-370 | for a cursor below 10, every position above `SIZE + _idx` gives the negative index `SIZE + _idx - i`; at cursor 0, position 101 gives -1 where the ring buffer's slot is 99 |
| MetricHistory.TrendSlotsDistinct | tools/depth-quality/depth-quality-model.cpp:363-370 | window positions fewer than SIZE apart read different slots |
| MetricHistory.CurrentIndex | tools/depth-quality/depth-quality-model.cpp:498 | the current-value index lies in [0, SIZE) and is the slot written just before the cursor |
| MetricHistory.MetricPlot.Current | tools/depth-quality/depth-quality-model.cpp:498 | the displayed value is the buffer entry at the slot just before the write cursor |
| MetricHistory.Deviation | tools/depth-quality/depth-quality-model.cpp:363 | each window sample's distance to the best value is non-negative |
| MetricHistory.MetricPlot.HasTrend | tools/depth-quality/depth-quality-model.cpp:352-375 | the two loops (short-window mean, then the count over positions 10..110 with factor 0.8) return exactly `HasTrendSpec`; the best value is green.y when red.x < green.x and green.x otherwise; nothing is modified |
| MetricHistory.ImprovedCountIsCardinality | tools/depth-quality/depth-quality-model.cpp:367-373 | the loop's counter equals the number of positions whose sample passes the directional test |
| MetricHistory.HasTrendMeaning | tools/depth-quality/depth-quality-model.cpp:360-374 | has_trend is true if and only if more than 44 of the positions 10..110 pass the directional test against the short-window mean |
| MetricHistory.ShortSumNonNegative | tools/depth-quality/depth-quality-model.cpp:360-365 | the short-window mean `min_val` is never negative |
| MetricHistory.ImprovedCountsDisjoint | tools/depth-quality/depth-quality-model.cpp:371-372 | with a non-negative reference, no sample counts in both directions, so the two counts add up to at most the range length |
| MetricHistory.TrendCountsDisjoint | tools/depth-quality/depth-quality-model.cpp:367-373 | the positive and the negative counts of one buffer add up to at most 101 |
| MetricHistory.ShortSumOfConstant | tools/depth-quality/depth-quality-model.cpp:361-365 | when every sample deviates by d, the accumulator after n steps is n*d/10 |
| MetricHistory.NoImprovementAtReference | tools/depth-quality/depth-quality-model.cpp:371-372 | a sample whose deviation equals the reference counts in neither direction |
| MetricHistory.ConstantBufferHasNoTrend | tools/depth-quality/depth-quality-model.cpp:352-375 | a constant buffer yields false for both has_trend(true) and has_trend(false) |
| MetricHistory.ImprovedCountAll | tools/depth-quality/depth-quality-model.cpp:367-373 | when every position passes, the count is the range length |
| MetricHistory.ImprovedCountMonotone | tools/depth-quality/depth-quality-model.cpp:367-373 | counting over a longer range never gives a smaller count |
| MetricHistory.ShortSumZero | tools/depth-quality/depth-quality-model.cpp:360-365 | the short-window mean is 0 when those ten slots hold the best value |
| MetricHistory.ImprovedCountNoneBelowZero | tools/depth-quality/depth-quality-model.cpp:372 | with a zero reference, nothing counts toward a negative trend |
| MetricHistory.ShortWindowOnBestTrendsUp | tools/depth-quality/depth-quality-model.cpp:352-375 | when the short window's slots (slot `_idx`, the oldest sample, and the nine newest) hold exactly the best value and the slots at positions 10..99 do not, the metric trends up and not down |
| MetricHistory.AgeSlot | tools/depth-quality/depth-quality-model.cpp:498 | the slot of the sample of age a lies in [0, SIZE) and is a + 1 slots behind the cursor, modulo SIZE, so age 0 is the current value's slot |
| MetricHistory.TrendSlotAge | tools/depth-quality/depth-quality-model.cpp:363-370 | window position i reads the sample of age i-1 for 1 <= i <= SIZE, position 0 the oldest sample (age SIZE-1), and positions past SIZE the newest samples again |
| MetricHistory.ImprovedCountSplit | tools/depth-quality/depth-quality-model.cpp:367-373 | the count over [lo, hi) is the count over [lo, mid) plus the count over [mid, hi) |
| MetricHistory.ImprovedCountNone | tools/depth-quality/depth-quality-model.cpp:367-373 | when no position passes, the count is 0 |
| MetricHistory.ShortSumFirstOnly | tools/depth-quality/depth-quality-model.cpp:360-365 | when only position 0 of the short window deviates, the short-window mean is that deviation over 10 |
| MetricHistory.ApproachToBestTrendsUp | tools/depth-quality/depth-quality-model.cpp:352-375 | when the ten newest samples sit on the best value and every older sample is off by the same D > 0, 90 positions count toward a positive trend and 11 toward a negative one, so the metric trends up and not down |
| MetricsCsv.FieldsAppend | tools/depth-quality/depth-quality-model.cpp:609-612 | writing the fields of two cell runs one after the other gives the fields of their concatenation |
| MetricsCsv.DocumentAppend | tools/depth-quality/depth-quality-model.cpp:614-621 | writing two groups of rows one after the other gives the lines of their concatenation |
| MetricsCsv.ParseFields | tools/depth-quality/depth-quality-model.cpp:611 | reading a run of comma-terminated fields collects exactly those cells |
| MetricsCsv.ParseDocument | tools/depth-quality/depth-quality-model.cpp:609-621 | reading the written lines back gives exactly the rows that were written |
| MetricsCsv.CsvRoundTrip | tools/depth-quality/depth-quality-model.cpp:609-621 | the export reads back as SIZE+1 rows: a header with each plot's name in plot order, then rows of one value per plot, where row i (1-based) holds each plot's sample from slot (idx + i - 1) mod SIZE |
| MetricsCsv.RowSlotsChronological | tools/depth-quality/depth-quality-model.cpp:614-618 | the first row reads slot `_idx` (the oldest), each next row reads the following slot, the last row reads the current value's slot, and every slot is read by exactly one row |
| MetricsCsv.LastRowIsCurrent | tools/depth-quality/depth-quality-model.cpp:498 | the last data row holds each plot's current value, as `metric_plot::render` shows it |
| MetricsCsv.MetricsModel.Histories | tools/depth-quality/depth-quality-model.cpp:609-621 | the plots as seen by the export: one well-formed buffer per plot, in plot order |
| MetricsCsv.MetricsModel.WriteHeader | tools/depth-quality/depth-quality-model.cpp:609-613 | the header loop writes each plot's name followed by a comma, in plot order, then ends the line |
| MetricsCsv.MetricsModel.WriteRow | tools/depth-quality/depth-quality-model.cpp:616-620 | the inner loop writes each plot's sample from slot (idx + i) mod SIZE followed by a comma, then ends the line |
| MetricsCsv.MetricsModel.SerializeToCsv | tools/depth-quality/depth-quality-model.cpp:601-624 | the export writes exactly `CsvDocument` of the plots (the header line, then SIZE data lines) and changes nothing |
| Session.RoiPercentFor | tools/depth-quality/depth-quality-model.cpp:198-203 | combo indices 0, 1 and 2 select the percent their label shows ("80%", "40%", "20%"); any other index keeps the current percent |
| Session.RoiRect | tools/depth-quality/depth-quality-model.cpp:341-344 | the ROI lies inside the w-by-h frame, is centred to within one pixel, and each corner is the floor of w*(100 -/+ p)/200 (or h) |
| Session.CentredSpan | tools/depth-quality/depth-quality-model.cpp:341-344 | the two floor-divided ends of a span at p percent lie in [0, n], are ordered, add up to n or n - 1, and are the floors of n*(100 -/+ p)/200 |
| Session.RoiAtEightyPercent | tools/depth-quality/depth-quality-model.cpp:341-344 | at 80% the ROI is [w/10, h/10, 9w/10, 9h/10], each rounded down |
| Session.ToolModel.constructor | tools/depth-quality/depth-quality-model.cpp:11 | a new tool starts with a 40% ROI |
| Session.ToolModel.SelectRoi | tools/depth-quality/depth-quality-model.cpp:199-204 | picking a combo entry updates the percent by `RoiPercentFor` and the recomputed ROI is `RoiRect` for the new percent |
| Session.Route | tools/depth-quality/depth-quality-model.cpp:253-264 | every polled frame goes to the viewer; only depth frames go to the metrics worker, and none while paused |
| Session.RouteKeepsDepthOrder | tools/depth-quality/depth-quality-model.cpp:256-263 | when not paused, the metrics worker receives exactly the depth frames, in poll order |
| Session.DepthFramesAppend | tools/depth-quality/depth-quality-model.cpp:256-263 | the depth frames of two consecutive frame runs are those of each run, one after the other |
| Session.FindProfile | tools/depth-quality/depth-quality-model.cpp:298-304 | the lookup returns the first profile with the given index and stream type, and none exactly when no profile matches |
| Session.FirstProfile | tools/depth-quality/depth-quality-model.cpp:298-304 | when a profile matches, the profile found is in the list and matches |
| Session.StereoBaseline | tools/depth-quality/depth-quality-model.cpp:295-313 | the baseline is |tx|*1000 exactly when an index-2 infrared profile exists and the extrinsics query succeeds, and -1 otherwise; the error message is set exactly when the infrared profile exists but the query fails |
| Session.SavedDescriptions | tools/depth-quality/depth-quality-model.cpp:385-397 | every stream with a video frame contributes its description, only stream descriptions appear, and there are at most as many as streams |
| Session.FramePositionsFrom | tools/depth-quality/depth-quality-model.cpp:385-387 | the positions from i on of exactly the streams with a video frame, strictly increasing |
| Session.FramePositions | tools/depth-quality/depth-quality-model.cpp:385-387 | the positions of exactly the streams with a video frame, strictly increasing |
| Session.SavedDescriptionsFrom | tools/depth-quality/depth-quality-model.cpp:385-397 | saving the streams from position i on gives the descriptions at the frame positions from i on, in order |
| Session.SavedDescriptionsAreFramePositions | tools/depth-quality/depth-quality-model.cpp:385-397 | the saved descriptions are exactly those of the streams with a video frame, one per stream, in stream order |
| Session.PngNamesFromFrames | tools/depth-quality/depth-quality-model.cpp:385-398 | there is one PNG name per stream with a video frame, and each PNG name is made from such a stream's description |
| Session.PngNamesCoverFrames | tools/depth-quality/depth-quality-model.cpp:385-398 | every stream with a video frame has its PNG name written, and each PNG name begins with the base name |
| Session.SnapshotFiles | tools/depth-quality/depth-quality-model.cpp:378-431 | a cancelled dialog writes nothing; otherwise the files are one PNG per stream with a frame, the mesh and the CSV, plus the JSON exactly in advanced mode, and nothing else; their number is the number of streams with a frame plus 2 (3 in advanced mode); all begin with the chosen base |
| Session.PngNamesEndInG | tools/depth-quality/depth-quality-model.cpp:397 | every PNG name ends in ".png" (its last character is 'g') |
| Session.PngNameInjective | tools/depth-quality/depth-quality-model.cpp:397 | a PNG name determines the stream description it was built from |
| Session.SavedDescriptionsDistinct | tools/depth-quality/depth-quality-model.cpp:385-397 | saving keeps distinct stream descriptions distinct |
| Session.SnapshotFilesDistinct | tools/depth-quality/depth-quality-model.cpp:397-424 | when the stream descriptions are distinct, no two artifacts of one report share a file name |
| RoiSinglePrecision.PercentLiteralNearest | tools/depth-quality/depth-quality-model.cpp:201-203 | the stored literals 0.8f, 0.4f and 0.2f have full 24-bit significands and lie within half an ulp of p/100 |
| RoiSinglePrecision.HalfPercent | tools/depth-quality/depth-quality-model.cpp:341-344 | `0.5f*_roi_percent` is exact and at most 0.5f, so the subtraction never goes negative |
| RoiSinglePrecision.FactorsAt80 | tools/depth-quality/depth-quality-model.cpp:341-344 | at 80% the float factors are 0.5f-0.5f*0.8f = 3355443/2^25 (just below 0.1) and 0.5f+0.5f*0.8f = 30198988/2^25 |
| RoiSinglePrecision.FactorsAt40 | tools/depth-quality/depth-quality-model.cpp:341-344 | at 40% the float factors are 0.5f-0.5f*0.4f = 20132660/2^26 and 0.5f+0.5f*0.4f = 46976204/2^26 |
| RoiSinglePrecision.FactorsAt20 | tools/depth-quality/depth-quality-model.cpp:341-344 | at 20% the float factors are 0.5f-0.5f*0.2f = 53687092/2^27 and 0.5f+0.5f*0.2f = 80530640/2^27 |
| RoiSinglePrecision.RoiRectAsWritten | tools/depth-quality/depth-quality-model.cpp:341-344 | for every width and height below 2^24, the source's float ROI lies inside the frame with its corners ordered: 0 <= minX <= maxX <= w and 0 <= minY <= maxY <= h |
| RoiSinglePrecision.CornersInFrame | tools/depth-quality/depth-quality-model.cpp:341-344 | at every selectable percent, the truncated float products of a size n below 2^24 are ordered and at most n |
| RoiSinglePrecision.CornerOrder | tools/depth-quality/depth-quality-model.cpp:341-344 | factors apart, and below 1, by more than the rounding error give ordered truncated products of at most n |
| RoiSinglePrecision.ProductNear | tools/depth-quality/depth-quality-model.cpp:341-344 | the float product `float(n) * f` is within one part in 2^23 of the exact product |
| RoiSinglePrecision.RoundBounds | tools/depth-quality/depth-quality-model.cpp:341-344 | rounding to 24 significant bits changes a value by less than one part in 2^23 |
| RoiSinglePrecision.TruncateIs | tools/depth-quality/depth-quality-model.cpp:341 | converting a float to int yields q when q <= x < q+1 |
| RoiSinglePrecision.TruncateDivides | tools/depth-quality/depth-quality-model.cpp:341 | converting a float num/2^e to int gives num / 2^e rounded down |
| RoiSinglePrecision.CornerValue | tools/depth-quality/depth-quality-model.cpp:341-344 | `int(n * f)` is c when the rounded product lies in [c, c+1) |
| RoiSinglePrecision.CornersAt80 | tools/depth-quality/depth-quality-model.cpp:341-344 | at 80% on a 640x480 stream the four truncated float products are 63, 47, 576 and 432 |
| RoiSinglePrecision.RoiAsWrittenAt640x480 | tools/depth-quality/depth-quality-model.cpp:341-344 | the source's ROI for a 640x480 stream at 80% is [63, 47, 576, 432] |
| RoiSinglePrecision.ExactRoiAt640x480 | tools/depth-quality/depth-quality-model.cpp:341-344 | the exact centred rectangle at 80% on a 640x480 stream is [64, 48, 576, 432] |
| RoiSinglePrecision.AsWrittenRoiAt640x480 | tools/depth-quality/depth-quality-model.cpp:341-344 | at 80% on 640x480 the source gives [63, 47, 576, 432], while the exact rectangle is [64, 48, 576, 432] |

## Left out

- The metrics worker thread, its frame queue, sleeps, mutex and destructor join are concurrency and timing. They are not modelled.
- Pipeline start, the infrared fallback, the retry loop and the advanced-mode toggle with its sleep are device I/O.
- All ImGui drawing and layout are UI. This includes `draw_instructions`, the rest of `render`, and `metric_plot::render` except its current-value index.
- `analyze_depth_image`, `add_value`, `get_range` and the debouncing `eval` are not part of this model. Their bodies are in the header or in other files. Plots are built from a given buffer and cursor.
- The colorizer, PNG/PLY encoding, the save dialog, the advanced-mode JSON and the file streams are foreign calls. The dialog's answer and the device's advanced-mode capability are parameters of `SnapshotFiles`. The extrinsics query is the parameter `extrinsicsTx` of `StereoBaseline`, and `None` stands for the call throwing.
- The CSV values' number formatting is left out. Cells hold the sample values themselves.
- The CSV round trip is proved over the stream of fields, commas and line ends. The source writes each plot's `_name` unescaped, so a name containing a comma or a line break would not read back from the actual file.
- The rest of `update_configuration` (device and sensor models, the metrics reset, restoring UI selections, stream attributes) is device plumbing. Only the baseline and the ROI rectangle are modelled.
- MetricHistory.MetricPlot.HasTrend: samples and `min_val` are exact reals, not single-precision floats. Near the 0.8 thresholds, float rounding could change the count.
- Session.StereoBaseline: `fabs` and the millimetre scaling are exact reals. The model requires that an index-0 depth profile exists whenever the index-2 infrared profile does. The source dereferences that lookup unchecked, which is undefined behaviour otherwise.
- Session.RoiRect: exact arithmetic with floor division, not the source's single-precision expression. See the finding below; `RoiSinglePrecision.RoiRectAsWritten` models the float computation.
- MetricHistory.TrendSlot: uses Euclidean `%`, the evident intent of the ring buffer. For a negative `SIZE + _idx - i`, C++ `%` on signed ints truncates toward zero (see the findings) and unsigned types wrap. The declarations of `_idx` and `SIZE` are not part of this model.
- RoiSinglePrecision.RoiRectAsWritten: the in-frame bound is proved for widths and heights below 2^24, which a float holds exactly. How close each float corner is to the exact one is not stated.

## Findings

| source | as written | input that shows it | evidently intended | confidence | as-written member | corrected member |
|---|---|---|---|---|---|---|
| tools/depth-quality/depth-quality-model.cpp:341-344 | the ROI corners are `int(w * (0.5f - 0.5f*_roi_percent))` and similar, evaluated in single precision; 0.5f - 0.5f*0.8f rounds to 3355443/2^25, just below 0.1 | a 640x480 depth stream with the 80% ROI: the source gives [63, 47, 576, 432] | the centred 80% rectangle [w/10, h/10, 9w/10, 9h/10] = [64, 48, 576, 432] | medium: derived by hand from IEEE-754 round-to-nearest-even, not executed | RoiSinglePrecision.AsWrittenRoiAt640x480 | Session.RoiAtEightyPercent |
| tools/depth-quality/depth-quality-model.cpp:368-370 | the long window reads `_vals[(SIZE + _idx - i) % SIZE]` for i up to 110; with `%` on signed ints a negative left operand gives a negative index | cursor `_idx` = 0 and position i = 101: the index is -1, a read before the buffer | the slot i places behind the cursor around the ring, `(_idx - i) mod SIZE` = 99 | low: the declarations of `_idx` and `SIZE` are not shown, and unsigned types would wrap instead; not executed | MetricHistory.TrendSlotAsWrittenNegative | MetricHistory.TrendSlot |
