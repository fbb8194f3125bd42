# bpcalc pickup placement, modelled in Dafny

bpcalc suggests where to place the bridge and neck pickups on a guitar
string. It scores every position along the string by how close the position
lies to the anti-nodes of harmonics 2 to 7. Each harmonic's term is its
weight times a cosine falloff of the distance to its nearest anti-node. The
program then picks two positions:

- the bridge pickup: the global peak of a sampled score table;
- the neck pickup: the best sample left after removing the window of
  samples around that peak.

It also draws the score across the whole string as a colour heat map.

The project has three modules, one per source file of the core:

- `Calculation` (`calculation.dfy`) covers:
  - the anti-node positions;
  - the per-position score, shared with the heat map;
  - the score table;
  - the bridge maximum with its tie-break;
  - the two exclusion walks, written as a method with loops and proved
    against a functional description of where each walk stops;
  - the neck selection.
- `Visualizer` (`visualizer.dfy`) covers the heat-map buffer, filled in
  place in an array, and the maximum fold and the normalisation that colour
  it. It also covers the fixed height of the drawing.
- `Color` (`color.dfy`) covers:
  - hex colour parsing into channels, for both the real-valued and the byte
    colour;
  - the choice of gradient segment and interpolation factor among n colour
    stops;
  - the cases with zero stops and with one stop.

Scores are exact reals. The cosine falloff is a parameter of type
`real -> real`. The colour library's Oklab conversions and its mix are three
function values in a `ColorSpace`. A property that needs something of these
functions says so in a `requires` clause, as `ScoreBounds` and
`Color.Faithful` do.

Where the code and its description in prose differ, the model follows the
code:

- **Tie-break.** `Iterator::max_by` keeps the last of several equal maxima,
  so the bridge is the last sample with the peak score, not the first. The
  neck is likewise the last best candidate.
- **Neck candidates.** The candidates are `scores[0..left_bound]` chained
  with `scores[right_bound..]`. The left bound itself is excluded, but the
  right bound sample is included.
- **Unreachable fallback.** The candidate list is never empty, so the
  fallback to 30% of the length never fires.
- **Bridge as the last sample.** When the bridge is the last sample, the
  neck is the bridge. This happens when every weight is zero, and also when
  the search limit is 0. In both cases the two positions coincide at the
  last sample. They are not placed at 0 and at 30% of the length.
- **No minimum spacing.** The comment at src/calculation.rs:59 says pickups
  should be at least 10% of the length apart, but the code only uses that
  distance as one of the walks' stop conditions. The weight sliders allow
  every weight to be 0 (src/app.rs:85), and ZeroWeightsCollapse proves that
  the two pickups then sit at the same position.

## Model

| member | source | states |
|---|---|---|
| Calculation.AntiNodes | src/calculation.rs:6-12 | a harmonic h has exactly h anti-nodes; by definition entry i is (i + 0.5) * length / h |
| Calculation.AntiNodesLayout | src/calculation.rs:6-12 | for a positive length: the first anti-node is at half a segment; neighbours are length / h apart; positions strictly increase; every anti-node lies strictly inside (0, length) |
| Calculation.MinDistance | src/calculation.rs:30-34 | the `min_by` fold of the distances from a position to the anti-nodes is never negative; MinDistanceIsLowest and MinDistanceAttained prove that it is the least distance |
| Calculation.MinDistanceIsLowest | src/calculation.rs:30-34 | the min_by distance is no larger than the distance to any anti-node |
| Calculation.MinDistanceAttained | src/calculation.rs:30-34 | the min_by distance is the distance to some anti-node |
| Calculation.NormalizedDistance | src/calculation.rs:37-38 | the normalised distance lies in [0, 1] |
| Calculation.NearestAntiNodeWithinWavelength | src/calculation.rs:30-38 | on the string the nearest anti-node is within one wavelength, length / (2h); so the `.min(1.0)` cap never changes the ratio there |
| Calculation.OnAntiNode | src/calculation.rs:30-38 | at an anti-node of harmonic h, h's normalised distance is 0 |
| Calculation.ScoreAt | src/calculation.rs:27-43 | the sum over harmonics 2..7 of weight * falloff(normalised distance), shared by the search and the heat map; ScoreIsolatesHarmonic, ScoreOfZeroWeights and ScoreBounds state its properties |
| Calculation.ScoreIsolatesHarmonic | src/calculation.rs:27-43 | when every other weight is zero, the score is weights[k] * falloff(distance to harmonic k + 2) |
| Calculation.ScoreOfZeroWeights | src/calculation.rs:27-43 | all-zero weights give a zero score whatever the falloff |
| Calculation.ScoreBounds | src/calculation.rs:27-43 | with non-negative weights and a falloff mapping [0, 1] into [0, 1], the score lies between 0 and the sum of the weights |
| Calculation.ScoreTable | src/calculation.rs:24-47 | the table has search_limit + 1 samples |
| Calculation.SamplePositionInRange | src/calculation.rs:26 | sample i sits in [0, (search_limit / 1000) * length] |
| Calculation.MaxByScore | src/calculation.rs:50-54 | the result is None exactly for an empty input; otherwise it is an index whose score is at least every score, and every later index scores strictly less, so the last of equal maxima wins |
| Calculation.BridgeIndex | src/calculation.rs:50-54 | the bridge index is a valid index of a non-empty table |
| Calculation.LeftBoundFrom | src/calculation.rs:65-82 | the walk from j ends at some left <= j; no stop condition holds in [left, j); a stop condition holds at left - 1 when left > 0 |
| Calculation.RightBoundFrom | src/calculation.rs:84-101 | the mirror of LeftBoundFrom: the walk ends at right in [j, len); no stop condition holds in (j, right]; one holds at right + 1 unless right is the last sample |
| Calculation.FindExclusionWindow | src/calculation.rs:59-101 | the two loops with their breaks end at exactly LeftBound and RightBound |
| Calculation.ExclusionWindowShape | src/calculation.rs:61-101 | left_bound <= bridge <= right_bound < len; scores are non-decreasing over [left_bound, bridge] and non-increasing over [bridge, right_bound]; every walked sample at least 10% of the length away scores at least half the peak; each walk stopped on a rise or on a far, low sample, or at the table's end |
| Calculation.NeckSampleIndex | src/calculation.rs:103-110 | the neck sample has an index below left_bound or at least right_bound; it scores at least every such candidate, and every later candidate scores strictly less |
| Calculation.NeckPosition | src/calculation.rs:103-110 | the position of the last best sample among s[..left] chained with s[right..], or 0.3 * length with no candidate; NeckSampleIndex and NeckIsLastMaxOutsideWindow state which sample it is and that the fallback never fires |
| Calculation.NeckIsLastMaxOutsideWindow | src/calculation.rs:103-110 | the candidate list always has a maximum, so the 0.3 * length fallback is unreachable; the neck is the position of NeckSampleIndex |
| Calculation.NeckIsBridgeWhenBridgeIsLast | src/calculation.rs:103-110 | when the bridge is the last sample, the neck position equals the bridge position |
| Calculation.PickupPositions | src/calculation.rs:14-116 | the whole search as one function: bridge at the last global maximum, neck from the samples outside the exclusion window; PickupPositionsSpec, ZeroWeightsCollapse and SingleSampleCollapse state its properties |
| Calculation.FindOptimalPickupPositions | src/calculation.rs:14-116 | the search returns exactly PickupPositions of its inputs |
| Calculation.PickupPositionsSpec | src/calculation.rs:14-116 | the bridge position is the sample position of the last global maximum; the neck position is the sample position of NeckSampleIndex; both lie in [0, (search_limit / 1000) * length] |
| Calculation.ZeroWeightsCollapse | src/calculation.rs:14-116 | with all weights zero, both pickups sit at the last sample, (search_limit / 1000) * length |
| Calculation.SingleSampleCollapse | src/calculation.rs:14-116 | with search_limit 0, both pickups sit at the bridge, position 0 |
| Visualizer.HeatMap | src/visualizer.rs:202-232 | the heat map has heat_map_resolution entries |
| Visualizer.CalculateHeatMap | src/visualizer.rs:202-232 | the freshly allocated buffer ends up holding, in slot i, the score at (i / resolution) * length |
| Visualizer.HeatSamplesOnString | src/visualizer.rs:206 | heat-map sample positions lie in [0, length); entry 0 is at the bridge and no sample is at the nut |
| Visualizer.HeatMapAgreesWithSearch | src/visualizer.rs:206-228 | a heat-map entry and a search sample at the same fraction of the string hold the same score |
| Visualizer.MaxHeat | src/visualizer.rs:54 | the fold from 0.0 is >= 0 and >= every entry; it is 0 or equal to some entry |
| Visualizer.NormalizedHeat | src/visualizer.rs:68 | an entry between 0 and a positive maximum maps into [0, 1], and the maximum itself maps to 1 |
| Visualizer.NormalizedHeatRange | src/visualizer.rs:68 | a normalised entry is <= 1 and is >= 0 when the entry is; with a positive peak, the peak entry maps to 1 |
| Visualizer.CalculateVisualizerHeight | src/visualizer.rs:9-24 | the height is 267 whatever the application state |
| Color.HexChannel | src/color.rs:15-17 | an extracted channel is an integer in [0, 255] |
| Color.ParseHexSrgb | src/color.rs:14-19 | every channel of the parsed real colour lies in [0, 1] |
| Color.SaturatingU8 | src/color.rs:27 | the float-to-byte cast yields a value in [0, 255] |
| Color.ChannelsOfPackedHex | src/color.rs:15-17 | extraction inverts packing: 0xRRGGBB yields red RR from bits 16-23, green GG from bits 8-15 and blue BB from bits 0-7 |
| Color.ToColor32 | src/color.rs:73-77 | every channel of the converted colour is a byte in [0, 255] |
| Color.ParseHexColor32 | src/color.rs:22-29 | the byte colour's channels are exactly the hex channels: scaling by 1/255 and back by 255 loses nothing |
| Color.ParseHexImplsAgree | src/color.rs:13-29 | the two parsers agree: each channel of the real colour, times 255, is the same channel of the byte colour |
| Color.ParsePackedHex | src/color.rs:22-29 | the constant 0xRRGGBB parses to the byte colour (RR, GG, BB) |
| Color.LocateSegment | src/color.rs:55-65 | for n >= 2 stops: lower_idx + 1 <= n - 1, so both stops exist; the factor t lies in [0, 1] |
| Color.SegmentReconstructsHeat | src/color.rs:55-65 | lower_idx + t equals heat * (n - 1), so the clamp on t never changes it |
| Color.SegmentAtStop | src/color.rs:55-65 | heat k / (n - 1) selects segment k with t = 0, or for the last stop segment n - 2 with t = 1 |
| Color.SegmentEndpoints | src/color.rs:55-65 | heat 0 selects segment 0 with t = 0; heat 1 selects segment n - 2 with t = 1 |
| Color.SegmentMonotone | src/color.rs:56-60 | a larger heat never selects an earlier segment |
| Color.ColorStops | src/color.rs:35-38 | there is one stop per hex colour |
| Color.HeatToColor | src/color.rs:31-77 | every channel of the gradient colour is a byte in [0, 255], whatever the colour library returns; HeatIsClamped, DegenerateStops, GradientHitsStops and GradientEnds state which colour it is |
| Color.HeatIsClamped | src/color.rs:32 | heat is clamped first: a heat below 0 gives the colour of heat 0, and a heat above 1 gives the colour of heat 1 |
| Color.DegenerateStops | src/color.rs:40-53 | no stops give black; one stop gives that stop's colour, converted to Oklab and back, for every heat; with inverse conversions this equals the parsed byte colour |
| Color.GradientHitsStops | src/color.rs:31-77 | with inverse conversions and a mix that returns its ends at 0 and 1, heat k / (n - 1) shows exactly stop k's colour |
| Color.GradientEnds | src/color.rs:31-77 | under the same assumptions, heat 0 shows the first stop's colour and heat 1 the last stop's |
| Color.HeatmapRunsBlackToWhite | src/color.rs:4-6 | under the same assumptions, the heat-map palette shows black at heat 0 and white at heat 1 |

## Left out

- The Oklab conversions and `mix` belong to the `palette` crate. They are the opaque `ColorSpace` functions. Lemmas that need them to behave assume it through `Color.Faithful`.
- The falloff `cos(d * PI / 2)` is the `Falloff` parameter. No property of the cosine is assumed except where a lemma's `requires` clause states one.
- f32 rounding is not modelled. Scores, positions and colour channels are exact reals. For example, `(x / 255.0) * 255.0` is exactly `x`, which f32 does not guarantee.
- Calculation.ScoreAt: the string length must be positive. Every caller passes a length from the slider range 500 to 1000 mm (src/app.rs:15, src/app.rs:50), so a zero or negative length never reaches the search or the heat map.
- The NaN panics of `partial_cmp(...).unwrap()` are not modelled, because reals are totally ordered.
- Harmonic 0 would make `get_anti_nodes_for_harmonic` divide by zero. Callers only pass harmonics 2 to 7, so the model requires a harmonic of at least 1.
- `u8` harmonics and `usize` indices are unbounded naturals. All values used stay far below those widths.
- `draw_visualization` is not part of this model: painting, pixel geometry, `.round()` and text layout. Of it, only the `max_heat` fold and the normalisation are modelled.
- The alpha channel of `Color32` is always opaque, so it is not represented.
- `HarmonicApp` carries only the three fields the modelled code reads: the string length, the weights and the heat-map resolution.
- `src/app.rs` and `src/main.rs` are not part of this model. They are UI panels and window setup.
