/** The numeric part of the visualiser: the heat map sampled across the whole
    string with the search's own score, its running maximum, the per-entry
    normalisation used to colour it, and the fixed height of the drawing. */
module Visualizer {
  import opened Calculation

  /** The part of the application state the heat map reads. `weights` has
      one entry per harmonic 2..7. */
  datatype HarmonicApp = HarmonicApp(
    stringLength: real,
    weights: seq<real>,
    heatMapResolution: nat)

  /** What the heat map needs of the state: a positive length and six weights. */
  predicate Scorable(app: HarmonicApp)
  {
    app.stringLength > 0.0 && |app.weights| == HarmonicCount
  }

  /** Position of heat-map entry i: (i / resolution) * length. */
  function HeatSamplePosition(i: nat, resolution: nat, length: real): real
    requires resolution > 0
  {
    (i as real / resolution as real) * length
  }

  /** The heat map as a value: entry i is the score at HeatSamplePosition(i). */
  function HeatMap(app: HarmonicApp, falloff: Falloff): (heat: seq<real>)
    requires Scorable(app)
    ensures |heat| == app.heatMapResolution
  {
    seq(app.heatMapResolution, i requires 0 <= i < app.heatMapResolution =>
      ScoreAt(HeatSamplePosition(i, app.heatMapResolution, app.stringLength),
              app.stringLength, app.weights, falloff))
  }

  /** Allocates a zeroed buffer of heatMapResolution entries and fills each
      slot with the score at its sample position. */
  method CalculateHeatMap(app: HarmonicApp, falloff: Falloff) returns (heatMap: array<real>)
    requires Scorable(app)
    ensures fresh(heatMap)
    ensures heatMap[..] == HeatMap(app, falloff)
  {
    heatMap := new real[app.heatMapResolution](_ => 0.0);
    for i := 0 to heatMap.Length
      invariant forall j :: 0 <= j < i ==> heatMap[j] == HeatMap(app, falloff)[j]
    {
      var pos := HeatSamplePosition(i, app.heatMapResolution, app.stringLength);
      heatMap[i] := ScoreAt(pos, app.stringLength, app.weights, falloff);
    }
  }

  /** Heat-map samples cover the string from the bridge (entry 0 at 0) up to,
      but never onto, the nut. */
  lemma HeatSamplesOnString(i: nat, resolution: nat, length: real)
    requires length > 0.0 && i < resolution
    ensures 0.0 <= HeatSamplePosition(i, resolution, length) < length
    ensures i == 0 ==> HeatSamplePosition(i, resolution, length) == 0.0
  {
    var f := i as real / resolution as real;
    assert 0.0 <= f < 1.0;
    MulStrictlyMonotone(f, 1.0, length);
    if i > 0 {
      MulStrictlyMonotone(0.0, f, length);
    }
  }

  /** The heat map and the pickup search score a shared position identically:
      when entry i of the heat map and search sample j sit at the same
      fraction of the string, they hold the same score. */
  lemma HeatMapAgreesWithSearch(app: HarmonicApp, searchLimit: nat, falloff: Falloff, i: nat, j: nat)
    requires Scorable(app) && i < app.heatMapResolution && j <= searchLimit
    requires i as real / app.heatMapResolution as real == j as real / Resolution as real
    ensures HeatMap(app, falloff)[i]
      == ScoreTable(app.stringLength, app.weights, searchLimit, falloff)[j].score
  {
    assert HeatSamplePosition(i, app.heatMapResolution, app.stringLength)
      == SamplePosition(j, app.stringLength);
  }

  function Max(a: real, b: real): real { if a < b then b else a }

  /** The heat map's maximum, folded from 0.0 with max. */
  function MaxHeat(heat: seq<real>): (m: real)
    ensures m >= 0.0
    ensures forall i :: 0 <= i < |heat| ==> heat[i] <= m
    ensures m == 0.0 || exists i :: 0 <= i < |heat| && heat[i] == m
  {
    if heat == [] then 0.0
    else Max(MaxHeat(heat[..|heat| - 1]), heat[|heat| - 1])
  }

  /** One entry's share of the maximum, or 0 when the maximum is not positive.
      An entry between 0 and the maximum maps into [0, 1], the maximum itself
      to 1. */
  function NormalizedHeat(heat: real, maxHeat: real): (nh: real)
    ensures 0.0 <= heat <= maxHeat ==> 0.0 <= nh <= 1.0
    ensures heat == maxHeat > 0.0 ==> nh == 1.0
  {
    if maxHeat > 0.0 then
      if heat <= maxHeat then RatioBounds(heat, maxHeat); heat / maxHeat
      else heat / maxHeat
    else 0.0
  }

  /** Normalised entries never exceed 1, are non-negative when the entry is,
      and the largest entry of a heat map with a positive peak maps to 1. */
  lemma NormalizedHeatRange(heat: seq<real>, i: nat)
    requires i < |heat|
    ensures NormalizedHeat(heat[i], MaxHeat(heat)) <= 1.0
    ensures heat[i] >= 0.0 ==> NormalizedHeat(heat[i], MaxHeat(heat)) >= 0.0
    ensures heat[i] == MaxHeat(heat) > 0.0 ==> NormalizedHeat(heat[i], MaxHeat(heat)) == 1.0
  {
    var h, m := heat[i], MaxHeat(heat);
    if m > 0.0 {
      RatioBounds(h, m);
    }
  }

  lemma RatioBounds(x: real, m: real)
    requires m > 0.0 && x <= m
    ensures x / m <= 1.0
    ensures x >= 0.0 ==> x / m >= 0.0
    ensures x == m ==> x / m == 1.0
  {
    var r := x / m;
    assert r * m == x;
    if r > 1.0 {
      MulStrictlyMonotone(1.0, r, m);
    }
    if x >= 0.0 && r < 0.0 {
      MulStrictlyMonotone(r, 0.0, m);
    }
  }

  /** Height of the drawing: padding, label, heat map, gap, six harmonic rows
      and bottom padding. It does not depend on the application state. */
  function CalculateVisualizerHeight(app: HarmonicApp): (height: real)
    ensures height == 267.0
  {
    var topPadding := 50.0;
    var labelHeight := 10.0;
    var heatMapHeight := 60.0;
    var gapAfterHeatMap := 25.0;
    var harmonicSpacing := 22.0;
    var numHarmonics := 6;
    var bottomPadding := 10.0;
    topPadding - labelHeight + heatMapHeight + gapAfterHeatMap
      + numHarmonics as real * harmonicSpacing + bottomPadding
  }
}
