/** Pickup-placement search: anti-node positions, the per-position harmonic
    score, the sampled score table, the bridge peak, the exclusion walk around
    it and the neck pick outside the excluded window.

    Scores are exact reals. The cosine falloff curve is a parameter (any total
    function on reals), so nothing proved here depends on its values unless a
    lemma says so in its requires clause. */
module Calculation {

  datatype Option<T> = None | Some(value: T)

  /** The two recommended placements, measured from the bridge. */
  datatype OptimalPositions = OptimalPositions(bridgePosition: real, neckPosition: real)

  /** One row of the score table: a position along the string and its score. */
  datatype Sample = Sample(pos: real, score: real)

  /** Falloff applied to a normalised distance; the program uses cos(d * pi / 2). */
  type Falloff = real -> real

  /** Samples per string length in the search table. */
  const Resolution: nat := 1000

  /** Weights cover harmonics FirstHarmonic .. FirstHarmonic + HarmonicCount - 1, i.e. 2..7. */
  const FirstHarmonic: nat := 2
  const HarmonicCount: nat := 6

  function Abs(x: real): real { if x < 0.0 then -x else x }

  // ---------------------------------------------------------------------------
  // Anti-nodes

  /** The `harmonic` anti-node positions of a string of the given length. */
  function AntiNodes(length: real, harmonic: nat): (nodes: seq<real>)
    requires harmonic >= 1
    ensures |nodes| == harmonic
  {
    var segmentLength := length / harmonic as real;
    seq(harmonic, i requires 0 <= i < harmonic => (i as real + 0.5) * segmentLength)
  }

  /** Anti-nodes start half a segment from the bridge, are evenly spaced one
      segment apart, increase strictly and all lie strictly inside the string. */
  lemma AntiNodesLayout(length: real, harmonic: nat)
    requires length > 0.0 && harmonic >= 1
    ensures AntiNodes(length, harmonic)[0] == 0.5 * length / harmonic as real
    ensures forall i :: 0 <= i < harmonic - 1 ==>
      AntiNodes(length, harmonic)[i + 1] - AntiNodes(length, harmonic)[i] == length / harmonic as real
    ensures forall i, j :: 0 <= i < j < harmonic ==>
      AntiNodes(length, harmonic)[i] < AntiNodes(length, harmonic)[j]
    ensures forall i :: 0 <= i < harmonic ==>
      0.0 < AntiNodes(length, harmonic)[i] < length
  {
    var h := harmonic as real;
    SegmentLength(length, h);
    AntiNodeAt(length, harmonic, 0);
    AntiNodesInside(length, harmonic);
    AntiNodesSpacing(length, harmonic);
    AntiNodesIncreasing(length, harmonic);
  }

  lemma AntiNodesInside(length: real, harmonic: nat)
    requires length > 0.0 && harmonic >= 1
    ensures forall i :: 0 <= i < harmonic ==> 0.0 < AntiNodes(length, harmonic)[i] < length
  {
    var h := harmonic as real;
    var seg := length / h;
    SegmentLength(length, h);
    forall i | 0 <= i < harmonic
      ensures 0.0 < AntiNodes(length, harmonic)[i] < length
    {
      AntiNodeAt(length, harmonic, i);
      InsideString(i as real, h, seg, length);
    }
  }

  lemma AntiNodesSpacing(length: real, harmonic: nat)
    requires harmonic >= 1
    ensures forall i :: 0 <= i < harmonic - 1 ==>
      AntiNodes(length, harmonic)[i + 1] - AntiNodes(length, harmonic)[i] == length / harmonic as real
  {
    var seg := length / harmonic as real;
    forall i | 0 <= i < harmonic - 1
      ensures AntiNodes(length, harmonic)[i + 1] - AntiNodes(length, harmonic)[i] == seg
    {
      AntiNodeAt(length, harmonic, i);
      AntiNodeAt(length, harmonic, i + 1);
      NextSegment(i as real + 0.5, seg);
    }
  }

  lemma AntiNodesIncreasing(length: real, harmonic: nat)
    requires length > 0.0 && harmonic >= 1
    ensures forall i, j :: 0 <= i < j < harmonic ==>
      AntiNodes(length, harmonic)[i] < AntiNodes(length, harmonic)[j]
  {
    var seg := length / harmonic as real;
    SegmentLength(length, harmonic as real);
    forall i, j | 0 <= i < j < harmonic
      ensures AntiNodes(length, harmonic)[i] < AntiNodes(length, harmonic)[j]
    {
      AntiNodeAt(length, harmonic, i);
      AntiNodeAt(length, harmonic, j);
      MulStrictlyMonotone(i as real + 0.5, j as real + 0.5, seg);
    }
  }

  lemma AntiNodeAt(length: real, harmonic: nat, i: nat)
    requires harmonic >= 1 && i < harmonic
    ensures AntiNodes(length, harmonic)[i] == (i as real + 0.5) * (length / harmonic as real)
  {
  }

  lemma SegmentLength(length: real, h: real)
    requires length > 0.0 && h >= 1.0
    ensures length / h > 0.0 && h * (length / h) == length
    ensures 0.5 * (length / h) == 0.5 * length / h
  {
  }

  /** The midpoint of segment a (0 <= a <= h - 1) lies strictly inside [0, h * seg]. */
  lemma InsideString(a: real, h: real, seg: real, length: real)
    requires 0.0 <= a <= h - 1.0 && seg > 0.0 && h * seg == length
    ensures 0.0 < (a + 0.5) * seg < length
  {
    MulStrictlyMonotone(0.0, a + 0.5, seg);
    MulStrictlyMonotone(a + 0.5, h, seg);
  }

  lemma NextSegment(a: real, seg: real)
    ensures (a + 1.0) * seg - a * seg == seg
  {
  }

  lemma MulStrictlyMonotone(a: real, b: real, c: real)
    requires a < b && c > 0.0
    ensures a * c < b * c
  {
  }

  // ---------------------------------------------------------------------------
  // Score of one position

  /** Smallest distance from `pos` to any of `nodes` (a left fold with min). */
  function MinDistance(pos: real, nodes: seq<real>): (d: real)
    requires |nodes| > 0
    ensures d >= 0.0
  {
    if |nodes| == 1 then Abs(pos - nodes[0])
    else
      var soFar := MinDistance(pos, nodes[..|nodes| - 1]);
      var last := Abs(pos - nodes[|nodes| - 1]);
      if last < soFar then last else soFar
  }

  /** No node is closer than the minimum distance. */
  lemma {:induction false} MinDistanceIsLowest(pos: real, nodes: seq<real>)
    requires |nodes| > 0
    ensures forall i :: 0 <= i < |nodes| ==> MinDistance(pos, nodes) <= Abs(pos - nodes[i])
  {
    if |nodes| > 1 {
      var prefix := nodes[..|nodes| - 1];
      MinDistanceIsLowest(pos, prefix);
      assert forall i :: 0 <= i < |prefix| ==> prefix[i] == nodes[i];
    }
  }

  /** The minimum is attained: it is the distance to one of the nodes. */
  lemma {:induction false} MinDistanceAttained(pos: real, nodes: seq<real>)
    requires |nodes| > 0
    ensures exists i :: 0 <= i < |nodes| && MinDistance(pos, nodes) == Abs(pos - nodes[i])
  {
    if |nodes| > 1 {
      var prefix := nodes[..|nodes| - 1];
      MinDistanceAttained(pos, prefix);
      var i :| 0 <= i < |prefix| && MinDistance(pos, prefix) == Abs(pos - prefix[i]);
      var last := |nodes| - 1;
      assert prefix[i] == nodes[i];
      if Abs(pos - nodes[last]) < MinDistance(pos, prefix) {
        assert MinDistance(pos, nodes) == Abs(pos - nodes[last]);
      } else {
        assert MinDistance(pos, nodes) == Abs(pos - nodes[i]);
      }
    } else {
      assert MinDistance(pos, nodes) == Abs(pos - nodes[0]);
    }
  }

  /** Half the spacing between neighbouring anti-nodes of `harmonic`. */
  function Wavelength(length: real, harmonic: nat): real
    requires harmonic >= 1
  {
    length / (harmonic as real * 2.0)
  }

  /** Distance to the nearest anti-node of `harmonic` in wavelengths, capped at 1. */
  function NormalizedDistance(pos: real, length: real, harmonic: nat): (nd: real)
    requires length > 0.0 && harmonic >= 1
    ensures 0.0 <= nd <= 1.0
  {
    var minDist := MinDistance(pos, AntiNodes(length, harmonic));
    var ratio := minDist / Wavelength(length, harmonic);
    if ratio < 1.0 then ratio else 1.0
  }

  /** On the string the nearest anti-node is never more than one wavelength
      away, so the cap at 1 only takes effect off the string. */
  lemma NearestAntiNodeWithinWavelength(pos: real, length: real, harmonic: nat)
    requires length > 0.0 && harmonic >= 1 && 0.0 <= pos <= length
    ensures MinDistance(pos, AntiNodes(length, harmonic)) <= Wavelength(length, harmonic)
    ensures NormalizedDistance(pos, length, harmonic)
      == MinDistance(pos, AntiNodes(length, harmonic)) / Wavelength(length, harmonic)
  {
    var nodes := AntiNodes(length, harmonic);
    var i := AntiNodeNear(pos, length, harmonic);
    var minDist, w := MinDistance(pos, nodes), Wavelength(length, harmonic);
    MinDistanceIsLowest(pos, nodes);
    assert minDist <= Abs(pos - nodes[i]);
    DivAtMostOne(minDist, w);
  }

  /** The anti-node whose segment contains `pos` lies within half a segment of it. */
  lemma AntiNodeNear(pos: real, length: real, harmonic: nat) returns (i: nat)
    requires length > 0.0 && harmonic >= 1 && 0.0 <= pos <= length
    ensures i < harmonic
    ensures Abs(pos - AntiNodes(length, harmonic)[i]) <= Wavelength(length, harmonic)
  {
    var h := harmonic as real;
    var seg := length / h;
    assert seg > 0.0;
    assert h * seg == length;
    i := SegmentContaining(pos, seg, harmonic);
    var lo := i as real * seg;
    MidpointOfSegment(i as real, seg);
    assert AntiNodes(length, harmonic)[i] == lo + seg / 2.0;
    assert Wavelength(length, harmonic) == seg / 2.0;
  }

  /** A point of [0, h * seg] lies in one of the h segments [i * seg, (i + 1) * seg]. */
  lemma SegmentContaining(pos: real, seg: real, h: nat) returns (i: nat)
    requires seg > 0.0 && h >= 1 && 0.0 <= pos <= h as real * seg
    ensures i < h
    ensures i as real * seg <= pos <= i as real * seg + seg
  {
    ScaleBack(pos, seg, h as real);
    i := UnitCellContaining(pos / seg, h);
    ScaleCell(i as real, pos, seg);
  }

  /** Dividing by a positive seg keeps a point of [0, h * seg] within [0, h]. */
  lemma ScaleBack(pos: real, seg: real, h: real)
    requires seg > 0.0 && 0.0 <= pos <= h * seg
    ensures (pos / seg) * seg == pos
    ensures 0.0 <= pos / seg <= h
  {
    if pos / seg > h {
      MulStrictlyMonotone(h, pos / seg, seg);
    }
  }

  /** A point of [0, h] lies in one of the unit cells [i, i + 1] with i < h. */
  lemma UnitCellContaining(q: real, h: nat) returns (i: nat)
    requires h >= 1 && 0.0 <= q <= h as real
    ensures i < h && i as real <= q <= i as real + 1.0
  {
    var k := q.Floor;
    i := if k < h then k else h - 1;
  }

  /** If pos / seg lies in the cell [a, a + 1] then pos lies in [a * seg, a * seg + seg]. */
  lemma ScaleCell(a: real, pos: real, seg: real)
    requires seg > 0.0 && a <= pos / seg <= a + 1.0
    ensures a * seg <= pos <= a * seg + seg
  {
    var q := pos / seg;
    MulMonotone(a, q, seg);
    MulMonotone(q, a + 1.0, seg);
    var lo, qs, hi := a * seg, q * seg, (a + 1.0) * seg;
    assert lo <= qs <= hi;
    assert hi == lo + seg;
    assert qs == pos;
  }

  lemma MidpointOfSegment(a: real, seg: real)
    ensures (a + 0.5) * seg == a * seg + seg / 2.0
  {
  }

  lemma DivAtMostOne(x: real, w: real)
    requires 0.0 <= x <= w && w > 0.0
    ensures x / w <= 1.0
  {
  }

  lemma MulMonotone(a: real, b: real, c: real)
    requires a <= b && c > 0.0
    ensures a * c <= b * c
  {
  }

  /** At an anti-node of `harmonic` that harmonic's normalised distance is 0,
      so it contributes weight * falloff(0), its largest value under cos. */
  lemma OnAntiNode(length: real, harmonic: nat, i: nat)
    requires length > 0.0 && harmonic >= 1 && i < harmonic
    ensures NormalizedDistance(AntiNodes(length, harmonic)[i], length, harmonic) == 0.0
  {
    var nodes := AntiNodes(length, harmonic);
    MinDistanceIsLowest(nodes[i], nodes);
    assert Abs(nodes[i] - nodes[i]) == 0.0;
  }

  /** One harmonic's contribution at `pos`: its weight times the falloff of
      the normalised distance to its nearest anti-node. */
  function HarmonicTerm(pos: real, length: real, weight: real, harmonic: nat, falloff: Falloff): real
    requires length > 0.0 && harmonic >= 1
  {
    weight * falloff(NormalizedDistance(pos, length, harmonic))
  }

  /** The six per-harmonic terms at `pos`, weights[k] paired with harmonic k + 2. */
  function HarmonicTerms(pos: real, length: real, weights: seq<real>, falloff: Falloff): (terms: seq<real>)
    requires length > 0.0 && |weights| == HarmonicCount
    ensures |terms| == HarmonicCount
  {
    seq(HarmonicCount, k requires 0 <= k < HarmonicCount =>
      HarmonicTerm(pos, length, weights[k], FirstHarmonic + k, falloff))
  }

  function Sum(xs: seq<real>): real
  {
    if xs == [] then 0.0 else xs[0] + Sum(xs[1..])
  }

  /** The score the search and the heat map both use: the sum of the
      per-harmonic terms over harmonics 2..7. */
  function ScoreAt(pos: real, length: real, weights: seq<real>, falloff: Falloff): real
    requires length > 0.0 && |weights| == HarmonicCount
  {
    Sum(HarmonicTerms(pos, length, weights, falloff))
  }

  /** A sum whose entries are all zero except xs[k] equals xs[k]. */
  lemma {:induction false} SumSingle(xs: seq<real>, k: nat)
    requires k < |xs|
    requires forall j :: 0 <= j < |xs| && j != k ==> xs[j] == 0.0
    ensures Sum(xs) == xs[k]
  {
    if k == 0 {
      SumZero(xs[1..]);
    } else {
      SumSingle(xs[1..], k - 1);
    }
  }

  lemma {:induction false} SumZero(xs: seq<real>)
    requires forall j :: 0 <= j < |xs| ==> xs[j] == 0.0
    ensures Sum(xs) == 0.0
  {
    if xs != [] {
      SumZero(xs[1..]);
    }
  }

  /** Entry-wise bounds 0 <= xs[j] <= ys[j] carry over to the sums. */
  lemma {:induction false} SumBounds(xs: seq<real>, ys: seq<real>)
    requires |xs| == |ys|
    requires forall j :: 0 <= j < |xs| ==> 0.0 <= xs[j] <= ys[j]
    ensures 0.0 <= Sum(xs) <= Sum(ys)
  {
    if xs != [] {
      SumBounds(xs[1..], ys[1..]);
    }
  }

  /** Term k of the score is weights[k] applied to harmonic k + 2. */
  lemma HarmonicTermAt(pos: real, length: real, weights: seq<real>, falloff: Falloff, k: nat)
    requires length > 0.0 && |weights| == HarmonicCount && k < HarmonicCount
    ensures HarmonicTerms(pos, length, weights, falloff)[k] == HarmonicTerm(pos, length, weights[k], k + 2, falloff)
  {
  }

  /** Weight k is paired with harmonic k + 2: when every other weight is zero
      the score is exactly that harmonic's term. */
  lemma ScoreIsolatesHarmonic(pos: real, length: real, weights: seq<real>, k: nat, falloff: Falloff)
    requires length > 0.0 && |weights| == HarmonicCount && k < HarmonicCount
    requires forall j :: 0 <= j < HarmonicCount && j != k ==> weights[j] == 0.0
    ensures ScoreAt(pos, length, weights, falloff) == HarmonicTerm(pos, length, weights[k], k + 2, falloff)
  {
    var terms := HarmonicTerms(pos, length, weights, falloff);
    HarmonicTermAt(pos, length, weights, falloff, k);
    forall j | 0 <= j < HarmonicCount && j != k
      ensures terms[j] == 0.0
    {
      HarmonicTermAt(pos, length, weights, falloff, j);
    }
    SumSingle(terms, k);
  }

  /** All-zero weights give a zero score, whatever the falloff. */
  lemma ScoreOfZeroWeights(pos: real, length: real, weights: seq<real>, falloff: Falloff)
    requires length > 0.0 && |weights| == HarmonicCount
    requires forall j :: 0 <= j < HarmonicCount ==> weights[j] == 0.0
    ensures ScoreAt(pos, length, weights, falloff) == 0.0
  {
    var terms := HarmonicTerms(pos, length, weights, falloff);
    forall j | 0 <= j < HarmonicCount
      ensures terms[j] == 0.0
    {
      assert weights[j] == 0.0;
    }
    SumZero(terms);
  }

  /** With non-negative weights and a falloff mapping [0, 1] into [0, 1] (as
      cos(d * pi / 2) does), every score lies between 0 and the weight total. */
  lemma ScoreBounds(pos: real, length: real, weights: seq<real>, falloff: Falloff)
    requires length > 0.0 && |weights| == HarmonicCount
    requires forall j :: 0 <= j < HarmonicCount ==> weights[j] >= 0.0
    requires forall d :: 0.0 <= d <= 1.0 ==> 0.0 <= falloff(d) <= 1.0
    ensures 0.0 <= ScoreAt(pos, length, weights, falloff) <= Sum(weights)
  {
    var terms := HarmonicTerms(pos, length, weights, falloff);
    forall j | 0 <= j < HarmonicCount
      ensures 0.0 <= terms[j] <= weights[j]
    {
      HarmonicTermAt(pos, length, weights, falloff, j);
      var w, f := weights[j], falloff(NormalizedDistance(pos, length, j + 2));
      var t := w * f;
      assert terms[j] == t;
      WeightedFalloffBounds(w, f);
      assert 0.0 <= t <= w;
    }
    SumBounds(terms, weights);
  }

  lemma WeightedFalloffBounds(w: real, f: real)
    requires w >= 0.0 && 0.0 <= f <= 1.0
    ensures 0.0 <= w * f <= w
  {
    if w > 0.0 {
      MulMonotone(0.0, f, w);
      MulMonotone(f, 1.0, w);
    }
  }

  // ---------------------------------------------------------------------------
  // The score table

  /** Position of search sample i: (i / 1000) * length. */
  function SamplePosition(i: nat, length: real): real
  {
    (i as real / Resolution as real) * length
  }

  /** Samples 0..searchLimit (inclusive) with their scores. */
  function ScoreTable(length: real, weights: seq<real>, searchLimit: nat, falloff: Falloff): (table: seq<Sample>)
    requires length > 0.0 && |weights| == HarmonicCount
    ensures |table| == searchLimit + 1
  {
    seq(searchLimit + 1, i requires 0 <= i <= searchLimit =>
      Sample(SamplePosition(i, length), ScoreAt(SamplePosition(i, length), length, weights, falloff)))
  }

  /** Sample positions grow with the index, from 0 at the bridge up to
      (searchLimit / 1000) * length. */
  lemma SamplePositionInRange(i: nat, searchLimit: nat, length: real)
    requires length > 0.0 && i <= searchLimit
    ensures 0.0 <= SamplePosition(i, length) <= SamplePosition(searchLimit, length)
  {
    MulMonotone(i as real / Resolution as real, searchLimit as real / Resolution as real, length);
  }

  // ---------------------------------------------------------------------------
  // Maximum search

  /** The maximum of `xs` by score, ties going to the LATER element (the
      behaviour of Iterator::max_by); None for an empty sequence. */
  function MaxByScore(xs: seq<Sample>): (r: Option<nat>)
    ensures r.None? <==> |xs| == 0
    ensures r.Some? ==> r.value < |xs|
    ensures r.Some? ==> forall j :: 0 <= j < |xs| ==> xs[j].score <= xs[r.value].score
    ensures r.Some? ==> forall j :: r.value < j < |xs| ==> xs[j].score < xs[r.value].score
  {
    if |xs| == 0 then None
    else
      match MaxByScore(xs[..|xs| - 1])
      case None => Some(0)
      case Some(m) => if xs[m].score <= xs[|xs| - 1].score then Some(|xs| - 1) else Some(m)
  }

  /** Index of the bridge sample: the last sample holding the global maximum. */
  function BridgeIndex(s: seq<Sample>): (b: nat)
    requires |s| > 0
    ensures b < |s|
  {
    MaxByScore(s).value
  }

  // ---------------------------------------------------------------------------
  // Exclusion walk

  /** The left walk stops at sample i (i < b) when its score rises above its
      right neighbour's, or when it is at least 10% of the string from the
      bridge and scores below half the bridge's score. */
  predicate StopsLeftAt(s: seq<Sample>, b: nat, i: nat, length: real)
    requires i < b < |s|
  {
    s[i].score > s[i + 1].score
    || (Abs(s[b].pos - s[i].pos) >= length * 0.1 && s[i].score < s[b].score * 0.5)
  }

  /** The mirror image for the right walk, at sample i (i > b). */
  predicate StopsRightAt(s: seq<Sample>, b: nat, i: nat, length: real)
    requires b < i < |s|
  {
    s[i].score > s[i - 1].score
    || (Abs(s[i].pos - s[b].pos) >= length * 0.1 && s[i].score < s[b].score * 0.5)
  }

  /** Where the left walk ends once it has reached sample j. */
  function LeftBoundFrom(s: seq<Sample>, b: nat, length: real, j: nat): (left: nat)
    requires j <= b < |s|
    ensures left <= j
    ensures forall i :: left <= i < j ==> !StopsLeftAt(s, b, i, length)
    ensures left > 0 ==> StopsLeftAt(s, b, left - 1, length)
    decreases j
  {
    if j == 0 then 0
    else if StopsLeftAt(s, b, j - 1, length) then j
    else LeftBoundFrom(s, b, length, j - 1)
  }

  /** Where the right walk ends once it has reached sample j. */
  function RightBoundFrom(s: seq<Sample>, b: nat, length: real, j: nat): (right: nat)
    requires b <= j < |s|
    ensures j <= right < |s|
    ensures forall i :: j < i <= right ==> !StopsRightAt(s, b, i, length)
    ensures right < |s| - 1 ==> StopsRightAt(s, b, right + 1, length)
    decreases |s| - j
  {
    if j == |s| - 1 then j
    else if StopsRightAt(s, b, j + 1, length) then j
    else RightBoundFrom(s, b, length, j + 1)
  }

  function LeftBound(s: seq<Sample>, b: nat, length: real): nat
    requires b < |s|
  {
    LeftBoundFrom(s, b, length, b)
  }

  function RightBound(s: seq<Sample>, b: nat, length: real): nat
    requires b < |s|
  {
    RightBoundFrom(s, b, length, b)
  }

  /** The two walks outward from the bridge sample b, as the program runs them. */
  method FindExclusionWindow(s: seq<Sample>, b: nat, length: real) returns (left: nat, right: nat)
    requires b < |s|
    ensures left == LeftBound(s, b, length)
    ensures right == RightBound(s, b, length)
  {
    var minExclusionDistance := length * 0.1;
    var bridgePos, bridgeScore := s[b].pos, s[b].score;
    left, right := b, b;

    var prevScore := bridgeScore;
    for i := b downto 0
      invariant left == i && prevScore == s[i].score
      invariant LeftBoundFrom(s, b, length, i) == LeftBound(s, b, length)
    {
      var currScore := s[i].score;
      if currScore > prevScore {
        break;
      }
      if Abs(bridgePos - s[i].pos) >= minExclusionDistance {
        if currScore < bridgeScore * 0.5 {
          break;
        }
      }
      left := i;
      prevScore := currScore;
    }

    prevScore := bridgeScore;
    for i := b + 1 to |s|
      invariant right == i - 1 && prevScore == s[i - 1].score
      invariant RightBoundFrom(s, b, length, i - 1) == RightBound(s, b, length)
    {
      var currScore := s[i].score;
      if currScore > prevScore {
        break;
      }
      if Abs(s[i].pos - bridgePos) >= minExclusionDistance {
        if currScore < bridgeScore * 0.5 {
          break;
        }
      }
      right := i;
      prevScore := currScore;
    }
  }

  /** The window brackets the bridge; scores never fall towards the bridge on
      its left and never rise away from it on its right; every walked sample
      that is far from the bridge still scores at least half the peak; and
      each walk ended for one of its two reasons (or at the table's end). */
  lemma {:induction false} ExclusionWindowShape(s: seq<Sample>, b: nat, length: real)
    requires b < |s|
    ensures LeftBound(s, b, length) <= b <= RightBound(s, b, length) < |s|
    ensures forall i, j :: LeftBound(s, b, length) <= i <= j <= b ==> s[i].score <= s[j].score
    ensures forall i, j :: b <= i <= j <= RightBound(s, b, length) ==> s[j].score <= s[i].score
    ensures forall i :: (LeftBound(s, b, length) <= i <= RightBound(s, b, length) && i != b
      && Abs(s[i].pos - s[b].pos) >= length * 0.1) ==> s[i].score >= s[b].score * 0.5
    ensures LeftBound(s, b, length) > 0 ==>
      var l := LeftBound(s, b, length);
      s[l - 1].score > s[l].score
      || (Abs(s[b].pos - s[l - 1].pos) >= length * 0.1 && s[l - 1].score < s[b].score * 0.5)
    ensures RightBound(s, b, length) < |s| - 1 ==>
      var r := RightBound(s, b, length);
      s[r + 1].score > s[r].score
      || (Abs(s[r + 1].pos - s[b].pos) >= length * 0.1 && s[r + 1].score < s[b].score * 0.5)
  {
    var l, r := LeftBound(s, b, length), RightBound(s, b, length);
    forall i, j | l <= i <= j <= b
      ensures s[i].score <= s[j].score
    {
      RisingTowardsBridge(s, b, length, l, i, j);
    }
    forall i, j | b <= i <= j <= r
      ensures s[j].score <= s[i].score
    {
      FallingAwayFromBridge(s, b, length, r, i, j);
    }
    forall i | l <= i <= r && i != b && Abs(s[i].pos - s[b].pos) >= length * 0.1
      ensures s[i].score >= s[b].score * 0.5
    {
      if i < b {
        assert !StopsLeftAt(s, b, i, length);
        assert Abs(s[b].pos - s[i].pos) == Abs(s[i].pos - s[b].pos);
      } else {
        assert !StopsRightAt(s, b, i, length);
      }
    }
  }

  lemma {:induction false} RisingTowardsBridge(s: seq<Sample>, b: nat, length: real, l: nat, i: nat, j: nat)
    requires b < |s| && l == LeftBound(s, b, length) && l <= i <= j <= b
    ensures s[i].score <= s[j].score
    decreases j - i
  {
    if i < j {
      assert !StopsLeftAt(s, b, i, length);
      RisingTowardsBridge(s, b, length, l, i + 1, j);
    }
  }

  lemma {:induction false} FallingAwayFromBridge(s: seq<Sample>, b: nat, length: real, r: nat, i: nat, j: nat)
    requires b < |s| && r == RightBound(s, b, length) && b <= i <= j <= r
    ensures s[j].score <= s[i].score
    decreases j - i
  {
    if i < j {
      assert !StopsRightAt(s, b, j, length);
      FallingAwayFromBridge(s, b, length, r, i, j - 1);
    }
  }

  // ---------------------------------------------------------------------------
  // Neck selection

  /** The program chains s[0..left] and s[right..] (the right bound itself is a
      candidate), takes the last maximum by score and falls back to 30% of the
      length when there is no candidate. */
  function NeckPosition(s: seq<Sample>, left: nat, right: nat, length: real): real
    requires left <= |s| && right <= |s|
  {
    var candidates := s[..left] + s[right..];
    match MaxByScore(candidates)
    case Some(k) => candidates[k].pos
    case None => length * 0.3
  }

  /** Index into `s` of the sample the neck search picks: the last sample of
      maximal score among indices below `left` or from `right` on. */
  function NeckSampleIndex(s: seq<Sample>, left: nat, right: nat): (k: nat)
    requires left <= right < |s|
    ensures k < left || right <= k < |s|
    ensures forall j :: (0 <= j < left || right <= j < |s|) ==> s[j].score <= s[k].score
    ensures forall j :: k < j < |s| && (j < left || right <= j) ==> s[j].score < s[k].score
  {
    var candidates := s[..left] + s[right..];
    assert forall j :: 0 <= j < left ==> candidates[j] == s[j];
    assert forall j :: right <= j < |s| ==> candidates[j - right + left] == s[j];
    var m := MaxByScore(candidates).value;
    if m < left then m else m - left + right
  }

  /** The candidate set is never empty, so the 30% fallback never fires: the
      neck is always the position of NeckSampleIndex. */
  lemma NeckIsLastMaxOutsideWindow(s: seq<Sample>, left: nat, right: nat, length: real)
    requires left <= right < |s|
    ensures MaxByScore(s[..left] + s[right..]).Some?
    ensures NeckPosition(s, left, right, length) == s[NeckSampleIndex(s, left, right)].pos
  {
    var candidates := s[..left] + s[right..];
    var m := MaxByScore(candidates).value;
    if m >= left {
      assert candidates[m] == s[m - left + right];
    }
  }

  /** When the bridge is the last sample its right walk cannot move, the bridge
      sample is itself a neck candidate, and being the last global maximum it
      wins: the neck coincides with the bridge. */
  lemma NeckIsBridgeWhenBridgeIsLast(s: seq<Sample>, length: real)
    requires |s| > 0 && BridgeIndex(s) == |s| - 1
    ensures NeckPosition(s, LeftBound(s, |s| - 1, length), RightBound(s, |s| - 1, length), length)
      == s[|s| - 1].pos
  {
    var b := |s| - 1;
    var l, r := LeftBound(s, b, length), RightBound(s, b, length);
    ExclusionWindowShape(s, b, length);
    assert r == b;
    NeckIsLastMaxOutsideWindow(s, l, r, length);
  }

  // ---------------------------------------------------------------------------
  // The whole search

  /** What find_optimal_pickup_positions computes, as one expression. */
  function PickupPositions(length: real, weights: seq<real>, searchLimit: nat, falloff: Falloff): OptimalPositions
    requires length > 0.0 && |weights| == HarmonicCount
  {
    var s := ScoreTable(length, weights, searchLimit, falloff);
    var b := BridgeIndex(s);
    OptimalPositions(s[b].pos, NeckPosition(s, LeftBound(s, b, length), RightBound(s, b, length), length))
  }

  /** The search as the program runs it: table, bridge maximum, the two
      walks, then the neck among the samples left outside the window. */
  method FindOptimalPickupPositions(length: real, weights: seq<real>, searchLimit: nat, falloff: Falloff)
    returns (positions: OptimalPositions)
    requires length > 0.0 && |weights| == HarmonicCount
    ensures positions == PickupPositions(length, weights, searchLimit, falloff)
  {
    var scores := ScoreTable(length, weights, searchLimit, falloff);
    var bridgeIdx := MaxByScore(scores).value;
    var bridgePos := scores[bridgeIdx].pos;
    var leftBound, rightBound := FindExclusionWindow(scores, bridgeIdx, length);
    var neckPos := NeckPosition(scores, leftBound, rightBound, length);
    positions := OptimalPositions(bridgePos, neckPos);
  }

  /** Both results are sample positions: the bridge is the last global
      maximum of the table, the neck the last maximum outside the exclusion
      window, and both lie in [0, (searchLimit / 1000) * length]. */
  lemma PickupPositionsSpec(length: real, weights: seq<real>, searchLimit: nat, falloff: Falloff)
    requires length > 0.0 && |weights| == HarmonicCount
    ensures var s := ScoreTable(length, weights, searchLimit, falloff);
      var b := BridgeIndex(s);
      var p := PickupPositions(length, weights, searchLimit, falloff);
      && p.bridgePosition == SamplePosition(b, length)
      && (forall j :: 0 <= j < |s| ==> s[j].score <= s[b].score)
      && (forall j :: b < j < |s| ==> s[j].score < s[b].score)
      && p.neckPosition == SamplePosition(NeckSampleIndex(s, LeftBound(s, b, length), RightBound(s, b, length)), length)
      && 0.0 <= p.bridgePosition <= SamplePosition(searchLimit, length)
      && 0.0 <= p.neckPosition <= SamplePosition(searchLimit, length)
  {
    var s := ScoreTable(length, weights, searchLimit, falloff);
    var b := BridgeIndex(s);
    ExclusionWindowShape(s, b, length);
    var l, r := LeftBound(s, b, length), RightBound(s, b, length);
    NeckIsLastMaxOutsideWindow(s, l, r, length);
    var k := NeckSampleIndex(s, l, r);
    SamplePositionInRange(b, searchLimit, length);
    SamplePositionInRange(k, searchLimit, length);
  }

  /** With all weights zero every sample scores 0, so the last sample is the
      bridge and the neck coincides with it. */
  lemma ZeroWeightsCollapse(length: real, weights: seq<real>, searchLimit: nat, falloff: Falloff)
    requires length > 0.0 && |weights| == HarmonicCount
    requires forall j :: 0 <= j < HarmonicCount ==> weights[j] == 0.0
    ensures PickupPositions(length, weights, searchLimit, falloff)
      == OptimalPositions(SamplePosition(searchLimit, length), SamplePosition(searchLimit, length))
  {
    var s := ScoreTable(length, weights, searchLimit, falloff);
    forall j | 0 <= j < |s|
      ensures s[j].score == 0.0
    {
      ScoreOfZeroWeights(SamplePosition(j, length), length, weights, falloff);
    }
    NeckIsBridgeWhenBridgeIsLast(s, length);
  }

  /** With search limit 0 there is one sample, at the bridge, and both
      pickups are placed there. */
  lemma SingleSampleCollapse(length: real, weights: seq<real>, falloff: Falloff)
    requires length > 0.0 && |weights| == HarmonicCount
    ensures PickupPositions(length, weights, 0, falloff) == OptimalPositions(0.0, 0.0)
  {
    var s := ScoreTable(length, weights, 0, falloff);
    assert s[0].pos == SamplePosition(0, length) == 0.0;
    assert BridgeIndex(s) == 0;
    NeckIsBridgeWhenBridgeIsLast(s, length);
  }
}
