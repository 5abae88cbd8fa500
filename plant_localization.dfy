/**
 * The plant localizers of `src/util/plant_localization.py`.
 *
 * `RecursiveSplitPlantFilter` finds the plants of a segment between two codes. It lays the
 * expected plant positions along the segment part, keeps the candidates in the part's valid
 * range, and picks the candidate with the smallest penalty. When there is no candidate, or
 * no candidate with a penalty that is a number, it creates a plant at the first expected
 * position instead. It then splits the part at the chosen plant and handles both halves the
 * same way. A part too short for another plant is a leaf, and the leaves form a chain from
 * the segment's start code to its end code.
 *
 * `ClosestSinglePlantFilter` chooses the plant next to a single code.
 *
 * The candidates are the source's dicts. Each computation that writes `lateral`,
 * `projection` or `penalty` into them is modelled as a function that returns the updated
 * candidates, and a NaN penalty is `None`. Distances use the `sqrt` parameter, and a
 * created plant's position comes from `Geometry.ProjectionToPosition`.
 */
module PlantLocalization {
  import opened Wrappers
  import opened Geometry
  import opened FieldItems
  import opened Sorting

  /**
   * A possible plant: its position, its global rectangle, its `item_type` and, when the dict
   * has an `items` key, the item types of its parts. `lateral` and `projection` are the
   * values the last filter wrote into it.
   */
  datatype Candidate = Candidate(position: Point, rect: Rect, itemType: string, parts: Option<seq<string>>,
                                 lateral: real, projection: real)

  /**
   * An end of a segment part: a code, or a plant the localizer chose or created (kind `Plant`,
   * named "plant", with the projection it was found at).
   */
  datatype Mark = Mark(kind: Kind, position: Point, zone: string, rect: Option<Rect>, projection: Option<real>)

  /** `SegmentPart`: its start and end and the candidates still in play. */
  datatype Part = Part(start: Mark, end: Mark, candidates: seq<Candidate>)

  /** `SegmentPart.length`: the XY distance between its ends. */
  function Length(part: Part, sqrt: SqrtFn): real {
    PositionDifference(part.start.position, part.end.position, sqrt)
  }

  /**
   * The settings of a `RecursiveSplitPlantFilter`: the expected code and plant spacings,
   * the closest spacings (half of those), the three penalty scales and the two part
   * multipliers.
   */
  datatype Config = Config(codeSpacing: real, plantSpacing: real, closestCode: real, closestPlant: real,
                           lateralScale: real, projectionScale: real, closenessScale: real,
                           stickMultiplier: real, leafMultiplier: real)

  /**
   * Settings the localizer can run with. The multipliers are clamped to at least 1, so this
   * holds for every constructed filter with positive plant spacing. The expected positions
   * loop runs forever without positive plant spacing.
   */
  predicate ValidConfig(cfg: Config) {
    cfg.plantSpacing > 0.0 && cfg.stickMultiplier >= 1.0 && cfg.leafMultiplier >= 1.0
  }

  /** Python's `max(1, v)`. */
  function AtLeastOne(v: real): (r: real)
    ensures r >= 1.0 && (r == v || r == 1.0) && (v >= 1.0 ==> r == v)
  {
    if v > 1.0 then v else 1.0
  }

  // ---------------------------------------------------------------------------
  // calculate_expected_positions

  /** The first expected position: a full code spacing after a code, a plant spacing after a plant. */
  function StartOffset(cfg: Config, part: Part): real {
    if IsCode(part.start.kind) then cfg.codeSpacing else cfg.plantSpacing
  }

  /** The last place a plant may be: half a code spacing before a code, half a plant spacing before a plant. */
  function EndBound(cfg: Config, part: Part, sqrt: SqrtFn): real {
    Length(part, sqrt) - (if IsCode(part.end.kind) then cfg.closestCode else cfg.closestPlant)
  }

  /** How many steps of `step` from `first` stay at or below `last`. */
  function Steps(first: real, last: real, step: real): (n: nat)
    requires step > 0.0
  {
    if first > last then 0 else ((last - first) / step).Floor + 1
  }

  /** The positions `first`, `first + step`, ... up to `last`. */
  function Expected(first: real, last: real, step: real): (r: seq<real>)
    requires step > 0.0
    ensures |r| == Steps(first, last, step)
  {
    seq(Steps(first, last, step), k requires 0 <= k < Steps(first, last, step) => first + k as real * step)
  }

  /** `n` positions from `first`, the last of them at or below `last` and the next beyond it, are exactly `Steps`. */
  lemma StepsCount(first: real, last: real, step: real, n: nat)
    requires step > 0.0 && n >= 1
    requires first + (n - 1) as real * step <= last < first + n as real * step
    ensures Steps(first, last, step) == n
  {
    var q := (last - first) / step;
    assert q * step == last - first;
    MulLeInverse((n - 1) as real, q, step, (n - 1) as real * step, q * step);
    MulLtInverse(q, n as real, step, q * step, n as real * step);
  }

  /** One more step from a position at or below `last` leaves one step fewer. */
  lemma StepsNext(c: real, last: real, step: real)
    requires step > 0.0 && c <= last
    ensures Steps(c + step, last, step) == Steps(c, last, step) - 1
  {
    var q := (last - c) / step;
    assert q * step == last - c;
    if c + step > last {
      MulLtInverse(q, 1.0, step, q * step, 1.0 * step);
    } else {
      var q' := (last - (c + step)) / step;
      assert q' * step == last - c - step;
      assert (q - 1.0) * step == last - c - step;
      MulEqInverse(q', q - 1.0, step, q' * step, (q - 1.0) * step);
    }
  }

  /** Each position is one `step` after the one before it. */
  predicate Stepped(r: seq<real>, step: real) {
    forall k :: 0 <= k < |r| - 1 ==> r[k + 1] == r[k] + step
  }

  /** A stepped sequence is `r[0] + k * step` at each `k`. */
  lemma {:induction false} SteppedAt(r: seq<real>, step: real, k: nat)
    requires Stepped(r, step) && k < |r|
    ensures r[k] == r[0] + k as real * step
  {
    if k > 0 {
      SteppedAt(r, step, k - 1);
      assert r[k] == r[k - 1] + step;
      assert (k - 1) as real * step + step == k as real * step;
    }
  }

  /** A stepped sequence from `first` whose last position is at or below `last` and the next beyond it is `Expected`. */
  lemma SteppedIsExpected(r: seq<real>, first: real, last: real, step: real)
    requires step > 0.0 && r != [] && r[0] == first && Stepped(r, step)
    requires r[|r| - 1] <= last < r[|r| - 1] + step
    ensures r == Expected(first, last, step)
  {
    SteppedAt(r, step, |r| - 1);
    assert r[|r| - 1] + step == first + |r| as real * step;
    StepsCount(first, last, step, |r|);
    var e := Expected(first, last, step);
    forall k | 0 <= k < |r| ensures r[k] == e[k] {
      SteppedAt(r, step, k);
    }
  }

  /** The loop of `calculate_expected_positions`, on the first position, the end bound and the plant spacing. */
  method StepPositions(first: real, last: real, step: real) returns (r: seq<real>)
    requires step > 0.0
    ensures r == Expected(first, last, step)
  {
    if first > last {
      return [];
    }
    r := [first];
    var current := first;
    while true
      invariant r != [] && r[0] == first && current == r[|r| - 1] <= last
      invariant Stepped(r, step)
      decreases Steps(current, last, step)
    {
      StepsNext(current, last, step);
      current := current + step;
      if current > last {
        break;
      }
      r := r + [current];
    }
    SteppedIsExpected(r, first, last, step);
  }

  /**
   * The loop of `calculate_expected_positions` as written, for any plant spacing, run for at
   * most `fuel` turns: the positions found, or `None` when it has not stopped by then.
   */
  function ExpectedLoopAsWritten(acc: seq<real>, current: real, last: real, step: real, fuel: nat): (r: Option<seq<real>>)
    ensures r.Some? ==> acc <= r.value
    decreases fuel
  {
    if fuel == 0 then None
    else
      var next := current + step;
      if next > last then Some(acc) else ExpectedLoopAsWritten(acc + [next], next, last, step, fuel - 1)
  }

  /**
   * Without a positive plant spacing the position never passes the end bound, so once the
   * first position is at or below it the loop never stops, however many turns it is given.
   */
  lemma {:induction false} ExpectedLoopNeverStops(acc: seq<real>, current: real, last: real, step: real, fuel: nat)
    requires current <= last && step <= 0.0
    ensures ExpectedLoopAsWritten(acc, current, last, step, fuel) == None
    decreases fuel
  {
    if fuel > 0 {
      ExpectedLoopNeverStops(acc + [current + step], current + step, last, step, fuel - 1);
    }
  }

  /**
   * The expected positions are empty exactly when the first offset is beyond the end bound.
   * Otherwise they start at the offset, rise by one plant spacing each, stay at or below the
   * bound, and one more step would pass it.
   */
  lemma ExpectedProperties(first: real, last: real, step: real)
    requires step > 0.0
    ensures var r := Expected(first, last, step);
            && (r == [] <==> first > last)
            && (r != [] ==> r[0] == first && r[|r| - 1] <= last < r[|r| - 1] + step)
            && (forall k :: 0 <= k < |r| ==> r[k] <= last)
            && (forall k :: 0 <= k < |r| - 1 ==> r[k + 1] == r[k] + step)
  {
    var r := Expected(first, last, step);
    if first <= last {
      var q := (last - first) / step;
      var n := q.Floor;
      assert q * step == last - first;
      assert |r| == n + 1 && r[|r| - 1] == first + n as real * step;
      MulLe(n as real, q, step, n as real * step, q * step);
      MulLt(q, n as real + 1.0, step, q * step, (n as real + 1.0) * step);
      forall k | 0 <= k < |r| ensures r[k] <= last {
        MulLe(k as real, n as real, step, k as real * step, n as real * step);
      }
    }
  }

  /** Code spacing 0.3, plant spacing 0.6 and 3.6 between two codes: six positions from 0.3 to 3.3. */
  lemma ExpectedExample()
    ensures Expected(0.3, 3.6 - 0.3 / 2.0, 0.6) == [0.3, 0.9, 1.5, 2.1, 2.7, 3.3]
  {
    assert Steps(0.3, 3.6 - 0.3 / 2.0, 0.6) == 6;
  }

  // ---------------------------------------------------------------------------
  // The penalty ramps

  /** `calculate_lateral_penalty`: linear to 0.1 at 0.076, then linear to 1.0 at 0.15, NaN beyond. */
  function LateralPenalty(lateral: real): (r: Option<real>)
    ensures r.None? <==> Abs(lateral) > 0.15
  {
    var e := Abs(lateral);
    if e < 0.076 then Some((0.1 / 0.076) * e)
    else if e <= 0.15 then Some(((1.0 - 0.1) / (0.15 - 0.076)) * (e - 0.076) + 0.1)
    else None
  }

  /**
   * The lateral penalty ignores the side, is NaN exactly beyond 0.15, lies in [0, 1],
   * and reaches 0.1 at 0.076 and 1.0 at 0.15.
   */
  lemma LateralPenaltyShape(lateral: real)
    ensures LateralPenalty(lateral) == LateralPenalty(-lateral)
    ensures LateralPenalty(lateral).None? <==> Abs(lateral) > 0.15
    ensures LateralPenalty(lateral).Some? ==> 0.0 <= LateralPenalty(lateral).value <= 1.0
    ensures LateralPenalty(0.076) == Some(0.1) && LateralPenalty(0.15) == Some(1.0)
  {
    assert Abs(lateral) == Abs(-lateral);
  }

  /** `min([abs(projection - e) for e in expected])`. */
  function SmallestError(expected: seq<real>, projection: real): (r: real)
    requires expected != []
    ensures forall k :: 0 <= k < |expected| ==> r <= Abs(projection - expected[k])
    ensures exists k :: 0 <= k < |expected| && r == Abs(projection - expected[k])
  {
    if |expected| == 1 then Abs(projection - expected[0])
    else
      var rest := SmallestError(expected[1..], projection);
      assert forall k :: 1 <= k < |expected| ==> expected[k] == expected[1..][k - 1];
      if Abs(projection - expected[0]) <= rest then Abs(projection - expected[0]) else rest
  }

  /** One linear piece of a penalty: `(y / w) * e`, rising from 0 at `e = 0` to `y` at `e = w`. */
  function Ramp(e: real, w: real, y: real): (r: real)
    requires 0.0 <= e <= w && w > 0.0 && y >= 0.0
    ensures 0.0 <= r <= y
  {
    RampBounds(e, w, y);
    (y / w) * e
  }

  /**
   * `calculate_projection_penalty`: the distance to the nearest expected position,
   * linear to 0.1 at a quarter plant spacing, then to 1.0 at half a plant spacing, and 1.0
   * beyond.
   */
  function ProjectionPenalty(cfg: Config, expected: seq<real>, projection: real): (r: real)
    requires expected != [] && cfg.plantSpacing > 0.0
    ensures SmallestError(expected, projection) > cfg.plantSpacing / 2.0 ==> r == 1.0
  {
    var err := SmallestError(expected, projection);
    var x1, x2 := cfg.plantSpacing / 4.0, cfg.plantSpacing / 2.0;
    if err < x1 then Ramp(err, x1, 0.1)
    else if err <= x2 then Ramp(err - x1, x2 - x1, 1.0 - 0.1) + 0.1
    else 1.0
  }

  /** The projection penalty is always in [0, 1], is never NaN, and is 1 beyond half a plant spacing. */
  lemma ProjectionPenaltyBounds(cfg: Config, expected: seq<real>, projection: real)
    requires expected != [] && cfg.plantSpacing > 0.0
    ensures 0.0 <= ProjectionPenalty(cfg, expected, projection) <= 1.0
    ensures SmallestError(expected, projection) > cfg.plantSpacing / 2.0 ==> ProjectionPenalty(cfg, expected, projection) == 1.0
  {
    var k :| 0 <= k < |expected| && SmallestError(expected, projection) == Abs(projection - expected[k]);
  }

  /** `calculate_closeness_penalty`: 0 below 2.5 plant spacings, 1 below 3.5, NaN from there. */
  function ClosenessPenalty(cfg: Config, projection: real): (r: Option<real>)
    ensures r.None? ==> projection >= 3.5 * cfg.plantSpacing
    ensures cfg.plantSpacing >= 0.0 ==> (r.None? <==> projection >= 3.5 * cfg.plantSpacing)
  {
    if projection < 2.5 * cfg.plantSpacing then Some(0.0)
    else if projection < 3.5 * cfg.plantSpacing then Some(1.0)
    else None
  }

  /** Further along the part the closeness penalty never drops, and once NaN it stays NaN. */
  lemma ClosenessMonotone(cfg: Config, p: real, q: real)
    requires cfg.plantSpacing > 0.0 && p <= q
    ensures ClosenessPenalty(cfg, q).Some? ==> ClosenessPenalty(cfg, p).Some?
    ensures ClosenessPenalty(cfg, q).Some? ==> ClosenessPenalty(cfg, p).value <= ClosenessPenalty(cfg, q).value
  {
  }

  /** The item types a candidate is made of: those of its `items`, or its own `item_type`. */
  function PartTypes(c: Candidate): seq<string> {
    if c.parts.Some? then c.parts.value else [c.itemType]
  }

  /** `calculate_plant_part_confidence`: the stick multiplier for a blue stick part, times the leaf multiplier for a leaf. */
  function Confidence(cfg: Config, c: Candidate): (r: real)
    ensures "stick_part" !in PartTypes(c) && "leaf" !in PartTypes(c) ==> r == 1.0
  {
    var stick := if "stick_part" in PartTypes(c) then cfg.stickMultiplier else 1.0;
    var leaf := if "leaf" in PartTypes(c) then cfg.leafMultiplier else 1.0;
    1.0 * stick * leaf
  }

  /** The confidence is one of 1, the stick, the leaf and their product, and with clamped multipliers at least 1. */
  lemma ConfidenceValues(cfg: Config, c: Candidate)
    ensures var r := Confidence(cfg, c);
            r == 1.0 || r == cfg.stickMultiplier || r == cfg.leafMultiplier
            || r == cfg.stickMultiplier * cfg.leafMultiplier
    ensures ValidConfig(cfg) ==> Confidence(cfg, c) >= 1.0
  {
    if ValidConfig(cfg) {
      var stick := if "stick_part" in PartTypes(c) then cfg.stickMultiplier else 1.0;
      var leaf := if "leaf" in PartTypes(c) then cfg.leafMultiplier else 1.0;
      assert stick * leaf >= 1.0 * leaf by {
        assert (stick - 1.0) * leaf >= 0.0;
      }
    }
  }

  /**
   * The penalty `find_most_likely_plant` writes into a candidate: the scaled lateral,
   * projection and closeness penalties over the confidence. The source scales the
   * projection term by the lateral scale, and so does this model. NaN when the lateral or
   * closeness penalty is.
   */
  function Penalty(cfg: Config, expected: seq<real>, c: Candidate): Option<real>
    requires ValidConfig(cfg) && expected != []
  {
    var lateral := LateralPenalty(c.lateral);
    var closeness := ClosenessPenalty(cfg, c.projection);
    if lateral.None? || closeness.None? then None
    else
      ConfidenceValues(cfg, c);
      Some((lateral.value * cfg.lateralScale + ProjectionPenalty(cfg, expected, c.projection) * cfg.lateralScale
            + closeness.value * cfg.closenessScale) / Confidence(cfg, c))
  }

  /** A penalty is NaN exactly for a candidate more than 0.15 off the line or 3.5 plant spacings along it. */
  lemma PenaltyNaN(cfg: Config, expected: seq<real>, c: Candidate)
    requires ValidConfig(cfg) && expected != []
    ensures Penalty(cfg, expected, c).None? <==> Abs(c.lateral) > 0.15 || c.projection >= 3.5 * cfg.plantSpacing
  {
    LateralPenaltyShape(c.lateral);
  }

  function PenaltyOf(cfg: Config, expected: seq<real>): (pen: Candidate -> Option<real>)
    requires ValidConfig(cfg) && expected != []
  {
    c => Penalty(cfg, expected, c)
  }

  /**
   * `find_most_likely_plant`'s choice: `None` when no penalty is a number, else a plant at
   * the first candidate with the smallest penalty, with its rectangle and projection.
   */
  function MostLikely(cfg: Config, part: Part, expected: seq<real>, cands: seq<Candidate>): (r: Option<Mark>)
    requires ValidConfig(cfg) && expected != []
    ensures r.Some? ==> r.value.kind == Plant && r.value.zone == part.start.zone && r.value.rect.Some? && r.value.projection.Some?
  {
    match Best(cands, PenaltyOf(cfg, expected))
    case None => None
    case Some(b) => Some(Mark(Plant, b.0.position, part.start.zone, Some(b.0.rect), Some(b.0.projection)))
  }

  /**
   * There is no likely plant exactly when every penalty is NaN. Otherwise it is candidate
   * `j`: the first whose penalty no other undercuts, in the part's zone.
   */
  lemma MostLikelyMeans(cfg: Config, part: Part, expected: seq<real>, cands: seq<Candidate>) returns (j: nat)
    requires ValidConfig(cfg) && expected != []
    ensures MostLikely(cfg, part, expected, cands).None? <==>
              forall k :: 0 <= k < |cands| ==> Penalty(cfg, expected, cands[k]).None?
    ensures MostLikely(cfg, part, expected, cands).Some? ==>
              && FirstBest(cands, PenaltyOf(cfg, expected), j)
              && MostLikely(cfg, part, expected, cands).value
                 == Mark(Plant, cands[j].position, part.start.zone, Some(cands[j].rect), Some(cands[j].projection))
  {
    j := BestIsFirstBest(cands, PenaltyOf(cfg, expected));
  }

  // ---------------------------------------------------------------------------
  // create_closest_plant, filter_plants_by_segment_part, split_possible_plants_by_threshold

  /** `create_closest_plant`: a new plant at the first expected position along the part, at the start's height. */
  function CreateClosest(part: Part, expected: seq<real>, sqrt: SqrtFn): Mark
    requires expected != []
  {
    Mark(Plant, ProjectionToPosition(expected[0], part.start.position, part.end.position, sqrt),
         part.start.zone, None, Some(expected[0]))
  }

  /** A created plant sits on the part's line at the first expected position, at the start's height. */
  lemma CreateClosestOnLine(part: Part, expected: seq<real>, sqrt: SqrtFn)
    requires expected != [] && IsSqrt(sqrt)
    requires part.start.position.x != part.end.position.x || part.start.position.y != part.end.position.y
    ensures var m := CreateClosest(part, expected, sqrt);
            && LateralAndProjection(m.position, part.start.position, part.end.position, sqrt) == Some((0.0, expected[0]))
            && m.position.z == part.start.position.z
  {
    ProjectionToPositionRoundTrip(expected[0], part.start.position, part.end.position, sqrt);
  }

  /**
   * The loop of `filter_plants_by_segment_part` that writes each candidate's lateral and
   * projection distance. On a part whose ends coincide in XY the distance function returns
   * a single NaN, and unpacking it raises TypeError.
   */
  function Annotated(cands: seq<Candidate>, a: Point, b: Point, sqrt: SqrtFn): (r: Result<seq<Candidate>>)
    ensures r.Ok? ==> |r.value| == |cands|
  {
    if cands == [] then Ok([])
    else
      match LateralAndProjection(cands[0].position, a, b, sqrt)
      case None => Err(TypeError("'float' object is not iterable"))
      case Some(lp) =>
        match Annotated(cands[1..], a, b, sqrt)
        case Err(e) => Err(e)
        case Ok(rest) => Ok([cands[0].(lateral := lp.0, projection := lp.1)] + rest)
  }

  /**
   * The distances fail exactly when there are candidates and the part has zero length in XY.
   * Otherwise every candidate gets its own lateral and projection distance and nothing else.
   */
  lemma {:induction false} AnnotatedMeans(cands: seq<Candidate>, a: Point, b: Point, sqrt: SqrtFn)
    ensures Annotated(cands, a, b, sqrt).Err? <==> cands != [] && sqrt(SquaredXY(b.x - a.x, b.y - a.y)) == 0.0
    ensures Annotated(cands, a, b, sqrt).Ok? ==>
              forall k :: 0 <= k < |cands| ==>
                var lp := LateralAndProjection(cands[k].position, a, b, sqrt);
                lp.Some? && Annotated(cands, a, b, sqrt).value[k] == cands[k].(lateral := lp.value.0, projection := lp.value.1)
  {
    if cands != [] {
      AnnotatedMeans(cands[1..], a, b, sqrt);
      assert forall k :: 1 <= k < |cands| ==> cands[k] == cands[1..][k - 1];
    }
  }

  /** The candidates whose projection lies in [lo, hi], in their original order. */
  function Within(cands: seq<Candidate>, lo: real, hi: real): (r: seq<Candidate>)
    ensures |r| <= |cands|
  {
    if cands == [] then []
    else (if lo <= cands[0].projection <= hi then [cands[0]] else []) + Within(cands[1..], lo, hi)
  }

  /** Exactly the candidates inside [lo, hi] are kept. */
  lemma {:induction false} WithinMeans(cands: seq<Candidate>, lo: real, hi: real)
    ensures forall c :: c in Within(cands, lo, hi) <==> c in cands && lo <= c.projection <= hi
  {
    if cands != [] {
      WithinMeans(cands[1..], lo, hi);
      assert cands == [cands[0]] + cands[1..];
    }
  }

  /**
   * Filtering commutes with concatenation: a candidate's survival depends on itself alone,
   * and the survivors of an earlier stretch come before those of a later one.
   */
  lemma {:induction false} WithinAppend(a: seq<Candidate>, b: seq<Candidate>, lo: real, hi: real)
    ensures Within(a + b, lo, hi) == Within(a, lo, hi) + Within(b, lo, hi)
  {
    if a == [] {
      assert a + b == b;
    } else {
      assert (a + b)[1..] == a[1..] + b;
      WithinAppend(a[1..], b, lo, hi);
    }
  }

  /** The nearest a plant may be to the part's start: half a code spacing after a code, half a plant spacing after a plant. */
  function StartBound(cfg: Config, part: Part): real {
    if IsCode(part.start.kind) then cfg.closestCode else cfg.closestPlant
  }

  /**
   * `filter_plants_by_segment_part`: the candidates, with their distances written, that lie
   * between the two bounds, in their original order. The source also sorts them by
   * projection, but then throws the sorted list away.
   */
  function FilterByPart(cfg: Config, part: Part, sqrt: SqrtFn): (r: Result<seq<Candidate>>)
    ensures r.Ok? ==> |r.value| <= |part.candidates|
  {
    match Annotated(part.candidates, part.start.position, part.end.position, sqrt)
    case Err(e) => Err(e)
    case Ok(annotated) => Ok(Within(annotated, StartBound(cfg, part), EndBound(cfg, part, sqrt)))
  }

  /** `before_plants`: the candidates projected before `t`. */
  function Before(cands: seq<Candidate>, t: real): (r: seq<Candidate>)
    ensures |r| <= |cands|
  {
    if cands == [] then []
    else (if cands[0].projection < t then [cands[0]] else []) + Before(cands[1..], t)
  }

  /** `after_plants`: the candidates projected at or after `t`. */
  function After(cands: seq<Candidate>, t: real): (r: seq<Candidate>)
    ensures |r| <= |cands|
  {
    if cands == [] then []
    else (if cands[0].projection >= t then [cands[0]] else []) + After(cands[1..], t)
  }

  /**
   * `split_possible_plants_by_threshold` partitions the candidates. Those before `t` go
   * one way and the rest the other, and together they are the input.
   */
  lemma {:induction false} SplitPartition(cands: seq<Candidate>, t: real)
    ensures multiset(Before(cands, t)) + multiset(After(cands, t)) == multiset(cands)
    ensures forall c :: c in Before(cands, t) ==> c.projection < t
    ensures forall c :: c in After(cands, t) ==> c.projection >= t
  {
    if cands != [] {
      SplitPartition(cands[1..], t);
      assert cands == [cands[0]] + cands[1..];
    }
  }

  /** Both halves of the split keep input order: splitting `a + b` splits `a`, then `b`. */
  lemma {:induction false} BeforeAfterAppend(a: seq<Candidate>, b: seq<Candidate>, t: real)
    ensures Before(a + b, t) == Before(a, t) + Before(b, t)
    ensures After(a + b, t) == After(a, t) + After(b, t)
  {
    if a == [] {
      assert a + b == b;
    } else {
      var ab := a + b;
      assert ab[0] == a[0] && ab[1..] == a[1..] + b;
      BeforeAfterAppend(a[1..], b, t);
      assert Before(ab, t) == (if a[0].projection < t then [a[0]] else []) + Before(a[1..] + b, t);
      assert After(ab, t) == (if a[0].projection >= t then [a[0]] else []) + After(a[1..] + b, t);
    }
  }

  // ---------------------------------------------------------------------------
  // process_segment_part and split_into_subparts

  /** Which counter a split increments. */
  datatype Outcome = Found | CreatedNoPlants | CreatedNoValidPlants

  /** A part split at its selected plant, and which counter that increments. */
  datatype Halves = Halves(first: Part, second: Part, outcome: Outcome)

  /**
   * The plant a part is split at. With no candidate left a plant is created. Otherwise the
   * most likely candidate is taken, and a plant is created if every penalty is NaN.
   */
  function Select(cfg: Config, part: Part, expected: seq<real>, kept: seq<Candidate>, sqrt: SqrtFn): (r: (Mark, Outcome))
    requires ValidConfig(cfg) && expected != []
    ensures r.0.kind == Plant && r.0.projection.Some?
  {
    if kept == [] then (CreateClosest(part, expected, sqrt), CreatedNoPlants)
    else
      match MostLikely(cfg, part, expected, kept)
      case None => (CreateClosest(part, expected, sqrt), CreatedNoValidPlants)
      case Some(p) => (p, Found)
  }

  /**
   * `process_segment_part`: `None` (the source's empty list) when no plant fits in the part.
   * Otherwise the halves start->selected and selected->end, with the kept candidates
   * split at the selected plant's projection.
   */
  function Process(cfg: Config, part: Part, sqrt: SqrtFn): Result<Option<Halves>>
    requires ValidConfig(cfg)
  {
    var expected := Expected(StartOffset(cfg, part), EndBound(cfg, part, sqrt), cfg.plantSpacing);
    if expected == [] then Ok(None)
    else
      match FilterByPart(cfg, part, sqrt)
      case Err(e) => Err(e)
      case Ok(kept) =>
        var (plant, outcome) := Select(cfg, part, expected, kept, sqrt);
        var t := plant.projection.value;
        Ok(Some(Halves(Part(part.start, plant, Before(kept, t)), Part(plant, part.end, After(kept, t)), outcome)))
  }

  /**
   * A part is left whole exactly when no plant fits in it. A split part yields two halves
   * that meet at a plant and run from the part's start to its end.
   */
  lemma ProcessShape(cfg: Config, part: Part, sqrt: SqrtFn)
    requires ValidConfig(cfg)
    ensures var r := Process(cfg, part, sqrt);
            && (r == Ok(None) <==> StartOffset(cfg, part) > EndBound(cfg, part, sqrt))
            && (r.Ok? && r.value.Some? ==>
                  var h := r.value.value;
                  && h.first.start == part.start && h.second.end == part.end
                  && h.first.end == h.second.start && h.first.end.kind == Plant)
  {
    ExpectedProperties(StartOffset(cfg, part), EndBound(cfg, part, sqrt), cfg.plantSpacing);
  }

  /** What `split_into_subparts` leaves: the leaves or the error, and the counters it increments on the way. */
  datatype Subparts = Subparts(parts: Result<seq<Part>>, ticks: seq<Outcome>)

  /**
   * `split_into_subparts`, over the step `proc` that splits one part: a part that cannot be
   * split is a leaf, and otherwise the leaves of both halves are taken in order. `depth` is
   * the number of nested calls left before Python's recursion limit.
   */
  function SplitWith(proc: Part -> Result<Option<Halves>>, part: Part, depth: nat): Subparts
    decreases depth, 0
  {
    if depth == 0 then Subparts(Err(RecursionLimit), [])
    else
      match proc(part)
      case Err(e) => Subparts(Err(e), [])
      case Ok(None) => Subparts(Ok([part]), [])
      case Ok(Some(h)) =>
        var both := Joined(proc, h, depth - 1);
        Subparts(both.parts, [h.outcome] + both.ticks)
  }

  /** The leaves of the first half followed by those of the second, which is not split once the first fails. */
  function Joined(proc: Part -> Result<Option<Halves>>, h: Halves, depth: nat): Subparts
    decreases depth, 1
  {
    var first := SplitWith(proc, h.first, depth);
    if first.parts.Err? then first
    else
      var second := SplitWith(proc, h.second, depth);
      Subparts(if second.parts.Err? then second.parts else Ok(first.parts.value + second.parts.value),
               first.ticks + second.ticks)
  }

  /** `process_segment_part` of a filter with settings `cfg`, as the step of the split. */
  function ProcessFn(cfg: Config, sqrt: SqrtFn): Part -> Result<Option<Halves>>
    requires ValidConfig(cfg)
  {
    p => Process(cfg, p, sqrt)
  }

  /**
   * `step` splits every part as `process_segment_part` does. The trigger keeps `Process`
   * folded until a proof mentions it.
   */
  ghost predicate StepIs(step: Part -> Result<Option<Halves>>, cfg: Config, sqrt: SqrtFn)
    requires ValidConfig(cfg)
  {
    forall p {:trigger Process(cfg, p, sqrt)} :: step(p) == Process(cfg, p, sqrt)
  }

  lemma ProcessFnIs(cfg: Config, sqrt: SqrtFn)
    requires ValidConfig(cfg)
    ensures StepIs(ProcessFn(cfg, sqrt), cfg, sqrt)
  {
  }

  /** `split_into_subparts` of a filter with settings `cfg`. */
  function SplitParts(cfg: Config, part: Part, sqrt: SqrtFn, depth: nat): Subparts
    requires ValidConfig(cfg)
  {
    SplitWith(ProcessFn(cfg, sqrt), part, depth)
  }

  /** A step that splits a part only into two halves from its start to its end that meet at a plant. */
  ghost predicate SplitsAtPlant(proc: Part -> Result<Option<Halves>>) {
    forall p :: proc(p).Ok? && proc(p).value.Some? ==>
      var h := proc(p).value.value;
      && h.first.start == p.start && h.second.end == p.end
      && h.first.end == h.second.start && h.first.end.kind == Plant
  }

  /** `process_segment_part` is such a step. */
  lemma ProcessFnSplitsAtPlant(cfg: Config, sqrt: SqrtFn)
    requires ValidConfig(cfg)
    ensures SplitsAtPlant(ProcessFn(cfg, sqrt))
  {
    forall p ensures var r := Process(cfg, p, sqrt);
                     r.Ok? && r.value.Some? ==>
                       var h := r.value.value;
                       && h.first.start == p.start && h.second.end == p.end
                       && h.first.end == h.second.start && h.first.end.kind == Plant {
      ProcessShape(cfg, p, sqrt);
    }
  }

  /**
   * The leaves chain from `start` to `end`: each one ends where the next one starts, and
   * every leaf after the first starts at a plant.
   */
  predicate Chain(leaves: seq<Part>, start: Mark, end: Mark) {
    && leaves != [] && leaves[0].start == start && leaves[|leaves| - 1].end == end
    && (forall i :: 0 <= i < |leaves| - 1 ==> leaves[i].end == leaves[i + 1].start)
    && (forall i :: 0 < i < |leaves| ==> leaves[i].start.kind == Plant)
  }

  lemma ChainJoin(a: seq<Part>, b: seq<Part>, start: Mark, mid: Mark, end: Mark)
    requires Chain(a, start, mid) && Chain(b, mid, end) && mid.kind == Plant
    ensures Chain(a + b, start, end)
  {
    var c := a + b;
    forall i | 0 <= i < |c| - 1 ensures c[i].end == c[i + 1].start {
      if i + 1 < |a| { assert c[i] == a[i] && c[i + 1] == a[i + 1]; }
      else if i + 1 == |a| { assert c[i] == a[i] && c[i + 1] == b[0]; }
      else { assert c[i] == b[i - |a|] && c[i + 1] == b[i + 1 - |a|]; }
    }
    forall i | 0 < i < |c| ensures c[i].start.kind == Plant {
      if i < |a| { assert c[i] == a[i]; } else { assert c[i] == b[i - |a|]; }
    }
  }

  /**
   * When `split_into_subparts` succeeds, its leaves chain from the part's start to its end,
   * and every split increments exactly one counter, so there is one increment fewer than
   * there are leaves.
   */
  lemma {:induction false} SplitChain(proc: Part -> Result<Option<Halves>>, part: Part, depth: nat)
    requires SplitsAtPlant(proc)
    ensures var s := SplitWith(proc, part, depth);
            s.parts.Ok? ==> Chain(s.parts.value, part.start, part.end) && |s.ticks| + 1 == |s.parts.value|
    decreases depth
  {
    if depth > 0 && proc(part).Ok? && proc(part).value.Some? {
      var h := proc(part).value.value;
      SplitChain(proc, h.first, depth - 1);
      SplitChain(proc, h.second, depth - 1);
      var first := SplitWith(proc, h.first, depth - 1);
      var second := SplitWith(proc, h.second, depth - 1);
      if first.parts.Ok? && second.parts.Ok? {
        ChainJoin(first.parts.value, second.parts.value, part.start, h.first.end, part.end);
      }
    }
  }

  // ---------------------------------------------------------------------------
  // locate_actual_plants_in_segment

  /** The leaves' starts that are plants, in order. */
  function PlantStarts(leaves: seq<Part>): (r: seq<Mark>)
    ensures |r| <= |leaves|
  {
    if leaves == [] then []
    else PlantStarts(leaves[..|leaves| - 1]) + (if IsPlant(leaves[|leaves| - 1].start.kind) then [leaves[|leaves| - 1].start] else [])
  }

  /** The starts of every leaf but the first. */
  function LaterStarts(leaves: seq<Part>): (r: seq<Mark>)
    requires leaves != []
    ensures |r| == |leaves| - 1
  {
    seq(|leaves| - 1, i requires 0 <= i < |leaves| - 1 => leaves[i + 1].start)
  }

  /**
   * `locate_actual_plants_in_segment` after the split: the plants at which the leaves start.
   * An AssertionError is raised when the last leaf does not end at a code.
   */
  function Located(leaves: Result<seq<Part>>): Result<seq<Mark>> {
    match leaves
    case Err(e) => Err(e)
    case Ok(ls) =>
      if ls == [] then Err(IndexError("list index out of range"))
      else if !IsCode(ls[|ls| - 1].end.kind) then Err(AssertionError("'code' in sub_parts[-1].end.type.lower()"))
      else Ok(PlantStarts(ls))
  }

  lemma {:induction false} PlantStartsOfChain(leaves: seq<Part>, start: Mark, end: Mark)
    requires Chain(leaves, start, end) && !start.kind.Plant?
    ensures PlantStarts(leaves) == LaterStarts(leaves)
    decreases |leaves|
  {
    NameTestKinds(leaves[|leaves| - 1].start.kind);
    if |leaves| > 1 {
      var init := leaves[..|leaves| - 1];
      assert Chain(init, start, init[|init| - 1].end);
      PlantStartsOfChain(init, start, init[|init| - 1].end);
      assert LaterStarts(leaves) == LaterStarts(init) + [leaves[|leaves| - 1].start];
    } else {
      NameTestKinds(start.kind);
    }
  }

  /**
   * For a segment between two codes the assertion holds, and the plants found are the
   * starts of all leaves but the first, one for each increment of a counter. This holds for
   * every step that splits at a plant, `process_segment_part` among them
   * (`ProcessFnSplitsAtPlant`).
   */
  lemma LocatedBetweenCodes(proc: Part -> Result<Option<Halves>>, part: Part, depth: nat)
    requires SplitsAtPlant(proc) && IsCode(part.start.kind) && IsCode(part.end.kind)
    ensures var s := SplitWith(proc, part, depth);
            s.parts.Ok? ==>
              && s.parts.value != []
              && Located(s.parts) == Ok(LaterStarts(s.parts.value))
              && |LaterStarts(s.parts.value)| == |s.ticks|
              && forall k :: 0 <= k < |s.ticks| ==> LaterStarts(s.parts.value)[k].kind == Plant
  {
    SplitChain(proc, part, depth);
    IsCodeKinds(part.start.kind);
    var s := SplitWith(proc, part, depth);
    if s.parts.Ok? {
      PlantStartsOfChain(s.parts.value, part.start, part.end);
    }
  }

  // ---------------------------------------------------------------------------
  // RecursiveSplitPlantFilter

  /** How many of the splits in `ticks` increment the counter for `o`. */
  function Count(ticks: seq<Outcome>, o: Outcome): (n: nat)
    ensures n <= |ticks|
  {
    if ticks == [] then 0 else (if ticks[0] == o then 1 else 0) + Count(ticks[1..], o)
  }

  /** The counts of two runs of splits add up. */
  lemma {:induction false} CountAppend(a: seq<Outcome>, b: seq<Outcome>, o: Outcome)
    ensures Count(a + b, o) == Count(a, o) + Count(b, o)
  {
    if a == [] {
      assert a + b == b;
    } else {
      CountAppend(a[1..], b, o);
      assert (a + b)[1..] == a[1..] + b;
    }
  }

  /** Each split increments exactly one counter. */
  lemma {:induction false} CountTotal(ticks: seq<Outcome>)
    ensures Count(ticks, Found) + Count(ticks, CreatedNoPlants) + Count(ticks, CreatedNoValidPlants) == |ticks|
  {
    if ticks != [] {
      CountTotal(ticks[1..]);
    }
  }

  /** The leaves' plant starts, collected one leaf at a time as the source's loop does. */
  method CollectPlantStarts(leaves: seq<Part>) returns (actual: seq<Mark>)
    ensures actual == PlantStarts(leaves)
  {
    actual := [];
    var i := 0;
    while i < |leaves|
      invariant 0 <= i <= |leaves|
      invariant actual == PlantStarts(leaves[..i])
    {
      assert leaves[..i + 1][..i] == leaves[..i];
      if IsPlant(leaves[i].start.kind) {
        actual := actual + [leaves[i].start];
      }
      i := i + 1;
    }
    assert leaves[..i] == leaves;
  }

  /** `RecursiveSplitPlantFilter`: its settings and the three counters it keeps. */
  class RecursiveSplitPlantFilter {
    const cfg: Config
    var numSuccessfullyFoundPlants: nat
    var numCreatedBecauseNoPlants: nat
    var numCreatedBecauseNoValidPlants: nat


    /** The constructor: closest spacings are half the expected ones, the multipliers at least 1. */
    constructor(codeSpacing: real, plantSpacing: real, lateralPs: real, projectionPs: real, closenessPs: real,
                stickMultiplier: real, leafMultiplier: real)
      requires plantSpacing > 0.0
      ensures cfg == Config(codeSpacing, plantSpacing, codeSpacing / 2.0, plantSpacing / 2.0,
                            lateralPs, projectionPs, closenessPs, AtLeastOne(stickMultiplier), AtLeastOne(leafMultiplier))
      ensures ValidConfig(cfg)
      ensures numSuccessfullyFoundPlants == 0 && numCreatedBecauseNoPlants == 0 && numCreatedBecauseNoValidPlants == 0
    {
      cfg := Config(codeSpacing, plantSpacing, codeSpacing / 2.0, plantSpacing / 2.0,
                    lateralPs, projectionPs, closenessPs, AtLeastOne(stickMultiplier), AtLeastOne(leafMultiplier));
      numSuccessfullyFoundPlants, numCreatedBecauseNoPlants, numCreatedBecauseNoValidPlants := 0, 0, 0;
    }

    /** `calculate_expected_positions`: the loop that steps one plant spacing at a time up to the end bound. */
    method CalculateExpectedPositions(part: Part, sqrt: SqrtFn) returns (r: seq<real>)
      requires ValidConfig(cfg)
      ensures r == Expected(StartOffset(cfg, part), EndBound(cfg, part, sqrt), cfg.plantSpacing)
    {
      r := StepPositions(StartOffset(cfg, part), EndBound(cfg, part, sqrt), cfg.plantSpacing);
    }

    /** `find_most_likely_plant`, which counts a successfully found plant. */
    method FindMostLikelyPlant(part: Part, expected: seq<real>, cands: seq<Candidate>) returns (sel: Option<Mark>)
      requires ValidConfig(cfg) && expected != []
      modifies this
      ensures sel == MostLikely(cfg, part, expected, cands)
      ensures numSuccessfullyFoundPlants == old(numSuccessfullyFoundPlants) + (if sel.Some? then 1 else 0)
      ensures numCreatedBecauseNoPlants == old(numCreatedBecauseNoPlants)
      ensures numCreatedBecauseNoValidPlants == old(numCreatedBecauseNoValidPlants)
    {
      sel := MostLikely(cfg, part, expected, cands);
      if sel.Some? {
        numSuccessfullyFoundPlants := numSuccessfullyFoundPlants + 1;
      }
    }

    /** `process_segment_part`, with the counter its outcome increments. */
    method ProcessSegmentPart(part: Part, sqrt: SqrtFn, ghost step: Part -> Result<Option<Halves>>)
      returns (r: Result<Option<Halves>>)
      requires ValidConfig(cfg) && StepIs(step, cfg, sqrt)
      modifies this
      ensures r == step(part)
      ensures var ticks := if r.Ok? && r.value.Some? then [r.value.value.outcome] else [];
              && numSuccessfullyFoundPlants == old(numSuccessfullyFoundPlants) + Count(ticks, Found)
              && numCreatedBecauseNoPlants == old(numCreatedBecauseNoPlants) + Count(ticks, CreatedNoPlants)
              && numCreatedBecauseNoValidPlants == old(numCreatedBecauseNoValidPlants) + Count(ticks, CreatedNoValidPlants)
    {
      var expected := CalculateExpectedPositions(part, sqrt);
      if expected == [] {
        assert Process(cfg, part, sqrt) == Ok(None);
        return Ok(None);
      }
      var kept := FilterByPart(cfg, part, sqrt);
      if kept.Err? {
        assert Process(cfg, part, sqrt) == Err(kept.error);
        return Err(kept.error);
      }
      var plant, outcome := SelectPlant(part, expected, kept.value, sqrt);
      var t := plant.projection.value;
      r := Ok(Some(Halves(Part(part.start, plant, Before(kept.value, t)), Part(plant, part.end, After(kept.value, t)), outcome)));
      assert r == Process(cfg, part, sqrt);
    }

    /**
     * The choice in `process_segment_part`: a created plant when no candidate is left, else the
     * most likely candidate, or a created plant when none is valid, with its counter.
     */
    method SelectPlant(part: Part, expected: seq<real>, kept: seq<Candidate>, sqrt: SqrtFn) returns (plant: Mark, outcome: Outcome)
      requires ValidConfig(cfg) && expected != []
      modifies this
      ensures (plant, outcome) == Select(cfg, part, expected, kept, sqrt)
      ensures numSuccessfullyFoundPlants == old(numSuccessfullyFoundPlants) + (if outcome == Found then 1 else 0)
      ensures numCreatedBecauseNoPlants == old(numCreatedBecauseNoPlants) + (if outcome == CreatedNoPlants then 1 else 0)
      ensures numCreatedBecauseNoValidPlants == old(numCreatedBecauseNoValidPlants) + (if outcome == CreatedNoValidPlants then 1 else 0)
    {
      if kept == [] {
        plant, outcome := CreateClosest(part, expected, sqrt), CreatedNoPlants;
        numCreatedBecauseNoPlants := numCreatedBecauseNoPlants + 1;
      } else {
        var likely := FindMostLikelyPlant(part, expected, kept);
        if likely.None? {
          plant, outcome := CreateClosest(part, expected, sqrt), CreatedNoValidPlants;
          numCreatedBecauseNoValidPlants := numCreatedBecauseNoValidPlants + 1;
        } else {
          plant, outcome := likely.value, Found;
        }
      }
    }

    /**
     * `split_into_subparts`, with `depth` nested calls left before the recursion limit, and
     * `step` this filter's `process_segment_part`.
     */
    method SplitIntoSubparts(part: Part, sqrt: SqrtFn, depth: nat, ghost step: Part -> Result<Option<Halves>>)
      returns (r: Result<seq<Part>>)
      requires ValidConfig(cfg) && StepIs(step, cfg, sqrt)
      modifies this
      decreases depth, 0
      ensures r == SplitWith(step, part, depth).parts
      ensures var ticks := SplitWith(step, part, depth).ticks;
              && numSuccessfullyFoundPlants == old(numSuccessfullyFoundPlants) + Count(ticks, Found)
              && numCreatedBecauseNoPlants == old(numCreatedBecauseNoPlants) + Count(ticks, CreatedNoPlants)
              && numCreatedBecauseNoValidPlants == old(numCreatedBecauseNoValidPlants) + Count(ticks, CreatedNoValidPlants)
    {
      if depth == 0 {
        return Err(RecursionLimit);
      }
      var split := ProcessSegmentPart(part, sqrt, step);
      if split.Err? {
        return Err(split.error);
      }
      if split.value.None? {
        return Ok([part]);
      }
      r := SplitHalves(split.value.value, sqrt, depth - 1, step);
      assert ([split.value.value.outcome] + Joined(step, split.value.value, depth - 1).ticks)[1..]
          == Joined(step, split.value.value, depth - 1).ticks;
    }

    /** Both recursive calls of `split_into_subparts`, the second one only when the first succeeds. */
    method SplitHalves(h: Halves, sqrt: SqrtFn, depth: nat, ghost step: Part -> Result<Option<Halves>>)
      returns (r: Result<seq<Part>>)
      requires ValidConfig(cfg) && StepIs(step, cfg, sqrt)
      modifies this
      decreases depth, 1
      ensures r == Joined(step, h, depth).parts
      ensures var ticks := Joined(step, h, depth).ticks;
              && numSuccessfullyFoundPlants == old(numSuccessfullyFoundPlants) + Count(ticks, Found)
              && numCreatedBecauseNoPlants == old(numCreatedBecauseNoPlants) + Count(ticks, CreatedNoPlants)
              && numCreatedBecauseNoValidPlants == old(numCreatedBecauseNoValidPlants) + Count(ticks, CreatedNoValidPlants)
    {
      var first := SplitIntoSubparts(h.first, sqrt, depth, step);
      if first.Err? {
        return first;
      }
      var second := SplitIntoSubparts(h.second, sqrt, depth, step);
      ghost var t1, t2 := SplitWith(step, h.first, depth).ticks, SplitWith(step, h.second, depth).ticks;
      CountAppend(t1, t2, Found);
      CountAppend(t1, t2, CreatedNoPlants);
      CountAppend(t1, t2, CreatedNoValidPlants);
      if second.Err? {
        return second;
      }
      r := Ok(first.value + second.value);
    }

    /**
     * `locate_actual_plants_in_segment(possible_plants, whole_segment)`, with the segment given
     * by its start and end codes: the plants at which the leaves of the split start.
     */
    method LocateActualPlantsInSegment(cands: seq<Candidate>, startCode: Mark, endCode: Mark, sqrt: SqrtFn, depth: nat)
      returns (r: Result<seq<Mark>>)
      requires ValidConfig(cfg)
      modifies this
      ensures var s := SplitParts(cfg, Part(startCode, endCode, cands), sqrt, depth);
              && r == Located(s.parts)
              && numSuccessfullyFoundPlants == old(numSuccessfullyFoundPlants) + Count(s.ticks, Found)
              && numCreatedBecauseNoPlants == old(numCreatedBecauseNoPlants) + Count(s.ticks, CreatedNoPlants)
              && numCreatedBecauseNoValidPlants == old(numCreatedBecauseNoValidPlants) + Count(s.ticks, CreatedNoValidPlants)
    {
      ProcessFnIs(cfg, sqrt);
      var subParts := SplitIntoSubparts(Part(startCode, endCode, cands), sqrt, depth, ProcessFn(cfg, sqrt));
      if subParts.Err? {
        return Err(subParts.error);
      }
      var leaves := subParts.value;
      var actual := CollectPlantStarts(leaves);
      if leaves == [] {
        return Err(IndexError("list index out of range"));
      }
      if !IsCode(leaves[|leaves| - 1].end.kind) {
        return Err(AssertionError("'code' in sub_parts[-1].end.type.lower()"));
      }
      r := Ok(actual);
    }
  }

  // ---------------------------------------------------------------------------
  // ClosestSinglePlantFilter

  /** `ClosestSinglePlantFilter.calculate_closeness_penalty`: linear in the distance up to the limit, NaN from there. */
  function SingleClosenessPenalty(maxDistance: real, distance: real): (r: Option<real>)
    requires distance >= 0.0
    ensures r.None? <==> distance >= maxDistance
    ensures r.Some? ==> 0.0 <= r.value < 1.0
  {
    if distance < maxDistance then
      assert 0.0 <= (1.0 / maxDistance) * distance < 1.0 by {
        assert (1.0 / maxDistance) * distance == distance / maxDistance;
        MulLtInverse(distance / maxDistance, 1.0, maxDistance, distance, maxDistance);
      }
      Some((1.0 / maxDistance) * distance)
    else None
  }

  /**
   * The number of parts of a candidate that has an `items` key. Without one the source raises
   * KeyError before this is used.
   */
  function NumItems(c: Candidate): nat {
    if c.parts.Some? then |c.parts.value| else 0
  }

  /**
   * `calculate_num_items_penalty`: 0.5 below three items and 0 from three on. The penalty 1
   * for fewer than two items is always overwritten by the next test.
   */
  function NumItemsPenalty(c: Candidate): (r: real)
    ensures NumItems(c) < 2 ==> r == 0.5
    ensures r == 0.5 <==> NumItems(c) < 3
    ensures r == 0.0 <==> NumItems(c) >= 3
  {
    if NumItems(c) < 3 then 0.5 else 0.0
  }

  /** More items never raise the item penalty. */
  lemma NumItemsPenaltyMonotone(c: Candidate, d: Candidate)
    requires NumItems(c) <= NumItems(d)
    ensures NumItemsPenalty(d) <= NumItemsPenalty(c)
  { }

  /** The penalty `find_actual_plant` writes into a candidate: closeness plus a fifth of the item penalty. */
  function SinglePenalty(maxDistance: real, code: Mark, sqrt: SqrtFn, c: Candidate): Option<real>
    requires IsSqrt(sqrt)
  {
    var d := PositionDifference(c.position, code.position, sqrt);
    assert d >= 0.0;
    match SingleClosenessPenalty(maxDistance, d)
    case None => None
    case Some(p) => Some(p + 0.2 * NumItemsPenalty(c))
  }

  function SinglePenaltyOf(maxDistance: real, code: Mark, sqrt: SqrtFn): (pen: Candidate -> Option<real>)
    requires IsSqrt(sqrt)
  {
    c => SinglePenalty(maxDistance, code, sqrt, c)
  }

  predicate AllHaveItems(cands: seq<Candidate>) {
    forall k :: 0 <= k < |cands| ==> cands[k].parts.Some?
  }

  /**
   * `find_actual_plant(possible_plants, segment)` for a segment starting at `code`. It raises
   * KeyError when a candidate has no `items`. Otherwise the plant is at the best-scored
   * candidate, with its rectangle, or at the code with no rectangle when no penalty is a
   * number.
   */
  function FindActual(maxDistance: real, cands: seq<Candidate>, code: Mark, sqrt: SqrtFn): (r: Result<Mark>)
    requires IsSqrt(sqrt)
    ensures r.Err? <==> !AllHaveItems(cands)
    ensures r.Ok? ==> r.value.kind == Plant && r.value.zone == code.zone && r.value.projection.None?
  {
    if !AllHaveItems(cands) then Err(KeyError("items"))
    else
      match Best(cands, SinglePenaltyOf(maxDistance, code, sqrt))
      case None => Ok(Mark(Plant, code.position, code.zone, None, None))
      case Some(b) => Ok(Mark(Plant, b.0.position, code.zone, Some(b.0.rect), None))
  }

  /**
   * The single-code filter falls back to the code's own position exactly when no candidate
   * is strictly within the distance limit. Otherwise it takes candidate `j`, the first one
   * whose penalty no other candidate undercuts.
   */
  lemma FindActualMeans(maxDistance: real, cands: seq<Candidate>, code: Mark, sqrt: SqrtFn) returns (j: nat)
    requires IsSqrt(sqrt) && AllHaveItems(cands)
    ensures FindActual(maxDistance, cands, code, sqrt) == Ok(Mark(Plant, code.position, code.zone, None, None)) <==>
              forall k :: 0 <= k < |cands| ==> PositionDifference(cands[k].position, code.position, sqrt) >= maxDistance
    ensures (exists k :: 0 <= k < |cands| && PositionDifference(cands[k].position, code.position, sqrt) < maxDistance) ==>
              && FirstBest(cands, SinglePenaltyOf(maxDistance, code, sqrt), j)
              && FindActual(maxDistance, cands, code, sqrt) == Ok(Mark(Plant, cands[j].position, code.zone, Some(cands[j].rect), None))
  {
    j := BestIsFirstBest(cands, SinglePenaltyOf(maxDistance, code, sqrt));
  }

  /** `ClosestSinglePlantFilter`: the distance limit and its two counters, of which only the first ever changes. */
  class ClosestSinglePlantFilter {
    const maxSingleDistance: real
    var numSuccessfullyFoundPlants: nat
    var numCreatedBecauseNoPlants: nat

    constructor(maxSingleDistance: real)
      ensures this.maxSingleDistance == maxSingleDistance
      ensures numSuccessfullyFoundPlants == 0 && numCreatedBecauseNoPlants == 0
    {
      this.maxSingleDistance := maxSingleDistance;
      numSuccessfullyFoundPlants, numCreatedBecauseNoPlants := 0, 0;
    }

    /** `find_actual_plant`, which counts the plants found among the candidates. */
    method FindActualPlant(cands: seq<Candidate>, code: Mark, sqrt: SqrtFn) returns (r: Result<Mark>)
      requires IsSqrt(sqrt)
      modifies this
      ensures r == FindActual(maxSingleDistance, cands, code, sqrt)
      ensures numSuccessfullyFoundPlants
              == old(numSuccessfullyFoundPlants) + (if r.Ok? && r.value.rect.Some? then 1 else 0)
      ensures numCreatedBecauseNoPlants == old(numCreatedBecauseNoPlants)
    {
      r := FindActual(maxSingleDistance, cands, code, sqrt);
      if r.Ok? && r.value.rect.Some? {
        numSuccessfullyFoundPlants := numSuccessfullyFoundPlants + 1;
      }
    }
  }
}
