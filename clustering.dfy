/**
 * Agglomeration of rectangles given by their global corners: the bounding box of several
 * rectangles, centre distance and size, and the greedy loop that keeps merging the two
 * clusters with the closest centres until the merge would grow past a size cap.
 */
module Clustering {
  import opened Wrappers
  import opened Geometry
  import opened Lists

  /** A rectangle as its list of (x, y) corners. */
  type Corners = seq<(real, real)>

  function MinOf(xs: seq<real>): (r: real)
    requires |xs| > 0
    ensures forall k :: 0 <= k < |xs| ==> r <= xs[k]
    ensures r in xs
  {
    if |xs| == 1 then xs[0]
    else
      var m := MinOf(xs[1..]);
      assert m in xs[1..];
      if xs[0] <= m then xs[0] else m
  }

  function MaxOf(xs: seq<real>): (r: real)
    requires |xs| > 0
    ensures forall k :: 0 <= k < |xs| ==> xs[k] <= r
    ensures r in xs
  {
    if |xs| == 1 then xs[0]
    else
      var m := MaxOf(xs[1..]);
      assert m in xs[1..];
      if xs[0] >= m then xs[0] else m
  }

  /** Lists holding the same values have the same minimum and maximum. */
  lemma MinMaxSameValues(xs: seq<real>, ys: seq<real>)
    requires |xs| > 0 && |ys| > 0
    requires forall v :: v in xs <==> v in ys
    ensures MinOf(xs) == MinOf(ys) && MaxOf(xs) == MaxOf(ys)
  {
    var a, b := MinOf(xs), MinOf(ys);
    var i :| 0 <= i < |ys| && ys[i] == a;
    var j :| 0 <= j < |xs| && xs[j] == b;
    var c, d := MaxOf(xs), MaxOf(ys);
    var k :| 0 <= k < |ys| && ys[k] == c;
    var l :| 0 <= l < |xs| && xs[l] == d;
  }

  function Xs(cs: Corners): (r: seq<real>)
    ensures |r| == |cs| && forall k :: 0 <= k < |cs| ==> r[k] == cs[k].0
  {
    seq(|cs|, k requires 0 <= k < |cs| => cs[k].0)
  }

  function Ys(cs: Corners): (r: seq<real>)
    ensures |r| == |cs| && forall k :: 0 <= k < |cs| ==> r[k] == cs[k].1
  {
    seq(|cs|, k requires 0 <= k < |cs| => cs[k].1)
  }

  /** `[corner for rect in rectangles for corner in rect]`. */
  function AllCorners(rects: seq<Corners>): (r: Corners)
    ensures rects == [] ==> r == []
  {
    if rects == [] then [] else rects[0] + AllCorners(rects[1..])
  }

  /** Every corner of every rectangle is among all the corners. */
  lemma {:induction false} CornerInAll(rects: seq<Corners>, k: nat, c: (real, real))
    requires k < |rects| && c in rects[k]
    ensures c in AllCorners(rects)
  {
    if k > 0 {
      assert rects[1..][k - 1] == rects[k];
      CornerInAll(rects[1..], k - 1, c);
    }
  }

  /** Every one of all the corners is a corner of some rectangle. */
  lemma {:induction false} AllCornerIn(rects: seq<Corners>, c: (real, real)) returns (k: nat)
    requires c in AllCorners(rects)
    ensures k < |rects| && c in rects[k]
  {
    if c in rects[0] {
      k := 0;
    } else {
      var j := AllCornerIn(rects[1..], c);
      k := j + 1;
    }
  }

  /** The bounding box of some corners, as (xmin, xmax, ymin, ymax); each bound is attained by a corner. */
  datatype Bounds = Bounds(xmin: real, xmax: real, ymin: real, ymax: real)

  function BoundsOf(cs: Corners): (b: Bounds)
    requires cs != []
    ensures forall k :: 0 <= k < |cs| ==> b.xmin <= cs[k].0 <= b.xmax && b.ymin <= cs[k].1 <= b.ymax
    ensures exists k :: 0 <= k < |cs| && cs[k].0 == b.xmin
    ensures exists k :: 0 <= k < |cs| && cs[k].0 == b.xmax
    ensures exists k :: 0 <= k < |cs| && cs[k].1 == b.ymin
    ensures exists k :: 0 <= k < |cs| && cs[k].1 == b.ymax
  {
    var xs, ys := Xs(cs), Ys(cs);
    var b := Bounds(MinOf(xs), MaxOf(xs), MinOf(ys), MaxOf(ys));
    assert b.xmin in xs && b.xmax in xs && b.ymin in ys && b.ymax in ys;
    b
  }

  /** The bounding box depends only on which corners there are, not on their order or repetitions. */
  lemma BoundsSameCorners(cs: Corners, ds: Corners)
    requires cs != [] && ds != []
    requires forall c :: c in cs <==> c in ds
    ensures BoundsOf(cs) == BoundsOf(ds)
  {
    forall v ensures v in Xs(cs) <==> v in Xs(ds) {
      if v in Xs(cs) {
        var k :| 0 <= k < |cs| && Xs(cs)[k] == v;
        assert cs[k] in cs;
        var l :| 0 <= l < |ds| && ds[l] == cs[k];
        assert Xs(ds)[l] == v;
      }
      if v in Xs(ds) {
        var k :| 0 <= k < |ds| && Xs(ds)[k] == v;
        assert ds[k] in ds;
        var l :| 0 <= l < |cs| && cs[l] == ds[k];
        assert Xs(cs)[l] == v;
      }
    }
    forall v ensures v in Ys(cs) <==> v in Ys(ds) {
      if v in Ys(cs) {
        var k :| 0 <= k < |cs| && Ys(cs)[k] == v;
        assert cs[k] in cs;
        var l :| 0 <= l < |ds| && ds[l] == cs[k];
        assert Ys(ds)[l] == v;
      }
      if v in Ys(ds) {
        var k :| 0 <= k < |ds| && Ys(ds)[k] == v;
        assert ds[k] in ds;
        var l :| 0 <= l < |cs| && cs[l] == ds[k];
        assert Ys(cs)[l] == v;
      }
    }
    MinMaxSameValues(Xs(cs), Xs(ds));
    MinMaxSameValues(Ys(cs), Ys(ds));
  }

  /** The four corners of an axis-aligned box, in the source's order. */
  function BoxCorners(b: Bounds): Corners {
    [(b.xmin, b.ymin), (b.xmin, b.ymax), (b.xmax, b.ymin), (b.xmax, b.ymax)]
  }

  /** Corners whose coordinates are all extremes of `b`, each extreme attained, have bounding box `b`. */
  lemma BoundsOfExtremes(cs: Corners, b: Bounds, i: nat, j: nat)
    requires i < |cs| && j < |cs| && cs[i] == (b.xmin, b.ymin) && cs[j] == (b.xmax, b.ymax)
    requires b.xmin <= b.xmax && b.ymin <= b.ymax
    requires forall k :: 0 <= k < |cs| ==> (cs[k].0 == b.xmin || cs[k].0 == b.xmax) && (cs[k].1 == b.ymin || cs[k].1 == b.ymax)
    ensures BoundsOf(cs) == b
  {
    var r := BoundsOf(cs);
    assert r.xmin <= b.xmin && b.xmax <= r.xmax && r.ymin <= b.ymin && b.ymax <= r.ymax by {
      assert r.xmin <= cs[i].0 && cs[j].0 <= r.xmax && r.ymin <= cs[i].1 && cs[j].1 <= r.ymax;
    }
  }

  /** A box is its own bounding box. */
  lemma BoundsOfBox(b: Bounds)
    requires b.xmin <= b.xmax && b.ymin <= b.ymax
    ensures BoundsOf(BoxCorners(b)) == b
  {
    BoundsOfExtremes(BoxCorners(b), b, 0, 3);
  }

  /**
   * `merge_corner_rectangles`: the box whose sides are the extreme corner coordinates of all
   * the rectangles; `min` of no corners at all raises ValueError.
   */
  function MergeCornerRectangles(rects: seq<Corners>): (r: Result<Corners>)
    ensures r.Err? <==> AllCorners(rects) == []
    ensures r.Ok? ==> r.value == BoxCorners(BoundsOf(AllCorners(rects)))
  {
    var cs := AllCorners(rects);
    if cs == [] then Err(ValueError("min() arg is an empty sequence"))
    else Ok(BoxCorners(BoundsOf(cs)))
  }

  /** Every corner of every input lies in the merged box, and each side of the box touches some input corner. */
  lemma MergeCornerRectanglesBounds(rects: seq<Corners>, k: nat, c: (real, real))
    requires k < |rects| && c in rects[k]
    ensures MergeCornerRectangles(rects).Ok?
    ensures var b := BoundsOf(AllCorners(rects));
            b.xmin <= c.0 <= b.xmax && b.ymin <= c.1 <= b.ymax
  {
    var cs := AllCorners(rects);
    CornerInAll(rects, k, c);
    var i :| 0 <= i < |cs| && cs[i] == c;
  }

  /** Merging is commutative: the order of the two rectangles does not matter. */
  lemma MergeCornerRectanglesCommutative(a: Corners, b: Corners)
    ensures MergeCornerRectangles([a, b]) == MergeCornerRectangles([b, a])
  {
    var ab, ba := AllCorners([a, b]), AllCorners([b, a]);
    forall c: (real, real) ensures c in ab <==> c in ba {
      if c in ab {
        var k := AllCornerIn([a, b], c);
        CornerInAll([b, a], 1 - k, c);
      }
      if c in ba {
        var k := AllCornerIn([b, a], c);
        CornerInAll([a, b], 1 - k, c);
      }
    }
    if ab != [] {
      assert ab[0] in ba;
      BoundsSameCorners(ab, ba);
    }
    if ba != [] {
      assert ba[0] in ab;
    }
  }

  /** Merging a merged box again, alone, gives it back. */
  lemma MergeCornerRectanglesIdempotent(rects: seq<Corners>)
    requires MergeCornerRectangles(rects).Ok?
    ensures MergeCornerRectangles([MergeCornerRectangles(rects).value]) == MergeCornerRectangles(rects)
  {
    var box: Corners := MergeCornerRectangles(rects).value;
    var b := BoundsOf(AllCorners(rects));
    var single: seq<Corners> := [box];
    var cs := AllCorners(single);
    forall c: (real, real) ensures c in cs <==> c in box {
      if c in box { CornerInAll(single, 0, c); }
      if c in cs { var k := AllCornerIn(single, c); }
    }
    assert box[0] in cs;
    BoundsSameCorners(cs, box);
    var i :| 0 <= i < |AllCorners(rects)| && AllCorners(rects)[i].0 == b.xmin;
    var j :| 0 <= j < |AllCorners(rects)| && AllCorners(rects)[j].1 == b.ymin;
    BoundsOfBox(b);
  }

  /** `corner_rectangle_size`: (width, height) of the bounding box; `min` of no corners raises ValueError. */
  function CornerRectangleSize(rect: Corners): (r: Result<(real, real)>)
    ensures r.Err? <==> rect == []
    ensures r.Ok? ==> r.value.0 >= 0.0 && r.value.1 >= 0.0
  {
    if rect == [] then Err(ValueError("min() arg is an empty sequence"))
    else
      var b := BoundsOf(rect);
      assert b.xmin <= rect[0].0 <= b.xmax;
      Ok((b.xmax - b.xmin, b.ymax - b.ymin))
  }

  /** The bounding box of all corners encloses the bounding box of each rectangle. */
  lemma EnclosesEach(rects: seq<Corners>, k: nat)
    requires k < |rects| && rects[k] != []
    ensures AllCorners(rects) != []
    ensures var u, b := BoundsOf(AllCorners(rects)), BoundsOf(rects[k]);
            u.xmin <= b.xmin && b.xmax <= u.xmax && u.ymin <= b.ymin && b.ymax <= u.ymax
  {
    var r := rects[k];
    var b := BoundsOf(r);
    CornerInAll(rects, k, r[0]);
    var i1 :| 0 <= i1 < |r| && r[i1].0 == b.xmin;
    var i2 :| 0 <= i2 < |r| && r[i2].0 == b.xmax;
    var i3 :| 0 <= i3 < |r| && r[i3].1 == b.ymin;
    var i4 :| 0 <= i4 < |r| && r[i4].1 == b.ymax;
    MergeCornerRectanglesBounds(rects, k, r[i1]);
    MergeCornerRectanglesBounds(rects, k, r[i2]);
    MergeCornerRectanglesBounds(rects, k, r[i3]);
    MergeCornerRectanglesBounds(rects, k, r[i4]);
  }

  /** The merged box of two rectangles is at least as wide and as high as each of them. */
  lemma MergedAtLeastAsLarge(a: Corners, b: Corners)
    requires a != [] && b != []
    ensures MergeCornerRectangles([a, b]).Ok?
    ensures var m := CornerRectangleSize(MergeCornerRectangles([a, b]).value);
            m.Ok? && m.value.0 >= CornerRectangleSize(a).value.0 && m.value.1 >= CornerRectangleSize(a).value.1
            && m.value.0 >= CornerRectangleSize(b).value.0 && m.value.1 >= CornerRectangleSize(b).value.1
  {
    EnclosesEach([a, b], 0);
    EnclosesEach([a, b], 1);
    var u := BoundsOf(AllCorners([a, b]));
    assert u.xmin <= u.xmax && u.ymin <= u.ymax by {
      var cs := AllCorners([a, b]);
      assert u.xmin <= cs[0].0 <= u.xmax;
    }
    BoundsOfBox(u);
  }

  function Sum(xs: seq<real>): real {
    if xs == [] then 0.0 else xs[0] + Sum(xs[1..])
  }

  /** A sum of values between lo and hi lies between n lo and n hi. */
  lemma {:induction false} SumBounds(xs: seq<real>, lo: real, hi: real)
    requires forall k :: 0 <= k < |xs| ==> lo <= xs[k] <= hi
    ensures |xs| as real * lo <= Sum(xs) <= |xs| as real * hi
  {
    if xs != [] {
      assert forall k :: 0 <= k < |xs[1..]| ==> xs[1..][k] == xs[k + 1];
      SumBounds(xs[1..], lo, hi);
    }
  }

  /** `np.mean`; NaN (None) for no values. */
  function Mean(xs: seq<real>): (r: Option<real>)
    ensures r.Some? <==> xs != []
  {
    if xs == [] then None else Some(Sum(xs) / |xs| as real)
  }

  /** n lo <= s <= n hi gives lo <= s / n <= hi for a positive n. */
  lemma DivideBounds(s: real, n: real, lo: real, hi: real, plo: real, phi: real)
    requires n > 0.0 && plo == n * lo && phi == n * hi && plo <= s <= phi
    ensures lo <= s / n <= hi
  {
    var m := s / n;
    assert m * n == s;
    MulLeInverse(lo, m, n, plo, s);
    MulLeInverse(m, hi, n, s, phi);
  }

  /** The mean of non-empty values lies between their minimum and maximum. */
  lemma MeanWithin(xs: seq<real>)
    requires xs != []
    ensures MinOf(xs) <= Mean(xs).value <= MaxOf(xs)
  {
    var n := |xs| as real;
    var lo, hi, s := MinOf(xs), MaxOf(xs), Sum(xs);
    SumBounds(xs, lo, hi);
    DivideBounds(s, n, lo, hi, n * lo, n * hi);
  }

  /** `corner_rect_center`: the mean corner; NaN (None) for a rectangle without corners. */
  function CornerRectCenter(rect: Corners): (r: Option<(real, real)>)
    ensures r.Some? <==> rect != []
  {
    if rect == [] then None else Some((Mean(Xs(rect)).value, Mean(Ys(rect)).value))
  }

  /** The centre lies inside the bounding box. */
  lemma CornerRectCenterInside(rect: Corners)
    requires rect != []
    ensures var b := BoundsOf(rect);
            var c := CornerRectCenter(rect).value;
            b.xmin <= c.0 <= b.xmax && b.ymin <= c.1 <= b.ymax
  {
    MeanWithin(Xs(rect));
    MeanWithin(Ys(rect));
  }

  /** `distance_between_corner_rects`: the distance between the centres; NaN (None) when a rectangle has no corners. */
  function DistanceBetweenCornerRects(r1: Corners, r2: Corners, sqrt: SqrtFn): (r: Option<real>)
    ensures r.Some? <==> r1 != [] && r2 != []
  {
    match (CornerRectCenter(r1), CornerRectCenter(r2))
    case (Some(c1), Some(c2)) =>
      Some(sqrt(SquaredXY(c1.0 - c2.0, c1.1 - c2.1)))
    case _ => None
  }

  /** The distance does not depend on the order of the two rectangles. */
  lemma DistanceSymmetric(r1: Corners, r2: Corners, sqrt: SqrtFn)
    ensures DistanceBetweenCornerRects(r1, r2, sqrt) == DistanceBetweenCornerRects(r2, r1, sqrt)
  {
    if r1 != [] && r2 != [] {
      var c1, c2 := CornerRectCenter(r1).value, CornerRectCenter(r2).value;
      var dx, dy := c1.0 - c2.0, c1.1 - c2.1;
      assert (-dx) * (-dx) == dx * dx && (-dy) * (-dy) == dy * dy;
      assert SquaredXY(c2.0 - c1.0, c2.1 - c1.1) == SquaredXY(dx, dy);
    }
  }

  /** A rectangle is at distance 0 from itself, and every distance is non-negative. */
  lemma DistanceZero(r1: Corners, r2: Corners, sqrt: SqrtFn)
    requires IsSqrt(sqrt) && r1 != [] && r2 != []
    ensures DistanceBetweenCornerRects(r1, r1, sqrt) == Some(0.0)
    ensures DistanceBetweenCornerRects(r1, r2, sqrt).value >= 0.0
  {
    SqrtZero(sqrt);
    var c1, c2 := CornerRectCenter(r1).value, CornerRectCenter(r2).value;
    assert SquaredXY(c1.0 - c1.0, c1.1 - c1.1) == 0.0;
    assert sqrt(SquaredXY(c1.0 - c2.0, c1.1 - c2.1)) >= 0.0;
  }

  /**
   * A cluster: the 'rect' of the dict, and its 'items' list when it has one. Input items are
   * clusters without 'items' (or with whatever 'items' they came with).
   */
  datatype Cluster = Cluster(rect: Corners, items: Option<seq<Cluster>>)

  /** `c.get('items', [c])`. */
  function Members(c: Cluster): seq<Cluster> {
    if c.items.Some? then c.items.value else [c]
  }

  /** `merge_clusters`: the merged box and the two member lists joined. */
  function MergeClusters(c1: Cluster, c2: Cluster): (r: Result<Cluster>)
    ensures r.Ok? <==> c1.rect != [] || c2.rect != []
    ensures r.Ok? ==> r.value.items == Some(Members(c1) + Members(c2))
    ensures r.Ok? ==> |Members(r.value)| == |Members(c1)| + |Members(c2)|
  {
    if c1.rect == [] && c2.rect == [] then
      assert AllCorners([c1.rect, c2.rect]) == [] by {
        assert AllCorners([c1.rect, c2.rect]) == c1.rect + AllCorners([c2.rect]);
        assert AllCorners([c2.rect]) == c2.rect + AllCorners([]);
      }
      Err(ValueError("min() arg is an empty sequence"))
    else
      assert MergeCornerRectangles([c1.rect, c2.rect]).Ok? by {
        var k := if c1.rect != [] then 0 else 1;
        CornerInAll([c1.rect, c2.rect], k, [c1.rect, c2.rect][k][0]);
      }
      Ok(Cluster(MergeCornerRectangles([c1.rect, c2.rect]).value, Some(Members(c1) + Members(c2))))
  }

  /** The number of items all clusters stand for. */
  function Leaves(cs: seq<Cluster>): nat {
    if cs == [] then 0 else |Members(cs[0])| + Leaves(cs[1..])
  }

  lemma {:induction false} LeavesAppend(a: seq<Cluster>, b: seq<Cluster>)
    ensures Leaves(a + b) == Leaves(a) + Leaves(b)
  {
    if a == [] {
      assert a + b == b;
    } else {
      assert (a + b)[1..] == a[1..] + b;
      LeavesAppend(a[1..], b);
    }
  }

  /** `cs.remove(x)` takes away exactly the items of `x`. */
  lemma LeavesRemoveFirst(cs: seq<Cluster>, x: Cluster)
    requires x in cs
    ensures Leaves(RemoveFirst(cs, x)) + |Members(x)| == Leaves(cs)
  {
    var i := IndexOf(cs, x);
    assert cs == cs[..i] + ([x] + cs[i + 1..]);
    LeavesAppend(cs[..i], [x] + cs[i + 1..]);
    LeavesAppend([x], cs[i + 1..]);
    LeavesAppend(cs[..i], cs[i + 1..]);
  }

  /** After removing the first copy of `cs[i]`, `cs[j]` is still there for any other position `j`. */
  lemma StillPresent(cs: seq<Cluster>, i: nat, j: nat)
    requires i < |cs| && j < |cs| && i != j
    ensures cs[j] in RemoveFirst(cs, cs[i])
  {
    var p := IndexOf(cs, cs[i]);
    var r := RemoveFirst(cs, cs[i]);
    IndexOfAtMost(cs, i);
    if j < p {
      assert r[j] == cs[j];
    } else if j > p {
      assert r[j - 1] == cs[j];
    } else {
      assert r[i - 1] == cs[i];
    }
  }

  /** The distance between clusters `k` and `l` of the list. */
  function D(cs: seq<Cluster>, k: nat, l: nat, sqrt: SqrtFn): Option<real>
    requires k < |cs| && l < |cs|
  {
    DistanceBetweenCornerRects(cs[k].rect, cs[l].rect, sqrt)
  }

  /** The pair (k, l) comes before (i, j) in the order the two loops visit pairs. */
  predicate Before(k: nat, l: nat, i: nat, j: nat) {
    k < i || (k == i && l < j)
  }

  /** `closest_spacing`: the maximum float until a pair is found, then that pair's distance. */
  function Spacing(best: Option<(nat, nat, real)>): real {
    if best.None? then FloatMax else best.value.2
  }

  /** One pair visit: `cluster_spacing < closest_spacing` makes it the closest so far (NaN never does). */
  function Consider(cs: seq<Cluster>, i: nat, j: nat, best: Option<(nat, nat, real)>, sqrt: SqrtFn): Option<(nat, nat, real)>
    requires i < |cs| && j < |cs|
  {
    if i == j then best
    else match D(cs, i, j, sqrt)
      case None => best
      case Some(d) => if d < Spacing(best) then Some((i, j, d)) else best
  }

  /** The pairs of a valid best-so-far point into the list and are never the same cluster twice. */
  predicate PairFits(cs: seq<Cluster>, best: Option<(nat, nat, real)>) {
    best.Some? ==> best.value.0 < |cs| && best.value.1 < |cs| && best.value.0 != best.value.1
  }

  /** The double loop from position (i, j) on; `None` is `closest_clusters = None`. */
  function Scan(cs: seq<Cluster>, i: nat, j: nat, best: Option<(nat, nat, real)>, sqrt: SqrtFn): (r: Option<(nat, nat, real)>)
    requires i <= |cs| && j <= |cs| && PairFits(cs, best)
    ensures PairFits(cs, r)
    decreases |cs| - i, |cs| - j
  {
    if i == |cs| then best
    else if j == |cs| then Scan(cs, i + 1, 0, best, sqrt)
    else Scan(cs, i, j + 1, Consider(cs, i, j, best, sqrt), sqrt)
  }

  /** `closest_clusters` (as positions) and `closest_spacing` after the double loop; None when no pair has a distance. */
  function Closest(cs: seq<Cluster>, sqrt: SqrtFn): (r: Option<(nat, nat, real)>)
    ensures PairFits(cs, r)
  {
    Scan(cs, 0, 0, None, sqrt)
  }

  /**
   * `best` is what the loops hold once every pair before (i, j) was visited: None when none
   * of them has a distance below the maximum float, otherwise the first pair with the
   * smallest distance.
   */
  predicate BestSoFar(cs: seq<Cluster>, i: nat, j: nat, best: Option<(nat, nat, real)>, sqrt: SqrtFn) {
    PairFits(cs, best) &&
    (best.None? ==>
      forall k: nat, l: nat :: k < |cs| && l < |cs| && k != l && Before(k, l, i, j) && D(cs, k, l, sqrt).Some? ==>
        D(cs, k, l, sqrt).value >= FloatMax) &&
    (best.Some? ==>
      var (a, b, d) := best.value;
      Before(a, b, i, j) && D(cs, a, b, sqrt) == Some(d) && d < FloatMax &&
      (forall k: nat, l: nat :: k < |cs| && l < |cs| && k != l && Before(k, l, i, j) && D(cs, k, l, sqrt).Some? ==>
        d <= D(cs, k, l, sqrt).value) &&
      (forall k: nat, l: nat :: k < |cs| && l < |cs| && k != l && Before(k, l, a, b) && D(cs, k, l, sqrt).Some? ==>
        d < D(cs, k, l, sqrt).value))
  }

  lemma ConsiderStep(cs: seq<Cluster>, i: nat, j: nat, best: Option<(nat, nat, real)>, sqrt: SqrtFn)
    requires i < |cs| && j < |cs| && BestSoFar(cs, i, j, best, sqrt)
    ensures BestSoFar(cs, i, j + 1, Consider(cs, i, j, best, sqrt), sqrt)
  {
    var r := Consider(cs, i, j, best, sqrt);
    if r != best {
      var d := D(cs, i, j, sqrt).value;
      forall k: nat, l: nat | k < |cs| && l < |cs| && k != l && Before(k, l, i, j) && D(cs, k, l, sqrt).Some?
        ensures d < D(cs, k, l, sqrt).value
      {
        if best.Some? {
          assert best.value.2 <= D(cs, k, l, sqrt).value;
        }
      }
    }
  }

  lemma RowStep(cs: seq<Cluster>, i: nat, best: Option<(nat, nat, real)>, sqrt: SqrtFn)
    requires i < |cs| && BestSoFar(cs, i, |cs|, best, sqrt)
    ensures BestSoFar(cs, i + 1, 0, best, sqrt)
  {
    forall k: nat, l: nat | k < |cs| && l < |cs| ensures Before(k, l, i, |cs|) <==> Before(k, l, i + 1, 0) { }
  }

  lemma EndStep(cs: seq<Cluster>, j: nat, best: Option<(nat, nat, real)>, sqrt: SqrtFn)
    requires BestSoFar(cs, |cs|, j, best, sqrt)
    ensures BestSoFar(cs, |cs|, 0, best, sqrt)
  {
    forall k: nat, l: nat | k < |cs| && l < |cs| ensures Before(k, l, |cs|, j) <==> Before(k, l, |cs|, 0) { }
  }

  lemma {:induction false} ScanMeans(cs: seq<Cluster>, i: nat, j: nat, best: Option<(nat, nat, real)>, sqrt: SqrtFn)
    requires i <= |cs| && j <= |cs| && BestSoFar(cs, i, j, best, sqrt)
    ensures BestSoFar(cs, |cs|, 0, Scan(cs, i, j, best, sqrt), sqrt)
    decreases |cs| - i, |cs| - j
  {
    if i == |cs| {
      EndStep(cs, j, best, sqrt);
    } else if j == |cs| {
      RowStep(cs, i, best, sqrt);
      ScanMeans(cs, i + 1, 0, best, sqrt);
    } else {
      ConsiderStep(cs, i, j, best, sqrt);
      ScanMeans(cs, i, j + 1, Consider(cs, i, j, best, sqrt), sqrt);
    }
  }

  /**
   * What the closest-pair search finds: None exactly when no two different clusters have a
   * distance below the maximum float; otherwise a pair of different clusters at the smallest
   * distance, and no pair visited before it is as close.
   */
  lemma ClosestMeans(cs: seq<Cluster>, sqrt: SqrtFn)
    ensures Closest(cs, sqrt).None? <==>
            forall k: nat, l: nat :: k < |cs| && l < |cs| && k != l && D(cs, k, l, sqrt).Some? ==>
              D(cs, k, l, sqrt).value >= FloatMax
    ensures Closest(cs, sqrt).Some? ==>
            var (a, b, d) := Closest(cs, sqrt).value;
            a < |cs| && b < |cs| && a != b && D(cs, a, b, sqrt) == Some(d) && d < FloatMax &&
            (forall k: nat, l: nat :: k < |cs| && l < |cs| && k != l && D(cs, k, l, sqrt).Some? ==> d <= D(cs, k, l, sqrt).value) &&
            (forall k: nat, l: nat :: k < |cs| && l < |cs| && k != l && Before(k, l, a, b) && D(cs, k, l, sqrt).Some? ==> d < D(cs, k, l, sqrt).value)
  {
    ScanMeans(cs, 0, 0, None, sqrt);
    var r := Closest(cs, sqrt);
    if r.Some? {
      var (a, b, d) := r.value;
      assert D(cs, a, b, sqrt).Some?;
    }
  }

  /** Fewer than two clusters leave nothing to merge. */
  lemma ClosestOfFewer(cs: seq<Cluster>, sqrt: SqrtFn)
    requires |cs| < 2
    ensures Closest(cs, sqrt).None?
  {
    ClosestMeans(cs, sqrt);
  }

  /** The double `for` loop of `cluster_rectangle_items`. */
  method ClosestPair(cs: seq<Cluster>, sqrt: SqrtFn) returns (closest: Option<(nat, nat, real)>)
    ensures closest == Closest(cs, sqrt)
  {
    closest := None;
    var i := 0;
    while i < |cs|
      invariant i <= |cs| && PairFits(cs, closest)
      invariant Scan(cs, i, 0, closest, sqrt) == Closest(cs, sqrt)
    {
      var j := 0;
      while j < |cs|
        invariant j <= |cs| && PairFits(cs, closest)
        invariant Scan(cs, i, j, closest, sqrt) == Closest(cs, sqrt)
      {
        if i != j {
          var spacing := DistanceBetweenCornerRects(cs[i].rect, cs[j].rect, sqrt);
          if spacing.Some? && spacing.value < Spacing(closest) {
            closest := Some((i, j, spacing.value));
          }
        }
        j := j + 1;
      }
      i := i + 1;
    }
  }

  /** The cluster's box is no wider and no higher than `limit`. */
  predicate Fits(c: Cluster, limit: real) {
    var s := CornerRectangleSize(c.rect);
    s.Ok? && s.value.0 <= limit && s.value.1 <= limit
  }

  /** The loop has stopped: nothing left to merge, or merging the closest pair would exceed the limit. */
  predicate Stopped(cs: seq<Cluster>, limit: real, sqrt: SqrtFn) {
    var p := Closest(cs, sqrt);
    p.None? || (var m := MergeClusters(cs[p.value.0], cs[p.value.1]); m.Ok? && !Fits(m.value, limit))
  }

  /** One accepted merge: both clusters removed (first equal copy each) and the merged one appended. */
  function MergeStep(cs: seq<Cluster>, i: nat, j: nat, merged: Cluster): (r: seq<Cluster>)
    requires i < |cs| && j < |cs| && i != j
    ensures |r| == |cs| - 1
  {
    StillPresent(cs, i, j);
    RemoveFirst(RemoveFirst(cs, cs[i]), cs[j]) + [merged]
  }

  /** A merge step keeps the total number of items. */
  lemma MergeStepLeaves(cs: seq<Cluster>, i: nat, j: nat, m: Cluster)
    requires i < |cs| && j < |cs| && i != j && MergeClusters(cs[i], cs[j]) == Ok(m)
    ensures Leaves(MergeStep(cs, i, j, m)) == Leaves(cs)
  {
    StillPresent(cs, i, j);
    var r1 := RemoveFirst(cs, cs[i]);
    var r2 := RemoveFirst(r1, cs[j]);
    LeavesRemoveFirst(cs, cs[i]);
    LeavesRemoveFirst(r1, cs[j]);
    LeavesAppend(r2, [m]);
    assert Leaves([m]) == |Members(m)|;
  }

  /** A merge step keeps every cluster apart from the two it merges, and adds the merged one. */
  lemma MergeStepMembers(cs: seq<Cluster>, i: nat, j: nat, m: Cluster, c: Cluster)
    requires i < |cs| && j < |cs| && i != j && c in MergeStep(cs, i, j, m)
    ensures c in cs || c == m
  {
    StillPresent(cs, i, j);
    var r1 := RemoveFirst(cs, cs[i]);
    var r2 := RemoveFirst(r1, cs[j]);
    if c != m {
      assert c in r2;
      RemoveFirstIn(r1, cs[j], c);
      RemoveFirstIn(cs, cs[i], c);
    }
  }

  /**
   * `cluster_rectangle_items`: keep merging the closest pair of clusters until there is no
   * pair left or the merged box would be wider or higher than `max_size / 100`.
   * The list is a value here, so the caller's list is left as it was (the source copies it).
   */
  method ClusterRectangleItems(items: seq<Cluster>, maxSize: real, sqrt: SqrtFn) returns (clusters: seq<Cluster>)
    ensures Leaves(clusters) == Leaves(items)
    ensures |clusters| <= |items|
    ensures forall c :: c in clusters ==> c in items || Fits(c, maxSize / 100.0)
    ensures Stopped(clusters, maxSize / 100.0, sqrt)
  {
    var limit := maxSize / 100.0;
    clusters := items;
    while true
      invariant Leaves(clusters) == Leaves(items)
      invariant |clusters| <= |items|
      invariant forall c :: c in clusters ==> c in items || Fits(c, limit)
      decreases |clusters|
    {
      var closest := ClosestPair(clusters, sqrt);
      if closest.None? {
        break;
      }
      var (i, j, _) := closest.value;
      ClosestMeans(clusters, sqrt);
      var newCluster := MergeClusters(clusters[i], clusters[j]).value;
      var size := CornerRectangleSize(newCluster.rect).value;
      if size.0 > limit || size.1 > limit {
        break;
      }
      MergeStepLeaves(clusters, i, j, newCluster);
      forall c | c in MergeStep(clusters, i, j, newCluster) ensures c in items || Fits(c, limit) {
        MergeStepMembers(clusters, i, j, newCluster, c);
      }
      StillPresent(clusters, i, j);
      clusters := RemoveFirst(RemoveFirst(clusters, clusters[i]), clusters[j]) + [newCluster];
    }
  }
}
