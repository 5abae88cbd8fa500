/**
 * East/west/north/south bounding boxes of images and segments, and the overlap test that
 * decides whether an image can show part of a segment.
 */
module Overlap {
  import opened Geometry
  import opened GeoImages

  /** A box as the tuple (east, west, north, south). */
  datatype Box = Box(east: real, west: real, north: real, south: real)

  function Max(a: real, b: real): real { if a >= b then a else b }
  function Min(a: real, b: real): real { if a <= b then a else b }

  /** `max` of four values: an upper bound that is one of them. */
  function Max4(a: real, b: real, c: real, d: real): (r: real)
    ensures r >= a && r >= b && r >= c && r >= d
    ensures r == a || r == b || r == c || r == d
  {
    Max(Max(Max(a, b), c), d)
  }

  /** `min` of four values: a lower bound that is one of them. */
  function Min4(a: real, b: real, c: real, d: real): (r: real)
    ensures r <= a && r <= b && r <= c && r <= d
    ensures r == a || r == b || r == c || r == d
  {
    Min(Min(Min(a, b), c), d)
  }

  /** The point lies inside the box or on its edge. */
  predicate Contains(b: Box, x: real, y: real) {
    b.west <= x <= b.east && b.south <= y <= b.north
  }

  /** The point lies strictly inside the box. */
  predicate Inside(b: Box, x: real, y: real) {
    b.west < x < b.east && b.south < y < b.north
  }

  /** A box with a non-empty interior. */
  predicate Proper(b: Box) {
    b.west < b.east && b.south < b.north
  }

  /** `is_overlapping_segment`: the two boxes overlap strictly on both axes. */
  predicate IsOverlappingSegment(image: Box, segment: Box) {
    image.north > segment.south && image.south < segment.north &&
    image.east > segment.west && image.west < segment.east
  }

  /** The test does not depend on which box is the image. */
  lemma IsOverlappingSegmentSymmetric(a: Box, b: Box)
    ensures IsOverlappingSegment(a, b) <==> IsOverlappingSegment(b, a)
  { }

  /** Boxes that only share an edge do not overlap. */
  lemma TouchingDoNotOverlap(a: Box, b: Box)
    requires a.east == b.west || a.north == b.south
    ensures !IsOverlappingSegment(a, b)
  { }

  /** For proper boxes, overlapping means some point lies strictly inside both. */
  lemma IsOverlappingSegmentMeans(a: Box, b: Box)
    requires Proper(a) && Proper(b)
    ensures IsOverlappingSegment(a, b) <==> exists x, y :: Inside(a, x, y) && Inside(b, x, y)
  {
    if IsOverlappingSegment(a, b) {
      var x := (Max(a.west, b.west) + Min(a.east, b.east)) / 2.0;
      var y := (Max(a.south, b.south) + Min(a.north, b.north)) / 2.0;
      assert Inside(a, x, y) && Inside(b, x, y);
    }
  }

  /** `calculate_image_ewns`: the extremes of the four image corners. */
  function ImageEwns(g: GeoImage): (r: Box)
    ensures r.east >= r.west && r.north >= r.south
    ensures Contains(r, g.topLeft.x, g.topLeft.y) && Contains(r, g.topRight.x, g.topRight.y)
    ensures Contains(r, g.bottomLeft.x, g.bottomLeft.y) && Contains(r, g.bottomRight.x, g.bottomRight.y)
  {
    Box(Max4(g.topLeft.x, g.topRight.x, g.bottomLeft.x, g.bottomRight.x),
        Min4(g.topLeft.x, g.topRight.x, g.bottomLeft.x, g.bottomRight.x),
        Max4(g.topLeft.y, g.topRight.y, g.bottomLeft.y, g.bottomRight.y),
        Min4(g.topLeft.y, g.topRight.y, g.bottomLeft.y, g.bottomRight.y))
  }

  /** The image box is the smallest box holding the corners: every side touches a corner. */
  lemma ImageEwnsTight(g: GeoImage, b: Box)
    requires Contains(b, g.topLeft.x, g.topLeft.y) && Contains(b, g.topRight.x, g.topRight.y)
    requires Contains(b, g.bottomLeft.x, g.bottomLeft.y) && Contains(b, g.bottomRight.x, g.bottomRight.y)
    ensures b.west <= ImageEwns(g).west && ImageEwns(g).east <= b.east
    ensures b.south <= ImageEwns(g).south && ImageEwns(g).north <= b.north
  {
    var r := ImageEwns(g);
    assert r.east == Max4(g.topLeft.x, g.topRight.x, g.bottomLeft.x, g.bottomRight.x);
    assert r.west == Min4(g.topLeft.x, g.topRight.x, g.bottomLeft.x, g.bottomRight.x);
    assert r.north == Max4(g.topLeft.y, g.topRight.y, g.bottomLeft.y, g.bottomRight.y);
    assert r.south == Min4(g.topLeft.y, g.topRight.y, g.bottomLeft.y, g.bottomRight.y);
  }

  /** `calculate_segment_ewns`: the box spanned by the two end codes, widened by `pad` on every side. */
  function SegmentEwns(p1: Point, p2: Point, pad: real): (r: Box)
    ensures pad >= 0.0 ==> r.west <= r.east && r.south <= r.north
  {
    Box(Max(p1.x, p2.x) + pad, Min(p1.x, p2.x) - pad, Max(p1.y, p2.y) + pad, Min(p1.y, p2.y) - pad)
  }

  /** With a non-negative pad the box holds both codes and is |dx| + 2 pad wide and |dy| + 2 pad high. */
  lemma SegmentEwnsProperties(p1: Point, p2: Point, pad: real)
    requires pad >= 0.0
    ensures Contains(SegmentEwns(p1, p2, pad), p1.x, p1.y)
    ensures Contains(SegmentEwns(p1, p2, pad), p2.x, p2.y)
    ensures SegmentEwns(p1, p2, pad).east - SegmentEwns(p1, p2, pad).west == Abs(p1.x - p2.x) + 2.0 * pad
    ensures SegmentEwns(p1, p2, pad).north - SegmentEwns(p1, p2, pad).south == Abs(p1.y - p2.y) + 2.0 * pad
  { }

  /** `calculate_special_segment_ewns`: a box around the start code alone. */
  function SpecialSegmentEwns(p1: Point, pad: real): (r: Box)
    ensures r == SegmentEwns(p1, p1, pad)
  {
    Box(p1.x + pad, p1.x - pad, p1.y + pad, p1.y - pad)
  }

  /** The special box is a square of side 2 pad centred on the start code, the segment box of a zero-length segment. */
  lemma SpecialSegmentEwnsProperties(p1: Point, pad: real)
    ensures SpecialSegmentEwns(p1, pad).east - SpecialSegmentEwns(p1, pad).west == 2.0 * pad
    ensures SpecialSegmentEwns(p1, pad).north - SpecialSegmentEwns(p1, pad).south == 2.0 * pad
    ensures (SpecialSegmentEwns(p1, pad).east + SpecialSegmentEwns(p1, pad).west) / 2.0 == p1.x
    ensures (SpecialSegmentEwns(p1, pad).north + SpecialSegmentEwns(p1, pad).south) / 2.0 == p1.y
    ensures SpecialSegmentEwns(p1, pad) == SegmentEwns(p1, p1, pad)
  { }
}
