/**
 * `item_extraction`: the size filter applied to detected rectangles, the test that drops items
 * touching the image border, and the crop window `extract_square_image` cuts around an item.
 */
module ItemExtraction {
  import opened Lists
  import opened GeoImages
  import opened ImageUtils

  /** OpenCV's rotated rectangle ((cx, cy), (w, h), angle), the only shape `filter_by_size` unpacks. */
  type RotatedRectangle = r: Rectangle | r.Rotated? witness Rotated((0.0, 0.0), (0.0, 0.0), 0.0)

  /**
   * The size test of `filter_by_size` on sides `w` and `h` in centimetres: both are at most
   * `maxSize`; both (or, when `enforceMinOnWAndH` is false, either) are at least `minSize`.
   */
  predicate SidesOk(w: real, h: real, minSize: real, maxSize: real, enforceMinOnWAndH: bool) {
    var minCheckPassed := if enforceMinOnWAndH then h >= minSize && w >= minSize else h >= minSize || w >= minSize;
    minCheckPassed && h <= maxSize && w <= maxSize
  }

  /** A length in pixels converted to centimetres at `resolution` centimetres per pixel. */
  function Centimetres(pixels: real, resolution: real): real {
    pixels * resolution
  }

  /** The size test of a rectangle whose sides are given in pixels. */
  predicate SizeOk(r: RotatedRectangle, resolution: real, minSize: real, maxSize: real, enforceMinOnWAndH: bool) {
    SidesOk(Centimetres(r.size.0, resolution), Centimetres(r.size.1, resolution), minSize, maxSize, enforceMinOnWAndH)
  }

  /** The size test as a filter argument. */
  function Keep(resolution: real, minSize: real, maxSize: real, enforceMinOnWAndH: bool): RotatedRectangle -> bool {
    (r: RotatedRectangle) => SizeOk(r, resolution, minSize, maxSize, enforceMinOnWAndH)
  }

  lemma KeepIsSizeOk(r: RotatedRectangle, resolution: real, minSize: real, maxSize: real, enforceMinOnWAndH: bool)
    ensures Keep(resolution, minSize, maxSize, enforceMinOnWAndH)(r) == SizeOk(r, resolution, minSize, maxSize, enforceMinOnWAndH)
  { }

  /** The rectangles that pass the size test, in their original order. */
  function SizeFiltered(rects: seq<RotatedRectangle>, resolution: real, minSize: real, maxSize: real,
                        enforceMinOnWAndH: bool): (r: seq<RotatedRectangle>)
    ensures |r| <= |rects|
    ensures forall k :: 0 <= k < |r| ==> r[k] in rects && SizeOk(r[k], resolution, minSize, maxSize, enforceMinOnWAndH)
  {
    Filter(rects, Keep(resolution, minSize, maxSize, enforceMinOnWAndH))
  }

  /** `filter_by_size`. */
  method FilterBySize(boundingRects: seq<RotatedRectangle>, resolution: real, minSize: real, maxSize: real,
                      enforceMinOnWAndH: bool) returns (filteredRects: seq<RotatedRectangle>)
    ensures filteredRects == SizeFiltered(boundingRects, resolution, minSize, maxSize, enforceMinOnWAndH)
  {
    filteredRects := [];
    var i := 0;
    while i < |boundingRects|
      invariant i <= |boundingRects|
      invariant filteredRects == SizeFiltered(boundingRects[..i], resolution, minSize, maxSize, enforceMinOnWAndH)
    {
      var rectangle := boundingRects[i];
      var w := Centimetres(rectangle.size.0, resolution);
      var h := Centimetres(rectangle.size.1, resolution);
      var minCheckPassed;
      if enforceMinOnWAndH {
        minCheckPassed := h >= minSize && w >= minSize;
      } else {
        minCheckPassed := h >= minSize || w >= minSize;
      }
      SizeFilteredStep(boundingRects, i, resolution, minSize, maxSize, enforceMinOnWAndH);
      assert SidesOk(w, h, minSize, maxSize, enforceMinOnWAndH) == (minCheckPassed && h <= maxSize && w <= maxSize);
      if minCheckPassed && h <= maxSize && w <= maxSize {
        filteredRects := filteredRects + [rectangle];
      }
      i := i + 1;
    }
    assert boundingRects[..i] == boundingRects;
  }

  /** The size filter over one more rectangle of a prefix. */
  lemma SizeFilteredStep(rects: seq<RotatedRectangle>, i: nat, resolution: real, minSize: real, maxSize: real,
                         enforceMinOnWAndH: bool)
    requires i < |rects|
    ensures SizeFiltered(rects[..i + 1], resolution, minSize, maxSize, enforceMinOnWAndH) ==
            SizeFiltered(rects[..i], resolution, minSize, maxSize, enforceMinOnWAndH) +
            (if SizeOk(rects[i], resolution, minSize, maxSize, enforceMinOnWAndH) then [rects[i]] else [])
  {
    FilterPrefixStep(rects, i, Keep(resolution, minSize, maxSize, enforceMinOnWAndH));
    KeepIsSizeOk(rects[i], resolution, minSize, maxSize, enforceMinOnWAndH);
  }

  /** A rectangle is kept exactly when it passes the size test. */
  lemma SizeFilteredMembers(rects: seq<RotatedRectangle>, resolution: real, minSize: real, maxSize: real,
                            enforceMinOnWAndH: bool, r: RotatedRectangle)
    ensures r in SizeFiltered(rects, resolution, minSize, maxSize, enforceMinOnWAndH) <==>
            r in rects && SizeOk(r, resolution, minSize, maxSize, enforceMinOnWAndH)
  { }

  /** Filtering by a predicate that implies another equals filtering the other's result. */
  lemma {:induction false} FilterStronger<T>(s: seq<T>, strong: T -> bool, weak: T -> bool)
    requires forall x :: strong(x) ==> weak(x)
    ensures Filter(s, strong) == Filter(Filter(s, weak), strong)
  {
    if s != [] {
      FilterStronger(s[1..], strong, weak);
      var w := if weak(s[0]) then [s[0]] else [];
      FilterSplit(w, Filter(s[1..], weak), strong);
      if weak(s[0]) {
        assert Filter(w, strong) == (if strong(s[0]) then [s[0]] else []) by {
          assert w[1..] == [];
        }
      }
    }
  }

  /**
   * The enforcing mode keeps a sub-list of what the lenient mode keeps: exactly the lenient
   * result with the rectangles whose shorter side is too small taken out, in the same order.
   */
  lemma EnforcingKeepsSubList(rects: seq<RotatedRectangle>, resolution: real, minSize: real, maxSize: real)
    ensures SizeFiltered(rects, resolution, minSize, maxSize, true) ==
            Filter(SizeFiltered(rects, resolution, minSize, maxSize, false), Keep(resolution, minSize, maxSize, true))
    ensures |SizeFiltered(rects, resolution, minSize, maxSize, true)| <= |SizeFiltered(rects, resolution, minSize, maxSize, false)|
  {
    FilterStronger(rects, Keep(resolution, minSize, maxSize, true), Keep(resolution, minSize, maxSize, false));
  }

  /**
   * `touches_image_border` on an upright rectangle (`rotated_bounding_box=False`): a corner lies
   * within one pixel of the image edge, since the bounding box carries a one-pixel border.
   */
  predicate TouchesImageBorder(rect: Rectangle, geoImage: GeoImage)
    requires rect.Upright?
  {
    var (x1, y1, x2, y2) := RectangleCorners(rect.x, rect.y, rect.w, rect.h);
    x1 <= 1.0 || y1 <= 1.0 || x2 >= (geoImage.width - 1) as real || y2 >= (geoImage.height - 1) as real
  }

  /** Python's `int()` of a float: truncation toward zero. */
  function Trunc(v: real): (r: int)
    ensures v >= 0.0 ==> r as real <= v < r as real + 1.0
    ensures v < 0.0 ==> r as real - 1.0 < v <= r as real
  {
    if v >= 0.0 then v.Floor else -((-v).Floor)
  }

  /** Truncation toward zero never reverses an order. */
  lemma TruncMonotone(a: real, b: real)
    requires a <= b
    ensures Trunc(a) <= Trunc(b)
  {
    if a >= 0.0 {
      assert a.Floor <= b.Floor by { assert a.Floor as real <= b; }
    } else if b < 0.0 {
      assert (-b).Floor <= (-a).Floor by { assert (-b).Floor as real <= -a; }
    }
  }

  /** Truncation keeps whole numbers. */
  lemma TruncOfInt(n: int)
    ensures Trunc(n as real) == n
  { }

  /** `int(max(lo, v))`: a lower crop bound kept at or above `lo`. */
  function AtLeast(lo: int, v: real): (r: int)
    ensures r >= lo
  {
    var m := if lo as real >= v then lo as real else v;
    TruncMonotone(lo as real, m);
    TruncOfInt(lo);
    Trunc(m)
  }

  /** `int(min(hi, v))`: an upper crop bound kept at or below `hi`. */
  function AtMost(hi: int, v: real): (r: int)
    ensures r <= hi
  {
    var m := if hi as real <= v then hi as real else v;
    TruncMonotone(m, hi as real);
    TruncOfInt(hi);
    Trunc(m)
  }

  /** Both clamped bounds follow their argument. */
  lemma ClampsMonotone(lo: int, hi: int, u: real, v: real)
    requires u <= v
    ensures AtLeast(lo, u) <= AtLeast(lo, v) && AtMost(hi, u) <= AtMost(hi, v)
  {
    TruncMonotone(if lo as real >= u then lo as real else u, if lo as real >= v then lo as real else v);
    TruncMonotone(if hi as real <= u then hi as real else u, if hi as real <= v then hi as real else v);
  }

  /** The crop window (top, bottom, left, right) `extract_square_image` slices out of the image. */
  datatype Window = Window(top: int, bottom: int, left: int, right: int)

  /**
   * The crop window of `extract_square_image` for an upright rectangle: the rectangle grown by
   * `pad` on every side, clamped to one pixel inside the image, each bound truncated by `int()`.
   */
  function CropWindow(rect: Rectangle, pad: int, imageW: int, imageH: int): (r: Window)
    requires rect.Upright?
    ensures r.top >= 1 && r.left >= 1
    ensures r.bottom <= imageH - 1 && r.right <= imageW - 1
  {
    var p := pad as real;
    Window(AtLeast(1, rect.y - p), AtMost(imageH - 1, rect.y + rect.h + p),
           AtLeast(1, rect.x - p), AtMost(imageW - 1, rect.x + rect.w + p))
  }

  /** Window `inner` lies inside window `outer`. */
  predicate Within(inner: Window, outer: Window) {
    outer.top <= inner.top && outer.left <= inner.left && inner.bottom <= outer.bottom && inner.right <= outer.right
  }

  lemma WithinByBounds(inner: Window, outer: Window)
    requires outer.top <= inner.top && outer.left <= inner.left
    requires inner.bottom <= outer.bottom && inner.right <= outer.right
    ensures Within(inner, outer)
  { }

  /** A larger pad gives a window that contains the window of a smaller one. */
  lemma CropWindowGrowsWithPad(rect: Rectangle, pad1: int, pad2: int, imageW: int, imageH: int)
    requires rect.Upright? && pad1 <= pad2
    ensures Within(CropWindow(rect, pad1, imageW, imageH), CropWindow(rect, pad2, imageW, imageH))
  {
    var (p1, p2) := (pad1 as real, pad2 as real);
    var inner := CropWindow(rect, pad1, imageW, imageH);
    var outer := CropWindow(rect, pad2, imageW, imageH);
    ClampsMonotone(1, imageH - 1, rect.y - p2, rect.y - p1);
    ClampsMonotone(1, imageW - 1, rect.x - p2, rect.x - p1);
    ClampsMonotone(1, imageH - 1, rect.y + rect.h + p1, rect.y + rect.h + p2);
    ClampsMonotone(1, imageW - 1, rect.x + rect.w + p1, rect.x + rect.w + p2);
    WithinByBounds(inner, outer);
  }

  /**
   * With no pad, an upright rectangle on whole pixels that does not touch the border is cropped
   * exactly along its own corners: the two filters agree on what lies inside the image.
   */
  lemma UntouchedCropIsExact(x: int, y: int, w: int, h: int, geoImage: GeoImage)
    requires !TouchesImageBorder(Upright(x as real, y as real, w as real, h as real), geoImage)
    ensures CropWindow(Upright(x as real, y as real, w as real, h as real), 0, geoImage.width, geoImage.height) ==
            Window(y, y + h, x, x + w)
  {
    TruncOfInt(x);
    TruncOfInt(y);
    TruncOfInt(x + w);
    TruncOfInt(y + h);
  }
}
