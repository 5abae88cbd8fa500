/**
 * Cross-image processing of detected items: flattening and ordering the detections of
 * each image, deciding when two detections are the same field item, merging duplicates
 * into one canonical item, and splitting a canonical item's references into clusters.
 */
module ItemProcessing {
  import opened Wrappers
  import opened Geometry
  import opened Text
  import opened Lists
  import opened Sorting
  import opened FieldItems
  import opened FieldGrouping
  import opened GeoImages
  import opened ReferenceLists

  // ---------------------------------------------------------------------------
  // all_items

  /** The lists one after the other. */
  function Flatten(lists: seq<seq<nat>>): (r: seq<nat>)
    ensures |lists| == 0 ==> r == []
  {
    if lists == [] then [] else Flatten(lists[..|lists| - 1]) + lists[|lists| - 1]
  }

  /** An item is in the flattened list exactly when it is in one of the lists. */
  lemma {:induction false} FlattenMembers(lists: seq<seq<nat>>, x: nat)
    ensures x in Flatten(lists) <==> exists k :: 0 <= k < |lists| && x in lists[k]
  {
    if lists != [] {
      var init, last := lists[..|lists| - 1], lists[|lists| - 1];
      assert Flatten(lists) == Flatten(init) + last;
      FlattenMembers(init, x);
      if x in Flatten(init) {
        var k :| 0 <= k < |init| && x in init[k];
        assert lists[k] == init[k];
      }
      if k :| 0 <= k < |lists| && x in lists[k] {
        if k < |init| { assert init[k] == lists[k]; }
      }
    }
  }

  /** The length of the flattened list is the sum of the lengths. */
  function TotalLength(lists: seq<seq<nat>>): nat {
    if lists == [] then 0 else TotalLength(lists[..|lists| - 1]) + |lists[|lists| - 1]|
  }

  lemma {:induction false} FlattenLength(lists: seq<seq<nat>>)
    ensures |Flatten(lists)| == TotalLength(lists)
  {
    if lists != [] { FlattenLength(lists[..|lists| - 1]); }
  }

  /** `all_items`: every image's items, extended image by image. */
  method AllItems(imageItems: seq<seq<nat>>) returns (items: seq<nat>)
    ensures items == Flatten(imageItems)
  {
    items := [];
    var k := 0;
    while k < |imageItems|
      invariant 0 <= k <= |imageItems|
      invariant items == Flatten(imageItems[..k])
    {
      assert imageItems[..k + 1][..k] == imageItems[..k];
      items := items + imageItems[k];
      k := k + 1;
    }
    assert imageItems[..k] == imageItems;
  }

  // ---------------------------------------------------------------------------
  // order_items

  /**
   * `rectangle_center(item.bounding_rect)`: unpacks the rectangle as (center, dim, theta).
   * A missing rectangle is not iterable (TypeError); a corner list unpacks only when it has
   * exactly three corners, and then its first corner is taken as the centre (else ValueError).
   */
  function ItemCenter(it: Item): (r: Result<(real, real)>)
    ensures it.boundingRect.None? ==> r.Err? && r.error.TypeError?
    ensures it.boundingRect.Some? && it.boundingRect.value.Rotated? ==> r == Ok(it.boundingRect.value.center)
    ensures it.boundingRect.Some? && it.boundingRect.value.Corners? ==>
              var cs := it.boundingRect.value.corners;
              (r.Ok? <==> |cs| == 3) && (r.Ok? ==> r.value == cs[0]) && (r.Err? ==> r.error.ValueError?)
  {
    match it.boundingRect
    case None => Err(TypeError("'NoneType' object is not iterable"))
    case Some(Rotated(center, _, _)) => Ok(center)
    case Some(Corners(cs)) => if |cs| == 3 then Ok(cs[0]) else Err(ValueError("wrong number of values to unpack"))
  }

  /** Every listed item's bounding rectangle unpacks. */
  predicate AllCentered(items: seq<Item>, ids: seq<nat>) {
    forall k :: 0 <= k < |ids| ==> ids[k] < |items| && ItemCenter(items[ids[k]]).Ok?
  }

  /** The position of the first listed item whose rectangle does not unpack, or `|ids|`. */
  function FirstUncentered(items: seq<Item>, ids: seq<nat>): (k: nat)
    requires AllIn(ids, |items|)
    ensures k <= |ids| && forall j :: 0 <= j < k ==> ItemCenter(items[ids[j]]).Ok?
    ensures k < |ids| ==> ItemCenter(items[ids[k]]).Err?
    decreases |ids|
  {
    if ids == [] || ItemCenter(items[ids[0]]).Err? then 0
    else
      var k := FirstUncentered(items, ids[1..]);
      assert forall j :: 0 < j <= k ==> ids[j] == ids[1..][j - 1];
      k + 1
  }

  /** The centre coordinate an item is sorted on (0 for an item that has none, which is never sorted). */
  function CenterKey(items: seq<Item>, useY: bool, id: nat): real {
    if id < |items| && ItemCenter(items[id]).Ok? then
      var c := ItemCenter(items[id]).value; if useY then c.1 else c.0
    else 0.0
  }

  /** The sort key of `order_items`: the centre's y, or its x. */
  function CenterKeyOf(items: seq<Item>, useY: bool): nat -> real {
    (id: nat) => CenterKey(items, useY, id)
  }

  /**
   * `order_items`: sorted by the centre's y (rotation 180 ascending, 0 descending) or x
   * (90 ascending, 270 descending); `Ok(None)` for any other rotation. Python computes the
   * keys in list order, so the first item whose rectangle does not unpack raises its error.
   */
  function OrderItems(items: seq<Item>, ids: seq<nat>, cameraRotation: int): (r: Result<Option<seq<nat>>>)
    requires AllIn(ids, |items|)
    ensures cameraRotation !in {0, 90, 180, 270} ==> r == Ok(None)
    ensures cameraRotation in {0, 90, 180, 270} ==> (r.Ok? <==> AllCentered(items, ids))
    ensures r.Err? ==> var k := FirstUncentered(items, ids); k < |ids| && r.error == ItemCenter(items[ids[k]]).error
    ensures r.Ok? && r.value.Some? ==> multiset(r.value.value) == multiset(ids)
    ensures r.Ok? && r.value.Some? ==> AllCentered(items, r.value.value)
    ensures r.Ok? && r.value.Some? && cameraRotation == 180 ==> SortedBy(r.value.value, CenterKeyOf(items, true))
    ensures r.Ok? && r.value.Some? && cameraRotation == 90 ==> SortedBy(r.value.value, CenterKeyOf(items, false))
    ensures r.Ok? && r.value.Some? && cameraRotation == 0 ==> SortedDownBy(r.value.value, CenterKeyOf(items, true))
    ensures r.Ok? && r.value.Some? && cameraRotation == 270 ==> SortedDownBy(r.value.value, CenterKeyOf(items, false))
  {
    if cameraRotation !in {0, 90, 180, 270} then Ok(None)
    else
      var k := FirstUncentered(items, ids);
      if k < |ids| then Err(ItemCenter(items[ids[k]]).error)
      else Ok(Some(RotationOrder(items, ids, cameraRotation)))
  }

  /** The sort of `order_items` once every centre is known: ascending for 90 and 180, else descending. */
  function RotationOrder(items: seq<Item>, ids: seq<nat>, cameraRotation: int): (r: seq<nat>)
    ensures multiset(r) == multiset(ids)
    ensures AllCentered(items, ids) ==> AllCentered(items, r)
    ensures cameraRotation == 180 ==> SortedBy(r, CenterKeyOf(items, true))
    ensures cameraRotation == 90 ==> SortedBy(r, CenterKeyOf(items, false))
    ensures cameraRotation == 0 ==> SortedDownBy(r, CenterKeyOf(items, true))
    ensures cameraRotation == 270 ==> SortedDownBy(r, CenterKeyOf(items, false))
  {
    var key := CenterKeyOf(items, cameraRotation == 0 || cameraRotation == 180);
    var sorted := if cameraRotation == 90 || cameraRotation == 180 then SortBy(ids, key) else SortByDescending(ids, key);
    assert forall k :: 0 <= k < |sorted| ==> sorted[k] in multiset(ids);
    sorted
  }

  /**
   * `order_items` is stable: items whose centres share the coordinate sorted on come out in
   * the order they went in, for either direction.
   */
  lemma OrderItemsStable(items: seq<Item>, ids: seq<nat>, cameraRotation: int, v: real)
    requires AllIn(ids, |items|)
    ensures var r := OrderItems(items, ids, cameraRotation);
            var key := CenterKeyOf(items, cameraRotation == 0 || cameraRotation == 180);
            r.Ok? && r.value.Some? ==> WithKey(r.value.value, key, v) == WithKey(ids, key, v)
  {
    var key := CenterKeyOf(items, cameraRotation == 0 || cameraRotation == 180);
    if cameraRotation == 90 || cameraRotation == 180 {
      SortByStable(ids, key, v);
    } else {
      SortByDescendingStable(ids, key, v);
    }
  }

  // ---------------------------------------------------------------------------
  // is_same_item / is_same_position_item

  function Max(a: real, b: real): (r: real)
    ensures r >= a && r >= b && (r == a || r == b)
  {
    if a >= b then a else b
  }

  /**
   * `is_same_item`: same type; not from the same image unless row codes; codes must share
   * a name and then get at least 30 cm; the XY distance between the (averaged) positions
   * must be within the threshold, converted from centimetres to metres.
   */
  function IsSameItem(items: seq<Item>, i1: nat, i2: nat, maxDifference: real, sqrt: SqrtFn): (r: bool)
    requires RefsValid(items) && i1 < |items| && i2 < |items|
    ensures r ==> items[i1].kind == items[i2].kind
    ensures r && !items[i1].kind.RowCode? ==> items[i1].parentImage != items[i2].parentImage
    ensures r && !IsGroupItem(items[i1].kind) ==> items[i1].name == items[i2].name
    ensures r && items[i1].kind.GroupCode? ==> items[i1].name == items[i2].name
  {
    var a, b := items[i1], items[i2];
    TypeNameInjective(a.kind, b.kind);
    IsCodeKinds(a.kind);
    NameTestKinds(a.kind);
    var t := Lower(TypeName(a.kind));
    if TypeName(a.kind) != TypeName(b.kind) then false
    else if t != "rowcode" && a.parentImage == b.parentImage then false
    else if Contains(t, "code") && a.name != b.name then false
    else
      var threshold := if Contains(t, "code") then Max(maxDifference, 30.0) else maxDifference;
      !(PositionDifference(Position(items, i1), Position(items, i2), sqrt) > threshold / 100.0)
  }

  /**
   * The decision in the types' own terms: the same kind, different images unless row codes,
   * the same name unless plants or gaps, and an XY distance within `max_difference`
   * centimetres, or at least 30 for codes.
   */
  lemma IsSameItemMeans(items: seq<Item>, i1: nat, i2: nat, maxDifference: real, sqrt: SqrtFn)
    requires RefsValid(items) && i1 < |items| && i2 < |items|
    ensures IsSameItem(items, i1, i2, maxDifference, sqrt) <==>
      items[i1].kind == items[i2].kind
      && (items[i1].kind.RowCode? || items[i1].parentImage != items[i2].parentImage)
      && (items[i1].kind.Plant? || items[i1].kind.Gap? || items[i1].name == items[i2].name)
      && PositionDifference(Position(items, i1), Position(items, i2), sqrt)
         <= (if items[i1].kind.Plant? || items[i1].kind.Gap? then maxDifference else Max(maxDifference, 30.0)) / 100.0
  {
    var a, b := items[i1], items[i2];
    TypeNameInjective(a.kind, b.kind);
    IsCodeKinds(a.kind);
    NameTestKinds(a.kind);
  }

  /** The decision does not depend on which of the two items is asked first. */
  lemma IsSameItemSymmetric(items: seq<Item>, i1: nat, i2: nat, maxDifference: real, sqrt: SqrtFn)
    requires RefsValid(items) && i1 < |items| && i2 < |items|
    ensures IsSameItem(items, i1, i2, maxDifference, sqrt) == IsSameItem(items, i2, i1, maxDifference, sqrt)
  {
    PositionDifferenceSymmetric(Position(items, i1), Position(items, i2), sqrt);
  }

  /** Two plants from different images at the same XY position are always the same plant. */
  lemma SamePositionPlantsMerge(items: seq<Item>, i1: nat, i2: nat, maxDifference: real, sqrt: SqrtFn)
    requires RefsValid(items) && i1 < |items| && i2 < |items| && IsSqrt(sqrt) && maxDifference >= 0.0
    requires items[i1].kind.Plant? && items[i2].kind.Plant? && items[i1].parentImage != items[i2].parentImage
    requires Position(items, i1).x == Position(items, i2).x && Position(items, i1).y == Position(items, i2).y
    ensures IsSameItem(items, i1, i2, maxDifference, sqrt)
  {
    PositionDifferenceZero(Position(items, i1), Position(items, i2), sqrt);
    IsSameItemMeans(items, i1, i2, maxDifference, sqrt);
  }

  /** `is_same_position_item`: equal names and an XY distance strictly below the threshold in metres. */
  function IsSamePositionItem(items: seq<Item>, i1: nat, i2: nat, maxDifference: real, sqrt: SqrtFn): (r: bool)
    requires RefsValid(items) && i1 < |items| && i2 < |items|
    ensures r ==> items[i1].name == items[i2].name
  {
    items[i1].name == items[i2].name
    && PositionDifference(Position(items, i1), Position(items, i2), sqrt) < maxDifference / 100.0
  }

  /** The position test is strict where `is_same_item` is inclusive: at exactly the threshold only the latter holds. */
  lemma SamePositionStricterThanSameItem(items: seq<Item>, i1: nat, i2: nat, maxDifference: real, sqrt: SqrtFn)
    requires RefsValid(items) && i1 < |items| && i2 < |items|
    requires items[i1].kind.Plant? && items[i2].kind.Plant? && items[i1].parentImage != items[i2].parentImage
    requires IsSamePositionItem(items, i1, i2, maxDifference, sqrt)
    ensures IsSameItem(items, i1, i2, maxDifference, sqrt)
  {
    IsSameItemMeans(items, i1, i2, maxDifference, sqrt);
  }

  // ---------------------------------------------------------------------------
  // merge_items

  /** The position in `unique` of the first item `x` is the same item as, or -1. */
  function FirstMatch(items: seq<Item>, unique: seq<nat>, x: nat, maxDifference: real, sqrt: SqrtFn): (r: int)
    requires RefsValid(items) && x < |items| && AllIn(unique, |items|)
    ensures -1 <= r < |unique|
    ensures r >= 0 ==> IsSameItem(items, x, unique[r], maxDifference, sqrt)
  {
    if unique == [] then -1
    else if IsSameItem(items, x, unique[0], maxDifference, sqrt) then 0
    else
      var r := FirstMatch(items, unique[1..], x, maxDifference, sqrt);
      if r < 0 then -1 else r + 1
  }

  /** `matching_item.other_items.append(item)`. */
  function Attach(items: seq<Item>, u: nat, x: nat): (r: seq<Item>)
    requires u < |items|
    ensures |r| == |items|
    ensures RefsValid(items) && x < |items| ==> RefsValid(r)
  {
    items[u := items[u].(others := items[u].others + [x])]
  }

  /** The arena and unique list after merging `rest` into `unique`, one item at a time. */
  function Merge(items: seq<Item>, unique: seq<nat>, rest: seq<nat>, maxDifference: real, sqrt: SqrtFn): (r: (seq<Item>, seq<nat>))
    requires RefsValid(items) && AllIn(unique, |items|) && AllIn(rest, |items|)
    ensures |r.0| == |items| && RefsValid(r.0) && AllIn(r.1, |items|)
    decreases |rest|
  {
    if rest == [] then (items, unique)
    else
      var x := rest[0];
      var m := FirstMatch(items, unique, x, maxDifference, sqrt);
      if m < 0 then Merge(items, unique + [x], rest[1..], maxDifference, sqrt)
      else Merge(Attach(items, unique[m], x), unique, rest[1..], maxDifference, sqrt)
  }

  /** No unique item before the first match, or none at all when there is no match, is the same item. */
  lemma {:induction false} FirstMatchNoneBefore(items: seq<Item>, unique: seq<nat>, x: nat, maxDifference: real, sqrt: SqrtFn)
    requires RefsValid(items) && x < |items| && AllIn(unique, |items|)
    ensures var r := FirstMatch(items, unique, x, maxDifference, sqrt);
            forall k :: 0 <= k < |unique| && (r < 0 || k < r) ==> !IsSameItem(items, x, unique[k], maxDifference, sqrt)
  {
    if unique != [] && !IsSameItem(items, x, unique[0], maxDifference, sqrt) {
      var tail := unique[1..];
      FirstMatchNoneBefore(items, tail, x, maxDifference, sqrt);
      var r := FirstMatch(items, unique, x, maxDifference, sqrt);
      forall k | 1 <= k < |unique| && (r < 0 || k < r)
        ensures !IsSameItem(items, x, unique[k], maxDifference, sqrt)
      {
        assert unique[k] == tail[k - 1];
      }
    }
  }

  /** The first match is the only index with its two properties: it matches, and nothing before it does. */
  lemma FirstMatchIs(items: seq<Item>, unique: seq<nat>, x: nat, maxDifference: real, sqrt: SqrtFn, m: int)
    requires RefsValid(items) && x < |items| && AllIn(unique, |items|) && -1 <= m < |unique|
    requires m >= 0 ==> IsSameItem(items, x, unique[m], maxDifference, sqrt)
    requires forall k :: 0 <= k < |unique| && (m < 0 || k < m) ==> !IsSameItem(items, x, unique[k], maxDifference, sqrt)
    ensures m == FirstMatch(items, unique, x, maxDifference, sqrt)
  {
    FirstMatchNoneBefore(items, unique, x, maxDifference, sqrt);
  }

  /** One step of the merge, as the loop body takes it. */
  lemma MergeStep(items: seq<Item>, unique: seq<nat>, rest: seq<nat>, maxDifference: real, sqrt: SqrtFn)
    requires RefsValid(items) && AllIn(unique, |items|) && AllIn(rest, |items|) && rest != []
    ensures var m := FirstMatch(items, unique, rest[0], maxDifference, sqrt);
            Merge(items, unique, rest, maxDifference, sqrt)
            == if m < 0 then Merge(items, unique + [rest[0]], rest[1..], maxDifference, sqrt)
               else Merge(Attach(items, unique[m], rest[0]), unique, rest[1..], maxDifference, sqrt)
  {
  }

  /** The first match within `unique[j..]`, as an index into `unique`. */
  function ShiftMatch(r: int, j: nat): int {
    if r < 0 then -1 else r + j
  }

  /** The first match in `unique[j..]` is at `j` or further on. */
  lemma FirstMatchSuffix(items: seq<Item>, unique: seq<nat>, x: nat, j: nat, maxDifference: real, sqrt: SqrtFn)
    requires RefsValid(items) && x < |items| && AllIn(unique, |items|) && j < |unique|
    ensures ShiftMatch(FirstMatch(items, unique[j..], x, maxDifference, sqrt), j)
            == if IsSameItem(items, x, unique[j], maxDifference, sqrt) then j
               else ShiftMatch(FirstMatch(items, unique[j + 1..], x, maxDifference, sqrt), j + 1)
  {
    assert unique[j..][0] == unique[j] && unique[j..][1..] == unique[j + 1..];
  }

  /** The inner loop of `merge_items`: the first unique item that is the same item, with `break`. */
  method FindMatch(items: seq<Item>, unique: seq<nat>, x: nat, maxDifference: real, sqrt: SqrtFn) returns (m: int)
    requires RefsValid(items) && x < |items| && AllIn(unique, |items|)
    ensures m == FirstMatch(items, unique, x, maxDifference, sqrt)
  {
    var j := 0;
    while j < |unique|
      invariant 0 <= j <= |unique|
      invariant FirstMatch(items, unique, x, maxDifference, sqrt)
                == ShiftMatch(FirstMatch(items, unique[j..], x, maxDifference, sqrt), j)
    {
      FirstMatchSuffix(items, unique, x, j, maxDifference, sqrt);
      if IsSameItem(items, x, unique[j], maxDifference, sqrt) {
        return j;
      }
      j := j + 1;
    }
    assert unique[j..] == [];
    m := -1;
  }

  /**
   * `merge_items` over the arena: each item joins, as a reference, the first unique item
   * it is the same item as, or becomes a unique item itself.
   */
  method MergeItems(reg: Registry, ids: seq<nat>, maxDifference: real, sqrt: SqrtFn) returns (unique: seq<nat>)
    requires reg.Valid() && AllIn(ids, |reg.items|)
    modifies reg
    ensures reg.Valid()
    ensures (reg.items, unique) == Merge(old(reg.items), [], ids, maxDifference, sqrt)
    ensures reg.segments == old(reg.segments) && reg.groups == old(reg.groups) && reg.rows == old(reg.rows)
  {
    unique := [];
    var k := 0;
    while k < |ids|
      invariant 0 <= k <= |ids| && reg.Valid() && |reg.items| == |old(reg.items)|
      invariant AllIn(unique, |reg.items|)
      invariant Merge(reg.items, unique, ids[k..], maxDifference, sqrt) == Merge(old(reg.items), [], ids, maxDifference, sqrt)
      invariant reg.segments == old(reg.segments) && reg.groups == old(reg.groups) && reg.rows == old(reg.rows)
    {
      unique := MergeTurn(reg, unique, ids[k..], maxDifference, sqrt);
      assert ids[k..][1..] == ids[k + 1..];
      k := k + 1;
    }
  }

  /** One turn of the outer loop of `merge_items`, on the item `rest[0]`. */
  method MergeTurn(reg: Registry, unique: seq<nat>, rest: seq<nat>, maxDifference: real, sqrt: SqrtFn)
    returns (unique': seq<nat>)
    requires reg.Valid() && AllIn(unique, |reg.items|) && AllIn(rest, |reg.items|) && rest != []
    modifies reg
    ensures reg.Valid() && |reg.items| == |old(reg.items)| && AllIn(unique', |reg.items|)
    ensures Merge(reg.items, unique', rest[1..], maxDifference, sqrt) == Merge(old(reg.items), unique, rest, maxDifference, sqrt)
    ensures reg.segments == old(reg.segments) && reg.groups == old(reg.groups) && reg.rows == old(reg.rows)
  {
    var item := rest[0];
    var matching := FindMatch(reg.items, unique, item, maxDifference, sqrt);
    MergeStep(reg.items, unique, rest, maxDifference, sqrt);
    unique' := unique;
    if matching < 0 {
      unique' := unique + [item];
    } else {
      AttachValid(reg, unique[matching], item);
    }
  }

  /** `matching_item.other_items.append(item)` on the registry. */
  method AttachValid(reg: Registry, u: nat, x: nat)
    requires reg.Valid() && u < |reg.items| && x < |reg.items|
    modifies reg
    ensures reg.Valid() && reg.items == Attach(old(reg.items), u, x)
    ensures reg.segments == old(reg.segments) && reg.groups == old(reg.groups) && reg.rows == old(reg.rows)
  {
    assert ItemFits(reg.items[u], |reg.items|, |reg.groups|);
    ghost var before := reg.items;
    reg.items := reg.items[u := reg.items[u].(others := reg.items[u].others + [x])];
    forall t | 0 <= t < |reg.items|
      ensures ItemFits(reg.items[t], |reg.items|, |reg.groups|)
    {
      assert ItemFits(before[t], |reg.items|, |reg.groups|);
    }
  }

  lemma {:induction false} SubsequenceLength(a: seq<nat>, b: seq<nat>)
    requires IsSubsequence(a, b)
    ensures |a| <= |b|
    decreases |b|
  {
    if a != [] {
      if a[0] == b[0] { SubsequenceLength(a[1..], b[1..]); } else { SubsequenceLength(a, b[1..]); }
    }
  }

  lemma {:induction false} SubsequenceMembers(a: seq<nat>, b: seq<nat>, x: nat)
    requires IsSubsequence(a, b) && x in a
    ensures x in b
    decreases |b|
  {
    if a[0] == b[0] {
      if x != a[0] { SubsequenceMembers(a[1..], b[1..], x); }
    } else {
      SubsequenceMembers(a, b[1..], x);
    }
  }

  /**
   * `merge_items` keeps the unique items in input order, never returns more items than it
   * got, and always keeps the first input item.
   */
  lemma MergeItemsOrder(items: seq<Item>, ids: seq<nat>, maxDifference: real, sqrt: SqrtFn)
    requires RefsValid(items) && AllIn(ids, |items|)
    ensures IsSubsequence(Merge(items, [], ids, maxDifference, sqrt).1, ids)
    ensures |Merge(items, [], ids, maxDifference, sqrt).1| <= |ids|
    ensures ids != [] ==> |Merge(items, [], ids, maxDifference, sqrt).1| > 0
                          && Merge(items, [], ids, maxDifference, sqrt).1[0] == ids[0]
  {
    var r := Merge(items, [], ids, maxDifference, sqrt);
    var refs0 := Others(items);
    var ch := Choices(items, [], ids, maxDifference, sqrt);
    MergeReplay(items, [], ids, maxDifference, sqrt);
    assert r.1 == Replay(refs0, [], ids, ch).1;
    ReplayOrder(refs0, [], [], ids, ch);
    assert [] + ids == ids;
    SubsequenceLength(r.1, ids);
    if ids != [] {
      assert [] + [ids[0]] == [ids[0]];
      assert Replay(refs0, [], ids, ch) == Replay(refs0, [ids[0]], ids[1..], ch[1..]);
      ReplayPrefix(refs0, [ids[0]], ids[1..], ch[1..]);
    }
  }

  // The placement facts concern the reference lists alone and are proved in `ReferenceLists`;
  // `Choices` records the match the merge finds at each step so they can be replayed there.

  /** Every item's reference list. */
  function Others(items: seq<Item>): (r: seq<seq<nat>>)
    ensures |r| == |items| && forall x :: 0 <= x < |items| ==> r[x] == items[x].others
  {
    seq(|items|, x requires 0 <= x < |items| => items[x].others)
  }

  lemma OthersAttach(items: seq<Item>, y: nat, x: nat)
    requires y < |items|
    ensures Others(Attach(items, y, x)) == AttachRef(Others(items), y, x)
  {
  }

  /** The match the merge finds for each item of `rest`, in turn. */
  function Choices(items: seq<Item>, unique: seq<nat>, rest: seq<nat>, maxDifference: real, sqrt: SqrtFn): (ch: seq<int>)
    requires RefsValid(items) && AllIn(unique, |items|) && AllIn(rest, |items|)
    ensures |ch| == |rest|
    decreases |rest|
  {
    if rest == [] then []
    else
      var x := rest[0];
      var m := FirstMatch(items, unique, x, maxDifference, sqrt);
      [m] + if m < 0 then Choices(items, unique + [x], rest[1..], maxDifference, sqrt)
            else Choices(Attach(items, unique[m], x), unique, rest[1..], maxDifference, sqrt)
  }

  /** The merge and its replay agree on the reference lists and on the unique items. */
  lemma {:induction false} MergeReplay(items: seq<Item>, u: seq<nat>, rest: seq<nat>, maxDifference: real, sqrt: SqrtFn)
    requires RefsValid(items) && AllIn(u, |items|) && AllIn(rest, |items|)
    ensures var r := Merge(items, u, rest, maxDifference, sqrt);
            var p := Replay(Others(items), u, rest, Choices(items, u, rest, maxDifference, sqrt));
            Others(r.0) == p.0 && r.1 == p.1
    decreases |rest|
  {
    if rest != [] {
      var x := rest[0];
      var m := FirstMatch(items, u, x, maxDifference, sqrt);
      var ch := Choices(items, u, rest, maxDifference, sqrt);
      assert ch[0] == m;
      if m < 0 {
        MergeReplay(items, u + [x], rest[1..], maxDifference, sqrt);
        assert ch[1..] == Choices(items, u + [x], rest[1..], maxDifference, sqrt);
      } else {
        var items' := Attach(items, u[m], x);
        MergeReplay(items', u, rest[1..], maxDifference, sqrt);
        assert ch[1..] == Choices(items', u, rest[1..], maxDifference, sqrt);
        OthersAttach(items, u[m], x);
      }
    }
  }

  /** `items` and `items0` agree on every field but the reference lists. */
  predicate OnlyOthersDiffer(items0: seq<Item>, items: seq<Item>) {
    |items| == |items0| && forall x :: 0 <= x < |items| ==> items[x] == items0[x].(others := items[x].others)
  }

  /** `items` differs from `items0` only by references appended to existing reference lists. */
  predicate Grown(items0: seq<Item>, items: seq<Item>) {
    OthersGrown(Others(items0), Others(items)) && OnlyOthersDiffer(items0, items)
  }

  /** The merge changes no field but the reference lists. */
  lemma {:induction false} MergeOnlyOthers(items0: seq<Item>, items: seq<Item>, u: seq<nat>, rest: seq<nat>,
                                          maxDifference: real, sqrt: SqrtFn, r: (seq<Item>, seq<nat>))
    requires RefsValid(items) && AllIn(u, |items|) && AllIn(rest, |items|) && OnlyOthersDiffer(items0, items)
    requires r == Merge(items, u, rest, maxDifference, sqrt)
    ensures OnlyOthersDiffer(items0, r.0)
    decreases |rest|
  {
    if rest != [] {
      var x := rest[0];
      MergeStep(items, u, rest, maxDifference, sqrt);
      var m := FirstMatch(items, u, x, maxDifference, sqrt);
      if m < 0 {
        MergeOnlyOthers(items0, items, u + [x], rest[1..], maxDifference, sqrt, r);
      } else {
        var items' := Attach(items, u[m], x);
        assert OnlyOthersDiffer(items0, items');
        MergeOnlyOthers(items0, items', u, rest[1..], maxDifference, sqrt, r);
      }
    }
  }

  /**
   * After merging `items` into `merged`, every item of `ids` appears exactly once: either
   * among the unique items or among the references appended to exactly one unique item (the
   * appended lists, joined, repeat nothing). Only reference lists change, only those of
   * unique items, and only by appending.
   */
  predicate MergePlaced(items: seq<Item>, merged: seq<Item>, unique: seq<nat>, ids: seq<nat>) {
    Grown(items, merged) && AllIn(unique, |merged|)
    && var gained := AppendedAll(Others(items), Others(merged), unique);
    Distinct(unique)
    && (forall x :: 0 <= x < |merged| && x !in unique ==> merged[x].others == items[x].others)
    && multiset(unique) + multiset(gained) == multiset(ids)
    && (forall x :: x in ids ==> (x in unique <==> x !in gained))
    && (forall x :: x in gained ==> x in ids && multiset(gained)[x] == 1)
  }

  /** The placement facts, read back from the reference lists onto the items. */
  lemma PlacementOnItems(items: seq<Item>, merged: seq<Item>, unique: seq<nat>, ids: seq<nat>)
    requires PlacementInv(Others(items), Others(merged), unique, ids) && Distinct(ids)
    requires OnlyOthersDiffer(items, merged)
    ensures MergePlaced(items, merged, unique, ids)
  {
    PlacementComplete(Others(items), Others(merged), unique, ids);
    forall x | 0 <= x < |merged| && x !in unique
      ensures merged[x].others == items[x].others
    {
      assert Others(merged)[x] == Others(items)[x];
    }
  }

  /** `merge_items` places every input item exactly once. */
  lemma MergeItemsPlacement(items: seq<Item>, ids: seq<nat>, maxDifference: real, sqrt: SqrtFn)
    requires RefsValid(items) && AllIn(ids, |items|) && Distinct(ids)
    ensures var r := Merge(items, [], ids, maxDifference, sqrt); MergePlaced(items, r.0, r.1, ids)
  {
    var refs0 := Others(items);
    var r := Merge(items, [], ids, maxDifference, sqrt);
    var ch := Choices(items, [], ids, maxDifference, sqrt);
    assert [] + ids == ids;
    assert PlacementInv(refs0, refs0, [], []);
    ReplayPlacement(refs0, refs0, [], [], ids, ch);
    MergeReplay(items, [], ids, maxDifference, sqrt);
    MergeOnlyOthers(items, items, [], ids, maxDifference, sqrt, r);
    PlacementOnItems(items, r.0, r.1, ids);
  }
}
