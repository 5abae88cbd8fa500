/**
 * The `FieldItem` hierarchy: plants, gaps and the three kinds of code found in images.
 *
 * An item refers to its duplicates from other images through `others` (the source's
 * `other_items`), a list of indices into the item arena kept by `FieldRegistry.Registry`.
 */
module FieldItems {
  import opened Wrappers
  import opened Geometry
  import opened Text

  /** The concrete class of a field item. */
  datatype Kind = Plant | Gap | GroupCode | SingleCode | RowCode

  /** `type`: the class name; the three code classes are spelt as their prefix and "Code". */
  function TypeName(k: Kind): (r: string)
    ensures |r| > 0
  {
    match k
    case Plant => "Plant"
    case Gap => "Gap"
    case GroupCode => "Group" + "Code"
    case SingleCode => "Single" + "Code"
    case RowCode => "Row" + "Code"
  }

  lemma TypeNameInjective(k1: Kind, k2: Kind)
    ensures TypeName(k1) == TypeName(k2) <==> k1 == k2
  {
    if k1 != k2 {
      assert |TypeName(k1)| != |TypeName(k2)|;
    }
  }

  /** `GroupItem` subclasses: the ones with a propagating `group` property. */
  predicate IsGroupItem(k: Kind) {
    k.Plant? || k.Gap? || k.GroupCode?
  }

  /** The source's test `'code' in item.type.lower()`. */
  predicate IsCode(k: Kind) {
    Contains(Lower(TypeName(k)), "code")
  }

  /** The source's test `item.type.lower() == 'rowcode'`. */
  predicate IsRowCode(k: Kind) {
    Lower(TypeName(k)) == "rowcode"
  }

  /** The source's test `item.type.lower() == 'plant'`. */
  predicate IsPlant(k: Kind) {
    Lower(TypeName(k)) == "plant"
  }

  /** The class name in lower case. */
  function LowerName(k: Kind): string {
    match k
    case Plant => "plant"
    case Gap => "gap"
    case GroupCode => "group" + "code"
    case SingleCode => "single" + "code"
    case RowCode => "row" + "code"
  }

  /** A code class name lower-cases prefix by prefix. */
  lemma LowerCodeName(prefix: string, lowerPrefix: string)
    requires Lower(prefix) == lowerPrefix
    ensures Lower(prefix + "Code") == lowerPrefix + "code"
  {
    LowerAppend(prefix, "Code");
  }

  lemma LowerGroup() ensures Lower("Group") == "group" { }
  lemma LowerSingle() ensures Lower("Single") == "single" { }
  lemma LowerRow() ensures Lower("Row") == "row" { }

  lemma LowerTypeName(k: Kind)
    ensures Lower(TypeName(k)) == LowerName(k)
  {
    match k
    case Plant =>
    case Gap =>
    case GroupCode => LowerGroup(); LowerCodeName("Group", "group");
    case SingleCode => LowerSingle(); LowerCodeName("Single", "single");
    case RowCode => LowerRow(); LowerCodeName("Row", "row");
  }

  /** What the source's `'code' in item.type.lower()` test amounts to. */
  lemma IsCodeKinds(k: Kind)
    ensures IsCode(k) <==> (k.GroupCode? || k.SingleCode? || k.RowCode?)
  {
    LowerTypeName(k);
    CodeInName(k);
  }

  lemma CodeInName(k: Kind)
    ensures Contains(LowerName(k), "code") <==> (k.GroupCode? || k.SingleCode? || k.RowCode?)
  {
    var t := LowerName(k);
    if k.Plant? || k.Gap? {
      MissingFirstChar(t, "code");
    } else {
      var at := if k.GroupCode? then 5 else if k.SingleCode? then 6 else 3;
      assert t[at..at + 4] == "code";
      ContainsAt(t, "code", at);
    }
  }

  /** The two equality tests on the lower-cased class name pick out exactly one kind. */
  lemma NameTestKinds(k: Kind)
    ensures IsRowCode(k) <==> k.RowCode?
    ensures IsPlant(k) <==> k.Plant?
  {
    LowerTypeName(k);
    if k.RowCode? {
      RowCodeSpelling();
    } else {
      assert |LowerName(k)| != |"rowcode"|;
    }
    if !k.Plant? {
      assert |LowerName(k)| != |"plant"|;
    }
  }

  lemma RowCodeSpelling() ensures "row" + "code" == "rowcode" { }

  /** A bounding rectangle: OpenCV's rotated ((cx, cy), (w, h), angle) or a list of global corners. */
  datatype Rect =
    | Rotated(center: (real, real), size: (real, real), angle: real)
    | Corners(corners: seq<(real, real)>)

  /**
   * One detected item. `position` is the stored `_position`; the `position` property is
   * `Position` below. `assignedRow` and `alternateId` only mean something for row codes
   * and group codes respectively; `entry`/`rep` are `None` until a listing sets them.
   */
  datatype Item = Item(
    kind: Kind,
    name: string,
    position: Point,
    zone: string,
    row: int,
    range: int,
    numberWithinField: int,
    numberWithinRow: int,
    others: seq<nat>,
    parentImage: string,
    boundingRect: Option<Rect>,
    group: Option<nat>,
    alternateId: Option<string>,
    assignedRow: int,
    entry: Option<string>,
    rep: Option<string>)

  /** The constructor with the source's defaults. */
  function NewItem(kind: Kind, name: string, position: Point, zone: string, parentImage: string,
                   boundingRect: Option<Rect>): (r: Item)
    ensures r.kind == kind && r.name == name && r.position == position && r.zone == zone
    ensures r.row == 0 && r.range == 0 && r.numberWithinField == 0 && r.numberWithinRow == 0
    ensures r.others == [] && r.group.None? && r.assignedRow == -1
    ensures r.alternateId == if kind.GroupCode? then Some(name) else None
  {
    Item(kind, name, position, zone, 0, 0, 0, 0, [], parentImage, boundingRect, None,
         if kind.GroupCode? then Some(name) else None, -1, None, None)
  }

  /** Every reference points into the arena. */
  predicate RefsValid(items: seq<Item>) {
    forall i, j :: 0 <= i < |items| && 0 <= j < |items[i].others| ==> items[i].others[j] < |items|
  }

  /** `all_refs`: the item itself followed by its references. */
  function AllRefs(items: seq<Item>, i: nat): (r: seq<nat>)
    requires i < |items|
    ensures |r| == 1 + |items[i].others| && r[0] == i && r[1..] == items[i].others
  {
    [i] + items[i].others
  }

  function SumPositions(items: seq<Item>, refs: seq<nat>): Point
    requires forall k :: 0 <= k < |refs| ==> refs[k] < |items|
  {
    if refs == [] then Point(0.0, 0.0, 0.0)
    else
      var p := SumPositions(items, refs[..|refs| - 1]);
      var q := items[refs[|refs| - 1]].position;
      Point(p.x + q.x, p.y + q.y, p.z + q.z)
  }

  function Scale(p: Point, c: real): Point {
    Point(p.x * c, p.y * c, p.z * c)
  }

  /**
   * The `position` property: the mean of the stored position and the positions of the
   * references. A reference's own references are not followed (see README).
   */
  function Position(items: seq<Item>, i: nat): (r: Point)
    requires i < |items| && RefsValid(items)
    ensures items[i].others == [] ==> r == items[i].position
  {
    var n := 1 + |items[i].others|;
    var s := SumPositions(items, items[i].others);
    var own := items[i].position;
    Scale(Point(own.x + s.x, own.y + s.y, own.z + s.z), 1.0 / n as real)
  }

  /** Two arenas whose items sit at the same stored places and hold the same references. */
  predicate SamePlaces(a: seq<Item>, b: seq<Item>) {
    |a| == |b| && forall k :: 0 <= k < |a| ==> a[k].position == b[k].position && a[k].others == b[k].others
  }

  lemma {:induction false} SumPositionsSamePlaces(a: seq<Item>, b: seq<Item>, refs: seq<nat>)
    requires SamePlaces(a, b) && forall k :: 0 <= k < |refs| ==> refs[k] < |a|
    ensures SumPositions(a, refs) == SumPositions(b, refs)
    decreases |refs|
  {
    if refs != [] {
      SumPositionsSamePlaces(a, b, refs[..|refs| - 1]);
    }
  }

  /** The `position` property only reads stored places and references. */
  lemma PositionSamePlaces(a: seq<Item>, b: seq<Item>, i: nat)
    requires SamePlaces(a, b) && RefsValid(a) && i < |a|
    ensures RefsValid(b) && Position(a, i) == Position(b, i)
  {
    assert forall k :: 0 <= k < |b| ==> b[k].others == a[k].others;
    SumPositionsSamePlaces(a, b, a[i].others);
  }

  /** With no references the mean is the stored position itself. */
  lemma PositionWithoutRefs(items: seq<Item>, i: nat)
    requires i < |items| && RefsValid(items) && items[i].others == []
    ensures Position(items, i) == items[i].position
  {
  }

  /** With references all at the stored position, the mean stays there. */
  lemma {:induction false} SumPositionsConstant(items: seq<Item>, refs: seq<nat>, p: Point)
    requires forall k :: 0 <= k < |refs| ==> refs[k] < |items| && items[refs[k]].position == p
    ensures SumPositions(items, refs) == Scale(p, |refs| as real)
  {
    if refs != [] {
      SumPositionsConstant(items, refs[..|refs| - 1], p);
    }
  }

  lemma PositionOfCoincidentRefs(items: seq<Item>, i: nat)
    requires i < |items| && RefsValid(items)
    requires forall k :: 0 <= k < |items[i].others| ==> items[items[i].others[k]].position == items[i].position
    ensures Position(items, i) == items[i].position
  {
    var p := items[i].position;
    var n := |items[i].others|;
    SumPositionsConstant(items, items[i].others, p);
    var m := 1.0 / (1 + n) as real;
    assert (p.x + p.x * n as real) * m == p.x;
    assert (p.y + p.y * n as real) * m == p.y;
    assert (p.z + p.z * n as real) * m == p.z;
  }

  /** `row`, with the `RowCode` override: the assigned row when it is set (>= 0). */
  function RowOf(item: Item): (r: int)
    ensures item.kind.RowCode? && item.assignedRow >= 0 ==> r == item.assignedRow
    ensures !item.kind.RowCode? || item.assignedRow < 0 ==> r == item.row
  {
    if item.kind.RowCode? && item.assignedRow >= 0 then item.assignedRow else item.row
  }

  /** `id`: defined on group and single codes only (elsewhere the attribute does not exist). */
  function Id(item: Item): (r: Result<string>)
    ensures r.Ok? <==> (item.kind.GroupCode? || item.kind.SingleCode?)
    ensures r.Ok? ==> r.value == item.name
  {
    if item.kind.GroupCode? || item.kind.SingleCode? then Ok(item.name)
    else Err(AttributeError("'" + TypeName(item.kind) + "' object has no attribute 'id'"))
  }

  /** Reading `alternate_id`, which only exists once the constructor or a setter created it. */
  function AlternateId(item: Item): (r: Result<string>)
    ensures r.Ok? <==> item.alternateId.Some?
  {
    if item.alternateId.Some? then Ok(item.alternateId.value)
    else Err(AttributeError("object has no attribute 'alternate_id'"))
  }

  /** A fresh group code reads back its name as both `id` and `alternate_id`. */
  lemma NewGroupCodeIds(name: string, position: Point, zone: string, image: string, rect: Option<Rect>)
    ensures var c := NewItem(GroupCode, name, position, zone, image, rect);
            Id(c) == Ok(name) && AlternateId(c) == Ok(name) && RowOf(c) == 0
  {
  }

  /**
   * `number_within_segment`: `self.group.items.index(self)`, where `group` is a `PlantGroup`
   * or None. `PlantGroup` has no `items`, so the lookup always raises AttributeError and the
   * handler returns -1.
   */
  function NumberWithinSegment(item: Item): (r: int)
    requires IsGroupItem(item.kind)
    ensures r == -1
  {
    if item.group.None? then -1   // None has no `items`
    else -1                       // PlantGroup has no `items`
  }

  /** A property assignment `item.<attr> = v`. */
  datatype Attribute =
    | RowAttr(v: int)
    | RangeAttr(v: int)
    | NumberWithinFieldAttr(v: int)
    | NumberWithinRowAttr(v: int)
    | GroupAttr(g: Option<nat>)
    | AlternateIdAttr(s: string)
    | PositionAttr(p: Point)
    | AssignedRowAttr(v: int)
    | EntryAttr(s: string)
    | RepAttr(s: string)

  /** The stored effect of the assignment on one item. */
  function Assign(item: Item, a: Attribute): Item {
    match a
    case RowAttr(v) => item.(row := v)
    case RangeAttr(v) => item.(range := v)
    case NumberWithinFieldAttr(v) => item.(numberWithinField := v)
    case NumberWithinRowAttr(v) => item.(numberWithinRow := v)
    case GroupAttr(g) => item.(group := g)
    case AlternateIdAttr(s) => item.(alternateId := Some(s))
    case PositionAttr(p) => item.(position := p)
    case AssignedRowAttr(v) => item.(assignedRow := v)
    case EntryAttr(s) => item.(entry := Some(s))
    case RepAttr(s) => item.(rep := Some(s))
  }

  /**
   * Whether the assignment goes through a property setter that also assigns to `other_items`:
   * the four numbering properties on every item, `group` on `GroupItem`s and `alternate_id`
   * on `GroupCode`s. Elsewhere it is a plain attribute of the item alone.
   */
  predicate Propagates(k: Kind, a: Attribute) {
    match a
    case RowAttr(_) => true
    case RangeAttr(_) => true
    case NumberWithinFieldAttr(_) => true
    case NumberWithinRowAttr(_) => true
    case GroupAttr(_) => IsGroupItem(k)
    case AlternateIdAttr(_) => k.GroupCode?
    case _ => false
  }

  /** The items affected by assigning `a` to item `i`. */
  predicate Touched(items: seq<Item>, i: nat, a: Attribute, k: nat)
    requires i < |items|
  {
    k == i || (Propagates(items[i].kind, a) && k in items[i].others)
  }

  /** The arena after `items[i].<attr> = v`. */
  function Assigned(items: seq<Item>, i: nat, a: Attribute): (r: seq<Item>)
    requires i < |items|
    ensures |r| == |items|
  {
    seq(|items|, k requires 0 <= k < |items| => if Touched(items, i, a, k) then Assign(items[k], a) else items[k])
  }

  /** After an assignment the item and, where the setter propagates, each reference read the new value back. */
  lemma AssignedReadBack(items: seq<Item>, i: nat, v: int, k: nat)
    requires i < |items| && k < |items| && (k == i || k in items[i].others)
    ensures Assigned(items, i, RowAttr(v))[k].row == v
    ensures Assigned(items, i, RangeAttr(v))[k].range == v
    ensures Assigned(items, i, NumberWithinFieldAttr(v))[k].numberWithinField == v
    ensures Assigned(items, i, NumberWithinRowAttr(v))[k].numberWithinRow == v
    ensures RowOf(Assigned(items, i, RowAttr(v))[k])
            == if items[k].kind.RowCode? && items[k].assignedRow >= 0 then items[k].assignedRow else v
  {
  }

  /** Nothing but the assigned field of the touched items changes; the references stay as they were. */
  lemma AssignedFrame(items: seq<Item>, i: nat, a: Attribute, k: nat)
    requires i < |items| && k < |items|
    ensures !Touched(items, i, a, k) ==> Assigned(items, i, a)[k] == items[k]
    ensures Assigned(items, i, a)[k].others == items[k].others
    ensures Assigned(items, i, a)[k].kind == items[k].kind
    ensures Assigned(items, i, a)[k].name == items[k].name
    ensures RefsValid(items) ==> RefsValid(Assigned(items, i, a))
  {
  }

  /** A plain attribute (and `group` on a code that is not a `GroupItem`) reaches the item alone. */
  lemma AssignedLocal(items: seq<Item>, i: nat, a: Attribute, k: nat)
    requires i < |items| && k < |items| && k != i && !Propagates(items[i].kind, a)
    ensures Assigned(items, i, a)[k] == items[k]
  {
  }

  /** An assignment that does not propagate is a plain update of the one item. */
  lemma AssignedPlain(items: seq<Item>, i: nat, a: Attribute)
    requires i < |items| && !Propagates(items[i].kind, a)
    ensures Assigned(items, i, a) == items[i := Assign(items[i], a)]
  {
  }
}
