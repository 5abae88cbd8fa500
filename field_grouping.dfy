/**
 * Rows, plant-group segments and plant groups, and the registry that owns every field object.
 *
 * The source links these objects by reference (a segment knows its group, a group its
 * segments, an item its group). Here every object lives in one arena of `Registry`, and a
 * reference is an index into the matching sequence. The property setters of `FieldItem`
 * and the mutators of `PlantGroupSegment` and `PlantGroup` are methods of the registry.
 */
module FieldGrouping {
  import opened Wrappers
  import opened Geometry
  import opened Lists
  import opened FieldItems

  /** A row's `direction`: None, 'up' (same way as the field) or 'back'. */
  datatype Direction = NoDirection | Up | Back

  /** `PlantGroupSegment`: `start`/`end` index codes, `items` the items between them. */
  datatype Segment = Segment(
    start: nat,
    end: nat,
    items: seq<nat>,
    group: Option<nat>,
    expectedNumPlants: int,
    numPlantsWasMeasured: bool)

  /** `PlantGroup`: its segments in order. */
  datatype Group = Group(segments: seq<nat>, expectedNumPlants: int)

  /** `Row`: the codes at the range-0 side and the far side, and its segments in order. */
  datatype Row = Row(start: nat, end: nat, direction: Direction, groupSegments: seq<nat>)

  /** The `PlantGroupSegment` constructor with its defaults. */
  function NewSegment(start: nat, end: nat): (r: Segment)
    ensures r.start == start && r.end == end && r.items == [] && r.group.None?
    ensures r.expectedNumPlants == -1 && !r.numPlantsWasMeasured
  {
    Segment(start, end, [], None, -1, false)
  }

  /** The `PlantGroup` constructor. */
  function NewGroup(): (r: Group)
    ensures r.segments == [] && r.expectedNumPlants == -1
  {
    Group([], -1)
  }

  /** The `Row` constructor: a fresh, empty segment list unless one is given. */
  function NewRow(start: nat, end: nat, direction: Direction, segments: Option<seq<nat>>): (r: Row)
    ensures r.start == start && r.end == end && r.direction == direction
    ensures segments.None? ==> r.groupSegments == []
    ensures segments.Some? ==> r.groupSegments == segments.value
  {
    Row(start, end, direction, if segments.Some? then segments.value else [])
  }

  /**
   * `next_segment` of segment `s` within a group's list `segs`: `segs.index(s)` fails when
   * `s` is absent; otherwise the following segment, or None for the last one.
   */
  function Successor(segs: seq<nat>, s: nat): (r: Result<Option<nat>>)
    ensures r.Err? <==> s !in segs
    ensures r.Ok? && r.value.Some? ==> r.value.value in segs
  {
    var i := IndexOf(segs, s);
    if i < 0 then Err(ValueError("segment is not in list"))
    else if i < |segs| - 1 then Ok(Some(segs[i + 1]))
    else Ok(None)
  }

  /** In a list without repeats each segment's successor is the next one, and the last has none. */
  lemma SuccessorChain(segs: seq<nat>, k: nat)
    requires Distinct(segs) && k < |segs|
    ensures Successor(segs, segs[k]) == Ok(if k + 1 < |segs| then Some(segs[k + 1]) else None)
  {
    IndexOfDistinct(segs, k);
  }

  predicate SegmentFits(sg: Segment, numItems: nat, numGroups: nat) {
    sg.start < numItems && sg.end < numItems
    && (forall k :: 0 <= k < |sg.items| ==> sg.items[k] < numItems)
    && (sg.group.Some? ==> sg.group.value < numGroups)
  }

  predicate GroupFits(g: Group, numSegments: nat) {
    forall k :: 0 <= k < |g.segments| ==> g.segments[k] < numSegments
  }

  predicate RowFits(r: Row, numItems: nat, numSegments: nat) {
    r.start < numItems && r.end < numItems
    && forall k :: 0 <= k < |r.groupSegments| ==> r.groupSegments[k] < numSegments
  }

  predicate ItemFits(it: Item, numItems: nat, numGroups: nat) {
    (forall k :: 0 <= k < |it.others| ==> it.others[k] < numItems)
    && (it.group.Some? ==> it.group.value < numGroups)
  }

  predicate AttributeFits(a: Attribute, numGroups: nat) {
    a.GroupAttr? && a.g.Some? ==> a.g.value < numGroups
  }

  lemma AssignIdempotent(it: Item, a: Attribute)
    ensures Assign(Assign(it, a), a) == Assign(it, a)
  {
  }

  /** The arena while a propagating setter runs: the item and the references in `done` are assigned. */
  function PartlyAssigned(items: seq<Item>, i: nat, a: Attribute, done: seq<nat>): (r: seq<Item>)
    requires i < |items|
    ensures |r| == |items|
  {
    seq(|items|, k requires 0 <= k < |items| => if k == i || k in done then Assign(items[k], a) else items[k])
  }

  /** Assigning to one more reference, in place. */
  lemma PartlyAssignedStep(items: seq<Item>, i: nat, a: Attribute, refs: seq<nat>, j: nat)
    requires i < |items| && refs == items[i].others && RefsValid(items) && j < |refs|
    ensures refs[j] < |items|
    ensures var prev := PartlyAssigned(items, i, a, refs[..j]);
            PartlyAssigned(items, i, a, refs[..j + 1]) == prev[refs[j] := Assign(prev[refs[j]], a)]
  {
    var r := refs[j];
    assert refs[..j + 1] == refs[..j] + [r];
    AssignIdempotent(items[r], a);
  }

  /** Once every reference is done, the arena is the setter's result. */
  lemma PartlyAssignedAll(items: seq<Item>, i: nat, a: Attribute)
    requires i < |items| && Propagates(items[i].kind, a)
    ensures PartlyAssigned(items, i, a, items[i].others) == Assigned(items, i, a)
  {
  }

  /** An assignment keeps every item inside the arena. */
  lemma AssignedFits(items: seq<Item>, i: nat, a: Attribute, numGroups: nat)
    requires i < |items| && AttributeFits(a, numGroups) && RefsValid(items)
    requires forall k :: 0 <= k < |items| ==> ItemFits(items[k], |items|, numGroups)
    ensures RefsValid(Assigned(items, i, a))
    ensures forall k :: 0 <= k < |items| ==> ItemFits(Assigned(items, i, a)[k], |items|, numGroups)
  {
    var r := Assigned(items, i, a);
    forall k | 0 <= k < |items| ensures ItemFits(r[k], |items|, numGroups) && r[k].others == items[k].others {
      assert ItemFits(items[k], |items|, numGroups);
    }
  }

  /** The arena of every item, segment, group and row of one field. */
  class Registry {
    var items: seq<Item>
    var segments: seq<Segment>
    var groups: seq<Group>
    var rows: seq<Row>

    /** Every index stored anywhere points into its arena. */
    predicate Valid()
      reads this
    {
      RefsValid(items)
      && (forall i :: 0 <= i < |items| ==> ItemFits(items[i], |items|, |groups|))
      && (forall s :: 0 <= s < |segments| ==> SegmentFits(segments[s], |items|, |groups|))
      && (forall g :: 0 <= g < |groups| ==> GroupFits(groups[g], |segments|))
      && (forall r :: 0 <= r < |rows| ==> RowFits(rows[r], |items|, |segments|))
    }

    constructor ()
      ensures Valid()
      ensures items == [] && segments == [] && groups == [] && rows == []
    {
      items, segments, groups, rows := [], [], [], [];
    }

    /** Creating a field item: it joins the arena. */
    method AddFieldItem(it: Item) returns (i: nat)
      requires Valid() && ItemFits(it, |items|, |groups|)
      modifies this
      ensures Valid()
      ensures i == |old(items)| && items == old(items) + [it]
      ensures segments == old(segments) && groups == old(groups) && rows == old(rows)
    {
      i := |items|;
      items := items + [it];
      forall k | 0 <= k < |items|
        ensures ItemFits(items[k], |items|, |groups|)
      {
        assert k < i ==> ItemFits(old(items)[k], i, |groups|);
      }
    }

    /**
     * `items[i].<attr> = v`: the stored field of the item, and of each reference when that
     * property's setter propagates. Nothing else changes.
     */
    method Set(i: nat, a: Attribute)
      requires Valid() && i < |items| && AttributeFits(a, |groups|)
      modifies this
      ensures Valid()
      ensures items == Assigned(old(items), i, a)
      ensures segments == old(segments) && groups == old(groups) && rows == old(rows)
    {
      ghost var before := items;
      var refs, kind := items[i].others, items[i].kind;
      items := items[i := Assign(items[i], a)];
      if Propagates(kind, a) {
        var j := 0;
        assert refs[..0] == [];
        while j < |refs|
          invariant 0 <= j <= |refs| && |items| == |before|
          invariant segments == old(segments) && groups == old(groups) && rows == old(rows)
          invariant items == PartlyAssigned(before, i, a, refs[..j])
        {
          PartlyAssignedStep(before, i, a, refs, j);
          items := items[refs[j] := Assign(items[refs[j]], a)];
          j := j + 1;
        }
        assert refs[..j] == refs;
        PartlyAssignedAll(before, i, a);
      } else {
        AssignedPlain(before, i, a);
      }
      AssignedFits(before, i, a, |groups|);
    }

    /**
     * The `add_other_item` setter: refuses the item itself and an item of another type,
     * and otherwise appends to the reference list.
     */
    method AddOtherItem(i: nat, other: nat) returns (r: Result<()>)
      requires Valid() && i < |items| && other < |items|
      modifies this
      ensures Valid()
      ensures r.Err? <==> other == i || old(items)[other].kind != old(items)[i].kind
      ensures r.Err? ==> items == old(items)
      ensures r.Ok? ==> items == old(items)[i := old(items)[i].(others := old(items)[i].others + [other])]
      ensures segments == old(segments) && groups == old(groups) && rows == old(rows)
    {
      if other == i {
        return Err(ValueError("Can't add self as reference."));
      }
      if items[other].kind != items[i].kind {
        return Err(ValueError("Can't add reference to different type."));
      }
      ghost var before := items;
      items := items[i := items[i].(others := items[i].others + [other])];
      forall k | 0 <= k < |items|
        ensures ItemFits(items[k], |items|, |groups|)
      {
        assert ItemFits(before[k], |items|, |groups|);
      }
      r := Ok(());
    }

    /** Creating a `PlantGroupSegment` between two codes. */
    method AddSegmentRecord(start: nat, end: nat) returns (s: nat)
      requires Valid() && start < |items| && end < |items|
      modifies this
      ensures Valid()
      ensures s == |old(segments)| && segments == old(segments) + [NewSegment(start, end)]
      ensures items == old(items) && groups == old(groups) && rows == old(rows)
    {
      s := |segments|;
      segments := segments + [NewSegment(start, end)];
      assert forall k :: 0 <= k < s ==> segments[k] == old(segments)[k];
    }

    /** Creating an empty `PlantGroup`. */
    method AddGroupRecord() returns (g: nat)
      requires Valid()
      modifies this
      ensures Valid()
      ensures g == |old(groups)| && groups == old(groups) + [NewGroup()]
      ensures items == old(items) && segments == old(segments) && rows == old(rows)
    {
      g := |groups|;
      groups := groups + [NewGroup()];
      forall k | 0 <= k < |items|
        ensures ItemFits(items[k], |items|, |groups|)
      {
        assert ItemFits(old(items)[k], |items|, g);
      }
      forall k | 0 <= k < |segments|
        ensures SegmentFits(segments[k], |items|, |groups|)
      {
        assert SegmentFits(old(segments)[k], |items|, g);
      }
    }

    /** Creating a `Row`. */
    method AddRowRecord(row: Row) returns (r: nat)
      requires Valid() && RowFits(row, |items|, |segments|)
      modifies this
      ensures Valid()
      ensures r == |old(rows)| && rows == old(rows) + [row]
      ensures items == old(items) && segments == old(segments) && groups == old(groups)
    {
      r := |rows|;
      rows := rows + [row];
      assert forall k :: 0 <= k < r ==> rows[k] == old(rows)[k];
    }

    /** `row.direction = d`. */
    method SetDirection(r: nat, d: Direction)
      requires Valid() && r < |rows|
      modifies this
      ensures Valid()
      ensures rows == old(rows)[r := old(rows)[r].(direction := d)]
      ensures items == old(items) && segments == old(segments) && groups == old(groups)
    {
      rows := rows[r := rows[r].(direction := d)];
      assert forall k :: 0 <= k < |rows| && k != r ==> rows[k] == old(rows)[k];
    }

    /** `row.group_segments.append(s)`. */
    method AppendRowSegment(r: nat, s: nat)
      requires Valid() && r < |rows| && s < |segments|
      modifies this
      ensures Valid()
      ensures rows == old(rows)[r := old(rows)[r].(groupSegments := old(rows)[r].groupSegments + [s])]
      ensures items == old(items) && segments == old(segments) && groups == old(groups)
    {
      assert RowFits(rows[r], |items|, |segments|);
      rows := rows[r := rows[r].(groupSegments := rows[r].groupSegments + [s])];
      assert forall k :: 0 <= k < |rows| && k != r ==> rows[k] == old(rows)[k];
    }

    /** `group.expected_num_plants = n`. */
    method SetExpectedNumPlants(g: nat, n: int)
      requires Valid() && g < |groups|
      modifies this
      ensures Valid()
      ensures groups == old(groups)[g := old(groups)[g].(expectedNumPlants := n)]
      ensures items == old(items) && segments == old(segments) && rows == old(rows)
    {
      assert GroupFits(groups[g], |segments|);
      groups := groups[g := groups[g].(expectedNumPlants := n)];
      assert forall k :: 0 <= k < |groups| && k != g ==> groups[k] == old(groups)[k];
    }

    /** `update_group`: the segment's group, and then its start code's `group` property. */
    method UpdateGroup(s: nat, g: nat)
      requires Valid() && s < |segments| && g < |groups|
      modifies this
      ensures Valid()
      ensures segments == old(segments)[s := old(segments)[s].(group := Some(g))]
      ensures items == Assigned(old(items), old(segments)[s].start, GroupAttr(Some(g)))
      ensures groups == old(groups) && rows == old(rows)
    {
      segments := segments[s := segments[s].(group := Some(g))];
      assert SegmentFits(old(segments)[s], |items|, |groups|);
      Set(segments[s].start, GroupAttr(Some(g)));
    }

    /**
     * `add_item`: None is refused with ValueError; otherwise the item is appended to the
     * segment and its `group` property set to the segment's group.
     */
    method AddItem(s: nat, item: Option<nat>) returns (r: Result<()>)
      requires Valid() && s < |segments| && (item.Some? ==> item.value < |items|)
      modifies this
      ensures Valid()
      ensures r.Err? <==> item.None?
      ensures item.None? ==> items == old(items) && segments == old(segments)
      ensures item.Some? ==>
        segments == old(segments)[s := old(segments)[s].(items := old(segments)[s].items + [item.value])]
        && items == Assigned(old(items), item.value, GroupAttr(old(segments)[s].group))
      ensures groups == old(groups) && rows == old(rows)
    {
      if item.None? {
        return Err(ValueError("Cannot add None item to item group."));
      }
      assert SegmentFits(segments[s], |items|, |groups|);
      segments := segments[s := segments[s].(items := segments[s].items + [item.value])];
      Set(item.value, GroupAttr(segments[s].group));
      r := Ok(());
    }

    /** `PlantGroup.add_segment`: the segment joins the group and is appended to its list. */
    method AddSegment(g: nat, s: nat)
      requires Valid() && g < |groups| && s < |segments|
      modifies this
      ensures Valid()
      ensures segments == old(segments)[s := old(segments)[s].(group := Some(g))]
      ensures groups == old(groups)[g := old(groups)[g].(segments := old(groups)[g].segments + [s])]
      ensures items == Assigned(old(items), old(segments)[s].start, GroupAttr(Some(g)))
      ensures rows == old(rows)
    {
      UpdateGroup(s, g);
      assert GroupFits(groups[g], |segments|);
      groups := groups[g := groups[g].(segments := groups[g].segments + [s])];
    }

    /** `next_segment`: the successor within the segment's group, None when it has no group. */
    function NextSegment(s: nat): (r: Result<Option<nat>>)
      requires Valid() && s < |segments|
      reads this
      ensures segments[s].group.None? ==> r == Ok(None)
      ensures r.Ok? && r.value.Some? ==> r.value.value < |segments|
    {
      var sg := segments[s];
      if sg.group.None? then Ok(None)
      else
        assert SegmentFits(sg, |items|, |groups|);
        var segs := groups[sg.group.value].segments;
        assert GroupFits(groups[sg.group.value], |segments|);
        Successor(segs, s)
    }

    /** `row_number` of a segment: the `row` property of its start code. */
    function SegmentRowNumber(s: nat): (r: int)
      requires Valid() && s < |segments|
      reads this
      ensures var c := items[segments[s].start];
              r == if c.kind.RowCode? && c.assignedRow >= 0 then c.assignedRow else c.row
    {
      assert SegmentFits(segments[s], |items|, |groups|);
      RowOf(items[segments[s].start])
    }

    /** `length` of a segment: planar distance between its codes' (averaged) positions. */
    function SegmentLength(s: nat, sqrt: SqrtFn): (r: real)
      requires Valid() && s < |segments|
      reads this
    {
      assert SegmentFits(segments[s], |items|, |groups|);
      PositionDifference(Position(items, segments[s].start), Position(items, segments[s].end), sqrt)
    }

    /** A segment's length does not depend on which code is the start, and is never negative. */
    lemma SegmentLengthProperties(s: nat, sqrt: SqrtFn)
      requires Valid() && s < |segments| && IsSqrt(sqrt)
      ensures SegmentLength(s, sqrt) >= 0.0
      ensures segments[s].start < |items| && segments[s].end < |items| && RefsValid(items)
      ensures SegmentLength(s, sqrt)
              == PositionDifference(Position(items, segments[s].end), Position(items, segments[s].start), sqrt)
      ensures segments[s].start == segments[s].end ==> SegmentLength(s, sqrt) == 0.0
    {
      assert SegmentFits(segments[s], |items|, |groups|);
      var p, q := Position(items, segments[s].start), Position(items, segments[s].end);
      PositionDifferenceSymmetric(p, q, sqrt);
      PositionDifferenceZero(p, q, sqrt);
    }

    /** `PlantGroup.start_code`: the first segment's start code; an empty group raises IndexError. */
    function GroupStartCode(g: nat): (r: Result<nat>)
      requires Valid() && g < |groups|
      reads this
      ensures r.Err? <==> groups[g].segments == []
      ensures r.Ok? ==> r.value < |items| && r.value == segments[groups[g].segments[0]].start
    {
      if groups[g].segments == [] then Err(IndexError("list index out of range"))
      else
        assert GroupFits(groups[g], |segments|);
        assert SegmentFits(segments[groups[g].segments[0]], |items|, |groups|);
        Ok(segments[groups[g].segments[0]].start)
    }

    /** `PlantGroup.id`: the start code's `id`, which only group and single codes have. */
    function GroupId(g: nat): (r: Result<string>)
      requires Valid() && g < |groups|
      reads this
      ensures r.Ok? <==> GroupStartCode(g).Ok? && Id(items[GroupStartCode(g).value]).Ok?
      ensures r.Ok? ==> r.value == items[GroupStartCode(g).value].name
    {
      var c := GroupStartCode(g);
      if c.Err? then Err(c.error) else Id(items[c.value])
    }

    /** `PlantGroup.alternate_id`: the start code's `alternate_id`. */
    function GroupAlternateId(g: nat): (r: Result<string>)
      requires Valid() && g < |groups|
      reads this
      ensures r.Ok? <==> GroupStartCode(g).Ok? && items[GroupStartCode(g).value].alternateId.Some?
      ensures r.Ok? ==> Some(r.value) == items[GroupStartCode(g).value].alternateId
    {
      var c := GroupStartCode(g);
      if c.Err? then Err(c.error) else AlternateId(items[c.value])
    }

    /** Sum of the lengths of the given segments, first to last. */
    function SumLengths(segs: seq<nat>, sqrt: SqrtFn): real
      requires Valid() && forall k :: 0 <= k < |segs| ==> segs[k] < |segments|
      reads this
    {
      if segs == [] then 0.0
      else SumLengths(segs[..|segs| - 1], sqrt) + SegmentLength(segs[|segs| - 1], sqrt)
    }

    /** `PlantGroup.length`: the running total of the segment lengths. */
    method GroupLength(g: nat, sqrt: SqrtFn) returns (length: real)
      requires Valid() && g < |groups|
      ensures GroupFits(groups[g], |segments|) && length == SumLengths(groups[g].segments, sqrt)
    {
      assert GroupFits(groups[g], |segments|);
      var segs := groups[g].segments;
      length := 0.0;
      var k := 0;
      while k < |segs|
        invariant 0 <= k <= |segs|
        invariant length == SumLengths(segs[..k], sqrt)
      {
        assert segs[..k + 1][..k] == segs[..k];
        length := length + SegmentLength(segs[k], sqrt);
        k := k + 1;
      }
      assert segs[..k] == segs;
    }

    /** A group's length is never negative, and a one-segment group is as long as its segment. */
    lemma {:induction false} SumLengthsNonNegative(segs: seq<nat>, sqrt: SqrtFn)
      requires Valid() && IsSqrt(sqrt)
      requires forall k :: 0 <= k < |segs| ==> segs[k] < |segments|
      ensures SumLengths(segs, sqrt) >= 0.0
      ensures |segs| == 1 ==> SumLengths(segs, sqrt) == SegmentLength(segs[0], sqrt)
    {
      if segs != [] {
        SumLengthsNonNegative(segs[..|segs| - 1], sqrt);
        SegmentLengthProperties(segs[|segs| - 1], sqrt);
      }
    }

    /** Appending a segment to a group adds its length. */
    lemma SumLengthsAppend(segs: seq<nat>, s: nat, sqrt: SqrtFn)
      requires Valid() && s < |segments| && forall k :: 0 <= k < |segs| ==> segs[k] < |segments|
      ensures SumLengths(segs + [s], sqrt) == SumLengths(segs, sqrt) + SegmentLength(s, sqrt)
    {
      assert (segs + [s])[..|segs|] == segs;
    }

    /** `Row.number`: the `row` property of the row's start code. */
    function RowNumber(r: nat): (n: int)
      requires Valid() && r < |rows|
      reads this
      ensures var c := items[rows[r].start];
              n == if c.kind.RowCode? && c.assignedRow >= 0 then c.assignedRow else c.row
    {
      assert RowFits(rows[r], |items|, |segments|);
      RowOf(items[rows[r].start])
    }
  }
}
