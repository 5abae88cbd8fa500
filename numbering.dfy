/**
 * `number_serpentine`: the rows are walked in ascending row number, each row's codes and
 * plants are laid out along the row, turned so that the walk snakes up one row and down the
 * next, and every item is given its position within the field and within its row.
 */
module Numbering {
  import opened Lists
  import opened Sorting
  import opened FieldItems
  import opened FieldGrouping
  import opened GroupingGroups

  // ---------------------------------------------------------------------------
  // The items of one row

  /** Each segment's start code followed by its items, for the segments `ids` in order. */
  function Chunks(segments: seq<Segment>, ids: seq<nat>): seq<nat>
    requires AllIn(ids, |segments|)
  {
    if ids == [] then []
    else
      var s := segments[ids[|ids| - 1]];
      Chunks(segments, ids[..|ids| - 1]) + [s.start] + s.items
  }

  /**
   * The list a row's segments lay out: each segment's start code and items, then the end code
   * of the last segment (a segment's end code is the next one's start code). A row without
   * segments lays out nothing.
   */
  function RowItemList(segments: seq<Segment>, ids: seq<nat>): seq<nat>
    requires AllIn(ids, |segments|)
  {
    if ids == [] then [] else Chunks(segments, ids) + [segments[ids[|ids| - 1]].end]
  }

  /** The number of entries the segments `ids` contribute before the final end code. */
  function ChunksLength(segments: seq<Segment>, ids: seq<nat>): nat
    requires AllIn(ids, |segments|)
  {
    if ids == [] then 0 else ChunksLength(segments, ids[..|ids| - 1]) + 1 + |segments[ids[|ids| - 1]].items|
  }

  lemma {:induction false} ChunksShape(segments: seq<Segment>, ids: seq<nat>)
    requires AllIn(ids, |segments|)
    ensures |Chunks(segments, ids)| == ChunksLength(segments, ids)
    ensures ids != [] ==> Chunks(segments, ids)[0] == segments[ids[0]].start
    decreases |ids|
  {
    if ids != [] {
      ChunksShape(segments, ids[..|ids| - 1]);
    }
  }

  /**
   * A row's list starts at its first segment's start code and ends at its last segment's end
   * code, and holds one start code and the items of every segment plus that end code.
   */
  lemma RowItemListShape(segments: seq<Segment>, ids: seq<nat>)
    requires AllIn(ids, |segments|)
    ensures ids == [] ==> RowItemList(segments, ids) == []
    ensures ids != [] ==> |RowItemList(segments, ids)| == ChunksLength(segments, ids) + 1
    ensures ids != [] ==> RowItemList(segments, ids)[0] == segments[ids[0]].start
    ensures ids != [] ==> RowItemList(segments, ids)[|RowItemList(segments, ids)| - 1] == segments[ids[|ids| - 1]].end
  {
    ChunksShape(segments, ids);
  }

  lemma {:induction false} ChunksIn(segments: seq<Segment>, ids: seq<nat>, numItems: nat, numGroups: nat)
    requires AllIn(ids, |segments|)
    requires forall s :: 0 <= s < |segments| ==> SegmentFits(segments[s], numItems, numGroups)
    ensures AllIn(Chunks(segments, ids), numItems)
    decreases |ids|
  {
    if ids != [] {
      ChunksIn(segments, ids[..|ids| - 1], numItems, numGroups);
      assert SegmentFits(segments[ids[|ids| - 1]], numItems, numGroups);
    }
  }

  lemma RowItemListIn(segments: seq<Segment>, ids: seq<nat>, numItems: nat, numGroups: nat)
    requires AllIn(ids, |segments|)
    requires forall s :: 0 <= s < |segments| ==> SegmentFits(segments[s], numItems, numGroups)
    ensures AllIn(RowItemList(segments, ids), numItems)
  {
    ChunksIn(segments, ids, numItems, numGroups);
    if ids != [] {
      assert SegmentFits(segments[ids[|ids| - 1]], numItems, numGroups);
    }
  }

  lemma ChunksStep(segments: seq<Segment>, ids: seq<nat>, i: nat)
    requires i < |ids| && AllIn(ids, |segments|)
    ensures AllIn(ids[..i], |segments|) && AllIn(ids[..i + 1], |segments|)
    ensures Chunks(segments, ids[..i + 1]) == Chunks(segments, ids[..i]) + [segments[ids[i]].start] + segments[ids[i]].items
  {
    assert ids[..i + 1][..i] == ids[..i];
    assert ids[..i + 1][i] == ids[i];
  }

  lemma RowItemListLast(segments: seq<Segment>, ids: seq<nat>, i: nat)
    requires i + 1 == |ids| && AllIn(ids, |segments|)
    ensures AllIn(ids[..i + 1], |segments|)
    ensures RowItemList(segments, ids) == Chunks(segments, ids[..i + 1]) + [segments[ids[i]].end]
  {
    assert ids[..i + 1] == ids;
  }

  /** The list of one row, built by the segment loop of `number_serpentine`. */
  method RowItems(reg: Registry, r: nat) returns (rowItems: seq<nat>)
    requires reg.Valid() && r < |reg.rows|
    ensures AllIn(reg.rows[r].groupSegments, |reg.segments|)
    ensures rowItems == RowItemList(reg.segments, reg.rows[r].groupSegments)
  {
    assert RowFits(reg.rows[r], |reg.items|, |reg.segments|);
    var segs := reg.rows[r].groupSegments;
    rowItems := [];
    var i := 0;
    while i < |segs|
      invariant i <= |segs|
      invariant rowItems == if i < |segs| then Chunks(reg.segments, segs[..i]) else RowItemList(reg.segments, segs)
    {
      var segment := reg.segments[segs[i]];
      ChunksStep(reg.segments, segs, i);
      rowItems := rowItems + [segment.start];
      rowItems := rowItems + segment.items;
      if i == |segs| - 1 {
        RowItemListLast(reg.segments, segs, i);
        rowItems := rowItems + [segment.end];
      }
      i := i + 1;
    }
  }

  // ---------------------------------------------------------------------------
  // Turning a row

  lemma ReversedTwice<T>(s: seq<T>)
    ensures Reversed(Reversed(s)) == s
  {
    var r := Reversed(Reversed(s));
    forall k | 0 <= k < |s| ensures r[k] == s[k] {
      assert r[k] == Reversed(s)[|s| - 1 - k];
    }
  }

  /**
   * A row's list once turned: reversed for a 'back' row so that it runs 'up', then reversed
   * for an even row number. Python's `%` and Dafny's agree on `% 2`: both are 0 or 1.
   */
  function Oriented(rowItems: seq<nat>, direction: Direction, number: int): seq<nat> {
    var up := if direction == Back then Reversed(rowItems) else rowItems;
    if number % 2 == 0 then Reversed(up) else up
  }

  lemma OrientedIn(rowItems: seq<nat>, direction: Direction, number: int, n: nat)
    requires AllIn(rowItems, n)
    ensures AllIn(Oriented(rowItems, direction, number), n)
  {
    var up := if direction == Back then Reversed(rowItems) else rowItems;
    assert AllIn(up, n) by {
      forall k | 0 <= k < |up| ensures up[k] < n {
        if direction == Back { assert up[k] == rowItems[|rowItems| - 1 - k]; }
      }
    }
    var r := Oriented(rowItems, direction, number);
    forall k | 0 <= k < |r| ensures r[k] < n {
      if number % 2 == 0 { assert r[k] == up[|up| - 1 - k]; }
    }
  }

  /** The two reversals cancel on an even 'back' row; exactly one applies on an odd 'back' or even other row. */
  lemma OrientedCases(rowItems: seq<nat>, direction: Direction, number: int)
    ensures direction == Back && number % 2 == 0 ==> Oriented(rowItems, direction, number) == rowItems
    ensures direction == Back && number % 2 != 0 ==> Oriented(rowItems, direction, number) == Reversed(rowItems)
    ensures direction != Back && number % 2 == 0 ==> Oriented(rowItems, direction, number) == Reversed(rowItems)
    ensures direction != Back && number % 2 != 0 ==> Oriented(rowItems, direction, number) == rowItems
  {
    ReversedTwice(rowItems);
  }

  // ---------------------------------------------------------------------------
  // The walk over the rows

  /** `Row.number` read from the arenas: the `row` property of the row's start code. */
  function RowNumberIn(items: seq<Item>, rowArena: seq<Row>, r: nat): int
    requires r < |rowArena| && rowArena[r].start < |items|
  {
    RowOf(items[rowArena[r].start])
  }

  /** Every row lies in the arenas. */
  predicate RowsFit(items: seq<Item>, segments: seq<Segment>, rowArena: seq<Row>) {
    forall r :: 0 <= r < |rowArena| ==> RowFits(rowArena[r], |items|, |segments|)
  }

  /** Each row of `rows` paired with its number, the key `sorted` compares. */
  function Keyed(items: seq<Item>, segments: seq<Segment>, rowArena: seq<Row>, rows: seq<nat>): (r: seq<(nat, int)>)
    requires RowsFit(items, segments, rowArena) && AllIn(rows, |rowArena|)
    ensures |r| == |rows|
  {
    seq(|rows|, k requires 0 <= k < |rows| =>
      assert RowFits(rowArena[rows[k]], |items|, |segments|);
      (rows[k], RowNumberIn(items, rowArena, rows[k])))
  }

  function NumberKey(p: (nat, int)): real { p.1 as real }

  /** `sorted(rows, key=lambda r: r.number)`. */
  function VisitOrder(items: seq<Item>, segments: seq<Segment>, rowArena: seq<Row>, rows: seq<nat>): seq<(nat, int)>
    requires RowsFit(items, segments, rowArena) && AllIn(rows, |rowArena|)
  {
    SortBy(Keyed(items, segments, rowArena, rows), NumberKey)
  }

  /** The walk visits every given row once, each with its own number, in ascending row number. */
  lemma VisitOrderFacts(items: seq<Item>, segments: seq<Segment>, rowArena: seq<Row>, rows: seq<nat>)
    requires RowsFit(items, segments, rowArena) && AllIn(rows, |rowArena|)
    ensures var order := VisitOrder(items, segments, rowArena, rows);
            |order| == |rows| && multiset(order) == multiset(Keyed(items, segments, rowArena, rows))
    ensures var order := VisitOrder(items, segments, rowArena, rows);
            forall i, j :: 0 <= i < j < |order| ==> order[i].1 <= order[j].1
    ensures var order := VisitOrder(items, segments, rowArena, rows);
            forall k :: 0 <= k < |order| ==>
              (order[k].0 in rows && order[k].0 < |rowArena| && order[k].1 == RowNumberIn(items, rowArena, order[k].0))
  {
    var keyed := Keyed(items, segments, rowArena, rows);
    var order := VisitOrder(items, segments, rowArena, rows);
    assert SortedBy(order, NumberKey);
    forall i, j | 0 <= i < j < |order| ensures order[i].1 <= order[j].1 {
      assert NumberKey(order[i]) <= NumberKey(order[j]);
    }
    forall k | 0 <= k < |order|
      ensures order[k].0 in rows && order[k].0 < |rowArena| && order[k].1 == RowNumberIn(items, rowArena, order[k].0)
    {
      assert order[k] in multiset(keyed);
      var m :| 0 <= m < |keyed| && keyed[m] == order[k];
    }
  }

  /** `sorted` is stable: rows that share a number are walked in the order they are given. */
  lemma VisitOrderStable(items: seq<Item>, segments: seq<Segment>, rowArena: seq<Row>, rows: seq<nat>, number: int)
    requires RowsFit(items, segments, rowArena) && AllIn(rows, |rowArena|)
    ensures WithKey(VisitOrder(items, segments, rowArena, rows), NumberKey, number as real)
            == WithKey(Keyed(items, segments, rowArena, rows), NumberKey, number as real)
  {
    SortByStable(Keyed(items, segments, rowArena, rows), NumberKey, number as real);
  }

  /** Rows that lie in the arenas of a valid registry. */
  predicate OrderFits(segments: seq<Segment>, rowArena: seq<Row>, order: seq<(nat, int)>) {
    (forall k :: 0 <= k < |order| ==> order[k].0 < |rowArena|)
    && forall r :: 0 <= r < |rowArena| ==> AllIn(rowArena[r].groupSegments, |segments|)
  }

  /** The turned list of every visited row, in visiting order. */
  function SerpentineLists(segments: seq<Segment>, rowArena: seq<Row>, order: seq<(nat, int)>): (r: seq<seq<nat>>)
    requires OrderFits(segments, rowArena, order)
    ensures |r| == |order|
  {
    seq(|order|, k requires 0 <= k < |order| =>
      var row := rowArena[order[k].0];
      Oriented(RowItemList(segments, row.groupSegments), row.direction, order[k].1))
  }

  /** The lists one after another: the `ordered_items` of `number_serpentine`. */
  function Flatten(lists: seq<seq<nat>>): (r: seq<nat>)
  {
    if lists == [] then [] else Flatten(lists[..|lists| - 1]) + lists[|lists| - 1]
  }

  /** The number of entries of the flattened lists. */
  function FlatLength(lists: seq<seq<nat>>): nat {
    if lists == [] then 0 else FlatLength(lists[..|lists| - 1]) + |lists[|lists| - 1]|
  }

  lemma {:induction false} FlatLengthIs(lists: seq<seq<nat>>)
    ensures FlatLength(lists) == |Flatten(lists)|
    decreases |lists|
  {
    if lists != [] {
      FlatLengthIs(lists[..|lists| - 1]);
    }
  }

  lemma FlattenStep(lists: seq<seq<nat>>, j: nat)
    requires j < |lists|
    ensures Flatten(lists[..j + 1]) == Flatten(lists[..j]) + lists[j]
  {
    assert lists[..j + 1][..j] == lists[..j];
  }

  /** Every entry of a list is an entry of the flattened lists. */
  lemma {:induction false} FlattenMember(lists: seq<seq<nat>>, t: nat, p: nat)
    requires t < |lists| && p < |lists[t]|
    ensures lists[t][p] in Flatten(lists)
    decreases |lists|
  {
    if t < |lists| - 1 {
      FlattenMember(lists[..|lists| - 1], t, p);
    }
  }

  // ---------------------------------------------------------------------------
  // Numbering

  /** `item.number_within_field = f` then `item.number_within_row = w`, both through their setters. */
  function Numbered(items: seq<Item>, i: nat, f: int, w: int): (r: seq<Item>)
    requires i < |items|
    ensures |r| == |items|
    ensures SameOthers(r, items)
  {
    Assigned(Assigned(items, i, NumberWithinFieldAttr(f)), i, NumberWithinRowAttr(w))
  }

  /** The arena after the numbering loop of one row whose first item gets field number `fieldStart`. */
  function NumberRow(items: seq<Item>, row: seq<nat>, fieldStart: int): (r: seq<Item>)
    requires AllIn(row, |items|)
    ensures |r| == |items|
    decreases |row|
  {
    if row == [] then items
    else
      var k := |row| - 1;
      Numbered(NumberRow(items, row[..k], fieldStart), row[k], fieldStart + k, k + 1)
  }

  lemma NumberRowStep(items: seq<Item>, row: seq<nat>, k: nat, fieldStart: int)
    requires k < |row| && AllIn(row, |items|)
    ensures AllIn(row[..k], |items|) && AllIn(row[..k + 1], |items|)
    ensures NumberRow(items, row[..k + 1], fieldStart) == Numbered(NumberRow(items, row[..k], fieldStart), row[k], fieldStart + k, k + 1)
  {
    assert row[..k + 1][..k] == row[..k];
  }

  lemma NumberedIs(before: seq<Item>, i: nat, f: int, w: int, mid: seq<Item>, after: seq<Item>)
    requires i < |before|
    requires mid == Assigned(before, i, NumberWithinFieldAttr(f))
    requires after == Assigned(mid, i, NumberWithinRowAttr(w))
    ensures after == Numbered(before, i, f, w)
  { }

  lemma NumberRowAdvance(items: seq<Item>, row: seq<nat>, k: nat, fieldStart: int, f: int, before: seq<Item>, after: seq<Item>)
    requires k < |row| && AllIn(row, |items|) && f == fieldStart + k
    requires before == NumberRow(items, row[..k], fieldStart) && row[k] < |before|
    requires after == Numbered(before, row[k], f, k + 1)
    ensures after == NumberRow(items, row[..k + 1], fieldStart)
  {
    NumberRowStep(items, row, k, fieldStart);
    assert NumberRow(items, row[..k + 1], fieldStart) == Numbered(before, row[k], fieldStart + k, k + 1);
  }

  predicate ListsIn(lists: seq<seq<nat>>, n: nat) {
    forall k :: 0 <= k < |lists| ==> AllIn(lists[k], n)
  }

  /** The arena after numbering the rows `lists` in turn, the first item getting `fieldStart`. */
  function NumberRows(items: seq<Item>, lists: seq<seq<nat>>, fieldStart: int): (r: seq<Item>)
    requires ListsIn(lists, |items|)
    ensures |r| == |items|
    decreases |lists|
  {
    if lists == [] then items
    else
      var n := |lists| - 1;
      NumberRow(NumberRows(items, lists[..n], fieldStart), lists[n], fieldStart + FlatLength(lists[..n]))
  }

  lemma NumberRowsStep(items: seq<Item>, lists: seq<seq<nat>>, j: nat, fieldStart: int)
    requires j < |lists| && ListsIn(lists, |items|)
    ensures ListsIn(lists[..j], |items|) && ListsIn(lists[..j + 1], |items|)
    ensures NumberRows(items, lists[..j + 1], fieldStart) ==
            NumberRow(NumberRows(items, lists[..j], fieldStart), lists[j], fieldStart + FlatLength(lists[..j]))
  {
    assert lists[..j + 1][..j] == lists[..j];
  }

  /** One more row of the walk numbered and collected. */
  lemma NumberRowsAdvance(items: seq<Item>, lists: seq<seq<nat>>, j: nat, f: int, before: seq<Item>, after: seq<Item>,
                          ordered0: seq<nat>, ordered: seq<nat>)
    requires j < |lists| && ListsIn(lists, |items|)
    requires ordered0 == Flatten(lists[..j]) && f == 1 + |ordered0| && ordered == ordered0 + lists[j]
    requires ListsIn(lists[..j], |items|) && before == NumberRows(items, lists[..j], 1)
    requires AllIn(lists[j], |before|) && after == NumberRow(before, lists[j], f)
    ensures ListsIn(lists[..j + 1], |items|)
    ensures after == NumberRows(items, lists[..j + 1], 1) && ordered == Flatten(lists[..j + 1])
  {
    NumberRowsStep(items, lists, j, 1);
    FlattenStep(lists, j);
    FlatLengthIs(lists[..j]);
  }

  /** Assigning a numbering attribute leaves every `row` property as it was. */
  lemma RowNumbersNumbered(items: seq<Item>, i: nat, f: int, w: int)
    requires i < |items|
    ensures RowNumbers(Numbered(items, i, f, w)) == RowNumbers(items)
  {
    var a1 := Assigned(items, i, NumberWithinFieldAttr(f));
    var a2 := Assigned(a1, i, NumberWithinRowAttr(w));
    forall k | 0 <= k < |items| ensures RowOf(a2[k]) == RowOf(items[k]) {
      AssignedFrame(items, i, NumberWithinFieldAttr(f), k);
      AssignedFrame(a1, i, NumberWithinRowAttr(w), k);
    }
  }

  /** One iteration of the numbering loop: `item.number_within_field = f` and `item.number_within_row = w`. */
  method NumberItem(reg: Registry, item: nat, f: int, w: int)
    requires reg.Valid() && item < |reg.items|
    modifies reg
    ensures reg.Valid() && reg.items == Numbered(old(reg.items), item, f, w)
    ensures reg.segments == old(reg.segments) && reg.groups == old(reg.groups) && reg.rows == old(reg.rows)
  {
    ghost var before := reg.items;
    reg.Set(item, NumberWithinFieldAttr(f));
    ghost var mid := reg.items;
    reg.Set(item, NumberWithinRowAttr(w));
    NumberedIs(before, item, f, w, mid, reg.items);
  }

  /**
   * The numbering loop of one row (`for item_num_in_row, item in enumerate(row_items)`): each
   * item gets the running field number and its 1-based place in the row, and joins `ordered_items`.
   */
  method NumberRowItems(reg: Registry, rowItems: seq<nat>, orderedItems0: seq<nat>, fieldNum0: int)
    returns (orderedItems: seq<nat>, fieldNum: int)
    requires reg.Valid() && AllIn(rowItems, |reg.items|)
    modifies reg
    ensures reg.Valid()
    ensures reg.segments == old(reg.segments) && reg.groups == old(reg.groups) && reg.rows == old(reg.rows)
    ensures reg.items == NumberRow(old(reg.items), rowItems, fieldNum0)
    ensures RowNumbers(reg.items) == RowNumbers(old(reg.items))
    ensures orderedItems == orderedItems0 + rowItems && fieldNum == fieldNum0 + |rowItems|
  {
    orderedItems, fieldNum := orderedItems0, fieldNum0;
    var itemNumInRow := 0;
    while itemNumInRow < |rowItems|
      invariant reg.Valid() && itemNumInRow <= |rowItems| && |reg.items| == |old(reg.items)|
      invariant reg.segments == old(reg.segments) && reg.groups == old(reg.groups) && reg.rows == old(reg.rows)
      invariant reg.items == NumberRow(old(reg.items), rowItems[..itemNumInRow], fieldNum0)
      invariant RowNumbers(reg.items) == RowNumbers(old(reg.items))
      invariant orderedItems == orderedItems0 + rowItems[..itemNumInRow]
      invariant fieldNum == fieldNum0 + itemNumInRow
    {
      var item := rowItems[itemNumInRow];
      ghost var before := reg.items;
      NumberItem(reg, item, fieldNum, itemNumInRow + 1);
      RowNumbersNumbered(before, item, fieldNum, itemNumInRow + 1);
      NumberRowAdvance(old(reg.items), rowItems, itemNumInRow, fieldNum0, fieldNum, before, reg.items);
      TakeNext(rowItems, itemNumInRow);
      AppendAssoc(orderedItems0, rowItems[..itemNumInRow], [item]);
      orderedItems := orderedItems + [item];
      fieldNum := fieldNum + 1;
      itemNumInRow := itemNumInRow + 1;
    }
    assert rowItems[..itemNumInRow] == rowItems;
  }

  /** The rows of a valid registry lie in its arenas. */
  lemma RegistryFits(reg: Registry)
    requires reg.Valid()
    ensures RowsFit(reg.items, reg.segments, reg.rows)
    ensures forall r :: 0 <= r < |reg.rows| ==> AllIn(reg.rows[r].groupSegments, |reg.segments|)
    ensures forall s :: 0 <= s < |reg.segments| ==> SegmentFits(reg.segments[s], |reg.items|, |reg.groups|)
  {
    forall r | 0 <= r < |reg.rows| ensures AllIn(reg.rows[r].groupSegments, |reg.segments|) {
      assert RowFits(reg.rows[r], |reg.items|, |reg.segments|);
    }
  }

  /** The turned list of every row holds items of the arena. */
  lemma SerpentineListsIn(items: seq<Item>, segments: seq<Segment>, rowArena: seq<Row>, order: seq<(nat, int)>, numGroups: nat)
    requires OrderFits(segments, rowArena, order)
    requires forall s :: 0 <= s < |segments| ==> SegmentFits(segments[s], |items|, numGroups)
    ensures ListsIn(SerpentineLists(segments, rowArena, order), |items|)
  {
    var lists := SerpentineLists(segments, rowArena, order);
    forall k | 0 <= k < |lists| ensures AllIn(lists[k], |items|) {
      var row := rowArena[order[k].0];
      RowItemListIn(segments, row.groupSegments, |items|, numGroups);
      OrientedIn(RowItemList(segments, row.groupSegments), row.direction, order[k].1, |items|);
    }
  }

  /** One pass of the outer loop of `number_serpentine`: build, turn and number the list of row `r`. */
  method NumberOneRow(reg: Registry, r: nat, ghost items0: seq<Item>, ghost lists: seq<seq<nat>>, ghost j: nat,
                      orderedItems0: seq<nat>, fieldNum0: int)
    returns (orderedItems: seq<nat>, fieldNum: int)
    requires reg.Valid() && r < |reg.rows| && j < |lists| && ListsIn(lists, |items0|)
    requires lists[j] == Oriented(RowItemList(reg.segments, reg.rows[r].groupSegments), reg.rows[r].direction, reg.RowNumber(r))
    requires orderedItems0 == Flatten(lists[..j]) && fieldNum0 == 1 + |orderedItems0|
    requires ListsIn(lists[..j], |items0|) && reg.items == NumberRows(items0, lists[..j], 1)
    modifies reg
    ensures reg.Valid() && reg.segments == old(reg.segments) && reg.groups == old(reg.groups) && reg.rows == old(reg.rows)
    ensures RowNumbers(reg.items) == RowNumbers(old(reg.items))
    ensures orderedItems == Flatten(lists[..j + 1]) && fieldNum == 1 + |orderedItems|
    ensures ListsIn(lists[..j + 1], |items0|) && reg.items == NumberRows(items0, lists[..j + 1], 1)
  {
    var rowItems := RowItems(reg, r);
    if reg.rows[r].direction == Back {
      rowItems := Reversed(rowItems);
    }
    if reg.RowNumber(r) % 2 == 0 {
      rowItems := Reversed(rowItems);
    }
    assert rowItems == lists[j];
    ghost var before := reg.items;
    orderedItems, fieldNum := NumberRowItems(reg, rowItems, orderedItems0, fieldNum0);
    NumberRowsAdvance(items0, lists, j, fieldNum0, before, reg.items, orderedItems0, orderedItems);
  }

  /**
   * `number_serpentine(rows)`: returns every item of the rows in serpentine order and gives
   * each its `number_within_field` (1, 2, ... over the whole walk) and `number_within_row`.
   */
  method NumberSerpentine(reg: Registry, rows: seq<nat>) returns (orderedItems: seq<nat>)
    requires reg.Valid() && AllIn(rows, |reg.rows|)
    modifies reg
    ensures reg.Valid()
    ensures reg.segments == old(reg.segments) && reg.groups == old(reg.groups) && reg.rows == old(reg.rows)
    ensures RowsFit(old(reg.items), reg.segments, reg.rows)
    ensures var order := VisitOrder(old(reg.items), reg.segments, reg.rows, rows);
            OrderFits(reg.segments, reg.rows, order)
            && ListsIn(SerpentineLists(reg.segments, reg.rows, order), |old(reg.items)|)
            && orderedItems == Flatten(SerpentineLists(reg.segments, reg.rows, order))
            && reg.items == NumberRows(old(reg.items), SerpentineLists(reg.segments, reg.rows, order), 1)
  {
    RegistryFits(reg);
    VisitOrderFacts(reg.items, reg.segments, reg.rows, rows);
    var sortedRows := SortBy(Keyed(reg.items, reg.segments, reg.rows, rows), NumberKey);
    SerpentineListsIn(reg.items, reg.segments, reg.rows, sortedRows, |reg.groups|);
    orderedItems := NumberVisits(reg, sortedRows);
  }

  /** The outer loop of `number_serpentine` over the rows `order`, sorted, with their numbers. */
  method NumberVisits(reg: Registry, order: seq<(nat, int)>) returns (orderedItems: seq<nat>)
    requires reg.Valid() && RowsFit(reg.items, reg.segments, reg.rows) && OrderFits(reg.segments, reg.rows, order)
    requires forall k :: 0 <= k < |order| ==> order[k].1 == RowNumberIn(reg.items, reg.rows, order[k].0)
    requires ListsIn(SerpentineLists(reg.segments, reg.rows, order), |reg.items|)
    modifies reg
    ensures reg.Valid()
    ensures reg.segments == old(reg.segments) && reg.groups == old(reg.groups) && reg.rows == old(reg.rows)
    ensures orderedItems == Flatten(SerpentineLists(reg.segments, reg.rows, order))
    ensures reg.items == NumberRows(old(reg.items), SerpentineLists(reg.segments, reg.rows, order), 1)
  {
    ghost var lists := SerpentineLists(reg.segments, reg.rows, order);
    var currentFieldItemNum := 1;
    orderedItems := [];
    var j := 0;
    while j < |order|
      invariant reg.Valid() && j <= |order| && |reg.items| == |old(reg.items)|
      invariant reg.segments == old(reg.segments) && reg.groups == old(reg.groups) && reg.rows == old(reg.rows)
      invariant RowNumbers(reg.items) == RowNumbers(old(reg.items))
      invariant orderedItems == Flatten(lists[..j]) && currentFieldItemNum == 1 + |orderedItems|
      invariant ListsIn(lists[..j], |old(reg.items)|)
      invariant reg.items == NumberRows(old(reg.items), lists[..j], 1)
    {
      var r := order[j].0;
      assert RowFits(reg.rows[r], |reg.items|, |reg.segments|);
      assert reg.RowNumber(r) == order[j].1 by {
        assert RowNumbers(reg.items)[reg.rows[r].start] == RowNumbers(old(reg.items))[reg.rows[r].start];
      }
      orderedItems, currentFieldItemNum := NumberOneRow(reg, r, old(reg.items), lists, j, orderedItems, currentFieldItemNum);
      j := j + 1;
    }
    assert lists[..j] == lists;
  }

  // ---------------------------------------------------------------------------
  // What the numbers mean

  /** No item of `order` is a reference of an item of `order`. */
  predicate Untangled(items: seq<Item>, order: seq<nat>)
    requires AllIn(order, |items|)
  {
    forall a, b :: 0 <= a < |order| && 0 <= b < |order| ==> order[b] !in items[order[a]].others
  }

  /** Item `j` is neither in `order` nor a reference of an item of it. */
  predicate Untouched(items: seq<Item>, order: seq<nat>, j: nat)
    requires AllIn(order, |items|)
  {
    j !in order && forall a :: 0 <= a < |order| ==> j !in items[order[a]].others
  }

  predicate SameOthers(a: seq<Item>, b: seq<Item>) {
    |a| == |b| && forall j :: 0 <= j < |a| ==> a[j].others == b[j].others
  }

  /** `order[k]` carries field number `fieldStart + k`. */
  predicate FieldNumbered(items: seq<Item>, order: seq<nat>, fieldStart: int) {
    forall k :: 0 <= k < |order| ==> order[k] < |items| && items[order[k]].numberWithinField == fieldStart + k
  }

  /** `row[p]` carries row number `p + 1`. */
  predicate RowNumbered(items: seq<Item>, row: seq<nat>) {
    forall p :: 0 <= p < |row| ==> row[p] < |items| && items[row[p]].numberWithinRow == p + 1
  }

  /** One numbering step: the item reads back both numbers, an item it does not touch is unchanged. */
  lemma NumberedEffect(items: seq<Item>, i: nat, f: int, w: int)
    requires i < |items|
    ensures Numbered(items, i, f, w)[i].numberWithinField == f && Numbered(items, i, f, w)[i].numberWithinRow == w
    ensures forall x :: 0 <= x < |items| && x != i && x !in items[i].others ==> Numbered(items, i, f, w)[x] == items[x]
    ensures SameOthers(Numbered(items, i, f, w), items)
  {
    var a1 := Assigned(items, i, NumberWithinFieldAttr(f));
    var a2 := Assigned(a1, i, NumberWithinRowAttr(w));
    AssignedReadBack(items, i, f, i);
    AssignedReadBack(a1, i, w, i);
    forall x | 0 <= x < |items| ensures a2[x].others == items[x].others {
      AssignedFrame(items, i, NumberWithinFieldAttr(f), x);
      AssignedFrame(a1, i, NumberWithinRowAttr(w), x);
    }
    forall x | 0 <= x < |items| && x != i && x !in items[i].others ensures a2[x] == items[x] {
      AssignedFrame(items, i, NumberWithinFieldAttr(f), x);
      AssignedFrame(a1, i, NumberWithinRowAttr(w), x);
    }
  }

  lemma DistinctPrefix(s: seq<nat>, k: nat)
    requires Distinct(s) && k <= |s|
    ensures Distinct(s[..k])
  {
    assert forall i :: 0 <= i < k ==> s[..k][i] == s[i];
  }

  lemma NumberRowLast(items: seq<Item>, row: seq<nat>, k: nat, fieldStart: int, prev: seq<Item>, r: seq<Item>)
    requires k + 1 == |row| && AllIn(row, |items|)
    requires prev == NumberRow(items, row[..k], fieldStart)
    requires r == Numbered(prev, row[k], fieldStart + k, k + 1)
    ensures NumberRow(items, row, fieldStart) == r
  { }

  /** Items of the arena that the numbering of `row` does not touch read as they did before. */
  predicate Framed(items: seq<Item>, after: seq<Item>, row: seq<nat>)
    requires AllIn(row, |items|)
  {
    |after| == |items| && forall j :: 0 <= j < |items| && Untouched(items, row, j) ==> after[j] == items[j]
  }

  /** The last item of a row whose earlier items are numbered: the whole row is numbered. */
  lemma ExtendNumbered(items: seq<Item>, row: seq<nat>, k: nat, fieldStart: int, prev: seq<Item>)
    requires k + 1 == |row| && AllIn(row, |items|) && Distinct(row) && Untangled(items, row)
    requires SameOthers(prev, items) && FieldNumbered(prev, row[..k], fieldStart) && RowNumbered(prev, row[..k])
    ensures FieldNumbered(Numbered(prev, row[k], fieldStart + k, k + 1), row, fieldStart)
    ensures RowNumbered(Numbered(prev, row[k], fieldStart + k, k + 1), row)
  {
    var r := Numbered(prev, row[k], fieldStart + k, k + 1);
    NumberedEffect(prev, row[k], fieldStart + k, k + 1);
    forall p | 0 <= p < k ensures r[row[p]] == prev[row[p]] {
      assert row[p] != row[k] && row[p] !in items[row[k]].others;
      assert row[..k][p] == row[p];
    }
  }

  /** ... and the items it does not touch are left as they were. */
  lemma ExtendFramed(items: seq<Item>, row: seq<nat>, k: nat, prev: seq<Item>, f: int, w: int)
    requires k + 1 == |row| && AllIn(row, |items|)
    requires SameOthers(prev, items) && Framed(items, prev, row[..k])
    ensures Framed(items, Numbered(prev, row[k], f, w), row) && SameOthers(Numbered(prev, row[k], f, w), items)
  {
    var r := Numbered(prev, row[k], f, w);
    NumberedEffect(prev, row[k], f, w);
    forall j | 0 <= j < |items| && Untouched(items, row, j) ensures r[j] == items[j] {
      assert Untouched(items, row[..k], j) by {
        forall a | 0 <= a < k ensures j !in items[row[..k][a]].others {
          assert row[..k][a] == row[a];
        }
      }
      assert j != row[k] && j !in items[row[k]].others;
    }
  }

  /** One more item of a row numbered. */
  lemma ExtendAll(items: seq<Item>, row: seq<nat>, k: nat, fieldStart: int, prev: seq<Item>, r: seq<Item>)
    requires k + 1 == |row| && AllIn(row, |items|) && Distinct(row) && Untangled(items, row)
    requires SameOthers(prev, items) && FieldNumbered(prev, row[..k], fieldStart) && RowNumbered(prev, row[..k])
    requires Framed(items, prev, row[..k])
    requires r == Numbered(prev, row[k], fieldStart + k, k + 1)
    ensures FieldNumbered(r, row, fieldStart) && RowNumbered(r, row) && Framed(items, r, row) && SameOthers(r, items)
  {
    ExtendNumbered(items, row, k, fieldStart, prev);
    ExtendFramed(items, row, k, prev, fieldStart + k, k + 1);
  }

  lemma {:induction false} NumberRowEffect(items: seq<Item>, row: seq<nat>, fieldStart: int)
    requires AllIn(row, |items|) && Distinct(row) && Untangled(items, row)
    ensures FieldNumbered(NumberRow(items, row, fieldStart), row, fieldStart)
    ensures RowNumbered(NumberRow(items, row, fieldStart), row)
    ensures Framed(items, NumberRow(items, row, fieldStart), row)
    ensures SameOthers(NumberRow(items, row, fieldStart), items)
    decreases |row|
  {
    if row != [] {
      var k := |row| - 1;
      var pre := row[..k];
      DistinctPrefix(row, k);
      assert Untangled(items, pre) by {
        assert forall a :: 0 <= a < k ==> pre[a] == row[a];
      }
      NumberRowEffect(items, pre, fieldStart);
      var prev := NumberRow(items, pre, fieldStart);
      var r := Numbered(prev, row[k], fieldStart + k, k + 1);
      ExtendAll(items, row, k, fieldStart, prev, r);
      NumberRowLast(items, row, k, fieldStart, prev, r);
    }
  }

  // ---------------------------------------------------------------------------
  // The whole walk

  /** `lists[t][q]` carries row number `q + 1`. */
  predicate RowsNumbered(items: seq<Item>, lists: seq<seq<nat>>) {
    forall t, q :: 0 <= t < |lists| && 0 <= q < |lists[t]| ==> lists[t][q] < |items| && items[lists[t][q]].numberWithinRow == q + 1
  }

  lemma FlattenLast(lists: seq<seq<nat>>, n: nat)
    requires n + 1 == |lists|
    ensures Flatten(lists) == Flatten(lists[..n]) + lists[n]
  { }

  lemma {:induction false} FlattenIn(lists: seq<seq<nat>>, n: nat)
    requires ListsIn(lists, n)
    ensures AllIn(Flatten(lists), n)
    decreases |lists|
  {
    if lists != [] {
      var m := |lists| - 1;
      assert ListsIn(lists[..m], n) by {
        assert forall k :: 0 <= k < m ==> lists[..m][k] == lists[k];
      }
      FlattenIn(lists[..m], n);
      assert AllIn(lists[m], n);
    }
  }

  /** A walk without repeats that references none of itself, cut after a prefix `pre`. */
  lemma WalkSplit(items: seq<Item>, pre: seq<nat>, row: seq<nat>)
    requires AllIn(pre + row, |items|) && Distinct(pre + row) && Untangled(items, pre + row)
    ensures AllIn(pre, |items|) && AllIn(row, |items|)
    ensures Distinct(pre) && Distinct(row) && Untangled(items, pre) && Untangled(items, row)
    ensures forall x :: x in pre ==> Untouched(items, row, x)
  {
    var w := pre + row;
    assert forall k :: 0 <= k < |pre| ==> w[k] == pre[k];
    assert forall k :: 0 <= k < |row| ==> w[|pre| + k] == row[k];
    forall x | x in pre ensures Untouched(items, row, x) {
      var k :| 0 <= k < |pre| && pre[k] == x;
      forall a | 0 <= a < |row| ensures x != row[a] && x !in items[row[a]].others {
        assert w[k] == x && w[|pre| + a] == row[a];
      }
    }
  }

  /** What an item references decides which items a row touches. */
  lemma UntouchedOthers(items: seq<Item>, prev: seq<Item>, row: seq<nat>, j: nat)
    requires SameOthers(prev, items) && AllIn(row, |items|)
    ensures Untouched(items, row, j) == Untouched(prev, row, j)
  {
    assert forall a :: 0 <= a < |row| ==> prev[row[a]].others == items[row[a]].others;
  }

  lemma UntangledOthers(items: seq<Item>, prev: seq<Item>, row: seq<nat>)
    requires SameOthers(prev, items) && AllIn(row, |items|) && Untangled(items, row)
    ensures Untangled(prev, row)
  {
    assert forall a :: 0 <= a < |row| ==> prev[row[a]].others == items[row[a]].others;
  }

  lemma UntouchedWalk(items: seq<Item>, pre: seq<nat>, row: seq<nat>, j: nat)
    requires AllIn(pre + row, |items|) && Untouched(items, pre + row, j)
    ensures AllIn(pre, |items|) && AllIn(row, |items|)
    ensures Untouched(items, pre, j) && Untouched(items, row, j)
  {
    var w := pre + row;
    assert forall k :: 0 <= k < |pre| ==> w[k] == pre[k];
    assert forall k :: 0 <= k < |row| ==> w[|pre| + k] == row[k];
  }

  /** The field numbers of the earlier rows survive the numbering of the next row. */
  lemma FieldNumbersKept(prev: seq<Item>, r: seq<Item>, pre: seq<nat>, row: seq<nat>, fieldStart: int)
    requires AllIn(row, |prev|) && Framed(prev, r, row)
    requires FieldNumbered(prev, pre, fieldStart) && FieldNumbered(r, row, fieldStart + |pre|)
    requires forall x :: x in pre ==> Untouched(prev, row, x)
    ensures FieldNumbered(r, pre + row, fieldStart)
  {
    var w := pre + row;
    forall k | 0 <= k < |w| ensures w[k] < |r| && r[w[k]].numberWithinField == fieldStart + k {
      if k < |pre| {
        assert w[k] == pre[k] && pre[k] in pre;
      } else {
        assert w[k] == row[k - |pre|];
      }
    }
  }

  /** The row numbers of the earlier rows survive the numbering of the next row. */
  lemma RowNumbersKept(prev: seq<Item>, r: seq<Item>, lists: seq<seq<nat>>, n: nat)
    requires n + 1 == |lists| && AllIn(lists[n], |prev|) && Framed(prev, r, lists[n])
    requires RowsNumbered(prev, lists[..n]) && RowNumbered(r, lists[n])
    requires forall x :: x in Flatten(lists[..n]) ==> Untouched(prev, lists[n], x)
    ensures RowsNumbered(r, lists)
  {
    forall t, q | 0 <= t < |lists| && 0 <= q < |lists[t]|
      ensures lists[t][q] < |r| && r[lists[t][q]].numberWithinRow == q + 1
    {
      if t < n {
        assert lists[..n][t] == lists[t];
        FlattenMember(lists[..n], t, q);
      }
    }
  }

  /** The items the walk does not touch survive the numbering of the next row. */
  lemma FramedKept(items: seq<Item>, prev: seq<Item>, r: seq<Item>, pre: seq<nat>, row: seq<nat>)
    requires AllIn(pre + row, |items|) && AllIn(pre, |items|) && AllIn(row, |items|)
    requires SameOthers(prev, items) && Framed(items, prev, pre) && Framed(prev, r, row)
    ensures Framed(items, r, pre + row)
  {
    forall j | 0 <= j < |items| && Untouched(items, pre + row, j) ensures r[j] == items[j] {
      UntouchedWalk(items, pre, row, j);
      UntouchedOthers(items, prev, row, j);
    }
  }

  /** One more row of the walk numbered: the facts about the earlier rows extend to it. */
  lemma ExtendRows(items: seq<Item>, lists: seq<seq<nat>>, n: nat, fieldStart: int, prev: seq<Item>, r: seq<Item>)
    requires n + 1 == |lists| && ListsIn(lists, |items|) && AllIn(Flatten(lists), |items|)
    requires Distinct(Flatten(lists)) && Untangled(items, Flatten(lists))
    requires SameOthers(prev, items) && FieldNumbered(prev, Flatten(lists[..n]), fieldStart)
    requires RowsNumbered(prev, lists[..n]) && AllIn(Flatten(lists[..n]), |items|) && Framed(items, prev, Flatten(lists[..n]))
    requires AllIn(lists[n], |prev|) && r == NumberRow(prev, lists[n], fieldStart + FlatLength(lists[..n]))
    ensures FieldNumbered(r, Flatten(lists), fieldStart) && RowsNumbered(r, lists)
    ensures Framed(items, r, Flatten(lists)) && SameOthers(r, items)
  {
    var pre, row := Flatten(lists[..n]), lists[n];
    FlattenLast(lists, n);
    FlatLengthIs(lists[..n]);
    WalkSplit(items, pre, row);
    UntangledOthers(items, prev, row);
    forall x | x in pre ensures Untouched(prev, row, x) {
      UntouchedOthers(items, prev, row, x);
    }
    NumberRowEffect(prev, row, fieldStart + |pre|);
    FieldNumbersKept(prev, r, pre, row, fieldStart);
    RowNumbersKept(prev, r, lists, n);
    FramedKept(items, prev, r, pre, row);
  }

  lemma NumberRowsLast(items: seq<Item>, lists: seq<seq<nat>>, n: nat, fieldStart: int, prev: seq<Item>, r: seq<Item>)
    requires n + 1 == |lists| && ListsIn(lists, |items|) && ListsIn(lists[..n], |items|)
    requires prev == NumberRows(items, lists[..n], fieldStart)
    requires r == NumberRow(prev, lists[n], fieldStart + FlatLength(lists[..n]))
    ensures NumberRows(items, lists, fieldStart) == r
  { }

  /** The earlier rows of a walk without repeats that references none of itself are such a walk too. */
  lemma RowsPrefix(items: seq<Item>, lists: seq<seq<nat>>, n: nat)
    requires n + 1 == |lists| && ListsIn(lists, |items|) && AllIn(Flatten(lists), |items|)
    requires Distinct(Flatten(lists)) && Untangled(items, Flatten(lists))
    ensures ListsIn(lists[..n], |items|) && AllIn(Flatten(lists[..n]), |items|)
    ensures Distinct(Flatten(lists[..n])) && Untangled(items, Flatten(lists[..n]))
  {
    assert forall k :: 0 <= k < n ==> lists[..n][k] == lists[k];
    FlattenLast(lists, n);
    WalkSplit(items, Flatten(lists[..n]), lists[n]);
  }

  /** The step of the induction over the rows, on the arena `prev` the earlier rows leave. */
  lemma RowsStep(items: seq<Item>, lists: seq<seq<nat>>, n: nat, fieldStart: int, prev: seq<Item>, r: seq<Item>)
    requires n + 1 == |lists| && ListsIn(lists, |items|) && AllIn(Flatten(lists), |items|)
    requires Distinct(Flatten(lists)) && Untangled(items, Flatten(lists))
    requires ListsIn(lists[..n], |items|) && AllIn(Flatten(lists[..n]), |items|)
    requires prev == NumberRows(items, lists[..n], fieldStart)
    requires SameOthers(prev, items) && FieldNumbered(prev, Flatten(lists[..n]), fieldStart)
    requires RowsNumbered(prev, lists[..n]) && Framed(items, prev, Flatten(lists[..n]))
    requires AllIn(lists[n], |prev|) && r == NumberRow(prev, lists[n], fieldStart + FlatLength(lists[..n]))
    ensures FieldNumbered(NumberRows(items, lists, fieldStart), Flatten(lists), fieldStart)
    ensures RowsNumbered(NumberRows(items, lists, fieldStart), lists)
    ensures Framed(items, NumberRows(items, lists, fieldStart), Flatten(lists))
    ensures SameOthers(NumberRows(items, lists, fieldStart), items)
  {
    ExtendRows(items, lists, n, fieldStart, prev, r);
    NumberRowsLast(items, lists, n, fieldStart, prev, r);
  }

  /**
   * Numbering a walk whose items are distinct and reference none of each other: the `k`-th
   * item of the walk reads back field number `fieldStart + k`, the `q`-th item of each row
   * reads back row number `q + 1`, and the items the walk does not touch are left as they were.
   */
  lemma {:induction false} NumberRowsEffect(items: seq<Item>, lists: seq<seq<nat>>, fieldStart: int)
    requires ListsIn(lists, |items|) && AllIn(Flatten(lists), |items|)
    requires Distinct(Flatten(lists)) && Untangled(items, Flatten(lists))
    ensures FieldNumbered(NumberRows(items, lists, fieldStart), Flatten(lists), fieldStart)
    ensures RowsNumbered(NumberRows(items, lists, fieldStart), lists)
    ensures Framed(items, NumberRows(items, lists, fieldStart), Flatten(lists))
    ensures SameOthers(NumberRows(items, lists, fieldStart), items)
    decreases |lists|
  {
    if lists != [] {
      var n := |lists| - 1;
      RowsPrefix(items, lists, n);
      NumberRowsEffect(items, lists[..n], fieldStart);
      var prev := NumberRows(items, lists[..n], fieldStart);
      RowsStep(items, lists, n, fieldStart, prev, NumberRow(prev, lists[n], fieldStart + FlatLength(lists[..n])));
    }
  }
}
