/**
 * Field topology, last part: segments are classified by the kinds of their two codes, end
 * segments are joined to the first segment of the neighbouring row of the next pass, every
 * remaining single segment becomes a group of its own, and the code listing is applied to
 * the groups.
 */
module GroupingGroups {
  import opened Wrappers
  import opened Lists
  import opened FieldItems
  import opened FieldGrouping
  import opened RowGrouping

  // ---------------------------------------------------------------------------
  // organize_group_segments

  /** The four buckets of `organize_group_segments`. */
  datatype SegmentClass = StartSegment | MiddleSegment | EndSegment | SingleSegment

  /** The bucket of a segment from the `type.lower() == 'rowcode'` tests on its two codes. */
  function ClassOf(startKind: Kind, endKind: Kind): (r: SegmentClass)
    ensures r == MiddleSegment <==> startKind.RowCode? && endKind.RowCode?
    ensures r == StartSegment <==> startKind.RowCode? && !endKind.RowCode?
    ensures r == EndSegment <==> !startKind.RowCode? && endKind.RowCode?
    ensures r == SingleSegment <==> !startKind.RowCode? && !endKind.RowCode?
  {
    NameTestKinds(startKind);
    NameTestKinds(endKind);
    var startsWithRowCode := IsRowCode(startKind);
    var endsWithRowCode := IsRowCode(endKind);
    if startsWithRowCode && endsWithRowCode then MiddleSegment
    else if startsWithRowCode then StartSegment
    else if endsWithRowCode then EndSegment
    else SingleSegment
  }

  /** Every segment's two codes are in an arena of `n` items. */
  predicate SegmentsIn(segments: seq<Segment>, n: nat) {
    forall s :: 0 <= s < |segments| ==> segments[s].start < n && segments[s].end < n
  }

  /** Segment `s` exists and falls in bucket `c`. */
  predicate InClass(items: seq<Item>, segments: seq<Segment>, c: SegmentClass, s: nat) {
    s < |segments| && segments[s].start < |items| && segments[s].end < |items|
    && ClassOf(items[segments[s].start].kind, items[segments[s].end].kind) == c
  }

  /** The segments of `segs` in bucket `c`, in their order in `segs`. */
  function Bucket(items: seq<Item>, segments: seq<Segment>, segs: seq<nat>, c: SegmentClass): seq<nat>
    decreases |segs|
  {
    if segs == [] then []
    else
      var s := segs[|segs| - 1];
      Bucket(items, segments, segs[..|segs| - 1], c) + if InClass(items, segments, c, s) then [s] else []
  }

  /** One more segment joins the end of its own bucket and no other. */
  lemma BucketStep(items: seq<Item>, segments: seq<Segment>, segs: seq<nat>, s: nat, c: SegmentClass)
    ensures Bucket(items, segments, segs + [s], c)
            == Bucket(items, segments, segs, c) + if InClass(items, segments, c, s) then [s] else []
  {
    assert (segs + [s])[..|segs|] == segs;
  }

  /** A bucket holds exactly the segments of `segs` in its class. */
  lemma {:induction false} BucketMembers(items: seq<Item>, segments: seq<Segment>, segs: seq<nat>, c: SegmentClass)
    ensures forall s :: s in Bucket(items, segments, segs, c) <==> s in segs && InClass(items, segments, c, s)
    decreases |segs|
  {
    if segs != [] {
      var init := segs[..|segs| - 1];
      assert segs == init + [segs[|segs| - 1]];
      BucketMembers(items, segments, init, c);
    }
  }

  /** A segment of the arena falls in exactly one of the four classes. */
  lemma OneClass(items: seq<Item>, segments: seq<Segment>, s: nat)
    requires SegmentsIn(segments, |items|) && s < |segments|
    ensures multiset(if InClass(items, segments, StartSegment, s) then [s] else [])
            + multiset(if InClass(items, segments, MiddleSegment, s) then [s] else [])
            + multiset(if InClass(items, segments, EndSegment, s) then [s] else [])
            + multiset(if InClass(items, segments, SingleSegment, s) then [s] else [])
            == multiset{s}
  {
    assert segments[s].start < |items| && segments[s].end < |items|;
  }

  /** Four sums regrouped: the multiset union is associative and commutative. */
  lemma RegroupFour(m1: multiset<nat>, m2: multiset<nat>, m3: multiset<nat>, m4: multiset<nat>,
                    x1: multiset<nat>, x2: multiset<nat>, x3: multiset<nat>, x4: multiset<nat>)
    ensures (m1 + x1) + (m2 + x2) + (m3 + x3) + (m4 + x4) == (m1 + m2 + m3 + m4) + (x1 + x2 + x3 + x4)
  {
  }

  /**
   * The four buckets partition the segments: together they hold each segment of `segs` as
   * often as `segs` does, and so no segment is in two buckets.
   */
  lemma {:induction false} BucketsPartition(items: seq<Item>, segments: seq<Segment>, segs: seq<nat>)
    requires SegmentsIn(segments, |items|) && AllIn(segs, |segments|)
    ensures multiset(Bucket(items, segments, segs, StartSegment)) + multiset(Bucket(items, segments, segs, MiddleSegment))
            + multiset(Bucket(items, segments, segs, EndSegment)) + multiset(Bucket(items, segments, segs, SingleSegment))
            == multiset(segs)
    decreases |segs|
  {
    if segs != [] {
      var init, s := segs[..|segs| - 1], segs[|segs| - 1];
      assert segs == init + [s];
      assert multiset(segs) == multiset(init) + multiset{s};
      BucketsPartition(items, segments, init);
      BucketStep(items, segments, init, s, StartSegment);
      BucketStep(items, segments, init, s, MiddleSegment);
      BucketStep(items, segments, init, s, EndSegment);
      BucketStep(items, segments, init, s, SingleSegment);
      OneClass(items, segments, s);
      var b1, b2 := Bucket(items, segments, init, StartSegment), Bucket(items, segments, init, MiddleSegment);
      var b3, b4 := Bucket(items, segments, init, EndSegment), Bucket(items, segments, init, SingleSegment);
      var x1 := if InClass(items, segments, StartSegment, s) then [s] else [];
      var x2 := if InClass(items, segments, MiddleSegment, s) then [s] else [];
      var x3 := if InClass(items, segments, EndSegment, s) then [s] else [];
      var x4 := if InClass(items, segments, SingleSegment, s) then [s] else [];
      assert multiset(b1 + x1) == multiset(b1) + multiset(x1);
      assert multiset(b2 + x2) == multiset(b2) + multiset(x2);
      assert multiset(b3 + x3) == multiset(b3) + multiset(x3);
      assert multiset(b4 + x4) == multiset(b4) + multiset(x4);
      RegroupFour(multiset(b1), multiset(b2), multiset(b3), multiset(b4),
                  multiset(x1), multiset(x2), multiset(x3), multiset(x4));
    }
  }

  /** A bucket keeps the order of `segs`: it is a subsequence of it. */
  lemma {:induction false} BucketOrdered(items: seq<Item>, segments: seq<Segment>, segs: seq<nat>, c: SegmentClass)
    ensures IsSubsequence(Bucket(items, segments, segs, c), segs)
    decreases |segs|
  {
    if segs == [] {
    } else {
      var init, s := segs[..|segs| - 1], segs[|segs| - 1];
      assert segs == init + [s];
      var b := Bucket(items, segments, init, c);
      BucketOrdered(items, segments, init, c);
      BucketStep(items, segments, init, s, c);
      var keep := InClass(items, segments, c, s);
      SubsequenceAppend(b, init, s, keep);
      assert Bucket(items, segments, segs, c) == if keep then b + [s] else b;
    }
  }

  /**
   * `organize_group_segments(group_segments)`: the start, middle, end and single segments,
   * each in input order.
   */
  method OrganizeGroupSegments(reg: Registry, segs: seq<nat>)
    returns (start: seq<nat>, middle: seq<nat>, end: seq<nat>, single: seq<nat>)
    requires reg.Valid() && AllIn(segs, |reg.segments|)
    ensures start == Bucket(reg.items, reg.segments, segs, StartSegment)
    ensures middle == Bucket(reg.items, reg.segments, segs, MiddleSegment)
    ensures end == Bucket(reg.items, reg.segments, segs, EndSegment)
    ensures single == Bucket(reg.items, reg.segments, segs, SingleSegment)
  {
    var items, segments := reg.items, reg.segments;
    ValidArena(reg);
    start, middle, end, single := [], [], [], [];
    var i := 0;
    while i < |segs|
      invariant 0 <= i <= |segs|
      invariant start == Bucket(items, segments, segs[..i], StartSegment)
      invariant middle == Bucket(items, segments, segs[..i], MiddleSegment)
      invariant end == Bucket(items, segments, segs[..i], EndSegment)
      invariant single == Bucket(items, segments, segs[..i], SingleSegment)
    {
      var s := segs[i];
      OrganizeStep(items, segments, segs, i);
      var startsWithRowCode := IsRowCode(items[segments[s].start].kind);
      var endsWithRowCode := IsRowCode(items[segments[s].end].kind);
      if startsWithRowCode && endsWithRowCode {
        middle := middle + [s];
      } else if startsWithRowCode {
        start := start + [s];
      } else if endsWithRowCode {
        end := end + [s];
      } else {
        single := single + [s];
      }
      i := i + 1;
    }
    assert segs[..i] == segs;
  }

  /** One more segment of `segs` joins the bucket its two `'rowcode'` tests choose. */
  lemma OrganizeStep(items: seq<Item>, segments: seq<Segment>, segs: seq<nat>, i: nat)
    requires SegmentsIn(segments, |items|) && AllIn(segs, |segments|) && i < |segs|
    ensures segments[segs[i]].start < |items| && segments[segs[i]].end < |items|
    ensures var s := segs[i];
            var b := IsRowCode(items[segments[s].start].kind);
            var e := IsRowCode(items[segments[s].end].kind);
            && Bucket(items, segments, segs[..i + 1], MiddleSegment)
               == Bucket(items, segments, segs[..i], MiddleSegment) + (if b && e then [s] else [])
            && Bucket(items, segments, segs[..i + 1], StartSegment)
               == Bucket(items, segments, segs[..i], StartSegment) + (if b && !e then [s] else [])
            && Bucket(items, segments, segs[..i + 1], EndSegment)
               == Bucket(items, segments, segs[..i], EndSegment) + (if !b && e then [s] else [])
            && Bucket(items, segments, segs[..i + 1], SingleSegment)
               == Bucket(items, segments, segs[..i], SingleSegment) + (if !b && !e then [s] else [])
  {
    var s := segs[i];
    assert segs[..i + 1] == segs[..i] + [s];
    NameTestKinds(items[segments[s].start].kind);
    NameTestKinds(items[segments[s].end].kind);
    BucketStep(items, segments, segs[..i], s, StartSegment);
    BucketStep(items, segments, segs[..i], s, MiddleSegment);
    BucketStep(items, segments, segs[..i], s, EndSegment);
    BucketStep(items, segments, segs[..i], s, SingleSegment);
  }

  // ---------------------------------------------------------------------------
  // complete_groups

  /** Every pass lists rows of an arena of `n` rows. */
  predicate PassesIn(passes: seq<seq<nat>>, n: nat) {
    forall j :: 0 <= j < |passes| ==> AllIn(passes[j], n)
  }

  /** Every row's segments are in an arena of `m` segments. */
  predicate RowSegmentsIn(rows: seq<Row>, m: nat) {
    forall t :: 0 <= t < |rows| ==> AllIn(rows[t].groupSegments, m)
  }

  /** The codes, segments and rows of a valid registry refer into its arena. */
  lemma ValidArena(reg: Registry)
    requires reg.Valid()
    ensures EndsIn(reg.rows, |reg.items|) && SegmentsIn(reg.segments, |reg.items|)
    ensures RowSegmentsIn(reg.rows, |reg.segments|)
  {
    forall t | 0 <= t < |reg.rows|
      ensures reg.rows[t].start < |reg.items| && reg.rows[t].end < |reg.items|
      ensures AllIn(reg.rows[t].groupSegments, |reg.segments|)
    {
      assert RowFits(reg.rows[t], |reg.items|, |reg.segments|);
    }
    forall s | 0 <= s < |reg.segments|
      ensures reg.segments[s].start < |reg.items| && reg.segments[s].end < |reg.items|
    {
      assert SegmentFits(reg.segments[s], |reg.items|, |reg.groups|);
    }
  }

  /** The `row` property of every item of the arena: all that `complete_groups` reads of the items. */
  function RowNumbers(items: seq<Item>): (r: seq<int>)
    ensures |r| == |items| && forall k :: 0 <= k < |items| ==> r[k] == RowOf(items[k])
  {
    seq(|items|, k requires 0 <= k < |items| => RowOf(items[k]))
  }

  /** Setting `group` on a code (and its references) leaves every `row` property as it was. */
  lemma RowNumbersAssigned(items: seq<Item>, i: nat, g: Option<nat>)
    requires i < |items|
    ensures RowNumbers(Assigned(items, i, GroupAttr(g))) == RowNumbers(items)
  {
    var after := Assigned(items, i, GroupAttr(g));
    forall k | 0 <= k < |items| ensures RowOf(after[k]) == RowOf(items[k]) {
      AssignedFrame(items, i, GroupAttr(g), k);
    }
  }

  /** `[row.number for row in fpass]`, with `rowOf` the row numbers of the items. */
  function PassNumbers(rowOf: seq<int>, rows: seq<Row>, pass: seq<nat>): (r: seq<int>)
    requires EndsIn(rows, |rowOf|) && AllIn(pass, |rows|)
    ensures |r| == |pass|
    ensures forall k :: 0 <= k < |pass| ==> r[k] == rowOf[rows[pass[k]].start]
    decreases |pass|
  {
    if pass == [] then []
    else PassNumbers(rowOf, rows, pass[..|pass| - 1]) + [rowOf[rows[pass[|pass| - 1]].start]]
  }

  /**
   * The index of the first pass holding a row numbered `n`, or -1 when there is none: the
   * pass `[fpass for fpass in field_passes if ...][0]` comes from.
   */
  function FirstPassWith(rowOf: seq<int>, rows: seq<Row>, passes: seq<seq<nat>>, n: int): (r: int)
    requires EndsIn(rows, |rowOf|) && PassesIn(passes, |rows|)
    ensures -1 <= r < |passes|
    ensures r >= 0 ==> n in PassNumbers(rowOf, rows, passes[r])
    ensures forall j :: 0 <= j < |passes| && (r < 0 || j < r) ==> n !in PassNumbers(rowOf, rows, passes[j])
    decreases |passes|
  {
    if passes == [] then -1
    else if n in PassNumbers(rowOf, rows, passes[0]) then 0
    else
      var r := FirstPassWith(rowOf, rows, passes[1..], n);
      assert forall j :: 1 <= j < |passes| ==> passes[1..][j - 1] == passes[j];
      if r < 0 then -1 else r + 1
  }

  /** `field_passes.index(field_pass)` finds the first pass holding the row again. */
  lemma FirstPassIndex(rowOf: seq<int>, rows: seq<Row>, passes: seq<seq<nat>>, n: int)
    requires EndsIn(rows, |rowOf|) && PassesIn(passes, |rows|)
    requires FirstPassWith(rowOf, rows, passes, n) >= 0
    ensures var j := FirstPassWith(rowOf, rows, passes, n); IndexOf(passes, passes[j]) == j
  {
    var j := FirstPassWith(rowOf, rows, passes, n);
    forall m | 0 <= m < j ensures passes[m] != passes[j] {
      assert n !in PassNumbers(rowOf, rows, passes[m]);
    }
    IndexOfFirst(passes, j);
  }

  /** What `complete_groups` does with one end segment. */
  datatype Pairing =
    | NotInPass                                      // its row is in no pass: skipped
    | LastPass                                       // its pass is the last one: made single
    | ShortNextPass                                  // the next pass has fewer than two rows: skipped
    | SameDirection                                  // the two rows run the same way: made single
    | NoSegments                                     // the next row has no segments: made single
    | Matched(row: nat, nextRow: nat, partner: nat)  // grouped with `partner`, the next row's first segment

  /** The decision `complete_groups` takes for an end segment on row number `n`. */
  function PairEnd(rowOf: seq<int>, rows: seq<Row>, passes: seq<seq<nat>>, n: int): (r: Pairing)
    requires EndsIn(rows, |rowOf|) && PassesIn(passes, |rows|)
    ensures r.Matched? ==> r.nextRow < |rows| && r.partner in rows[r.nextRow].groupSegments
  {
    var j := FirstPassWith(rowOf, rows, passes, n);
    if j < 0 then NotInPass
    else
      var fieldPass := passes[j];
      var fieldPassIndex := IndexOf(passes, fieldPass);
      if fieldPassIndex >= |passes| - 1 then LastPass
      else
        var nextPass := passes[fieldPassIndex + 1];
        if |nextPass| < 2 then ShortNextPass
        else PairRows(rows, fieldPass, nextPass, IndexOf(PassNumbers(rowOf, rows, fieldPass), n))
  }

  /**
   * The decision between the row at `passIndex` of its pass and the other row of the next
   * pass (`next_pass_index` is 1 for the row at index 0, the outside one, and 0 otherwise).
   */
  function PairRows(rows: seq<Row>, fieldPass: seq<nat>, nextPass: seq<nat>, passIndex: int): (r: Pairing)
    requires AllIn(fieldPass, |rows|) && AllIn(nextPass, |rows|) && 0 <= passIndex < |fieldPass| && |nextPass| >= 2
    ensures r.SameDirection? || r.NoSegments? || r.Matched?
    ensures r.Matched? ==> r.row in fieldPass && r.nextRow in nextPass
    ensures r.Matched? ==> r.nextRow < |rows| && r.partner in rows[r.nextRow].groupSegments
  {
    var nextPassIndex := if passIndex == 0 then 1 else 0;
    var thisRow := fieldPass[passIndex];
    var nextRow := nextPass[nextPassIndex];
    if rows[thisRow].direction == rows[nextRow].direction then SameDirection
    else if rows[nextRow].groupSegments == [] then NoSegments
    else Matched(thisRow, nextRow, rows[nextRow].groupSegments[0])
  }

  /**
   * Where the decision comes from, in terms of the first pass holding row number `n`:
   * skipped when there is none or when the next pass is short, made single in the last pass.
   */
  lemma PairEndPasses(rowOf: seq<int>, rows: seq<Row>, passes: seq<seq<nat>>, n: int)
    requires EndsIn(rows, |rowOf|) && PassesIn(passes, |rows|)
    ensures PairEnd(rowOf, rows, passes, n) == NotInPass <==> FirstPassWith(rowOf, rows, passes, n) < 0
    ensures PairEnd(rowOf, rows, passes, n) == LastPass <==> 0 <= FirstPassWith(rowOf, rows, passes, n) == |passes| - 1
    ensures PairEnd(rowOf, rows, passes, n) == ShortNextPass
            <==> 0 <= FirstPassWith(rowOf, rows, passes, n) < |passes| - 1
                 && |passes[FirstPassWith(rowOf, rows, passes, n) + 1]| < 2
  {
    var j := FirstPassWith(rowOf, rows, passes, n);
    if j >= 0 {
      FirstPassIndex(rowOf, rows, passes, n);
      assert IndexOf(passes, passes[j]) == j;
    }
  }

  /**
   * A match joins the row of the first pass `j` holding row number `n` to a row of pass
   * `j + 1` running the other way, through that row's first segment.
   */
  lemma PairEndMatched(rowOf: seq<int>, rows: seq<Row>, passes: seq<seq<nat>>, n: int)
    requires EndsIn(rows, |rowOf|) && PassesIn(passes, |rows|)
    requires PairEnd(rowOf, rows, passes, n).Matched?
    ensures var j := FirstPassWith(rowOf, rows, passes, n);
            var r := PairEnd(rowOf, rows, passes, n);
            && 0 <= j < |passes| - 1 && r.row in passes[j] && r.nextRow in passes[j + 1]
            && rowOf[rows[r.row].start] == n
            && rows[r.row].direction != rows[r.nextRow].direction
            && rows[r.nextRow].groupSegments != [] && r.partner == rows[r.nextRow].groupSegments[0]
  {
    var j := FirstPassWith(rowOf, rows, passes, n);
    FirstPassIndex(rowOf, rows, passes, n);
    var numbers := PassNumbers(rowOf, rows, passes[j]);
    var passIndex := IndexOf(numbers, n);
    assert numbers[passIndex] == n;
    assert PairEnd(rowOf, rows, passes, n) == PairRows(rows, passes[j], passes[j + 1], passIndex);
  }

  /** Every matched decision names a segment of an arena of `m` segments. */
  predicate PartnersIn(ps: seq<Pairing>, m: nat) {
    forall k :: 0 <= k < |ps| && ps[k].Matched? ==> ps[k].partner < m
  }

  /** The decision for each end segment of `es` (the row numbers never change along the loop). */
  function Decisions(rowOf: seq<int>, segments: seq<Segment>, rows: seq<Row>, passes: seq<seq<nat>>, es: seq<nat>)
    : (r: seq<Pairing>)
    requires SegmentsIn(segments, |rowOf|) && EndsIn(rows, |rowOf|) && PassesIn(passes, |rows|)
    requires RowSegmentsIn(rows, |segments|) && AllIn(es, |segments|)
    ensures |r| == |es| && PartnersIn(r, |segments|)
    ensures forall k :: 0 <= k < |es| ==> r[k] == PairEnd(rowOf, rows, passes, rowOf[segments[es[k]].start])
  {
    var r := seq(|es|, k requires 0 <= k < |es| => PairEnd(rowOf, rows, passes, rowOf[segments[es[k]].start]));
    assert forall k :: 0 <= k < |r| && r[k].Matched? ==> AllIn(rows[r[k].nextRow].groupSegments, |segments|);
    r
  }

  /** The arena and the three lists `complete_groups` and `handle_single_segments` work on. */
  datatype GroupState = GroupState(
    items: seq<Item>,
    segments: seq<Segment>,
    groups: seq<Group>,
    ends: seq<nat>,
    singles: seq<nat>,
    made: seq<nat>)

  /** `group.add_segment(s)`: the segment and its start code join group `g`, which lists it last. */
  function Join(st: GroupState, g: nat, s: nat): (r: GroupState)
    requires g < |st.groups| && s < |st.segments| && SegmentsIn(st.segments, |st.items|)
    ensures |r.items| == |st.items| && |r.segments| == |st.segments| && |r.groups| == |st.groups|
    ensures SegmentsIn(r.segments, |r.items|)
  {
    var sg := st.segments[s];
    st.(segments := st.segments[s := sg.(group := Some(g))],
        items := Assigned(st.items, sg.start, GroupAttr(Some(g))),
        groups := st.groups[g := st.groups[g].(segments := st.groups[g].segments + [s])])
  }

  /** Joining a group leaves the row numbers, the segments' codes and the three lists alone. */
  lemma JoinFrame(st: GroupState, g: nat, s: nat)
    requires g < |st.groups| && s < |st.segments| && SegmentsIn(st.segments, |st.items|)
    ensures var r := Join(st, g, s);
            && RowNumbers(r.items) == RowNumbers(st.items)
            && (forall u :: 0 <= u < |st.segments| ==> r.segments[u].start == st.segments[u].start)
            && r.ends == st.ends && r.singles == st.singles && r.made == st.made
  {
    RowNumbersAssigned(st.items, st.segments[s].start, Some(g));
  }

  /** A new `PlantGroup` holding `e` and then `m`, appended to the groups made. */
  function Pair(st: GroupState, e: nat, m: nat): (r: GroupState)
    requires e < |st.segments| && m < |st.segments| && SegmentsIn(st.segments, |st.items|)
    ensures |r.items| == |st.items| && |r.segments| == |st.segments| && SegmentsIn(r.segments, |r.items|)
  {
    var g := |st.groups|;
    var started := st.(groups := st.groups + [NewGroup()]);
    Join(Join(started, g, e), g, m).(made := st.made + [g])
  }

  /** A pair is one new group holding the two segments, recorded as made. */
  lemma PairGroups(st: GroupState, e: nat, m: nat)
    requires e < |st.segments| && m < |st.segments| && SegmentsIn(st.segments, |st.items|)
    ensures Pair(st, e, m).groups == st.groups + [Group([e, m], -1)]
    ensures Pair(st, e, m).made == st.made + [|st.groups|]
    ensures Pair(st, e, m).ends == st.ends && Pair(st, e, m).singles == st.singles
  {
    var g := |st.groups|;
    var started := st.(groups := st.groups + [NewGroup()]);
    assert started.groups[g] == NewGroup();
    var once := Join(started, g, e);
    assert once.groups == started.groups[g := started.groups[g].(segments := started.groups[g].segments + [e])];
    assert once.groups[g] == Group([e], -1);
    assert once.groups == st.groups + [Group([e], -1)];
    JoinFrame(started, g, e);
    var twice := Join(once, g, m);
    JoinFrame(once, g, m);
    assert twice.groups == once.groups[g := once.groups[g].(segments := once.groups[g].segments + [m])];
    assert twice.groups[g] == Group([e, m], -1);
  }

  /** A pair leaves the row numbers and the segments' codes alone. */
  lemma PairFrame(st: GroupState, e: nat, m: nat)
    requires e < |st.segments| && m < |st.segments| && SegmentsIn(st.segments, |st.items|)
    ensures RowNumbers(Pair(st, e, m).items) == RowNumbers(st.items)
    ensures forall u :: 0 <= u < |st.segments| ==> Pair(st, e, m).segments[u].start == st.segments[u].start
  {
    var g := |st.groups|;
    var started := st.(groups := st.groups + [NewGroup()]);
    JoinFrame(started, g, e);
    JoinFrame(Join(started, g, e), g, m);
  }

  /** `single_segments.append(e)` and `end_segments.remove(e)`. */
  function Demote(st: GroupState, e: nat): (r: GroupState)
  {
    st.(singles := st.singles + [e], ends := if e in st.ends then RemoveFirst(st.ends, e) else st.ends)
  }

  /** One iteration of `complete_groups`, on end segment `e` with decision `p`. */
  function CompleteStep(st: GroupState, e: nat, p: Pairing): (r: GroupState)
    requires SegmentsIn(st.segments, |st.items|) && e < |st.segments| && (p.Matched? ==> p.partner < |st.segments|)
    ensures |r.items| == |st.items| && |r.segments| == |st.segments| && SegmentsIn(r.segments, |r.items|)
  {
    match p
    case NotInPass => st
    case ShortNextPass => st
    case LastPass => Demote(st, e)
    case SameDirection => Demote(st, e)
    case NoSegments => Demote(st, e)
    case Matched(_, _, partner) => Pair(st, e, partner)
  }

  /** `complete_groups` over the end segments `es`, in order, with their decisions `ps`. */
  function CompleteFold(st: GroupState, es: seq<nat>, ps: seq<Pairing>): (r: GroupState)
    requires SegmentsIn(st.segments, |st.items|) && AllIn(es, |st.segments|)
    requires |ps| == |es| && PartnersIn(ps, |st.segments|)
    ensures |r.items| == |st.items| && |r.segments| == |st.segments| && SegmentsIn(r.segments, |r.items|)
    decreases |es|
  {
    if es == [] then st
    else CompleteStep(CompleteFold(st, es[..|es| - 1], ps[..|ps| - 1]), es[|es| - 1], ps[|ps| - 1])
  }

  /**
   * The effect of one end segment: a match appends the group `[e, partner]` and records it,
   * a demotion moves `e` from the end to the single segments, and a skip changes nothing.
   */
  lemma CompleteStepEffect(st: GroupState, e: nat, p: Pairing)
    requires SegmentsIn(st.segments, |st.items|) && e < |st.segments| && (p.Matched? ==> p.partner < |st.segments|)
    ensures var r := CompleteStep(st, e, p);
            && (p.Matched? ==>
                  && r.groups == st.groups + [Group([e, p.partner], -1)] && r.made == st.made + [|st.groups|]
                  && r.ends == st.ends && r.singles == st.singles)
            && (p.LastPass? || p.SameDirection? || p.NoSegments? ==>
                  && r.singles == st.singles + [e] && r.ends == (if e in st.ends then RemoveFirst(st.ends, e) else st.ends)
                  && r.groups == st.groups && r.made == st.made && r.items == st.items && r.segments == st.segments)
            && (p.NotInPass? || p.ShortNextPass? ==> r == st)
  {
    if p.Matched? {
      PairGroups(st, e, p.partner);
    }
  }

  /** Along the fold the row numbers of the items and the segments' start codes stay as they were. */
  lemma {:induction false} CompleteFoldFrame(st: GroupState, es: seq<nat>, ps: seq<Pairing>)
    requires SegmentsIn(st.segments, |st.items|) && AllIn(es, |st.segments|)
    requires |ps| == |es| && PartnersIn(ps, |st.segments|)
    ensures var r := CompleteFold(st, es, ps);
            && RowNumbers(r.items) == RowNumbers(st.items)
            && forall u :: 0 <= u < |st.segments| ==> r.segments[u].start == st.segments[u].start
    decreases |es|
  {
    if es != [] {
      CompleteFoldFrame(st, es[..|es| - 1], ps[..|ps| - 1]);
      var mid := CompleteFold(st, es[..|es| - 1], ps[..|ps| - 1]);
      var p := ps[|ps| - 1];
      if p.Matched? {
        PairFrame(mid, es[|es| - 1], p.partner);
      }
    }
  }

  /** One step keeps the shape `CompleteFoldGroups` states of the groups made since `base`. */
  lemma StepGroups(base: nat, made0: seq<nat>, mid: GroupState, e: nat, p: Pairing, done: seq<nat>)
    requires SegmentsIn(mid.segments, |mid.items|) && e < |mid.segments| && (p.Matched? ==> p.partner < |mid.segments|)
    requires base <= |mid.groups| && mid.made == made0 + Span(base, |mid.groups| - base)
    requires forall g :: base <= g < |mid.groups| ==>
               |mid.groups[g].segments| == 2 && mid.groups[g].segments[0] in done && mid.groups[g].expectedNumPlants == -1
    ensures var r := CompleteStep(mid, e, p);
            && base <= |r.groups| && r.groups[..base] == mid.groups[..base]
            && r.made == made0 + Span(base, |r.groups| - base)
            && forall g :: base <= g < |r.groups| ==>
                 |r.groups[g].segments| == 2 && r.groups[g].segments[0] in done + [e] && r.groups[g].expectedNumPlants == -1
  {
    CompleteStepEffect(mid, e, p);
    var r := CompleteStep(mid, e, p);
    var m := |mid.groups| - base;
    if p.Matched? {
      SpanStep(base, m);
      assert r.made == (made0 + Span(base, m)) + [base + m];
      assert (made0 + Span(base, m)) + [base + m] == made0 + (Span(base, m) + [base + m]);
      assert r.groups[..base] == mid.groups[..base];
    } else {
      assert r.made == mid.made && r.groups == mid.groups;
    }
  }

  /**
   * `complete_groups` only appends groups, each recorded in `groups` with the next index,
   * and each holding two segments of which the first is one of the end segments.
   */
  lemma {:induction false} CompleteFoldGroups(st: GroupState, es: seq<nat>, ps: seq<Pairing>)
    requires SegmentsIn(st.segments, |st.items|) && AllIn(es, |st.segments|)
    requires |ps| == |es| && PartnersIn(ps, |st.segments|)
    ensures var r := CompleteFold(st, es, ps);
            && |st.groups| <= |r.groups| && r.groups[..|st.groups|] == st.groups
            && r.made == st.made + Span(|st.groups|, |r.groups| - |st.groups|)
            && forall g :: |st.groups| <= g < |r.groups| ==>
                 |r.groups[g].segments| == 2 && r.groups[g].segments[0] in es && r.groups[g].expectedNumPlants == -1
    decreases |es|
  {
    if es != [] {
      var init, e, p := es[..|es| - 1], es[|es| - 1], ps[|ps| - 1];
      assert es == init + [e];
      CompleteFoldGroups(st, init, ps[..|ps| - 1]);
      var mid := CompleteFold(st, init, ps[..|ps| - 1]);
      StepGroups(|st.groups|, st.made, mid, e, p, init);
      assert CompleteFold(st, es, ps) == CompleteStep(mid, e, p);
    }
  }

  /** What one step does to the end and single segment lists. */
  lemma CompleteStepLists(st: GroupState, e: nat, p: Pairing)
    requires SegmentsIn(st.segments, |st.items|) && e < |st.segments| && (p.Matched? ==> p.partner < |st.segments|)
    ensures var r := CompleteStep(st, e, p);
            var demoted := p.LastPass? || p.SameDirection? || p.NoSegments?;
            && r.singles == (if demoted then st.singles + [e] else st.singles)
            && r.ends == (if demoted && e in st.ends then RemoveFirst(st.ends, e) else st.ends)
  {
    if p.Matched? {
      PairGroups(st, e, p.partner);
    }
  }

  /**
   * The multiset balance of `CompleteFoldMoves` survives moving `e`, an end segment still to
   * come, from `ends` to the end of `singles`.
   */
  lemma DemoteBalance(ends0: seq<nat>, singles0: seq<nat>, ends: seq<nat>, singles: seq<nat>, e: nat, done: seq<nat>)
    requires |singles0| <= |singles| && singles[..|singles0|] == singles0
    requires multiset(ends) + multiset(singles[|singles0|..]) == multiset(ends0)
    requires multiset(singles[|singles0|..]) <= multiset(done)
    requires multiset(done) + multiset{e} <= multiset(ends0)
    ensures e in ends
    ensures (singles + [e])[..|singles0|] == singles0
    ensures multiset(RemoveFirst(ends, e)) + multiset((singles + [e])[|singles0|..]) == multiset(ends0)
    ensures multiset((singles + [e])[|singles0|..]) <= multiset(done) + multiset{e}
  {
    var moved: seq<nat> := singles[|singles0|..];
    assert multiset(ends)[e] + multiset(moved)[e] == multiset(ends0)[e];
    assert multiset(moved)[e] <= multiset(done)[e];
    assert multiset(done)[e] + 1 <= multiset(ends0)[e];
    assert (singles + [e])[|singles0|..] == moved + [e];
    assert (singles + [e])[..|singles0|] == singles[..|singles0|];
  }

  /** One step keeps the multiset balance of `CompleteFoldMoves`, for an `e` still to come. */
  lemma StepMoves(ends0: seq<nat>, singles0: seq<nat>, mid: GroupState, e: nat, p: Pairing, done: seq<nat>)
    requires SegmentsIn(mid.segments, |mid.items|) && e < |mid.segments| && (p.Matched? ==> p.partner < |mid.segments|)
    requires |singles0| <= |mid.singles| && mid.singles[..|singles0|] == singles0
    requires multiset(mid.ends) + multiset(mid.singles[|singles0|..]) == multiset(ends0)
    requires multiset(mid.singles[|singles0|..]) <= multiset(done)
    requires multiset(done) + multiset{e} <= multiset(ends0)
    ensures var r := CompleteStep(mid, e, p);
            && |singles0| <= |r.singles| && r.singles[..|singles0|] == singles0
            && multiset(r.ends) + multiset(r.singles[|singles0|..]) == multiset(ends0)
            && multiset(r.singles[|singles0|..]) <= multiset(done) + multiset{e}
  {
    CompleteStepLists(mid, e, p);
    if p.LastPass? || p.SameDirection? || p.NoSegments? {
      DemoteBalance(ends0, singles0, mid.ends, mid.singles, e, done);
    }
  }

  /**
   * Along `complete_groups` every demoted segment leaves the end segments once and is
   * appended to the single segments: together the two lists hold what they held before.
   */
  lemma {:induction false} CompleteFoldMoves(st: GroupState, es: seq<nat>, ps: seq<Pairing>)
    requires SegmentsIn(st.segments, |st.items|) && AllIn(es, |st.segments|)
    requires |ps| == |es| && PartnersIn(ps, |st.segments|)
    requires multiset(es) <= multiset(st.ends)
    ensures var r := CompleteFold(st, es, ps);
            && |st.singles| <= |r.singles| && r.singles[..|st.singles|] == st.singles
            && multiset(r.ends) + multiset(r.singles[|st.singles|..]) == multiset(st.ends)
            && multiset(r.singles[|st.singles|..]) <= multiset(es)
    decreases |es|
  {
    if es != [] {
      var init, e, p := es[..|es| - 1], es[|es| - 1], ps[|ps| - 1];
      assert es == init + [e];
      assert multiset(es) == multiset(init) + multiset{e};
      CompleteFoldMoves(st, init, ps[..|ps| - 1]);
      var mid := CompleteFold(st, init, ps[..|ps| - 1]);
      StepMoves(st.ends, st.singles, mid, e, p, init);
      assert CompleteFold(st, es, ps) == CompleteStep(mid, e, p);
    }
  }

  /** The arena `complete_groups` reads, as a valid registry provides it. */
  predicate Fits(st: GroupState, rows: seq<Row>, passes: seq<seq<nat>>) {
    SegmentsIn(st.segments, |st.items|) && EndsIn(rows, |st.items|)
    && RowSegmentsIn(rows, |st.segments|) && PassesIn(passes, |rows|) && AllIn(st.ends, |st.segments|)
  }

  /** `complete_groups(end_segments, single_segments, field_passes)` from state `st`. */
  function CompleteGroupsSpec(st: GroupState, rows: seq<Row>, passes: seq<seq<nat>>): (r: GroupState)
    requires Fits(st, rows, passes)
  {
    CompleteFold(st, st.ends, Decisions(RowNumbers(st.items), st.segments, rows, passes, st.ends))
  }

  /** The fold over one more end segment is one more step. */
  lemma CompleteFoldExtend(st: GroupState, es: seq<nat>, ps: seq<Pairing>, i: nat)
    requires SegmentsIn(st.segments, |st.items|) && AllIn(es, |st.segments|)
    requires |ps| == |es| && PartnersIn(ps, |st.segments|) && i < |es|
    ensures AllIn(es[..i], |st.segments|) && PartnersIn(ps[..i], |st.segments|)
    ensures AllIn(es[..i + 1], |st.segments|) && PartnersIn(ps[..i + 1], |st.segments|)
    ensures var mid := CompleteFold(st, es[..i], ps[..i]);
            CompleteFold(st, es[..i + 1], ps[..i + 1]) == CompleteStep(mid, es[i], ps[i])
  {
    assert es[..i + 1][..i] == es[..i] && ps[..i + 1][..i] == ps[..i];
  }

  /**
   * At iteration `i` of `complete_groups` the decision for the next end segment, read off the
   * arena as the fold has left it, is the precomputed one.
   */
  lemma CompleteLoopDecision(st0: GroupState, rows: seq<Row>, passes: seq<seq<nat>>, ps: seq<Pairing>, i: nat)
    requires Fits(st0, rows, passes) && i < |st0.ends|
    requires ps == Decisions(RowNumbers(st0.items), st0.segments, rows, passes, st0.ends)
    ensures AllIn(st0.ends[..i], |st0.segments|) && PartnersIn(ps[..i], |st0.segments|)
    ensures var st := CompleteFold(st0, st0.ends[..i], ps[..i]);
            && EndsIn(rows, |st.items|)
            && ps[i] == PairEnd(RowNumbers(st.items), rows, passes, RowOf(st.items[st.segments[st0.ends[i]].start]))
  {
    var es := st0.ends;
    CompleteFoldFrame(st0, es[..i], ps[..i]);
    var st := CompleteFold(st0, es[..i], ps[..i]);
    assert RowNumbers(st.items)[st.segments[es[i]].start] == RowOf(st.items[st.segments[es[i]].start]);
  }

  /** One iteration of `complete_groups`: end segment `e` handled as decision `p` says. */
  method CompleteOne(reg: Registry, e: nat, p: Pairing, ends: seq<nat>, singles: seq<nat>, made: seq<nat>)
    returns (ends': seq<nat>, singles': seq<nat>, made': seq<nat>)
    requires reg.Valid() && e < |reg.segments| && (p.Matched? ==> p.partner < |reg.segments|)
    modifies reg
    ensures reg.Valid() && reg.rows == old(reg.rows)
    ensures GroupState(reg.items, reg.segments, reg.groups, ends', singles', made')
            == CompleteStep(GroupState(old(reg.items), old(reg.segments), old(reg.groups), ends, singles, made), e, p)
  {
    ValidArena(reg);
    ends', singles', made' := ends, singles, made;
    match p {
      case NotInPass =>
      case ShortNextPass =>
      case LastPass =>
        singles' := singles + [e];
        ends' := if e in ends then RemoveFirst(ends, e) else ends;
      case SameDirection =>
        singles' := singles + [e];
        ends' := if e in ends then RemoveFirst(ends, e) else ends;
      case NoSegments =>
        singles' := singles + [e];
        ends' := if e in ends then RemoveFirst(ends, e) else ends;
      case Matched(_, _, partner) =>
        var g := reg.AddGroupRecord();
        reg.AddSegment(g, e);
        reg.AddSegment(g, partner);
        made' := made + [g];
    }
  }

  /**
   * `complete_groups(end_segments, single_segments, field_passes)`: the groups it makes, and
   * the end and single segment lists as it leaves them.
   */
  method CompleteGroups(reg: Registry, ends0: seq<nat>, singles0: seq<nat>, passes: seq<seq<nat>>)
    returns (made: seq<nat>, ends: seq<nat>, singles: seq<nat>)
    requires reg.Valid() && AllIn(ends0, |reg.segments|) && PassesIn(passes, |reg.rows|)
    modifies reg
    ensures reg.Valid() && reg.rows == old(reg.rows)
    ensures Fits(GroupState(old(reg.items), old(reg.segments), old(reg.groups), ends0, singles0, []), old(reg.rows), passes)
    ensures GroupState(reg.items, reg.segments, reg.groups, ends, singles, made)
            == CompleteGroupsSpec(GroupState(old(reg.items), old(reg.segments), old(reg.groups), ends0, singles0, []),
                                  old(reg.rows), passes)
  {
    ValidArena(reg);
    ghost var st0 := GroupState(reg.items, reg.segments, reg.groups, ends0, singles0, []);
    ghost var ps := Decisions(RowNumbers(reg.items), reg.segments, reg.rows, passes, ends0);
    made, ends, singles := [], ends0, singles0;
    var i := 0;
    while i < |ends0|
      invariant 0 <= i <= |ends0|
      invariant reg.Valid() && reg.rows == old(reg.rows)
      invariant GroupState(reg.items, reg.segments, reg.groups, ends, singles, made)
                == CompleteFold(st0, ends0[..i], ps[..i])
    {
      var e := ends0[i];
      CompleteLoopDecision(st0, reg.rows, passes, ps, i);
      CompleteFoldExtend(st0, ends0, ps, i);
      ghost var mid := GroupState(reg.items, reg.segments, reg.groups, ends, singles, made);
      var n := reg.SegmentRowNumber(e);
      var pairing := PairEnd(RowNumbers(reg.items), reg.rows, passes, n);
      assert pairing == ps[i];
      ends, singles, made := CompleteOne(reg, e, pairing, ends, singles, made);
      assert GroupState(reg.items, reg.segments, reg.groups, ends, singles, made) == CompleteStep(mid, e, ps[i]);
      i := i + 1;
    }
    assert ends0[..i] == ends0 && ps[..i] == ps;
  }

  // ---------------------------------------------------------------------------
  // handle_single_segments

  /** A new `PlantGroup` holding segment `s` alone, appended to the groups made. */
  function Single(st: GroupState, s: nat): (r: GroupState)
    requires s < |st.segments| && SegmentsIn(st.segments, |st.items|)
    ensures |r.items| == |st.items| && |r.segments| == |st.segments| && SegmentsIn(r.segments, |r.items|)
  {
    var g := |st.groups|;
    Join(st.(groups := st.groups + [NewGroup()]), g, s).(made := st.made + [g])
  }

  /** `handle_single_segments` over the segments `ss`, in order. */
  function SingleFold(st: GroupState, ss: seq<nat>): (r: GroupState)
    requires SegmentsIn(st.segments, |st.items|) && AllIn(ss, |st.segments|)
    ensures |r.items| == |st.items| && |r.segments| == |st.segments| && SegmentsIn(r.segments, |r.items|)
    decreases |ss|
  {
    if ss == [] then st else Single(SingleFold(st, ss[..|ss| - 1]), ss[|ss| - 1])
  }

  /** One single segment is one new group `[s]` with no expected plant count, recorded as made. */
  lemma SingleGroups(st: GroupState, s: nat)
    requires s < |st.segments| && SegmentsIn(st.segments, |st.items|)
    ensures Single(st, s).groups == st.groups + [Group([s], -1)]
    ensures Single(st, s).made == st.made + [|st.groups|]
    ensures Single(st, s).segments[s].group == Some(|st.groups|)
    ensures forall u :: 0 <= u < |st.segments| && u != s ==> Single(st, s).segments[u] == st.segments[u]
    ensures Single(st, s).ends == st.ends && Single(st, s).singles == st.singles
  {
    var g := |st.groups|;
    var started := st.(groups := st.groups + [NewGroup()]);
    assert started.groups[g] == NewGroup();
    var once := Join(started, g, s);
    assert once.groups == started.groups[g := started.groups[g].(segments := started.groups[g].segments + [s])];
    assert once.groups[g] == Group([s], -1);
  }

  /** The groups `b`, `b + 1`, ... of `groups` hold the segments of `ss` one by one. */
  predicate SinglesFrom(groups: seq<Group>, b: nat, ss: seq<nat>) {
    |groups| == b + |ss| && forall k :: 0 <= k < |ss| ==> groups[b + k] == Group([ss[k]], -1)
  }

  /** One more single group extends the run. */
  lemma SinglesFromStep(groups: seq<Group>, b: nat, ss: seq<nat>, s: nat)
    requires SinglesFrom(groups, b, ss)
    ensures SinglesFrom(groups + [Group([s], -1)], b, ss + [s])
  {
    var gs := groups + [Group([s], -1)];
    forall k | 0 <= k < |ss| + 1
      ensures gs[b + k] == Group([(ss + [s])[k]], -1)
    {
      if k < |ss| {
        assert gs[b + k] == groups[b + k];
      }
    }
  }

  /**
   * `handle_single_segments` keeps the groups there were and appends one group per single
   * segment, in order, each holding that segment alone, and records them all as made.
   */
  lemma {:induction false} SingleFoldGroups(st: GroupState, ss: seq<nat>)
    requires SegmentsIn(st.segments, |st.items|) && AllIn(ss, |st.segments|)
    ensures var r := SingleFold(st, ss);
            && SinglesFrom(r.groups, |st.groups|, ss)
            && r.groups[..|st.groups|] == st.groups
            && r.made == st.made + Span(|st.groups|, |ss|)
    decreases |ss|
  {
    if ss != [] {
      ButLast(ss);
      var init, s := ss[..|ss| - 1], ss[|ss| - 1];
      SingleFoldGroups(st, init);
      var mid := SingleFold(st, init);
      SingleGroups(mid, s);
      SinglesFromStep(mid.groups, |st.groups|, init, s);
      SpanStep(|st.groups|, |init|);
      AppendAssoc(st.made, Span(|st.groups|, |init|), [|st.groups| + |init|]);
      PrefixKept(mid.groups, st.groups, Group([s], -1));
    }
  }

  /** When the single segments are distinct, each one ends in the group made for it. */
  lemma {:induction false} SingleFoldMembership(st: GroupState, ss: seq<nat>)
    requires SegmentsIn(st.segments, |st.items|) && AllIn(ss, |st.segments|) && Distinct(ss)
    ensures var r := SingleFold(st, ss);
            forall k :: 0 <= k < |ss| ==> r.segments[ss[k]].group == Some(|st.groups| + k)
    decreases |ss|
  {
    if ss != [] {
      var init, s := ss[..|ss| - 1], ss[|ss| - 1];
      DistinctLast(ss);
      SingleFoldMembership(st, init);
      SingleFoldGroups(st, init);
      var mid := SingleFold(st, init);
      SingleGroups(mid, s);
      forall k | 0 <= k < |ss|
        ensures SingleFold(st, ss).segments[ss[k]].group == Some(|st.groups| + k)
      {
        if k < |init| {
          assert ss[k] == init[k] && init[k] != s;
        }
      }
    }
  }

  /** `handle_single_segments(single_segments, groups)`: one new group per single segment. */
  method HandleSingleSegments(reg: Registry, singles: seq<nat>, made0: seq<nat>) returns (made: seq<nat>)
    requires reg.Valid() && AllIn(singles, |reg.segments|)
    modifies reg
    ensures reg.Valid() && reg.rows == old(reg.rows) && SegmentsIn(old(reg.segments), |old(reg.items)|)
    ensures GroupState(reg.items, reg.segments, reg.groups, [], singles, made)
            == SingleFold(GroupState(old(reg.items), old(reg.segments), old(reg.groups), [], singles, made0), singles)
  {
    ValidArena(reg);
    ghost var st0 := GroupState(reg.items, reg.segments, reg.groups, [], singles, made0);
    made := made0;
    var i := 0;
    while i < |singles|
      invariant 0 <= i <= |singles|
      invariant reg.Valid() && reg.rows == old(reg.rows)
      invariant GroupState(reg.items, reg.segments, reg.groups, [], singles, made) == SingleFold(st0, singles[..i])
    {
      assert singles[..i + 1][..i] == singles[..i];
      var g := reg.AddGroupRecord();
      reg.AddSegment(g, singles[i]);
      made := made + [g];
      i := i + 1;
    }
    assert singles[..i] == singles;
  }

  // ---------------------------------------------------------------------------
  // apply_code_listings

  /** An entry of the code listing file: a group code's id, its plant count and alternate id. */
  datatype CodeListing = CodeListing(id: string, maxPlants: int, alternateId: string)

  /** `[listing for listing in code_listings if group.start_code.name == listing.id]`. */
  function Matching(listings: seq<CodeListing>, name: string): seq<CodeListing>
  {
    if listings == [] then []
    else (if listings[0].id == name then [listings[0]] else []) + Matching(listings[1..], name)
  }

  /** The first match is the first listing with the name; there is none exactly when no listing has it. */
  lemma {:induction false} MatchingFirst(listings: seq<CodeListing>, name: string) returns (j: nat)
    ensures Matching(listings, name) == [] <==> forall k :: 0 <= k < |listings| ==> listings[k].id != name
    ensures Matching(listings, name) != [] ==>
              j < |listings| && Matching(listings, name)[0] == listings[j] && listings[j].id == name
              && forall k :: 0 <= k < j ==> listings[k].id != name
  {
    j := 0;
    if listings != [] && listings[0].id != name {
      var j0 := MatchingFirst(listings[1..], name);
      j := j0 + 1;
      assert forall k :: 1 <= k < |listings| ==> listings[k] == listings[1..][k - 1];
    }
  }

  /** Every group's segments are in an arena of `m` segments. */
  predicate GroupsIn(groups: seq<Group>, m: nat) {
    forall g :: 0 <= g < |groups| ==> AllIn(groups[g].segments, m)
  }

  /**
   * The items after the first `n` groups of `apply_code_listings`: with alternate ids included,
   * each group with segments whose start code's name has a listing writes that listing's
   * alternate id into the start code (group codes pass it on to their references). The name
   * is read off `items0`, the items before the first group; alternate ids leave names alone.
   */
  function AlternateIds(items0: seq<Item>, segments: seq<Segment>, groups0: seq<Group>,
                        listings: seq<CodeListing>, alt: bool, n: nat): (r: seq<Item>)
    requires SegmentsIn(segments, |items0|) && GroupsIn(groups0, |segments|) && n <= |groups0|
    ensures |r| == |items0|
    decreases n
  {
    if n == 0 then items0
    else
      var prev := AlternateIds(items0, segments, groups0, listings, alt, n - 1);
      if !alt || groups0[n - 1].segments == [] then prev
      else
        var c := segments[groups0[n - 1].segments[0]].start;
        var m := Matching(listings, items0[c].name);
        if m == [] then prev else Assigned(prev, c, AlternateIdAttr(m[0].alternateId))
  }

  /** Writing alternate ids changes nothing about an item but its alternate id. */
  lemma {:induction false} AlternateIdsFrame(items0: seq<Item>, segments: seq<Segment>, groups0: seq<Group>,
                                             listings: seq<CodeListing>, alt: bool, n: nat)
    requires SegmentsIn(segments, |items0|) && GroupsIn(groups0, |segments|) && n <= |groups0|
    ensures var r := AlternateIds(items0, segments, groups0, listings, alt, n);
            forall k :: 0 <= k < |items0| ==> r[k] == items0[k].(alternateId := r[k].alternateId)
    decreases n
  {
    if n > 0 {
      AlternateIdsFrame(items0, segments, groups0, listings, alt, n - 1);
      var prev := AlternateIds(items0, segments, groups0, listings, alt, n - 1);
      if alt && groups0[n - 1].segments != [] {
        var c := segments[groups0[n - 1].segments[0]].start;
        var m := Matching(listings, items0[c].name);
        if m != [] {
          AssignedAlternateIdFrame(items0, prev, c, m[0].alternateId);
        }
      }
    }
  }

  /** One alternate id written on top of items that differ from `items0` only in alternate ids. */
  lemma AssignedAlternateIdFrame(items0: seq<Item>, prev: seq<Item>, c: nat, v: string)
    requires |prev| == |items0| && c < |prev|
    requires forall k :: 0 <= k < |items0| ==> prev[k] == items0[k].(alternateId := prev[k].alternateId)
    ensures var r := Assigned(prev, c, AlternateIdAttr(v));
            forall k :: 0 <= k < |items0| ==> r[k] == items0[k].(alternateId := r[k].alternateId)
  {
    var r := Assigned(prev, c, AlternateIdAttr(v));
    forall k | 0 <= k < |items0| ensures r[k] == items0[k].(alternateId := r[k].alternateId) {
      assert r[k] == prev[k] || r[k] == prev[k].(alternateId := Some(v));
    }
  }

  /** Without alternate ids the items are left as they were. */
  lemma {:induction false} AlternateIdsOff(items0: seq<Item>, segments: seq<Segment>, groups0: seq<Group>,
                                           listings: seq<CodeListing>, n: nat)
    requires SegmentsIn(segments, |items0|) && GroupsIn(groups0, |segments|) && n <= |groups0|
    ensures AlternateIds(items0, segments, groups0, listings, false, n) == items0
    decreases n
  {
    if n > 0 {
      AlternateIdsOff(items0, segments, groups0, listings, n - 1);
    }
  }

  /** How many groups `apply_code_listings` gets through: all `n`, or up to the first group without segments. */
  function Completed(groups: seq<Group>, n: nat): (r: nat)
    requires n <= |groups|
    ensures r <= n && (forall g :: 0 <= g < r ==> groups[g].segments != []) && (r < n ==> groups[r].segments == [])
    decreases n
  {
    if n == 0 then 0
    else
      var d := Completed(groups, n - 1);
      if d < n - 1 then d else if groups[n - 1].segments == [] then n - 1 else n
  }

  /** Once a group without segments is reached, it is where `apply_code_listings` stops. */
  lemma {:induction false} CompletedStops(groups: seq<Group>, d: nat, n: nat)
    requires d < n <= |groups| && Completed(groups, d) == d && groups[d].segments == []
    ensures Completed(groups, n) == d
    decreases n
  {
    if n > d + 1 {
      CompletedStops(groups, d, n - 1);
    }
  }

  /** The plant count group `g` ends with: its first listing's, or the one it had when no listing names its start code. */
  function Listed(items: seq<Item>, segments: seq<Segment>, groups: seq<Group>, g: nat, listings: seq<CodeListing>): int
    requires SegmentsIn(segments, |items|) && GroupsIn(groups, |segments|) && g < |groups|
  {
    if groups[g].segments == [] then groups[g].expectedNumPlants
    else
      var m := Matching(listings, items[segments[groups[g].segments[0]].start].name);
      if m == [] then groups[g].expectedNumPlants else m[0].maxPlants
  }

  /**
   * A group with segments takes the plant count of the first listing whose id is its start
   * code's name, and keeps its own when there is none.
   */
  lemma ListedMeans(items: seq<Item>, segments: seq<Segment>, groups: seq<Group>, g: nat, listings: seq<CodeListing>)
    returns (j: nat)
    requires SegmentsIn(segments, |items|) && GroupsIn(groups, |segments|) && g < |groups| && groups[g].segments != []
    ensures var name := items[segments[groups[g].segments[0]].start].name;
            && ((forall k :: 0 <= k < |listings| ==> listings[k].id != name) ==>
                  Listed(items, segments, groups, g, listings) == groups[g].expectedNumPlants)
            && ((exists k :: 0 <= k < |listings| && listings[k].id == name) ==>
                  && j < |listings| && listings[j].id == name
                  && (forall k :: 0 <= k < j ==> listings[k].id != name)
                  && Listed(items, segments, groups, g, listings) == listings[j].maxPlants)
  {
    j := MatchingFirst(listings, items[segments[groups[g].segments[0]].start].name);
  }

  /**
   * The first `d` groups have the plant counts `Listed` gives them, the others are as they
   * were, and no group has other changes.
   */
  predicate ListingsApplied(items0: seq<Item>, segments: seq<Segment>, groups0: seq<Group>, groups: seq<Group>,
                            listings: seq<CodeListing>, d: nat)
    requires SegmentsIn(segments, |items0|) && GroupsIn(groups0, |segments|)
  {
    |groups| == |groups0|
    && forall g :: 0 <= g < |groups0| ==>
         groups[g] == if g < d then groups0[g].(expectedNumPlants := Listed(items0, segments, groups0, g, listings))
                      else groups0[g]
  }

  /**
   * The registry once `apply_code_listings` has handled the first `d` groups of `groups0`:
   * the segments as they were, the groups as `ListingsApplied` says and the items as
   * `AlternateIds` says.
   */
  predicate ListingsDone(reg: Registry, items0: seq<Item>, segments: seq<Segment>, groups0: seq<Group>,
                         listings: seq<CodeListing>, alt: bool, d: nat)
    reads reg
    requires SegmentsIn(segments, |items0|) && GroupsIn(groups0, |segments|) && d <= |groups0|
  {
    && reg.segments == segments
    && ListingsApplied(items0, segments, groups0, reg.groups, listings, d)
    && reg.items == AlternateIds(items0, segments, groups0, listings, alt, d)
  }

  /** The groups of a valid registry refer into its arena of segments. */
  lemma ValidGroups(reg: Registry)
    requires reg.Valid()
    ensures GroupsIn(reg.groups, |reg.segments|)
  {
    forall g | 0 <= g < |reg.groups| ensures AllIn(reg.groups[g].segments, |reg.segments|) {
      assert GroupFits(reg.groups[g], |reg.segments|);
    }
  }

  /**
   * One group of `apply_code_listings`, on the registry as the groups before it have left it:
   * IndexError for a group without segments, and otherwise one group more done.
   */
  method ApplyListing(reg: Registry, ghost items0: seq<Item>, ghost segments: seq<Segment>, ghost groups0: seq<Group>,
                      g: nat, listings: seq<CodeListing>, alt: bool) returns (r: Result<()>)
    requires reg.Valid() && g < |groups0| && SegmentsIn(segments, |items0|) && GroupsIn(groups0, |segments|)
    requires ListingsDone(reg, items0, segments, groups0, listings, alt, g)
    modifies reg
    ensures reg.Valid() && reg.segments == old(reg.segments) && reg.rows == old(reg.rows)
    ensures r.Err? <==> groups0[g].segments == []
    ensures r.Err? ==> r.error == IndexError("list index out of range") && reg.items == old(reg.items) && reg.groups == old(reg.groups)
    ensures r.Ok? ==> ListingsDone(reg, items0, segments, groups0, listings, alt, g + 1)
  {
    AlternateIdsFrame(items0, segments, groups0, listings, alt, g);
    var c := reg.GroupStartCode(g);
    if c.Err? {
      return Err(c.error);
    }
    assert reg.items[c.value].name == items0[c.value].name;
    var matched := Matching(listings, reg.items[c.value].name);
    if matched != [] {
      reg.SetExpectedNumPlants(g, matched[0].maxPlants);
      if alt {
        reg.Set(c.value, AlternateIdAttr(matched[0].alternateId));
      }
    }
    r := Ok(());
  }

  /**
   * `apply_code_listings(code_listings, groups, alternate_ids_included)` over every group of
   * the registry. It fails with IndexError exactly when some group has no segments, and then
   * the groups before the first such one have been handled.
   */
  method ApplyCodeListings(reg: Registry, listings: seq<CodeListing>, alt: bool) returns (r: Result<()>)
    requires reg.Valid()
    modifies reg
    ensures reg.Valid() && reg.rows == old(reg.rows)
    ensures SegmentsIn(old(reg.segments), |old(reg.items)|) && GroupsIn(old(reg.groups), |old(reg.segments)|)
    ensures r.Ok? <==> Completed(old(reg.groups), |old(reg.groups)|) == |old(reg.groups)|
    ensures r.Err? ==> r.error == IndexError("list index out of range")
    ensures ListingsDone(reg, old(reg.items), old(reg.segments), old(reg.groups), listings, alt,
                         Completed(old(reg.groups), |old(reg.groups)|))
  {
    ValidArena(reg);
    ValidGroups(reg);
    ghost var items0, segments, groups0 := reg.items, reg.segments, reg.groups;
    var g := 0;
    while g < |reg.groups|
      invariant 0 <= g <= |reg.groups| == |groups0|
      invariant reg.Valid() && reg.rows == old(reg.rows)
      invariant Completed(groups0, g) == g
      invariant ListingsDone(reg, items0, segments, groups0, listings, alt, g)
    {
      r := ApplyListing(reg, items0, segments, groups0, g, listings, alt);
      if r.Err? {
        CompletedStops(groups0, g, |groups0|);
        return;
      }
      g := g + 1;
    }
    r := Ok(());
  }
}
