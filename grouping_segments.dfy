/**
 * Field topology, second half: rows are cut into segments at their codes, segments are
 * classified by the kinds of their two codes, end segments are joined to the first segment
 * of the neighbouring row of the next pass, and the code listing is applied to the groups.
 */
module GroupingSegments {
  import opened Wrappers
  import opened Geometry
  import opened Text
  import opened Lists
  import opened Sorting
  import opened FieldItems
  import opened FieldGrouping
  import opened RowGrouping

  // ---------------------------------------------------------------------------
  // create_segments

  /** A projected code whose `row` property is `n`. */
  predicate OnRow(items: seq<Item>, c: (nat, real), n: int) {
    c.0 < |items| && RowOf(items[c.0]) == n
  }

  /** `codes_in_row`: the projected codes on row number `n`, in their input order. */
  function CodesInRow(items: seq<Item>, kept: seq<(nat, real)>, n: int): (r: seq<(nat, real)>)
    ensures forall k :: 0 <= k < |r| ==> OnRow(items, r[k], n)
    ensures forall k :: 0 <= k < |kept| && OnRow(items, kept[k], n) ==> kept[k] in r
    ensures forall c :: c in r ==> c in kept
  {
    Filter(kept, (c: (nat, real)) => OnRow(items, c, n))
  }

  /** The pseudo group code `PS<n>` or `PE<n>` at a row code's position and zone. */
  function PseudoCode(items: seq<Item>, prefix: string, n: int, at: nat): (r: Item)
    requires RefsValid(items) && at < |items|
    ensures r.kind.GroupCode? && r.others == [] && r.group.None?
  {
    NewItem(GroupCode, prefix + IntToString(n), Position(items, at), items[at].zone, "", None)
  }

  /** Appending items without references keeps every reference in the arena. */
  lemma AppendPlain(items: seq<Item>, extra: seq<Item>)
    requires RefsValid(items) && forall k :: 0 <= k < |extra| ==> extra[k].others == []
    ensures RefsValid(items + extra) && (items + extra)[..|items|] == items
  {
    var all := items + extra;
    forall i | 0 <= i < |all| ensures all[i].others == if i < |items| then items[i].others else [] {
      if i >= |items| { assert all[i] == extra[i - |items|]; }
    }
  }

  /** The sort key of a code with its projection. */
  function ProjectionKey(c: (nat, real)): real {
    c.1
  }

  /** The codes in ascending projection; Python's sort is stable, and so is `SortBy`. */
  function ByProjection(codes: seq<(nat, real)>, bound: nat): (r: seq<nat>)
    requires forall k :: 0 <= k < |codes| ==> codes[k].0 < bound
    ensures |r| == |codes| && AllIn(r, bound)
  {
    var sorted := SortBy<(nat, real)>(codes, ProjectionKey);
    forall k | 0 <= k < |sorted| ensures sorted[k].0 < bound {
      assert sorted[k] in multiset(codes);
    }
    CodesOf(sorted)
  }

  /**
   * `ByProjection` lists the codes of a sorted permutation of its input; codes with equal
   * projections keep their input order.
   */
  lemma ByProjectionSorted(codes: seq<(nat, real)>, bound: nat) returns (sorted: seq<(nat, real)>)
    requires forall k :: 0 <= k < |codes| ==> codes[k].0 < bound
    ensures SortedBy(sorted, ProjectionKey) && multiset(sorted) == multiset(codes)
    ensures ByProjection(codes, bound) == CodesOf(sorted)
    ensures |codes| == 2 && codes[0].1 <= codes[1].1 ==> sorted == codes
    ensures forall v :: WithKey(sorted, ProjectionKey, v) == WithKey(codes, ProjectionKey, v)
  {
    sorted := SortBy<(nat, real)>(codes, ProjectionKey);
    forall v ensures WithKey(sorted, ProjectionKey, v) == WithKey(codes, ProjectionKey, v) {
      SortByStable(codes, ProjectionKey, v);
    }
    if |codes| == 2 && codes[0].1 <= codes[1].1 {
      assert SortBy<(nat, real)>(codes[1..], ProjectionKey) == [codes[1]];
    }
  }

  /** The start code, the middle codes and the end code, read backwards on a 'back' row. */
  function Oriented(start: nat, middle: seq<nat>, end: nat, direction: Direction, bound: nat): (r: seq<nat>)
    requires start < bound && end < bound && AllIn(middle, bound)
    ensures |r| == |middle| + 2 && AllIn(r, bound)
    ensures r == if direction == Back then [end] + Reversed(middle) + [start] else [start] + middle + [end]
  {
    var inField := [start] + middle + [end];
    if direction == Back then
      ReversedEnds(start, middle, end);
      Reversed(inField)
    else inField
  }

  /** Whether row number `n` has no projected code, so that `create_segments` makes pseudo codes. */
  predicate NeedsPseudo(items: seq<Item>, kept: seq<(nat, real)>, n: int) {
    CodesInRow(items, kept, n) == []
  }

  /** The row's codes, or the two pseudo codes about to be appended to the arena when it has none. */
  function RowCodes(items: seq<Item>, kept: seq<(nat, real)>, n: int): (r: seq<(nat, real)>)
    ensures NeedsPseudo(items, kept, n) ==> r == [(|items|, 0.0), (|items| + 1, 1.0)]
    ensures !NeedsPseudo(items, kept, n) ==> r == CodesInRow(items, kept, n)
    ensures forall k :: 0 <= k < |r| ==> r[k].0 < |items| + if NeedsPseudo(items, kept, n) then 2 else 0
  {
    var codes := CodesInRow(items, kept, n);
    if codes == [] then [(|items|, 0.0), (|items| + 1, 1.0)] else codes
  }

  /** The arena after row `t`'s pseudo codes are created, when it needs them. */
  function RowItems(items: seq<Item>, rows: seq<Row>, kept: seq<(nat, real)>, t: nat): (r: seq<Item>)
    requires RefsValid(items) && EndsIn(rows, |items|) && t < |rows|
    ensures |r| == |items| + if NeedsPseudo(items, kept, RowOf(items[rows[t].start])) then 2 else 0
    ensures RefsValid(r) && r[..|items|] == items
  {
    var row := rows[t];
    var n := RowOf(items[row.start]);
    var extra := if NeedsPseudo(items, kept, n) then [PseudoCode(items, "PS", n, row.start), PseudoCode(items, "PE", n, row.end)] else [];
    AppendPlain(items, extra);
    items + extra
  }

  /**
   * One row's preparation: the arena after the pseudo codes are created (only when no code
   * lies on the row) and `sorted_row_codes`, the row's codes in the order of its segments.
   */
  function RowChain(items: seq<Item>, rows: seq<Row>, kept: seq<(nat, real)>, t: nat): (r: (seq<Item>, seq<nat>))
    requires RefsValid(items) && EndsIn(rows, |items|) && t < |rows|
    ensures RefsValid(r.0) && EndsIn(rows, |r.0|) && |r.0| >= |items| && r.0[..|items|] == items
    ensures |r.1| == |RowCodes(items, kept, RowOf(items[rows[t].start]))| + 2 && AllIn(r.1, |r.0|)
  {
    var row := rows[t];
    var items1 := RowItems(items, rows, kept, t);
    (items1, ChainOf(row.start, row.end, row.direction, RowCodes(items, kept, RowOf(items[row.start])), |items1|))
  }

  /** `sorted_row_codes` built from the codes of a row (with their projections). */
  function ChainOf(start: nat, end: nat, direction: Direction, codes: seq<(nat, real)>, bound: nat): (r: seq<nat>)
    requires start < bound && end < bound && forall k :: 0 <= k < |codes| ==> codes[k].0 < bound
    ensures |r| == |codes| + 2 && AllIn(r, bound)
  {
    Oriented(start, ByProjection(codes, bound), end, direction, bound)
  }

  /**
   * The chain runs from the start code to the end code through the codes in ascending
   * projection, and from the end code to the start code on a 'back' row.
   */
  lemma ChainOfShape(start: nat, end: nat, direction: Direction, codes: seq<(nat, real)>, bound: nat)
    returns (sorted: seq<(nat, real)>)
    requires start < bound && end < bound && forall k :: 0 <= k < |codes| ==> codes[k].0 < bound
    ensures SortedBy(sorted, ProjectionKey) && multiset(sorted) == multiset(codes)
    ensures |codes| == 2 && codes[0].1 <= codes[1].1 ==> sorted == codes
    ensures ChainOf(start, end, direction, codes, bound)
            == if direction == Back then [end] + Reversed(CodesOf(sorted)) + [start] else [start] + CodesOf(sorted) + [end]
  {
    sorted := ByProjectionSorted(codes, bound);
  }

  /** A segment is special when it starts at a single code. */
  predicate IsSpecialStart(items: seq<Item>, c: nat) {
    c < |items| && items[c].kind.SingleCode?
  }

  /**
   * The ids `base + k` of the links `chain[k] -> chain[k + 1]` whose start is a single code
   * (`special`) or is not (`!special`), in order.
   */
  function Links(items: seq<Item>, chain: seq<nat>, base: nat, special: bool): (r: seq<nat>)
    decreases |chain|
  {
    if |chain| < 2 then []
    else Links(items, chain[..|chain| - 1], base, special)
         + if IsSpecialStart(items, chain[|chain| - 2]) == special then [base + |chain| - 2] else []
  }

  /** Every link is filed under exactly one of the two lists. */
  lemma {:induction false} LinksCount(items: seq<Item>, chain: seq<nat>, base: nat)
    requires |chain| >= 1
    ensures |Links(items, chain, base, true)| + |Links(items, chain, base, false)| == |chain| - 1
    decreases |chain|
  {
    if |chain| >= 2 {
      LinksCount(items, chain[..|chain| - 1], base);
    }
  }

  /** Only the ids of links are filed. */
  lemma {:induction false} LinksBounds(items: seq<Item>, chain: seq<nat>, base: nat, special: bool)
    ensures forall s :: s in Links(items, chain, base, special) ==> base <= s < base + |chain| - 1
    decreases |chain|
  {
    if |chain| >= 2 {
      LinksBounds(items, chain[..|chain| - 1], base, special);
    }
  }

  /** Link `base + k` is in the special list exactly when it starts at a single code, and in the other list otherwise. */
  lemma {:induction false} LinksMembers(items: seq<Item>, chain: seq<nat>, base: nat, special: bool)
    ensures forall k :: 0 <= k < |chain| - 1 ==>
              (base + k in Links(items, chain, base, special) <==> IsSpecialStart(items, chain[k]) == special)
    decreases |chain|
  {
    if |chain| >= 2 {
      var init := chain[..|chain| - 1];
      LinksMembers(items, init, base, special);
      LinksBounds(items, init, base, special);
      forall k | 0 <= k < |init| - 1 ensures init[k] == chain[k] { }
    }
  }

  /** What `create_segments` builds: the arena and the two output lists. */
  datatype SegState = SegState(items: seq<Item>, segments: seq<Segment>, rows: seq<Row>, group: seq<nat>, special: seq<nat>)

  /** One new segment from `a` to `b`, appended to row `t` and filed as special or group. */
  function Link(st: SegState, t: nat, a: nat, b: nat): (r: SegState)
    requires t < |st.rows|
  {
    var s := |st.segments|;
    var rows := st.rows[t := st.rows[t].(groupSegments := st.rows[t].groupSegments + [s])];
    if IsSpecialStart(st.items, a) then SegState(st.items, st.segments + [NewSegment(a, b)], rows, st.group, st.special + [s])
    else SegState(st.items, st.segments + [NewSegment(a, b)], rows, st.group + [s], st.special)
  }

  /** The segments between consecutive codes of `chain`, first to last. */
  function LinkChain(st: SegState, t: nat, chain: seq<nat>): (r: SegState)
    requires t < |st.rows| && |chain| >= 1
    ensures r.items == st.items && |r.rows| == |st.rows| && |r.segments| == |st.segments| + |chain| - 1
    ensures forall u :: 0 <= u < |r.rows| ==> r.rows[u].start == st.rows[u].start && r.rows[u].end == st.rows[u].end
    decreases |chain|
  {
    if |chain| < 2 then st
    else Link(LinkChain(st, t, chain[..|chain| - 1]), t, chain[|chain| - 2], chain[|chain| - 1])
  }

  /** The existing segments stay; segment `base + k` runs from the `k`-th code of the chain to the next. */
  lemma {:induction false} LinkChainRecords(st: SegState, t: nat, chain: seq<nat>)
    requires t < |st.rows| && |chain| >= 1
    ensures var r := LinkChain(st, t, chain);
            && r.segments[..|st.segments|] == st.segments
            && forall s :: |st.segments| <= s < |r.segments| ==>
                 r.segments[s] == NewSegment(chain[s - |st.segments|], chain[s - |st.segments| + 1])
    decreases |chain|
  {
    if |chain| >= 2 {
      var init := chain[..|chain| - 1];
      LinkChainRecords(st, t, init);
      assert forall k :: 0 <= k < |init| ==> init[k] == chain[k];
    }
  }

  /** Row `t` gains the new segments at the end of its list; no other row and no other field changes. */
  lemma {:induction false} LinkChainRows(st: SegState, t: nat, chain: seq<nat>)
    requires t < |st.rows| && |chain| >= 1
    ensures var r := LinkChain(st, t, chain);
            && r.rows[t] == st.rows[t].(groupSegments := st.rows[t].groupSegments + Span(|st.segments|, |chain| - 1))
            && forall u :: 0 <= u < |st.rows| && u != t ==> r.rows[u] == st.rows[u]
    decreases |chain|
  {
    if |chain| >= 2 {
      LinkChainRows(st, t, chain[..|chain| - 1]);
    }
  }

  /** The new segments are filed in chain order, as special exactly when they start at a single code. */
  lemma {:induction false} LinkChainLists(st: SegState, t: nat, chain: seq<nat>)
    requires t < |st.rows| && |chain| >= 1
    ensures var r := LinkChain(st, t, chain);
            && r.group == st.group + Links(st.items, chain, |st.segments|, false)
            && r.special == st.special + Links(st.items, chain, |st.segments|, true)
    decreases |chain|
  {
    if |chain| >= 2 {
      LinkChainLists(st, t, chain[..|chain| - 1]);
    }
  }

  /** `create_segments` on row `t`: its pseudo codes (if any), then its segments. */
  function RowSegments(st: SegState, kept: seq<(nat, real)>, t: nat): (r: SegState)
    requires RefsValid(st.items) && EndsIn(st.rows, |st.items|) && t < |st.rows|
    ensures RefsValid(r.items) && EndsIn(r.rows, |r.items|) && |r.rows| == |st.rows|
  {
    var rc := RowChain(st.items, st.rows, kept, t);
    LinkChain(st.(items := rc.0), t, rc.1)
  }

  /** Segment `base + k` of a chain runs from its `k`-th code to the next; the first starts and the last ends the chain. */
  lemma LinkChainSegments(st: SegState, t: nat, chain: seq<nat>)
    requires t < |st.rows| && |chain| >= 2
    ensures var r := LinkChain(st, t, chain);
            var base := |st.segments|;
            var m := |chain| - 1;
            && (forall s :: base <= s < base + m ==> r.segments[s] == NewSegment(chain[s - base], chain[s - base + 1]))
            && r.segments[base].start == chain[0] && r.segments[base + m - 1].end == chain[m]
  {
    LinkChainRecords(st, t, chain);
  }

  /** Consecutive segments of a chain share a code. */
  lemma LinkChainConsecutive(st: SegState, t: nat, chain: seq<nat>)
    requires t < |st.rows| && |chain| >= 2
    ensures var r := LinkChain(st, t, chain);
            var base := |st.segments|;
            forall s, s' :: base <= s < base + |chain| - 2 && s' == s + 1 ==> r.segments[s].end == r.segments[s'].start
  {
    LinkChainRecords(st, t, chain);
  }

  /**
   * The chain of row `t` (`sorted_row_codes`) runs from the start code through the row's codes
   * in ascending projection (the two pseudo codes when it has none) to the end code, and the
   * other way round on a 'back' row.
   */
  lemma RowChainShape(items: seq<Item>, rows: seq<Row>, kept: seq<(nat, real)>, t: nat)
    returns (sorted: seq<(nat, real)>)
    requires RefsValid(items) && EndsIn(rows, |items|) && t < |rows|
    ensures var row := rows[t];
            var codes := CodesInRow(items, kept, RowOf(items[row.start]));
            && (codes == [] ==> sorted == [(|items|, 0.0), (|items| + 1, 1.0)])
            && (codes != [] ==> multiset(sorted) == multiset(codes))
            && SortedBy(sorted, ProjectionKey)
            && RowChain(items, rows, kept, t).1
               == if row.direction == Back then [row.end] + Reversed(CodesOf(sorted)) + [row.start]
                  else [row.start] + CodesOf(sorted) + [row.end]
  {
    var row := rows[t];
    var rc := RowChain(items, rows, kept, t);
    sorted := ChainOfShape(row.start, row.end, row.direction, RowCodes(items, kept, RowOf(items[row.start])), |rc.0|);
  }

  /**
   * Row `t` gets one segment more than it has codes, or three through two new pseudo codes
   * when it has none, appended to the end of its segment list; nothing else in the rows changes.
   */
  lemma RowSegmentsCount(st: SegState, kept: seq<(nat, real)>, t: nat)
    requires RefsValid(st.items) && EndsIn(st.rows, |st.items|) && t < |st.rows|
    ensures var res := RowSegments(st, kept, t);
            var row := st.rows[t];
            var n := RowOf(st.items[row.start]);
            var codes := CodesInRow(st.items, kept, n);
            var m := if codes == [] then 3 else |codes| + 1;
            && |res.segments| == |st.segments| + m
            && res.rows[t] == row.(groupSegments := row.groupSegments + Span(|st.segments|, m))
            && (forall u :: 0 <= u < |st.rows| && u != t ==> res.rows[u] == st.rows[u])
            && res.items == if codes == [] then st.items + [PseudoCode(st.items, "PS", n, row.start), PseudoCode(st.items, "PE", n, row.end)]
                            else st.items
  {
    var rc := RowChain(st.items, st.rows, kept, t);
    LinkChainRows(st.(items := rc.0), t, rc.1);
  }

  /** `create_segments` over the rows `ids`, in order. */
  function CreateSegmentsFold(st: SegState, kept: seq<(nat, real)>, ids: seq<nat>): (r: SegState)
    requires RefsValid(st.items) && EndsIn(st.rows, |st.items|) && AllIn(ids, |st.rows|)
    ensures RefsValid(r.items) && EndsIn(r.rows, |r.items|) && |r.rows| == |st.rows|
    decreases |ids|
  {
    if ids == [] then st
    else RowSegments(CreateSegmentsFold(st, kept, ids[..|ids| - 1]), kept, ids[|ids| - 1])
  }

  /** One more row of the fold is one more `RowSegments`. */
  lemma CreateSegmentsStep(st: SegState, kept: seq<(nat, real)>, ids: seq<nat>, k: nat)
    requires RefsValid(st.items) && EndsIn(st.rows, |st.items|) && AllIn(ids, |st.rows|) && k < |ids|
    ensures AllIn(ids[..k], |st.rows|) && AllIn(ids[..k + 1], |st.rows|)
    ensures CreateSegmentsFold(st, kept, ids[..k + 1]) == RowSegments(CreateSegmentsFold(st, kept, ids[..k]), kept, ids[k])
  {
    assert ids[..k + 1][..k] == ids[..k];
  }

  /** The registry's state as a `SegState` with the two output lists. */
  function SegStateOf(reg: Registry, group: seq<nat>, special: seq<nat>): SegState
    reads reg
  {
    SegState(reg.items, reg.segments, reg.rows, group, special)
  }

  /** The codes of every row of a valid registry are in its arena. */
  lemma RowsEndIn(reg: Registry)
    requires reg.Valid()
    ensures EndsIn(reg.rows, |reg.items|)
  {
    forall u | 0 <= u < |reg.rows| ensures reg.rows[u].start < |reg.items| && reg.rows[u].end < |reg.items| {
      assert RowFits(reg.rows[u], |reg.items|, |reg.segments|);
    }
  }

  /** The two pseudo codes of row `t`, numbered `n`, join the arena. */
  method AddPseudoCodes(reg: Registry, t: nat, n: int) returns (codes: seq<(nat, real)>)
    requires reg.Valid() && t < |reg.rows| && EndsIn(reg.rows, |reg.items|)
    modifies reg
    ensures reg.Valid()
    ensures reg.segments == old(reg.segments) && reg.groups == old(reg.groups) && reg.rows == old(reg.rows)
    ensures reg.items == old(reg.items) + [PseudoCode(old(reg.items), "PS", n, reg.rows[t].start),
                                           PseudoCode(old(reg.items), "PE", n, reg.rows[t].end)]
    ensures codes == [(|old(reg.items)|, 0.0), (|old(reg.items)| + 1, 1.0)]
  {
    ghost var items0 := reg.items;
    var row := reg.rows[t];
    var ps := PseudoCode(reg.items, "PS", n, row.start);
    var pe := PseudoCode(reg.items, "PE", n, row.end);
    assert ps.others == [] && pe.others == [];
    var first := reg.AddFieldItem(ps);
    assert reg.items == items0 + [ps];
    var second := reg.AddFieldItem(pe);
    assert reg.items == items0 + [ps] + [pe];
    codes := [(first, 0.0), (second, 1.0)];
  }

  /** The codes of row `t` in segment order, creating the pseudo codes when it has none. */
  method PrepareRow(reg: Registry, kept: seq<(nat, real)>, t: nat) returns (chain: seq<nat>)
    requires reg.Valid() && t < |reg.rows|
    modifies reg
    ensures reg.Valid()
    ensures reg.segments == old(reg.segments) && reg.groups == old(reg.groups) && reg.rows == old(reg.rows)
    ensures EndsIn(old(reg.rows), |old(reg.items)|)
    ensures (reg.items, chain) == RowChain(old(reg.items), old(reg.rows), kept, t)
  {
    RowsEndIn(reg);
    ghost var items0 := reg.items;
    var row := reg.rows[t];
    var n := reg.RowNumber(t);
    var codes := CodesInRow(reg.items, kept, n);
    if codes == [] {
      codes := AddPseudoCodes(reg, t, n);
    }
    assert reg.items == RowItems(items0, reg.rows, kept, t);
    chain := ChainOf(row.start, row.end, row.direction, codes, |reg.items|);
  }

  /** The segments between consecutive codes of `chain`, appended to row `t` and filed. */
  method LinkRow(reg: Registry, t: nat, chain: seq<nat>, group0: seq<nat>, special0: seq<nat>)
    returns (group: seq<nat>, special: seq<nat>)
    requires reg.Valid() && t < |reg.rows| && |chain| >= 1 && AllIn(chain, |reg.items|)
    modifies reg
    ensures reg.Valid()
    ensures reg.items == old(reg.items) && reg.groups == old(reg.groups)
    ensures SegStateOf(reg, group, special) == LinkChain(SegState(old(reg.items), old(reg.segments), old(reg.rows), group0, special0), t, chain)
  {
    ghost var st0 := SegState(reg.items, reg.segments, reg.rows, group0, special0);
    group, special := group0, special0;
    var i := 0;
    while i < |chain| - 1
      invariant 0 <= i < |chain|
      invariant reg.Valid() && reg.items == old(reg.items) && reg.groups == old(reg.groups) && |reg.rows| == |old(reg.rows)|
      invariant SegStateOf(reg, group, special) == LinkChain(st0, t, chain[..i + 1])
    {
      var s := reg.AddSegmentRecord(chain[i], chain[i + 1]);
      reg.AppendRowSegment(t, s);
      if reg.items[chain[i]].kind.SingleCode? {
        special := special + [s];
      } else {
        group := group + [s];
      }
      assert chain[..i + 2][..i + 1] == chain[..i + 1];
      i := i + 1;
    }
    assert chain[..i + 1] == chain;
  }

  /** `create_segments` on one row: its codes in segment order, then its linked segments. */
  method SegmentRow(reg: Registry, kept: seq<(nat, real)>, t: nat, group0: seq<nat>, special0: seq<nat>)
    returns (group: seq<nat>, special: seq<nat>)
    requires reg.Valid() && t < |reg.rows|
    modifies reg
    ensures reg.Valid() && reg.groups == old(reg.groups)
    ensures EndsIn(old(reg.rows), |old(reg.items)|)
    ensures SegStateOf(reg, group, special)
            == RowSegments(SegState(old(reg.items), old(reg.segments), old(reg.rows), group0, special0), kept, t)
  {
    ghost var st := SegState(reg.items, reg.segments, reg.rows, group0, special0);
    var chain := PrepareRow(reg, kept, t);
    ghost var rc := RowChain(st.items, st.rows, kept, t);
    assert SegStateOf(reg, group0, special0) == st.(items := rc.0);
    group, special := LinkRow(reg, t, chain, group0, special0);
  }

  /**
   * `create_segments` with one segment list per row (`group_segments`) and `is_special`
   * read as "starts at a single code": the group and special segments, in order.
   */
  method CreateSegments(reg: Registry, kept: seq<(nat, real)>, ids: seq<nat>)
    returns (group: seq<nat>, special: seq<nat>)
    requires reg.Valid() && AllIn(ids, |reg.rows|)
    modifies reg
    ensures reg.Valid() && reg.groups == old(reg.groups)
    ensures EndsIn(old(reg.rows), |old(reg.items)|)
    ensures SegStateOf(reg, group, special)
            == CreateSegmentsFold(SegState(old(reg.items), old(reg.segments), old(reg.rows), [], []), kept, ids)
  {
    RowsEndIn(reg);
    ghost var st0 := SegState(reg.items, reg.segments, reg.rows, [], []);
    group, special := [], [];
    var k := 0;
    while k < |ids|
      invariant 0 <= k <= |ids|
      invariant reg.Valid() && reg.groups == old(reg.groups) && |reg.rows| == |old(reg.rows)|
      invariant SegStateOf(reg, group, special) == CreateSegmentsFold(st0, kept, ids[..k])
    {
      CreateSegmentsStep(st0, kept, ids, k);
      group, special := SegmentRow(reg, kept, ids[k], group, special);
      k := k + 1;
    }
    assert ids[..k] == ids;
  }

  /**
   * `create_segments` as written: `Row` has no attribute `segments`, so the first append
   * raises AttributeError. An empty row list returns two empty lists.
   */
  method CreateSegmentsAsWritten(reg: Registry, kept: seq<(nat, real)>, ids: seq<nat>)
    returns (r: Result<(seq<nat>, seq<nat>)>)
    requires reg.Valid() && AllIn(ids, |reg.rows|)
    modifies reg
    ensures reg.Valid() && reg.groups == old(reg.groups) && reg.rows == old(reg.rows)
    ensures r == if ids == [] then Ok(([], [])) else Err(AttributeError("'Row' object has no attribute 'segments'"))
    ensures ids != [] ==>
              var rc := RowChain(old(reg.items), old(reg.rows), kept, ids[0]);
              reg.items == rc.0 && reg.segments == old(reg.segments) + [NewSegment(rc.1[0], rc.1[1])]
  {
    if ids == [] {
      return Ok(([], []));
    }
    var chain := PrepareRow(reg, kept, ids[0]);
    var s := reg.AddSegmentRecord(chain[0], chain[1]);
    r := Err(AttributeError("'Row' object has no attribute 'segments'"));
  }
}
