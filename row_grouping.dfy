/**
 * Field topology, first half: row codes become rows and passes, rows get a direction, and
 * group and single codes are assigned to the nearest row.
 */
module RowGrouping {
  import opened Wrappers
  import opened Geometry
  import opened Text
  import opened Lists
  import opened Sorting
  import opened FieldItems
  import opened FieldGrouping

  // ---------------------------------------------------------------------------
  // associate_ids_to_entry_rep

  /** One line of the grouping information: (id, entry, rep). */
  type GroupingInfo = (string, string, string)

  /** The first information line whose id is `name`. */
  function FirstInfo(info: seq<GroupingInfo>, name: string): (r: Option<GroupingInfo>)
    ensures r.Some? ==> r.value in info && r.value.0 == name
    ensures r.None? <==> forall k :: 0 <= k < |info| ==> info[k].0 != name
  {
    if info == [] then None
    else if info[0].0 == name then Some(info[0])
    else FirstInfo(info[1..], name)
  }

  /** The arena after the codes, in order, take their entry and rep from their first matching line. */
  function WithEntryRep(items: seq<Item>, codes: seq<nat>, info: seq<GroupingInfo>): (res: seq<Item>)
    requires AllIn(codes, |items|)
    ensures |res| == |items|
    decreases |codes|
  {
    if codes == [] then items
    else
      var prev := WithEntryRep(items, codes[..|codes| - 1], info);
      var c := codes[|codes| - 1];
      var m := FirstInfo(info, prev[c].name);
      if m.None? then prev else prev[c := prev[c].(entry := Some(m.value.1), rep := Some(m.value.2))]
  }

  /** How many of the codes have a matching line. */
  function NumMatched(items: seq<Item>, codes: seq<nat>, info: seq<GroupingInfo>): (n: nat)
    requires AllIn(codes, |items|)
    ensures n <= |codes|
  {
    if codes == [] then 0
    else NumMatched(items, codes[..|codes| - 1], info)
         + (if FirstInfo(info, items[codes[|codes| - 1]].name).Some? then 1 else 0)
  }

  /**
   * A code with a matching line carries that line's entry and rep afterwards; every other
   * item, and every other field, is as before.
   */
  lemma {:induction false} WithEntryRepAt(items: seq<Item>, codes: seq<nat>, info: seq<GroupingInfo>, t: nat)
    requires AllIn(codes, |items|) && t < |items|
    ensures var m := FirstInfo(info, items[t].name);
            WithEntryRep(items, codes, info)[t]
            == if t in codes && m.Some? then items[t].(entry := Some(m.value.1), rep := Some(m.value.2)) else items[t]
    decreases |codes|
  {
    if codes != [] {
      var init := codes[..|codes| - 1];
      WithEntryRepAt(items, init, info, t);
      var c := codes[|codes| - 1];
      WithEntryRepAt(items, init, info, c);
      assert codes == init + [c];
    }
  }

  /** One more code: it takes its first matching line's entry and rep, and counts when it has one. */
  lemma EntryRepExtend(items: seq<Item>, codes: seq<nat>, info: seq<GroupingInfo>, k: nat)
    requires AllIn(codes, |items|) && k < |codes|
    ensures var prev := WithEntryRep(items, codes[..k], info);
            var c := codes[k];
            var m := FirstInfo(info, prev[c].name);
            prev[c].name == items[c].name
            && WithEntryRep(items, codes[..k + 1], info)
               == (if m.None? then prev else prev[c := prev[c].(entry := Some(m.value.1), rep := Some(m.value.2))])
            && NumMatched(items, codes[..k + 1], info) == NumMatched(items, codes[..k], info) + (if m.Some? then 1 else 0)
  {
    assert codes[..k + 1][..k] == codes[..k];
    WithEntryRepAt(items, codes[..k], info, codes[k]);
  }

  /** The two plain assignments `entry` then `rep` of one item. */
  lemma EntryRepAssigned(items: seq<Item>, c: nat, entry: string, rep: string)
    requires c < |items|
    ensures var once := items[c := Assign(items[c], EntryAttr(entry))];
            once[c := Assign(once[c], RepAttr(rep))] == items[c := items[c].(entry := Some(entry), rep := Some(rep))]
  {
  }

  /** One iteration of `associate_ids_to_entry_rep`, on the code `codes[k]`. */
  method EntryRepStep(reg: Registry, ghost items: seq<Item>, codes: seq<nat>, info: seq<GroupingInfo>, k: nat, matched: nat)
    returns (matched1: nat)
    requires reg.Valid() && AllIn(codes, |items|) && k < |codes| && |reg.items| == |items|
    requires reg.items == WithEntryRep(items, codes[..k], info) && matched == NumMatched(items, codes[..k], info)
    modifies reg
    ensures reg.Valid() && reg.items == WithEntryRep(items, codes[..k + 1], info)
    ensures matched1 == NumMatched(items, codes[..k + 1], info)
    ensures reg.segments == old(reg.segments) && reg.groups == old(reg.groups) && reg.rows == old(reg.rows)
  {
    EntryRepExtend(items, codes, info, k);
    var c := codes[k];
    var m := FirstInfo(info, reg.items[c].name);
    matched1 := matched;
    if m.None? {
      return;
    }
    ghost var prev := reg.items;
    AssignedPlain(reg.items, c, EntryAttr(m.value.1));
    reg.Set(c, EntryAttr(m.value.1));
    AssignedPlain(reg.items, c, RepAttr(m.value.2));
    reg.Set(c, RepAttr(m.value.2));
    EntryRepAssigned(prev, c, m.value.1, m.value.2);
    matched1 := matched + 1;
  }

  /** `associate_ids_to_entry_rep`: returns the number of codes that found a line (the printed count). */
  method AssociateIdsToEntryRep(reg: Registry, codes: seq<nat>, info: seq<GroupingInfo>) returns (matched: nat)
    requires reg.Valid() && AllIn(codes, |reg.items|)
    modifies reg
    ensures reg.Valid() && reg.items == WithEntryRep(old(reg.items), codes, info)
    ensures matched == NumMatched(old(reg.items), codes, info)
    ensures reg.segments == old(reg.segments) && reg.groups == old(reg.groups) && reg.rows == old(reg.rows)
  {
    ghost var items := reg.items;
    matched := 0;
    var k := 0;
    while k < |codes|
      invariant 0 <= k <= |codes| && reg.Valid() && |reg.items| == |items|
      invariant reg.items == WithEntryRep(items, codes[..k], info)
      invariant matched == NumMatched(items, codes[..k], info)
      invariant reg.segments == old(reg.segments) && reg.groups == old(reg.groups) && reg.rows == old(reg.rows)
    {
      matched := EntryRepStep(reg, items, codes, info, k, matched);
      k := k + 1;
    }
    assert codes[..k] == codes;
  }

  // ---------------------------------------------------------------------------
  // group_row_codes

  /** The codes whose `row` is `key`, in input order. */
  function RowBucket(items: seq<Item>, codes: seq<nat>, key: int): (r: seq<nat>)
    decreases |codes|
  {
    if codes == [] then []
    else
      var c := codes[|codes| - 1];
      RowBucket(items, codes[..|codes| - 1], key) + if c < |items| && RowOf(items[c]) == key then [c] else []
  }

  /** The dictionary built by `group_row_codes`: code lists keyed by `row`. */
  function GroupedByRow(items: seq<Item>, codes: seq<nat>): (m: map<int, seq<nat>>)
    requires AllIn(codes, |items|)
    ensures forall key :: key in m ==> m[key] != []
    decreases |codes|
  {
    if codes == [] then map[]
    else
      var m := GroupedByRow(items, codes[..|codes| - 1]);
      var c := codes[|codes| - 1];
      var key := RowOf(items[c]);
      m[key := (if key in m then m[key] else []) + [c]]
  }

  /**
   * There is a bucket for exactly the rows some code has, and each bucket holds exactly the
   * codes of its row, in input order: every code is in one bucket, the one of its own row.
   */
  lemma {:induction false} GroupedByRowBuckets(items: seq<Item>, codes: seq<nat>, key: int)
    requires AllIn(codes, |items|)
    ensures key in GroupedByRow(items, codes) <==> exists j :: 0 <= j < |codes| && RowOf(items[codes[j]]) == key
    ensures key in GroupedByRow(items, codes) ==> GroupedByRow(items, codes)[key] == RowBucket(items, codes, key)
    decreases |codes|
  {
    if codes != [] {
      var init, c := codes[..|codes| - 1], codes[|codes| - 1];
      GroupedByRowBuckets(items, init, key);
      assert codes == init + [c];
      forall j | 0 <= j < |init| ensures init[j] == codes[j] {
      }
      if key !in GroupedByRow(items, init) {
        RowBucketEmpty(items, init, key);
      }
    }
  }

  /** No code of `codes` has row `key`: its bucket is empty. */
  lemma {:induction false} RowBucketEmpty(items: seq<Item>, codes: seq<nat>, key: int)
    requires AllIn(codes, |items|)
    requires forall j :: 0 <= j < |codes| ==> RowOf(items[codes[j]]) != key
    ensures RowBucket(items, codes, key) == []
    decreases |codes|
  {
    if codes != [] {
      var init := codes[..|codes| - 1];
      forall j | 0 <= j < |init| ensures init[j] == codes[j] {
      }
      RowBucketEmpty(items, init, key);
    }
  }

  /** `group_row_codes`. */
  method GroupRowCodes(items: seq<Item>, codes: seq<nat>) returns (m: map<int, seq<nat>>)
    requires AllIn(codes, |items|)
    ensures m == GroupedByRow(items, codes)
  {
    m := map[];
    var k := 0;
    while k < |codes|
      invariant 0 <= k <= |codes|
      invariant m == GroupedByRow(items, codes[..k])
    {
      assert codes[..k + 1][..k] == codes[..k];
      var c := codes[k];
      assert codes[..k + 1][k] == c;
      var key := RowOf(items[c]);
      if key in m {
        m := m[key := m[key] + [c]];
      } else {
        assert [] + [c] == [c];
        m := m[key := [c]];
      }
      k := k + 1;
    }
    assert codes[..k] == codes;
  }

  // ---------------------------------------------------------------------------
  // group_row_codes_by_pass_name

  /** `name[3:5].lower()`: the 'st' or 'en' part of a pass code's name. */
  function PassPart(name: string): string {
    Lower(Slice(name, 3, 5))
  }

  /** `name[-1].lower()`: the side letter of a pass code; an empty name raises IndexError. */
  function SideOf(name: string): (r: Result<string>)
    ensures r.Ok? <==> |name| > 0
    ensures r.Ok? ==> r.value == [LowerChar(name[|name| - 1])]
  {
    var c := At(name, -1);
    if c.Err? then Err(c.error) else Ok([LowerChar(c.value)])
  }

  /** What the pairing reads of one code: its `row`, its side letter and its 'st'/'en' part. */
  datatype PassFacts = PassFacts(row: int, side: Result<string>, dir: string)

  /** The facts of every list entry, in list order. */
  function Facts(items: seq<Item>, codes: seq<nat>): (f: seq<PassFacts>)
    requires AllIn(codes, |items|)
    ensures |f| == |codes|
    ensures forall k :: 0 <= k < |codes| ==>
              f[k] == PassFacts(RowOf(items[codes[k]]), SideOf(items[codes[k]].name), PassPart(items[codes[k]].name))
  {
    seq(|codes|, k requires 0 <= k < |codes| =>
      PassFacts(RowOf(items[codes[k]]), SideOf(items[codes[k]].name), PassPart(items[codes[k]].name)))
  }

  /** The list entries of the given pairs of positions, pair by pair. */
  function Members(ps: seq<(nat, nat)>): seq<nat>
  {
    if ps == [] then [] else Members(ps[..|ps| - 1]) + [ps[|ps| - 1].0, ps[|ps| - 1].1]
  }

  lemma MembersAppend(ps: seq<(nat, nat)>, p: (nat, nat))
    ensures Members(ps + [p]) == Members(ps) + [p.0, p.1]
  {
    assert (ps + [p])[..|ps|] == ps;
  }

  lemma DistinctAppendTwo(u: seq<nat>, a: nat, b: nat)
    requires Distinct(u) && a !in u && b !in u && a != b
    ensures Distinct(u + [a, b])
  {
    var v := u + [a, b];
    forall i, j | 0 <= i < j < |v| ensures v[i] != v[j] {
      if j < |u| {
      } else if i < |u| {
        assert v[i] in u;
      }
    }
  }

  /** Entries `x` and `y` are codes of one pass: the same row and the same (readable) side letter. */
  predicate SamePass(f: seq<PassFacts>, x: nat, y: nat)
    requires x < |f| && y < |f|
  {
    f[x].row == f[y].row && f[x].side.Ok? && f[x].side == f[y].side
  }

  /**
   * The pairs found: each is (start code, end code) of one pass, and no list entry takes part
   * in two pairs (`pos` holds the list positions of each pair).
   */
  predicate WellPaired(f: seq<PassFacts>, codes: seq<nat>, pairs: seq<(nat, nat)>, pos: seq<(nat, nat)>)
    requires |f| == |codes|
  {
    |pos| == |pairs| && Distinct(Members(pos))
    && forall k :: 0 <= k < |pos| ==>
      pos[k].0 < |codes| && pos[k].1 < |codes| && pairs[k] == (codes[pos[k].0], codes[pos[k].1])
      && SamePass(f, pos[k].0, pos[k].1) && f[pos[k].0].dir == "st" && f[pos[k].1].dir == "en"
  }

  /** One more (start, end) pair of unused positions keeps the pairs well formed. */
  lemma WellPairedAppend(f: seq<PassFacts>, codes: seq<nat>, pairs: seq<(nat, nat)>, pos: seq<(nat, nat)>, a: nat, b: nat)
    requires |f| == |codes| && WellPaired(f, codes, pairs, pos)
    requires a < |codes| && b < |codes| && a != b && a !in Members(pos) && b !in Members(pos)
    requires SamePass(f, a, b) && f[a].dir == "st" && f[b].dir == "en"
    ensures WellPaired(f, codes, pairs + [(codes[a], codes[b])], pos + [(a, b)])
  {
    MembersAppend(pos, (a, b));
    DistinctAppendTwo(Members(pos), a, b);
  }

  /** One 'st' and one 'en' part, in either order. */
  predicate StartAndEnd(dir: string, otherDir: string) {
    (dir == "st" && otherDir == "en") || (otherDir == "st" && dir == "en")
  }

  /** The state of the scan: `paired_codes`, `grouped_codes`, and the list positions of each pair. */
  datatype PairScan = PairScan(paired: seq<bool>, grouped: seq<(nat, nat)>, pos: seq<(nat, nat)>)

  /** `[False] * n`. */
  function NonePaired(n: nat): (r: seq<bool>)
    ensures |r| == n && forall k :: 0 <= k < n ==> !r[k]
  {
    seq(n, _ => false)
  }

  /**
   * The turn of the inner loop for entry `j` while entry `i` is being paired. It exits on a
   * second match for `i`, on two codes of the same kind, and on a pair that is not one 'st'
   * and one 'en'; an empty name raises IndexError.
   */
  function InnerStep(f: seq<PassFacts>, codes: seq<nat>, i: nat, j: nat, st: PairScan): (r: Result<PairScan>)
    requires |f| == |codes| && i < |codes| && j < |codes| && |st.paired| == |codes| && f[i].side.Ok?
    ensures r.Ok? ==> |r.value.paired| == |codes|
  {
    if st.paired[j] || i == j then Ok(st)
    else if f[j].side.Err? then Err(f[j].side.error)
    else if !SamePass(f, i, j) then Ok(st)
    else if st.paired[i] then Err(Exit(-1, "Found multiple matches for code"))
    else if f[i].dir == f[j].dir then Err(Exit(-1, "Found duplicates pass codes"))
    else if f[i].dir == "st" && f[j].dir == "en" then
      Ok(PairScan(st.paired[i := true][j := true], st.grouped + [(codes[i], codes[j])], st.pos + [(i, j)]))
    else if f[j].dir == "st" && f[i].dir == "en" then
      Ok(PairScan(st.paired[i := true][j := true], st.grouped + [(codes[j], codes[i])], st.pos + [(j, i)]))
    else Err(Exit(-1, "Bad pass code formats, should be one 'st' and one 'en'"))
  }

  /** The inner loop for entry `i` from entry `j` on, in state `st`; the first error stops it. */
  function InnerFrom(f: seq<PassFacts>, codes: seq<nat>, i: nat, j: nat, st: PairScan): (r: Result<PairScan>)
    requires |f| == |codes| && i < |codes| && j <= |codes| && |st.paired| == |codes| && f[i].side.Ok?
    ensures r.Ok? ==> |r.value.paired| == |codes|
    decreases |codes| - j
  {
    if j == |codes| then Ok(st)
    else
      var r := InnerStep(f, codes, i, j, st);
      if r.Err? then r else InnerFrom(f, codes, i, j + 1, r.value)
  }

  /** The turn of the outer loop for entry `i`: nothing when it is paired, else its side and the inner loop. */
  function OuterStep(f: seq<PassFacts>, codes: seq<nat>, i: nat, st: PairScan): (r: Result<PairScan>)
    requires |f| == |codes| && i < |codes| && |st.paired| == |codes|
    ensures r.Ok? ==> |r.value.paired| == |codes|
  {
    if st.paired[i] then Ok(st)
    else if f[i].side.Err? then Err(f[i].side.error)
    else InnerFrom(f, codes, i, 0, st)
  }

  /** The outer loop from entry `i` on, in state `st`; the first error stops it. */
  function OuterFrom(f: seq<PassFacts>, codes: seq<nat>, i: nat, st: PairScan): (r: Result<PairScan>)
    requires |f| == |codes| && i <= |codes| && |st.paired| == |codes|
    ensures r.Ok? ==> |r.value.paired| == |codes|
    decreases |codes| - i
  {
    if i == |codes| then Ok(st)
    else
      var r := OuterStep(f, codes, i, st);
      if r.Err? then r else OuterFrom(f, codes, i + 1, r.value)
  }

  /** The whole scan of `group_row_codes_by_pass_name`, from no code paired and no pair. */
  function Scan(items: seq<Item>, codes: seq<nat>): (r: Result<PairScan>)
    requires AllIn(codes, |items|)
    ensures r.Ok? ==> |r.value.paired| == |codes|
  {
    OuterFrom(Facts(items, codes), codes, 0, PairScan(NonePaired(|codes|), [], []))
  }

  /** What `group_row_codes_by_pass_name` returns: the (start, end) pairs, or why it stops. */
  function PassPairs(items: seq<Item>, codes: seq<nat>): Result<seq<(nat, nat)>>
    requires AllIn(codes, |items|)
  {
    var r := Scan(items, codes);
    if r.Err? then Err(r.error) else Ok(r.value.grouped)
  }

  /**
   * A turn of the inner loop stops the program exactly when entry `j` is unpaired and not `i`,
   * and either its name is empty or it shares the pass of `i` while `i` is already paired, or
   * has the same kind of code, or the two are not one 'st' and one 'en'.
   */
  lemma InnerStepErr(f: seq<PassFacts>, codes: seq<nat>, i: nat, j: nat, st: PairScan)
    requires |f| == |codes| && i < |codes| && j < |codes| && |st.paired| == |codes| && f[i].side.Ok?
    ensures InnerStep(f, codes, i, j, st).Err? <==>
              !st.paired[j] && i != j
              && (f[j].side.Err?
                  || (SamePass(f, i, j) && (st.paired[i] || f[i].dir == f[j].dir || !StartAndEnd(f[i].dir, f[j].dir))))
  { }

  // The pairing is complete: an entry that shares a pass with another ends up paired.

  /** Every pair has an entry below `n`: the entry the outer loop was at when it was made. */
  predicate Anchored(pos: seq<(nat, nat)>, n: nat) {
    forall k :: 0 <= k < |pos| ==> pos[k].0 < n || pos[k].1 < n
  }

  /** Every entry below `n` that shares a pass with another is paired, and so is the other. */
  predicate Closed(f: seq<PassFacts>, paired: seq<bool>, n: nat)
    requires |paired| == |f| && n <= |f|
  {
    forall x, y :: 0 <= x < n && 0 <= y < |f| && x != y && SamePass(f, x, y) ==> paired[x] && paired[y]
  }

  /** The pairs are well formed, and the paired entries are exactly those in a pair. */
  predicate Consistent(f: seq<PassFacts>, codes: seq<nat>, st: PairScan)
    requires |f| == |codes|
  {
    |st.paired| == |codes| && WellPaired(f, codes, st.grouped, st.pos)
    && forall m :: 0 <= m < |codes| ==> (st.paired[m] <==> m in Members(st.pos))
  }

  /** What holds between turns of the outer loop, before entry `n`. */
  predicate OuterSound(f: seq<PassFacts>, codes: seq<nat>, st: PairScan, n: nat)
    requires |f| == |codes| && n <= |codes|
  {
    Consistent(f, codes, st) && Anchored(st.pos, n) && Closed(f, st.paired, n)
  }

  /** What holds in the inner loop for entry `i` once the first `m` entries are scanned. */
  predicate InnerSound(f: seq<PassFacts>, codes: seq<nat>, i: nat, st: PairScan, m: nat)
    requires |f| == |codes| && i < |codes| && m <= |codes|
  {
    Consistent(f, codes, st) && Anchored(st.pos, i + 1) && Closed(f, st.paired, i)
    && forall y :: 0 <= y < m && y != i && SamePass(f, i, y) ==> st.paired[i] && st.paired[y]
  }

  lemma MemberPair(pos: seq<(nat, nat)>, m: nat) returns (k: nat)
    requires m in Members(pos)
    ensures k < |pos| && (pos[k].0 == m || pos[k].1 == m)
    decreases |pos|
  {
    var n := |pos| - 1;
    if m in Members(pos[..n]) {
      k := MemberPair(pos[..n], m);
      assert pos[..n][k] == pos[k];
    } else {
      k := n;
    }
  }

  lemma {:induction false} PairMembers(pos: seq<(nat, nat)>, k: nat)
    requires k < |pos|
    ensures pos[k].0 in Members(pos) && pos[k].1 in Members(pos)
    decreases |pos|
  {
    var n := |pos| - 1;
    if k < n {
      PairMembers(pos[..n], k);
      assert pos[..n][k] == pos[k];
    }
  }

  /** The two ends of a pair are distinct entries sharing a pass. */
  lemma PairSamePass(f: seq<PassFacts>, codes: seq<nat>, st: PairScan, k: nat)
    requires |f| == |codes| && Consistent(f, codes, st) && k < |st.pos|
    ensures st.pos[k].0 < |codes| && st.pos[k].1 < |codes| && st.pos[k].0 != st.pos[k].1
    ensures SamePass(f, st.pos[k].0, st.pos[k].1) && SamePass(f, st.pos[k].1, st.pos[k].0)
  {
    PairMembers(st.pos, k);
  }

  /** Sharing a pass is transitive between distinct entries. */
  lemma SamePassTrans(f: seq<PassFacts>, x: nat, y: nat, z: nat)
    requires x < |f| && y < |f| && z < |f| && SamePass(f, x, y) && SamePass(f, y, z)
    ensures SamePass(f, x, z) && SamePass(f, z, x)
  { }

  /** A paired entry sharing a pass with `i` means `i` is paired too, before the inner loop for `i` ends. */
  lemma PartnerPaired(f: seq<PassFacts>, codes: seq<nat>, st: PairScan, i: nat, m: nat)
    requires |f| == |codes| && i < |codes| && m < |codes| && i != m
    requires Consistent(f, codes, st) && Anchored(st.pos, i + 1) && Closed(f, st.paired, i)
    requires st.paired[m] && SamePass(f, i, m)
    ensures st.paired[i]
  {
    var k := MemberPair(st.pos, m);
    PairSamePass(f, codes, st, k);
    PairMembers(st.pos, k);
    var a, b := st.pos[k].0, st.pos[k].1;
    if a != i && b != i {
      var e := if a < i + 1 then a else b;
      SamePassTrans(f, m, i, i);
      if e == m {
        assert SamePass(f, m, i);
      } else {
        SamePassTrans(f, e, m, i);
      }
    }
  }

  /** An entry already paired when the outer loop reaches it has its whole pass paired. */
  lemma PairedClosed(f: seq<PassFacts>, codes: seq<nat>, st: PairScan, i: nat)
    requires |f| == |codes| && i < |codes| && OuterSound(f, codes, st, i) && st.paired[i]
    ensures OuterSound(f, codes, st, i + 1)
  {
    var k := MemberPair(st.pos, i);
    PairSamePass(f, codes, st, k);
    PairMembers(st.pos, k);
    var e := if st.pos[k].0 == i then st.pos[k].1 else st.pos[k].0;
    assert e < i && SamePass(f, e, i);
    forall y | 0 <= y < |codes| && y != i && SamePass(f, i, y) ensures st.paired[y] {
      if y != e {
        SamePassTrans(f, e, i, y);
      }
    }
  }

  /** Marking more entries keeps a prefix closed. */
  lemma ClosedGrows(f: seq<PassFacts>, paired: seq<bool>, paired': seq<bool>, n: nat)
    requires |paired| == |f| && |paired'| == |f| && n <= |f|
    requires Closed(f, paired, n) && forall k :: 0 <= k < |f| && paired[k] ==> paired'[k]
    ensures Closed(f, paired', n)
  { }

  /** Pairing the unpaired entries `a` and `b`, one of them `i` and the other `m`, keeps the inner loop's facts. */
  lemma InnerPairSound(f: seq<PassFacts>, codes: seq<nat>, i: nat, m: nat, st: PairScan, a: nat, b: nat, st': PairScan)
    requires |f| == |codes| && i < |codes| && m < |codes| && i != m
    requires InnerSound(f, codes, i, st, m) && !st.paired[i] && !st.paired[m]
    requires (a == i && b == m) || (a == m && b == i)
    requires SamePass(f, a, b) && f[a].dir == "st" && f[b].dir == "en"
    requires st' == PairScan(st.paired[i := true][m := true], st.grouped + [(codes[a], codes[b])], st.pos + [(a, b)])
    ensures InnerSound(f, codes, i, st', m + 1)
  {
    WellPairedAppend(f, codes, st.grouped, st.pos, a, b);
    MembersAppend(st.pos, (a, b));
    ClosedGrows(f, st.paired, st'.paired, i);
  }

  /** A turn that changes nothing keeps the inner loop's facts. */
  lemma InnerSkipSound(f: seq<PassFacts>, codes: seq<nat>, i: nat, m: nat, st: PairScan)
    requires |f| == |codes| && i < |codes| && m < |codes|
    requires InnerSound(f, codes, i, st, m) && (st.paired[m] || i == m || !SamePass(f, i, m))
    ensures InnerSound(f, codes, i, st, m + 1)
  {
    if i != m && st.paired[m] && SamePass(f, i, m) {
      PartnerPaired(f, codes, st, i, m);
    }
  }

  lemma InnerStepSound(f: seq<PassFacts>, codes: seq<nat>, i: nat, m: nat, st: PairScan, r: Result<PairScan>)
    requires |f| == |codes| && i < |codes| && m < |codes| && f[i].side.Ok?
    requires InnerSound(f, codes, i, st, m) && r == InnerStep(f, codes, i, m, st) && r.Ok?
    ensures InnerSound(f, codes, i, r.value, m + 1)
  {
    if st.paired[m] || i == m || !SamePass(f, i, m) {
      InnerSkipSound(f, codes, i, m, st);
    } else if f[i].dir == "st" && f[m].dir == "en" {
      InnerPairSound(f, codes, i, m, st, i, m, r.value);
    } else {
      InnerPairSound(f, codes, i, m, st, m, i, r.value);
    }
  }

  lemma InnerFromNext(f: seq<PassFacts>, codes: seq<nat>, i: nat, j: nat, st: PairScan, r: Result<PairScan>)
    requires |f| == |codes| && i < |codes| && j < |codes| && |st.paired| == |codes| && f[i].side.Ok?
    requires r == InnerStep(f, codes, i, j, st)
    ensures InnerFrom(f, codes, i, j, st) == if r.Err? then r else InnerFrom(f, codes, i, j + 1, r.value)
  { }

  /** One turn of the inner loop: how the rest of the loop continues, and that it keeps the inner loop's facts. */
  lemma InnerTurnSound(f: seq<PassFacts>, codes: seq<nat>, i: nat, j: nat, st: PairScan) returns (r: Result<PairScan>)
    requires |f| == |codes| && i < |codes| && j < |codes| && f[i].side.Ok? && InnerSound(f, codes, i, st, j)
    ensures r.Ok? ==> |r.value.paired| == |codes|
    ensures InnerFrom(f, codes, i, j, st) == if r.Err? then r else InnerFrom(f, codes, i, j + 1, r.value)
    ensures r.Ok? ==> InnerSound(f, codes, i, r.value, j + 1)
  {
    r := InnerStep(f, codes, i, j, st);
    InnerFromNext(f, codes, i, j, st, r);
    if r.Ok? {
      InnerStepSound(f, codes, i, j, st, r);
    }
  }

  lemma {:induction false} InnerSoundFrom(f: seq<PassFacts>, codes: seq<nat>, i: nat, j: nat, st: PairScan, res: Result<PairScan>)
    requires |f| == |codes| && i < |codes| && j <= |codes| && f[i].side.Ok?
    requires InnerSound(f, codes, i, st, j)
    requires res == InnerFrom(f, codes, i, j, st) && res.Ok?
    ensures InnerSound(f, codes, i, res.value, |codes|)
    decreases |codes| - j
  {
    if j < |codes| {
      var r := InnerTurnSound(f, codes, i, j, st);
      InnerSoundFrom(f, codes, i, j + 1, r.value, res);
    }
  }

  lemma OuterStepSound(f: seq<PassFacts>, codes: seq<nat>, i: nat, st: PairScan, r: Result<PairScan>)
    requires |f| == |codes| && i < |codes| && OuterSound(f, codes, st, i)
    requires r == OuterStep(f, codes, i, st) && r.Ok?
    ensures OuterSound(f, codes, r.value, i + 1)
  {
    if st.paired[i] {
      PairedClosed(f, codes, st, i);
    } else {
      InnerSoundFrom(f, codes, i, 0, st, r);
    }
  }

  lemma OuterFromNext(f: seq<PassFacts>, codes: seq<nat>, i: nat, st: PairScan, r: Result<PairScan>)
    requires |f| == |codes| && i < |codes| && |st.paired| == |codes| && r == OuterStep(f, codes, i, st)
    ensures OuterFrom(f, codes, i, st) == if r.Err? then r else OuterFrom(f, codes, i + 1, r.value)
  { }

  /** One turn of the outer loop: how the rest of the scan continues, and that it keeps the outer loop's facts. */
  lemma OuterTurnSound(f: seq<PassFacts>, codes: seq<nat>, i: nat, st: PairScan) returns (r: Result<PairScan>)
    requires |f| == |codes| && i < |codes| && OuterSound(f, codes, st, i)
    ensures r.Ok? ==> |r.value.paired| == |codes|
    ensures OuterFrom(f, codes, i, st) == if r.Err? then r else OuterFrom(f, codes, i + 1, r.value)
    ensures r.Ok? ==> OuterSound(f, codes, r.value, i + 1)
  {
    r := OuterStep(f, codes, i, st);
    OuterFromNext(f, codes, i, st, r);
    if r.Ok? {
      OuterStepSound(f, codes, i, st, r);
    }
  }

  lemma {:induction false} OuterSoundFrom(f: seq<PassFacts>, codes: seq<nat>, i: nat, st: PairScan, res: Result<PairScan>)
    requires |f| == |codes| && i <= |codes| && OuterSound(f, codes, st, i)
    requires res == OuterFrom(f, codes, i, st) && res.Ok?
    ensures OuterSound(f, codes, res.value, |codes|)
    decreases |codes| - i
  {
    if i < |codes| {
      var r := OuterTurnSound(f, codes, i, st);
      OuterSoundFrom(f, codes, i + 1, r.value, res);
    }
  }

  /**
   * When `group_row_codes_by_pass_name` returns, every pair is a start and an end code of one
   * pass, no code is in two pairs, and every code sharing its row and side letter with another
   * code is in a pair.
   */
  lemma PassPairsComplete(items: seq<Item>, codes: seq<nat>)
    requires AllIn(codes, |items|)
    ensures PassPairs(items, codes).Ok? ==>
              var f, pos := Facts(items, codes), Scan(items, codes).value.pos;
              WellPaired(f, codes, PassPairs(items, codes).value, pos)
              && forall x, y :: 0 <= x < |codes| && 0 <= y < |codes| && x != y && SamePass(f, x, y) ==>
                   x in Members(pos) && y in Members(pos)
  {
    var f, st := Facts(items, codes), PairScan(NonePaired(|codes|), [], []);
    assert Members(st.pos) == [];
    var res := Scan(items, codes);
    if res.Ok? {
      OuterSoundFrom(f, codes, 0, st, res);
    }
  }

  /** One turn of the inner loop of `group_row_codes_by_pass_name`: entry `i` meets entry `j`. */
  method InnerTurn(items: seq<Item>, codes: seq<nat>, paired: array<bool>, i: nat, j: nat,
                   grouped0: seq<(nat, nat)>, ghost pos0: seq<(nat, nat)>)
    returns (r: Result<()>, grouped: seq<(nat, nat)>, ghost pos: seq<(nat, nat)>)
    requires AllIn(codes, |items|) && paired.Length == |codes| && i < |codes| && j < |codes|
    requires Facts(items, codes)[i].side.Ok?
    modifies paired
    ensures InnerStep(Facts(items, codes), codes, i, j, PairScan(old(paired[..]), grouped0, pos0))
            == if r.Ok? then Ok(PairScan(paired[..], grouped, pos)) else Err(r.error)
    ensures InnerFrom(Facts(items, codes), codes, i, j, PairScan(old(paired[..]), grouped0, pos0))
            == if r.Ok? then InnerFrom(Facts(items, codes), codes, i, j + 1, PairScan(paired[..], grouped, pos)) else Err(r.error)
  {
    ghost var f := Facts(items, codes);
    InnerFromNext(f, codes, i, j, PairScan(paired[..], grouped0, pos0), InnerStep(f, codes, i, j, PairScan(paired[..], grouped0, pos0)));
    grouped, pos := grouped0, pos0;
    if paired[j] || i == j {
      return Ok(()), grouped, pos;  // already paired, or the code itself
    }
    var code, other := codes[i], codes[j];
    var dir, otherDir := PassPart(items[code].name), PassPart(items[other].name);
    var side, otherSide := SideOf(items[code].name), SideOf(items[other].name);
    assert f[i] == PassFacts(RowOf(items[code]), side, dir);
    assert f[j] == PassFacts(RowOf(items[other]), otherSide, otherDir);
    if otherSide.Err? {
      return Err(otherSide.error), grouped, pos;
    }
    if RowOf(items[code]) != RowOf(items[other]) || side.value != otherSide.value {
      return Ok(()), grouped, pos;
    }
    if paired[i] {
      return Err(Exit(-1, "Found multiple matches for code")), grouped, pos;
    }
    if dir == otherDir {
      return Err(Exit(-1, "Found duplicates pass codes")), grouped, pos;
    }
    // The start code goes first in the pair.
    if dir == "st" && otherDir == "en" {
      grouped, pos := grouped + [(code, other)], pos + [(i, j)];
    } else if otherDir == "st" && dir == "en" {
      grouped, pos := grouped + [(other, code)], pos + [(j, i)];
    } else {
      return Err(Exit(-1, "Bad pass code formats, should be one 'st' and one 'en'")), grouped, pos;
    }
    paired[i] := true;
    paired[j] := true;
    assert paired[..] == old(paired[..])[i := true][j := true];
    r := Ok(());
  }

  /**
   * The inner loop of `group_row_codes_by_pass_name` for the unpaired entry `i`: pairs it
   * with the unpaired entry of the same pass.
   */
  method PairEntry(items: seq<Item>, codes: seq<nat>, paired: array<bool>, i: nat, grouped0: seq<(nat, nat)>, ghost pos0: seq<(nat, nat)>)
    returns (r: Result<()>, grouped: seq<(nat, nat)>, ghost pos: seq<(nat, nat)>)
    requires AllIn(codes, |items|) && paired.Length == |codes| && i < |codes| && !paired[i]
    modifies paired
    ensures OuterStep(Facts(items, codes), codes, i, PairScan(old(paired[..]), grouped0, pos0))
            == if r.Ok? then Ok(PairScan(paired[..], grouped, pos)) else Err(r.error)
  {
    ghost var f := Facts(items, codes);
    grouped, pos := grouped0, pos0;
    var side := SideOf(items[codes[i]].name);
    assert f[i].side == side;
    if side.Err? {
      return Err(side.error), grouped, pos;
    }
    ghost var target := InnerFrom(f, codes, i, 0, PairScan(paired[..], grouped, pos));
    var j := 0;
    while j < |codes|
      invariant 0 <= j <= |codes|
      invariant target == InnerFrom(f, codes, i, j, PairScan(paired[..], grouped, pos))
    {
      var turn;
      turn, grouped, pos := InnerTurn(items, codes, paired, i, j, grouped, pos);
      if turn.Err? {
        return turn, grouped, pos;
      }
      j := j + 1;
    }
    r := Ok(());
  }

  /**
   * `group_row_codes_by_pass_name`: pairs each unpaired code with the unpaired codes of the
   * same pass number and side; a second match, two codes of the same kind, or a pair that is
   * not one 'st' and one 'en' exits the program.
   */
  method GroupRowCodesByPassName(items: seq<Item>, codes: seq<nat>) returns (r: Result<seq<(nat, nat)>>)
    requires AllIn(codes, |items|)
    ensures r == PassPairs(items, codes)
  {
    var paired := new bool[|codes|](_ => false);
    var grouped: seq<(nat, nat)> := [];
    ghost var pos: seq<(nat, nat)> := [];
    ghost var f := Facts(items, codes);
    assert paired[..] == NonePaired(|codes|);
    var i := 0;
    while i < |codes|
      invariant 0 <= i <= |codes| && paired.Length == |codes|
      invariant Scan(items, codes) == OuterFrom(f, codes, i, PairScan(paired[..], grouped, pos))
    {
      ghost var st := PairScan(paired[..], grouped, pos);
      OuterFromNext(f, codes, i, st, OuterStep(f, codes, i, st));
      if !paired[i] {
        var step;
        step, grouped, pos := PairEntry(items, codes, paired, i, grouped, pos);
        if step.Err? {
          return Err(step.error);
        }
      }
      i := i + 1;
    }
    r := Ok(grouped);
  }

  // ---------------------------------------------------------------------------
  // create_rows

  /** `degrees(atan2(dy, dx))` from the first position to the second. */
  type BearingFn = (Point, Point) -> real

  /** The default `thresh` of `orient_items`. */
  const OrientThreshold: real := 45.0

  /** `orient_items(a, b, direction)` on two codes of the arena. */
  function Orient(items: seq<Item>, a: nat, b: nat, direction: real, bearing: BearingFn): (r: (Option<nat>, Option<nat>))
    requires RefsValid(items) && a < |items| && b < |items|
    ensures r == (None, None) || r == (Some(a), Some(b)) || r == (Some(b), Some(a))
  {
    OrientItems(a, b, bearing(Position(items, a), Position(items, b)), direction, OrientThreshold)
  }

  predicate BucketsIn(grouped: map<int, seq<nat>>, keys: seq<int>, n: nat) {
    forall k :: 0 <= k < |keys| ==> keys[k] in grouped && AllIn(grouped[keys[k]], n)
  }

  /** The row `create_rows` makes from one bucket: none unless it holds two codes that can be oriented. */
  function BucketRow(items: seq<Item>, codes: seq<nat>, direction: real, bearing: BearingFn): (res: seq<Row>)
    requires RefsValid(items) && AllIn(codes, |items|)
    ensures |res| <= 1 && forall k :: 0 <= k < |res| ==> RowFits(res[k], |items|, 0)
  {
    if |codes| != 2 then []
    else
      var o := Orient(items, codes[0], codes[1], direction, bearing);
      if o.0.Some? && o.1.Some? then [NewRow(o.0.value, o.1.value, NoDirection, None)] else []
  }

  /** The rows `create_rows` makes, visiting the buckets in the order `keys`. */
  function NewRows(items: seq<Item>, grouped: map<int, seq<nat>>, keys: seq<int>, direction: real, bearing: BearingFn): (res: seq<Row>)
    requires RefsValid(items) && BucketsIn(grouped, keys, |items|)
    ensures |res| <= |keys|
    ensures forall k :: 0 <= k < |res| ==> RowFits(res[k], |items|, 0)
    decreases |keys|
  {
    if keys == [] then []
    else
      NewRows(items, grouped, keys[..|keys| - 1], direction, bearing)
      + BucketRow(items, grouped[keys[|keys| - 1]], direction, bearing)
  }

  /** A row made from the bucket `key`: two codes, oriented into the row's start and end. */
  predicate FromBucket(items: seq<Item>, grouped: map<int, seq<nat>>, key: int, row: Row, direction: real, bearing: BearingFn)
    requires RefsValid(items) && key in grouped && AllIn(grouped[key], |items|)
  {
    var codes := grouped[key];
    |codes| == 2 && ((row.start, row.end) == (codes[0], codes[1]) || (row.start, row.end) == (codes[1], codes[0]))
    && Orient(items, codes[0], codes[1], direction, bearing) == (Some(row.start), Some(row.end))
  }

  /**
   * Every new row comes from a bucket of exactly two codes that could be oriented, holds those
   * two codes as its start and end, and has no direction and no segments yet.
   */
  lemma {:induction false} NewRowsFromPairs(items: seq<Item>, grouped: map<int, seq<nat>>, keys: seq<int>, direction: real, bearing: BearingFn, t: nat)
    requires RefsValid(items) && BucketsIn(grouped, keys, |items|)
    requires t < |NewRows(items, grouped, keys, direction, bearing)|
    ensures var row := NewRows(items, grouped, keys, direction, bearing)[t];
            (exists k :: 0 <= k < |keys| && FromBucket(items, grouped, keys[k], row, direction, bearing))
            && row.direction == NoDirection && row.groupSegments == []
    decreases |keys|
  {
    var init := keys[..|keys| - 1];
    var prev := NewRows(items, grouped, init, direction, bearing);
    var row := NewRows(items, grouped, keys, direction, bearing)[t];
    if t < |prev| {
      NewRowsFromPairs(items, grouped, init, direction, bearing, t);
      assert row == prev[t];
      var k :| 0 <= k < |init| && FromBucket(items, grouped, init[k], row, direction, bearing);
      assert keys[k] == init[k];
    } else {
      assert FromBucket(items, grouped, keys[|keys| - 1], row, direction, bearing);
    }
  }

  /** The rows from one more bucket are its row, if any, after the rows so far. */
  lemma NewRowsStep(items: seq<Item>, grouped: map<int, seq<nat>>, keys: seq<int>, k: nat, direction: real, bearing: BearingFn)
    requires RefsValid(items) && BucketsIn(grouped, keys, |items|) && k < |keys|
    ensures BucketsIn(grouped, keys[..k], |items|) && BucketsIn(grouped, keys[..k + 1], |items|)
    ensures keys[k] in grouped && AllIn(grouped[keys[k]], |items|)
    ensures NewRows(items, grouped, keys[..k + 1], direction, bearing)
            == NewRows(items, grouped, keys[..k], direction, bearing) + BucketRow(items, grouped[keys[k]], direction, bearing)
  {
    assert keys[..k + 1][..k] == keys[..k];
    assert keys[..k + 1][k] == keys[k];
  }

  /** One bucket of `create_rows`: the row of two codes oriented by the field direction, if any. */
  method CreateRow(reg: Registry, codes: seq<nat>, direction: real, bearing: BearingFn)
    requires reg.Valid() && AllIn(codes, |reg.items|)
    modifies reg
    ensures reg.Valid()
    ensures reg.items == old(reg.items) && reg.segments == old(reg.segments) && reg.groups == old(reg.groups)
    ensures reg.rows == old(reg.rows) + BucketRow(old(reg.items), codes, direction, bearing)
  {
    if |codes| != 2 {
      return;  // one code, or more than two: reported only
    }
    var o := Orient(reg.items, codes[0], codes[1], direction, bearing);
    if o.0.Some? && o.1.Some? {
      var row := NewRow(o.0.value, o.1.value, NoDirection, None);
      assert RowFits(row, |reg.items|, |reg.segments|);
      var _ := reg.AddRowRecord(row);
    }
  }

  /** `create_rows`: returns the new rows' indices. */
  method CreateRows(reg: Registry, grouped: map<int, seq<nat>>, keys: seq<int>, direction: real, bearing: BearingFn)
    returns (created: seq<nat>)
    requires reg.Valid() && BucketsIn(grouped, keys, |reg.items|)
    requires (forall k :: k in grouped <==> k in keys) && Distinct(keys)  // `iteritems` visits each key once
    modifies reg
    ensures reg.Valid()
    ensures reg.items == old(reg.items) && reg.segments == old(reg.segments) && reg.groups == old(reg.groups)
    ensures reg.rows == old(reg.rows) + NewRows(old(reg.items), grouped, keys, direction, bearing)
    ensures created == Span(|old(reg.rows)|, |reg.rows| - |old(reg.rows)|)
  {
    var items := reg.items;
    var start := |reg.rows|;
    ghost var rows0 := reg.rows;
    var k := 0;
    while k < |keys|
      invariant 0 <= k <= |keys| && reg.Valid()
      invariant reg.items == items && reg.segments == old(reg.segments) && reg.groups == old(reg.groups)
      invariant reg.rows == rows0 + NewRows(items, grouped, keys[..k], direction, bearing)
    {
      NewRowsStep(items, grouped, keys, k, direction, bearing);
      ghost var prev := NewRows(items, grouped, keys[..k], direction, bearing);
      ghost var bucket := BucketRow(items, grouped[keys[k]], direction, bearing);
      CreateRow(reg, grouped[keys[k]], direction, bearing);
      AppendAssoc(rows0, prev, bucket);
      k := k + 1;
    }
    created := Span(start, |reg.rows| - start);
    assert keys[..k] == keys;
  }

  // ---------------------------------------------------------------------------
  // associate_row_numbers_with_up_back_rows, verify_up_back_row_numbers

  /** Python 2's `range(a, b, step)` for a positive step: a, a + step, ... below b. */
  function Range(a: int, b: int, step: nat): (r: seq<int>)
    requires step > 0
  {
    seq(if a < b then (b - a + step - 1) / step else 0, i => a + i * step)
  }

  /** The members of a range with the row step 4: the numbers in bounds with the start's remainder. */
  lemma RangeMembers(a: int, b: int, x: int)
    ensures x in Range(a, b, 4) <==> a <= x < b && x % 4 == a % 4
  {
    var r := Range(a, b, 4);
    if a <= x < b && x % 4 == a % 4 {
      var i := x / 4 - a / 4;
      assert x == 4 * (x / 4) + x % 4 && a == 4 * (a / 4) + a % 4;
      assert x == a + i * 4;
      assert i < |r|;
      assert r[i] == x;
    }
    if x in r {
      var i :| 0 <= i < |r| && r[i] == x;
      assert x == a + i * 4;
      assert x % 4 == a % 4;
    }
  }

  function IntKey(n: int): real { n as real }

  /**
   * The up and back row numbers of a field planted in two sections with a double planter:
   * in each section the first two rows of every four run up and the next two back.
   */
  function UpBackTables(firstStart: int, firstEnd: int, secondEnd: int): (r: (seq<int>, seq<int>))
  {
    var secondStart := firstEnd + 1;
    var rowStep := 4;
    var up := Range(firstStart, secondStart, rowStep) + Range(firstStart + 1, secondStart, rowStep)
              + Range(secondStart, secondEnd + 1, rowStep) + Range(secondStart + 1, secondEnd + 1, rowStep);
    var back := Range(firstStart + 2, secondStart, rowStep) + Range(firstStart + 3, secondStart, rowStep)
              + Range(secondStart + 2, secondEnd + 1, rowStep) + Range(secondStart + 3, secondEnd + 1, rowStep);
    (SortBy(up, IntKey), SortBy(back, IntKey))
  }

  /** `associate_row_numbers_with_up_back_rows`: the hard-coded field, rows 1-22 and 23-58. */
  function UpBackRowNumbers(): (r: (seq<int>, seq<int>))
  {
    UpBackTables(1, 22, 58)
  }

  lemma SortedMembers(s: seq<int>, x: int)
    ensures x in SortBy(s, IntKey) <==> x in s
  {
    assert x in SortBy(s, IntKey) <==> x in multiset(SortBy(s, IntKey));
    assert x in s <==> x in multiset(s);
  }

  /** The up table holds the two leading ranges of each section. */
  lemma UpUnion(f: int, e: int, l: int, x: int)
    ensures x in UpBackTables(f, e, l).0 <==>
              x in Range(f + 0, e + 1, 4) || x in Range(f + 1, e + 1, 4)
              || x in Range(e + 1 + 0, l + 1, 4) || x in Range(e + 1 + 1, l + 1, 4)
  {
    var s := e + 1;
    var a, b, c, d := Range(f, s, 4), Range(f + 1, s, 4), Range(s, l + 1, 4), Range(s + 1, l + 1, 4);
    SortedMembers(a + b + c + d, x);
    assert x in a + b + c + d <==> x in a || x in b || x in c || x in d;
  }

  /** The back table holds the two trailing ranges of each section. */
  lemma BackUnion(f: int, e: int, l: int, x: int)
    ensures x in UpBackTables(f, e, l).1 <==>
              x in Range(f + 2, e + 1, 4) || x in Range(f + 3, e + 1, 4)
              || x in Range(e + 1 + 2, l + 1, 4) || x in Range(e + 1 + 3, l + 1, 4)
  {
    var s := e + 1;
    var a, b, c, d := Range(f + 2, s, 4), Range(f + 3, s, 4), Range(s + 2, l + 1, 4), Range(s + 3, l + 1, 4);
    SortedMembers(a + b + c + d, x);
    assert x in a + b + c + d <==> x in a || x in b || x in c || x in d;
  }

  /** Which table a row number falls in, by its remainder modulo the row step of four. */
  lemma TableMembers(x: int)
    ensures x in UpBackRowNumbers().0 <==>
              (1 <= x <= 22 && (x % 4 == 1 || x % 4 == 2)) || (23 <= x <= 58 && (x % 4 == 3 || x % 4 == 0))
    ensures x in UpBackRowNumbers().1 <==>
              (1 <= x <= 22 && (x % 4 == 3 || x % 4 == 0)) || (23 <= x <= 58 && (x % 4 == 1 || x % 4 == 2))
  {
    UpUnion(1, 22, 58, x);
    BackUnion(1, 22, 58, x);
    RangeMembers(1, 23, x);
    RangeMembers(2, 23, x);
    RangeMembers(3, 23, x);
    RangeMembers(4, 23, x);
    RangeMembers(23, 59, x);
    RangeMembers(24, 59, x);
    RangeMembers(25, 59, x);
    RangeMembers(26, 59, x);
  }

  /** The generated tables are disjoint and together hold exactly the rows 1 to 58. */
  lemma UpBackPartition()
    ensures forall x :: x in UpBackRowNumbers().0 ==> x !in UpBackRowNumbers().1
    ensures forall x :: x in UpBackRowNumbers().0 || x in UpBackRowNumbers().1 <==> 1 <= x <= 58
  {
    forall x ensures (x in UpBackRowNumbers().0 ==> x !in UpBackRowNumbers().1)
                     && (x in UpBackRowNumbers().0 || x in UpBackRowNumbers().1 <==> 1 <= x <= 58) {
      TableMembers(x);
    }
  }

  /** A sorted sequence holding its upper bound `m` ends with `m`. */
  lemma SortedEndsAtBound(s: seq<int>, m: int)
    requires SortedBy(s, IntKey) && m in s && forall y :: y in s ==> y <= m
    ensures |s| > 0 && s[|s| - 1] == m
  {
    var i :| 0 <= i < |s| && s[i] == m;
    assert s[|s| - 1] in s;
    assert IntKey(s[i]) <= IntKey(s[|s| - 1]);
  }

  /** The back table of the field with sections 1-22 and 23-58 ends at row 58. */
  lemma BackTableEnd(f: int, e: int, l: int)
    requires f == 1 && e == 22 && l == 58
    ensures |UpBackTables(f, e, l).1| > 0 && UpBackTables(f, e, l).1[|UpBackTables(f, e, l).1| - 1] == 58
  {
    var back := UpBackTables(f, e, l).1;
    forall y | y in back || y == 58 ensures y <= 58 && (y == 58 ==> y in back) {
      BackUnion(f, e, l, y);
      RangeMembers(f + 2, e + 1, y);
      RangeMembers(f + 3, e + 1, y);
      RangeMembers(e + 1 + 2, l + 1, y);
      RangeMembers(e + 1 + 3, l + 1, y);
    }
    SortedEndsAtBound(back, 58);
  }

  /**
   * The generated tables are disjoint, together hold exactly the rows 1 to 58, the back
   * table ends at 58 and rows 22 and 23 are up rows.
   */
  lemma UpBackTablesValid()
    ensures forall x :: x in UpBackRowNumbers().0 ==> x !in UpBackRowNumbers().1
    ensures forall x :: x in UpBackRowNumbers().0 || x in UpBackRowNumbers().1 <==> 1 <= x <= 58
    ensures |UpBackRowNumbers().1| > 0 && UpBackRowNumbers().1[|UpBackRowNumbers().1| - 1] == 58
    ensures 22 in UpBackRowNumbers().0 && 23 in UpBackRowNumbers().0
  {
    UpBackPartition();
    BackTableEnd(1, 22, 58);
    TableMembers(22);
    TableMembers(23);
  }

  /**
   * `verify_up_back_row_numbers`: exits when the tables overlap, when the back table does
   * not end at 58 (an empty one raises IndexError), or when 22 or 23 is not an up row.
   */
  function VerifyUpBackRowNumbers(up: seq<int>, back: seq<int>): (r: Result<()>)
    ensures r.Ok? <==> (forall x :: x in up ==> x !in back) && |back| > 0 && back[|back| - 1] == 58 && 22 in up && 23 in up
    ensures r.Err? && |back| == 0 && (forall x :: x in up ==> x !in back) ==> r.error.IndexError?
  {
    if exists x :: x in up && x in back then  // `set(up) & set(back)` is not empty
      Err(Exit(1, "Bad row generation. Overlapping between up and back"))
    else if |back| == 0 then Err(IndexError("list index out of range"))
    else if back[|back| - 1] != 58 then Err(Exit(1, "Bad row generation. Last row should be back and number 58"))
    else if 22 !in up || 23 !in up then Err(Exit(1, "Bad row generation. Back rows should have number 22"))
    else Ok(())
  }

  /** The generated tables pass their own check. */
  lemma UpBackTablesVerify()
    ensures VerifyUpBackRowNumbers(UpBackRowNumbers().0, UpBackRowNumbers().1) == Ok(())
  {
    UpBackTablesValid();
  }

  // ---------------------------------------------------------------------------
  // assign_rows_a_direction

  /** Every row's start code is in an arena of `n` items. */
  predicate StartsIn(rows: seq<Row>, n: nat) {
    forall t :: 0 <= t < |rows| ==> rows[t].start < n
  }

  /** The direction a row number gets: up first, then back, otherwise none. */
  function DirectionOf(number: int, up: seq<int>, back: seq<int>): (d: Option<Direction>)
    ensures d == Some(Up) <==> number in up
    ensures d == Some(Back) <==> number !in up && number in back
    ensures d.None? <==> number !in up && number !in back
  {
    if number in up then Some(Up) else if number in back then Some(Back) else None
  }

  /** `assign_rows_a_direction` over the rows `ids`, in order: the rows after it, and whether it exits. */
  function Directions(items: seq<Item>, rows: seq<Row>, ids: seq<nat>, up: seq<int>, back: seq<int>): (res: (seq<Row>, Result<()>))
    requires StartsIn(rows, |items|) && AllIn(ids, |rows|)
    ensures |res.0| == |rows|
    ensures forall t :: 0 <= t < |rows| ==> res.0[t] == rows[t].(direction := res.0[t].direction)
    decreases |ids|
  {
    if ids == [] then (rows, Ok(()))
    else
      var d := DirectionOf(RowOf(items[rows[ids[0]].start]), up, back);
      if d.None? then (rows, Err(Exit(1, "Row number doesn't have a defined up/back direction")))
      else Directions(items, rows[ids[0] := rows[ids[0]].(direction := d.value)], ids[1..], up, back)
  }

  /** Every listed row's number is an up or a back number. */
  predicate AllDirected(items: seq<Item>, rows: seq<Row>, ids: seq<nat>, up: seq<int>, back: seq<int>)
    requires StartsIn(rows, |items|) && AllIn(ids, |rows|)
  {
    forall k :: 0 <= k < |ids| ==> DirectionOf(RowOf(items[rows[ids[k]].start]), up, back).Some?
  }

  /** `after` is `rows` with each listed row's direction set from its number, and nothing else changed. */
  predicate DirectedRows(items: seq<Item>, rows: seq<Row>, ids: seq<nat>, up: seq<int>, back: seq<int>, after: seq<Row>)
    requires StartsIn(rows, |items|) && AllIn(ids, |rows|) && AllDirected(items, rows, ids, up, back)
  {
    |after| == |rows|
    && forall t :: 0 <= t < |rows| ==>
         after[t].direction == if t in ids then DirectionOf(RowOf(items[rows[t].start]), up, back).value else rows[t].direction
  }

  /** The loop exits, with `sys.exit(1)`, exactly when some listed row's number is neither up nor back. */
  lemma {:induction false} DirectionsExit(items: seq<Item>, rows: seq<Row>, ids: seq<nat>, up: seq<int>, back: seq<int>)
    requires StartsIn(rows, |items|) && AllIn(ids, |rows|)
    ensures var res := Directions(items, rows, ids, up, back);
            (res.1.Ok? <==> AllDirected(items, rows, ids, up, back))
            && (res.1.Err? ==> res.1.error == Exit(1, "Row number doesn't have a defined up/back direction"))
    decreases |ids|
  {
    if ids != [] {
      var id := ids[0];
      var d := DirectionOf(RowOf(items[rows[id].start]), up, back);
      if d.Some? {
        var rows1 := rows[id := rows[id].(direction := d.value)];
        DirectionsExit(items, rows1, ids[1..], up, back);
        assert forall t :: 0 <= t < |rows| ==> rows1[t].start == rows[t].start;
        assert forall k :: 1 <= k < |ids| ==> ids[k] == ids[1..][k - 1];
      }
    }
  }

  /**
   * Without an exit each listed row is 'up' when its number is an up number and 'back'
   * otherwise, and every other row keeps its direction.
   */
  lemma {:induction false} DirectionsResult(items: seq<Item>, rows: seq<Row>, ids: seq<nat>, up: seq<int>, back: seq<int>)
    requires StartsIn(rows, |items|) && AllIn(ids, |rows|) && AllDirected(items, rows, ids, up, back)
    ensures DirectedRows(items, rows, ids, up, back, Directions(items, rows, ids, up, back).0)
    decreases |ids|
  {
    if ids != [] {
      var id := ids[0];
      var d := DirectionOf(RowOf(items[rows[id].start]), up, back);
      assert d.Some?;
      var rows1 := rows[id := rows[id].(direction := d.value)];
      assert forall t :: 0 <= t < |rows| ==> rows1[t].start == rows[t].start;
      assert forall k :: 1 <= k < |ids| ==> ids[k] == ids[1..][k - 1];
      DirectionsResult(items, rows1, ids[1..], up, back);
      assert forall t :: t in ids <==> t == id || t in ids[1..];
    }
  }

  /** `assign_rows_a_direction(rows, up_row_nums, back_row_nums)` for the rows `ids`. */
  method AssignRowsADirection(reg: Registry, ids: seq<nat>, up: seq<int>, back: seq<int>) returns (r: Result<()>)
    requires reg.Valid() && AllIn(ids, |reg.rows|)
    modifies reg
    ensures reg.Valid()
    ensures reg.items == old(reg.items) && reg.segments == old(reg.segments) && reg.groups == old(reg.groups)
    ensures StartsIn(old(reg.rows), |old(reg.items)|)
    ensures (reg.rows, r) == Directions(old(reg.items), old(reg.rows), ids, up, back)
  {
    forall t | 0 <= t < |reg.rows| ensures reg.rows[t].start < |reg.items| {
      assert RowFits(reg.rows[t], |reg.items|, |reg.segments|);
    }
    var k := 0;
    while k < |ids|
      invariant 0 <= k <= |ids| && reg.Valid() && |reg.rows| == |old(reg.rows)|
      invariant reg.items == old(reg.items) && reg.segments == old(reg.segments) && reg.groups == old(reg.groups)
      invariant StartsIn(reg.rows, |reg.items|)
      invariant Directions(old(reg.items), old(reg.rows), ids, up, back) == Directions(reg.items, reg.rows, ids[k..], up, back)
    {
      var id := ids[k];
      assert ids[k..][0] == id && ids[k..][1..] == ids[k + 1..];
      var number := reg.RowNumber(id);
      var d := DirectionOf(number, up, back);
      if d.None? {
        return Err(Exit(1, "Row number doesn't have a defined up/back direction"));
      }
      reg.SetDirection(id, d.value);
      k := k + 1;
    }
    r := Ok(());
  }

  // ---------------------------------------------------------------------------
  // create_rows_and_field_passes_by_pass_codes

  /**
   * What the pass loop has built so far: the arena, the registry's rows, the new rows in
   * order, the rows of each pass number (`field_passes`), and those numbers in the order
   * they first appeared.
   */
  datatype PassState = PassState(items: seq<Item>, rows: seq<Row>, created: seq<nat>, byNumber: map<int, seq<nat>>, numbers: seq<int>)

  /** Both codes of every pair are in an arena of `n` items. */
  predicate PairsIn(pairs: seq<(nat, nat)>, n: nat) {
    forall k :: 0 <= k < |pairs| ==> pairs[k].0 < n && pairs[k].1 < n
  }

  /** The pass numbers are exactly the keys of `byNumber`, each listed once. */
  ghost predicate PassesIndexed(st: PassState) {
    (forall n :: n in st.byNumber <==> n in st.numbers) && Distinct(st.numbers)
  }

  /**
   * The `assigned_row` updates of one pass pair `s`, `e`: each code's row, read when it is
   * assigned, becomes `2 * row - 1`, and both then grow by one when `bump` holds.
   */
  function AssignPassRows(items: seq<Item>, s: nat, e: nat, bump: bool): (r: seq<Item>)
    requires s < |items| && e < |items|
    ensures |r| == |items|
  {
    var i1 := WithAssignedRow(items, s, RowOf(items[s]) * 2 - 1);
    var i2 := WithAssignedRow(i1, e, RowOf(i1[e]) * 2 - 1);
    if bump then
      var i3 := WithAssignedRow(i2, s, i2[s].assignedRow + 1);
      WithAssignedRow(i3, e, i3[e].assignedRow + 1)
    else i2
  }

  /** `items[i].assigned_row = v`, a plain attribute of the one item. */
  function WithAssignedRow(items: seq<Item>, i: nat, v: int): (r: seq<Item>)
    requires i < |items|
    ensures |r| == |items|
  {
    items[i := items[i].(assignedRow := v)]
  }

  /**
   * For two distinct codes of pass `p`: both get row `2p - 1`, or `2p` when `bump` holds
   * (the right side going up, or the left side going back).
   */
  lemma AssignPassRowsValues(items: seq<Item>, s: nat, e: nat, bump: bool)
    requires s < |items| && e < |items| && s != e
    ensures var r := AssignPassRows(items, s, e, bump);
            r[s].assignedRow == 2 * RowOf(items[s]) - 1 + (if bump then 1 else 0)
            && r[e].assignedRow == 2 * RowOf(items[e]) - 1 + (if bump then 1 else 0)
  {
  }

  /** The assignment only changes `assigned_row` of the two codes. */
  lemma AssignPassRowsFrame(items: seq<Item>, s: nat, e: nat, bump: bool)
    requires s < |items| && e < |items|
    ensures var r := AssignPassRows(items, s, e, bump);
            SamePlaces(items, r) && (forall k :: 0 <= k < |items| ==> r[k].name == items[k].name)
            && forall k :: 0 <= k < |items| && k != s && k != e ==> r[k] == items[k]
  {
  }

  /** The assignment only changes `assigned_row`, so every reference stays in the arena. */
  lemma AssignPassRowsRefs(items: seq<Item>, s: nat, e: nat, bump: bool)
    requires s < |items| && e < |items| && RefsValid(items)
    ensures RefsValid(AssignPassRows(items, s, e, bump))
  {
    var r := AssignPassRows(items, s, e, bump);
    assert forall k :: 0 <= k < |r| ==> r[k].others == items[k].others;
  }

  /** Whether the pass codes' rows move to the even row: side 'r' going up, or side 'l' going back. */
  predicate Bumps(side: string, direction: Direction) {
    (side == "r" && direction == Up) || (side == "l" && direction == Back)
  }

  /** A pair's orientation: its field start and end codes, or (None, None). */
  type Orientation = (Option<nat>, Option<nat>)

  predicate OrientedFrom(o: Orientation, s: nat, e: nat) {
    o == (None, None) || o == (Some(s), Some(e)) || o == (Some(e), Some(s))
  }

  predicate OrientedPairs(pairs: seq<(nat, nat)>, orients: seq<Orientation>) {
    |orients| == |pairs| && forall k :: 0 <= k < |pairs| ==> OrientedFrom(orients[k], pairs[k].0, pairs[k].1)
  }

  /**
   * `orient_items` of every pair. The pass loop only writes `assigned_row`, so each pair's
   * orientation is the same on the arena as it was before the loop (`SamePlaces`).
   */
  function Orientations(items: seq<Item>, pairs: seq<(nat, nat)>, direction: real, bearing: BearingFn): (r: seq<Orientation>)
    requires RefsValid(items) && PairsIn(pairs, |items|)
    ensures OrientedPairs(pairs, r)
  {
    seq(|pairs|, k requires 0 <= k < |pairs| => Orient(items, pairs[k].0, pairs[k].1, direction, bearing))
  }

  lemma PairsTail(pairs: seq<(nat, nat)>, orients: seq<Orientation>, n: nat)
    requires pairs != [] && PairsIn(pairs, n) && OrientedPairs(pairs, orients)
    ensures PairsIn(pairs[1..], n) && OrientedPairs(pairs[1..], orients[1..])
  {
    assert forall k :: 1 <= k < |pairs| ==> pairs[1..][k - 1] == pairs[k] && orients[1..][k - 1] == orients[k];
  }

  /**
   * One pass pair, oriented as `o`: append the row (direction 'up' iff the pass start code is the
   * field start code), file the row under its number, then rewrite the codes' `assigned_row`.
   * A pair that cannot be oriented makes a `Row(None, None)` whose `number` raises; a start
   * code with an empty name raises on `name[-1]`.
   */
  function PassStep(st: PassState, s: nat, e: nat, o: Orientation): (res: (PassState, Option<Error>))
    requires RefsValid(st.items) && s < |st.items| && e < |st.items| && OrientedFrom(o, s, e)
    ensures |res.0.items| == |st.items| && RefsValid(res.0.items)
    ensures res.1.Some? ==> res.1.value.AttributeError? || res.1.value.IndexError?
  {
    if o.0.None? || o.1.None? then (st, Some(AttributeError("'NoneType' object has no attribute 'row'")))
    else
      var dir := if o.0.value == s then Up else Back;
      var number := RowOf(st.items[o.0.value]);
      var r := |st.rows|;
      var bucket := if number in st.byNumber then st.byNumber[number] else [];
      var st1 := PassState(st.items, st.rows + [NewRow(o.0.value, o.1.value, dir, None)], st.created + [r],
                           st.byNumber[number := bucket + [r]],
                           if number in st.byNumber then st.numbers else st.numbers + [number]);
      var side := SideOf(st.items[s].name);
      if side.Err? then (st1, Some(side.error))
      else
        AssignPassRowsRefs(st.items, s, e, Bumps(side.value, dir));
        (st1.(items := AssignPassRows(st.items, s, e, Bumps(side.value, dir))), None)
  }

  /** The pass loop over `pairs`, stopping at the first error, which is an attribute or index failure. */
  function PassFold(st: PassState, pairs: seq<(nat, nat)>, orients: seq<Orientation>): (res: (PassState, Option<Error>))
    requires RefsValid(st.items) && PairsIn(pairs, |st.items|) && OrientedPairs(pairs, orients)
    ensures |res.0.items| == |st.items| && RefsValid(res.0.items)
    ensures res.1.Some? ==> res.1.value.AttributeError? || res.1.value.IndexError?
    decreases |pairs|
  {
    if pairs == [] then (st, None)
    else
      PairsTail(pairs, orients, |st.items|);
      var step := PassStep(st, pairs[0].0, pairs[0].1, orients[0]);
      if step.1.Some? then step
      else PassFold(step.0, pairs[1..], orients[1..])
  }

  /** A step appends at most one row; without an error, exactly one, oriented from its pair. */
  lemma PassStepRows(st: PassState, s: nat, e: nat, o: Orientation)
    requires RefsValid(st.items) && s < |st.items| && e < |st.items| && OrientedFrom(o, s, e)
    ensures var res := PassStep(st, s, e, o);
            Extends(st, res.0) && |res.0.rows| <= |st.rows| + 1
            && (res.1.None? ==> |res.0.rows| == |st.rows| + 1 && RowOfPair(res.0.rows[|st.rows|], (s, e)))
  {
  }

  /** The pass loop only appends rows, numbered after the old ones. */
  lemma {:induction false} PassFoldExtends(st: PassState, pairs: seq<(nat, nat)>, orients: seq<Orientation>)
    requires RefsValid(st.items) && PairsIn(pairs, |st.items|) && OrientedPairs(pairs, orients)
    ensures Extends(st, PassFold(st, pairs, orients).0)
    decreases |pairs|
  {
    if pairs != [] {
      PairsTail(pairs, orients, |st.items|);
      var step := PassStep(st, pairs[0].0, pairs[0].1, orients[0]);
      PassStepRows(st, pairs[0].0, pairs[0].1, orients[0]);
      if step.1.None? {
        PassFoldExtends(step.0, pairs[1..], orients[1..]);
        ExtendsTransitive(st, step.0, PassFold(step.0, pairs[1..], orients[1..]).0);
      }
    }
  }

  /** The rows from `b` on are made, in order, from `pairs`. */
  predicate RowsOfPairs(rows: seq<Row>, b: nat, pairs: seq<(nat, nat)>) {
    |rows| == b + |pairs| && forall k :: 0 <= k < |pairs| ==> RowOfPair(rows[b + k], pairs[k])
  }

  /** The rows from `b` match `pairs` when the first matches and those from `b + 1` match the rest. */
  lemma RowsShift(rows: seq<Row>, b: nat, pairs: seq<(nat, nat)>)
    requires pairs != [] && b < |rows| && RowOfPair(rows[b], pairs[0]) && RowsOfPairs(rows, b + 1, pairs[1..])
    ensures RowsOfPairs(rows, b, pairs)
  {
    var tail := pairs[1..];
    forall k | 1 <= k < |pairs| ensures RowOfPair(rows[b + k], pairs[k]) {
      assert RowOfPair(rows[b + 1 + (k - 1)], tail[k - 1]);
    }
  }

  /** Without an error the pass loop makes one row per pair, in order, each oriented from its pair. */
  lemma {:induction false} PassFoldRows(st: PassState, pairs: seq<(nat, nat)>, orients: seq<Orientation>)
    requires RefsValid(st.items) && PairsIn(pairs, |st.items|) && OrientedPairs(pairs, orients)
    requires PassFold(st, pairs, orients).1.None?
    ensures RowsOfPairs(PassFold(st, pairs, orients).0.rows, |st.rows|, pairs)
    decreases |pairs|
  {
    if pairs != [] {
      PairsTail(pairs, orients, |st.items|);
      var step := PassStep(st, pairs[0].0, pairs[0].1, orients[0]);
      PassStepRows(st, pairs[0].0, pairs[0].1, orients[0]);
      assert step.1.None?;
      var res := PassFold(step.0, pairs[1..], orients[1..]).0;
      PassFoldRows(step.0, pairs[1..], orients[1..]);
      PassFoldExtends(step.0, pairs[1..], orients[1..]);
      assert res.rows[|st.rows|] == res.rows[..|step.0.rows|][|st.rows|];
      RowsShift(res.rows, |st.rows|, pairs);
      assert PassFold(st, pairs, orients).0 == res;
    }
  }

  /**
   * The passes in the order `keys`: `sys.exit(-1)` at a pass with more than two rows, so the
   * result is an error exactly when some pass has more than two rows, and otherwise lists
   * each pass's rows in key order.
   */
  function CollectPasses(byNumber: map<int, seq<nat>>, keys: seq<int>): (r: Result<seq<seq<nat>>>)
    requires forall k :: 0 <= k < |keys| ==> keys[k] in byNumber
    ensures r.Ok? <==> forall k :: 0 <= k < |keys| ==> |byNumber[keys[k]]| <= 2
    ensures r.Ok? ==> |r.value| == |keys| && forall k :: 0 <= k < |keys| ==> r.value[k] == byNumber[keys[k]]
    ensures r.Err? ==> r.error == Exit(-1, "Error: more than 2 rows in pass")
    decreases |keys|
  {
    if keys == [] then Ok([])
    else if |byNumber[keys[0]]| > 2 then Err(Exit(-1, "Error: more than 2 rows in pass"))
    else
      var rest := CollectPasses(byNumber, keys[1..]);
      if rest.Err? then rest else Ok([byNumber[keys[0]]] + rest.value)
  }

  /** `sorted(field_passes.keys())`: every pass number once, in strictly ascending order. */
  function SortedPassNumbers(st: PassState): (keys: seq<int>)
    requires PassesIndexed(st)
    ensures forall n :: n in keys <==> n in st.byNumber
    ensures forall i, j :: 0 <= i < j < |keys| ==> keys[i] < keys[j]
  {
    var keys := SortBy(st.numbers, IntKey);
    assert forall n :: n in keys <==> n in multiset(keys);
    assert forall n :: n in st.numbers <==> n in multiset(st.numbers);
    forall i, j | 0 <= i < j < |keys| ensures keys[i] < keys[j] {
      assert IntKey(keys[i]) <= IntKey(keys[j]);
      if keys[i] == keys[j] {
        DoubleInMultiset(keys, i, j);
        DistinctMultiplicity(st.numbers, keys[i]);
        assert false;
      }
    }
    keys
  }

  /** An element at two positions occurs at least twice. */
  lemma DoubleInMultiset(s: seq<int>, i: nat, j: nat)
    requires i < j < |s| && s[i] == s[j]
    ensures multiset(s)[s[i]] >= 2
  {
    assert s == s[..i] + [s[i]] + s[i + 1..j] + [s[j]] + s[j + 1..];
  }

  /** A list without repeats holds each element at most once. */
  lemma {:induction false} DistinctMultiplicity(s: seq<int>, x: int)
    requires Distinct(s)
    ensures multiset(s)[x] <= 1
    decreases |s|
  {
    if s != [] {
      assert s == [s[0]] + s[1..];
      DistinctMultiplicity(s[1..], x);
      if s[0] == x {
        assert x !in s[1..];
      }
    }
  }

  /** A row made from a pass pair holds the pair's two codes and is 'up' exactly when it starts at the pass start code. */
  predicate RowOfPair(row: Row, pair: (nat, nat)) {
    ((row.start, row.end) == pair || (row.start, row.end) == (pair.1, pair.0))
    && (row.direction == Up <==> row.start == pair.0) && row.direction != NoDirection && row.groupSegments == []
  }

  /** The registry rows grew by the created rows, numbered consecutively after the old ones. */
  predicate Extends(st: PassState, st1: PassState) {
    |st1.rows| - |st.rows| == |st1.created| - |st.created| >= 0
    && st1.rows[..|st.rows|] == st.rows && st1.created[..|st.created|] == st.created
    && forall m :: |st.created| <= m < |st1.created| ==> st1.created[m] == |st.rows| + (m - |st.created|)
  }

  lemma ExtendsTransitive(a: PassState, b: PassState, c: PassState)
    requires Extends(a, b) && Extends(b, c)
    ensures Extends(a, c)
  {
    assert c.rows[..|a.rows|] == c.rows[..|b.rows|][..|a.rows|];
    assert c.created[..|a.created|] == c.created[..|b.created|][..|a.created|];
    forall m | |a.created| <= m < |c.created| ensures c.created[m] == |a.rows| + (m - |a.created|) {
      if m < |b.created| {
        assert c.created[m] == c.created[..|b.created|][m];
      }
    }
  }

  /** One pass step keeps the pass numbers and the keys of `field_passes` in step. */
  lemma PassStepIndexed(st: PassState, s: nat, e: nat, o: Orientation)
    requires RefsValid(st.items) && s < |st.items| && e < |st.items| && OrientedFrom(o, s, e) && PassesIndexed(st)
    ensures PassesIndexed(PassStep(st, s, e, o).0)
  {
    var st1 := PassStep(st, s, e, o).0;
    if st1 != st {
      var number := RowOf(st.items[st1.rows[|st.rows|].start]);
      assert forall n :: n in st1.byNumber <==> n in st1.numbers;
      assert Distinct(st1.numbers) by {
        if number !in st.byNumber { assert st1.numbers == st.numbers + [number]; }
      }
    }
  }

  /** So does the whole pass loop. */
  lemma {:induction false} PassFoldIndexed(st: PassState, pairs: seq<(nat, nat)>, orients: seq<Orientation>)
    requires RefsValid(st.items) && PairsIn(pairs, |st.items|) && OrientedPairs(pairs, orients) && PassesIndexed(st)
    ensures PassesIndexed(PassFold(st, pairs, orients).0)
    decreases |pairs|
  {
    if pairs != [] {
      var step := PassStep(st, pairs[0].0, pairs[0].1, orients[0]);
      PassStepIndexed(st, pairs[0].0, pairs[0].1, orients[0]);
      if step.1.None? {
        PairsTail(pairs, orients, |st.items|);
        PassFoldIndexed(step.0, pairs[1..], orients[1..]);
      }
    }
  }

  /**
   * After a step without error on two distinct codes, both codes' `assigned_row` is
   * `2p - 1`, plus one exactly when the side letter and the new row's direction bump it.
   */
  lemma PassStepAssignedRows(st: PassState, s: nat, e: nat, o: Orientation)
    requires RefsValid(st.items) && s < |st.items| && e < |st.items| && s != e && OrientedFrom(o, s, e)
    requires PassStep(st, s, e, o).1.None?
    ensures var res := PassStep(st, s, e, o).0;
            var side := SideOf(st.items[s].name);
            var add := if Bumps(side.value, res.rows[|st.rows|].direction) then 1 else 0;
            side.Ok? && |res.rows| == |st.rows| + 1
            && res.items[s].assignedRow == 2 * RowOf(st.items[s]) - 1 + add
            && res.items[e].assignedRow == 2 * RowOf(st.items[e]) - 1 + add
  {
    var dir := if o.0.value == s then Up else Back;
    AssignPassRowsValues(st.items, s, e, Bumps(SideOf(st.items[s].name).value, dir));
  }

  /** The returned rows and passes, once the loop over the pairs succeeded. */
  function Passes(st: PassState): (r: Result<(seq<nat>, seq<seq<nat>>)>)
    requires PassesIndexed(st)
    ensures r.Ok? <==> forall n :: n in st.byNumber ==> |st.byNumber[n]| <= 2
    ensures r.Ok? ==> r.value.0 == st.created && |r.value.1| == |st.byNumber| == |SortedPassNumbers(st)|
    ensures r.Ok? ==> forall k :: 0 <= k < |r.value.1| ==> r.value.1[k] == st.byNumber[SortedPassNumbers(st)[k]]
  {
    var keys := SortedPassNumbers(st);
    var c := CollectPasses(st.byNumber, keys);
    assert forall n :: n in st.byNumber ==> exists k :: 0 <= k < |keys| && keys[k] == n;
    DistinctCard(keys, st.byNumber);
    if c.Err? then Err(c.error) else Ok((st.created, c.value))
  }

  /** A strictly increasing list of exactly the map's keys is as long as the map. */
  lemma DistinctCard(keys: seq<int>, m: map<int, seq<nat>>)
    requires (forall n :: n in keys <==> n in m) && forall i, j :: 0 <= i < j < |keys| ==> keys[i] < keys[j]
    ensures |keys| == |m|
  {
    var s := set n | n in keys;
    assert forall n :: n in s <==> n in m.Keys;
    assert s == m.Keys;
    DistinctSetCard(keys);
  }

  lemma {:induction false} DistinctSetCard(keys: seq<int>)
    requires forall i, j :: 0 <= i < j < |keys| ==> keys[i] < keys[j]
    ensures |set n | n in keys| == |keys|
    decreases |keys|
  {
    if keys != [] {
      var init := keys[..|keys| - 1];
      var x := keys[|keys| - 1];
      DistinctSetCard(init);
      assert (set n | n in keys) == (set n | n in init) + {x};
      assert x !in init;
    }
  }

  /** `reg.items[i].assigned_row = v`. */
  method SetAssignedRow(reg: Registry, i: nat, v: int)
    requires reg.Valid() && i < |reg.items|
    modifies reg
    ensures reg.Valid()
    ensures reg.segments == old(reg.segments) && reg.groups == old(reg.groups) && reg.rows == old(reg.rows)
    ensures reg.items == WithAssignedRow(old(reg.items), i, v)
  {
    AssignedPlain(reg.items, i, AssignedRowAttr(v));
    reg.Set(i, AssignedRowAttr(v));
  }

  /** The `assigned_row` updates of one pass pair in the registry. */
  method AssignPassCodeRows(reg: Registry, s: nat, e: nat, bump: bool)
    requires reg.Valid() && s < |reg.items| && e < |reg.items|
    modifies reg
    ensures reg.Valid()
    ensures reg.segments == old(reg.segments) && reg.groups == old(reg.groups) && reg.rows == old(reg.rows)
    ensures reg.items == AssignPassRows(old(reg.items), s, e, bump)
  {
    SetAssignedRow(reg, s, RowOf(reg.items[s]) * 2 - 1);
    SetAssignedRow(reg, e, RowOf(reg.items[e]) * 2 - 1);
    if bump {
      SetAssignedRow(reg, s, reg.items[s].assignedRow + 1);
      SetAssignedRow(reg, e, reg.items[e].assignedRow + 1);
    }
  }

  /** The passes of `keys` in order, with the `sys.exit(-1)` at a pass of more than two rows. */
  method CollectPassRows(byNumber: map<int, seq<nat>>, keys: seq<int>) returns (r: Result<seq<seq<nat>>>)
    requires forall k :: 0 <= k < |keys| ==> keys[k] in byNumber
    ensures r == CollectPasses(byNumber, keys)
  {
    var acc: seq<seq<nat>> := [];
    var k := 0;
    while k < |keys|
      invariant 0 <= k <= |keys| && |acc| == k
      invariant forall m :: 0 <= m < k ==> acc[m] == byNumber[keys[m]] && |acc[m]| <= 2
    {
      var rowsInPass := byNumber[keys[k]];
      if |rowsInPass| > 2 {
        return Err(Exit(-1, "Error: more than 2 rows in pass"));
      }
      acc := acc + [rowsInPass];
      k := k + 1;
    }
    assert CollectPasses(byNumber, keys).value == acc;
    r := Ok(acc);
  }

  /** Orientation reads only the codes' places. */
  lemma OrientSamePlaces(a: seq<Item>, b: seq<Item>, s: nat, e: nat, direction: real, bearing: BearingFn)
    requires SamePlaces(a, b) && RefsValid(a) && s < |a| && e < |a|
    ensures RefsValid(b) && Orient(a, s, e, direction, bearing) == Orient(b, s, e, direction, bearing)
  {
    PositionSamePlaces(a, b, s);
    PositionSamePlaces(a, b, e);
  }

  /** One iteration of the pass loop in the registry. */
  method PassPairStep(reg: Registry, s: nat, e: nat, o: Orientation,
                      created: seq<nat>, byNumber: map<int, seq<nat>>, numbers: seq<int>)
    returns (created1: seq<nat>, byNumber1: map<int, seq<nat>>, numbers1: seq<int>, err: Option<Error>)
    requires reg.Valid() && s < |reg.items| && e < |reg.items| && OrientedFrom(o, s, e)
    modifies reg
    ensures reg.Valid()
    ensures reg.segments == old(reg.segments) && reg.groups == old(reg.groups)
    ensures SamePlaces(old(reg.items), reg.items)
    ensures (PassState(reg.items, reg.rows, created1, byNumber1, numbers1), err)
            == PassStep(PassState(old(reg.items), old(reg.rows), created, byNumber, numbers), s, e, o)
  {
    created1, byNumber1, numbers1 := created, byNumber, numbers;
    assert SamePlaces(reg.items, reg.items);
    if o.0.None? || o.1.None? {
      return created1, byNumber1, numbers1, Some(AttributeError("'NoneType' object has no attribute 'row'"));
    }
    var dir := if o.0.value == s then Up else Back;
    var number := RowOf(reg.items[o.0.value]);
    var row := reg.AddRowRecord(NewRow(o.0.value, o.1.value, dir, None));
    var bucket := if number in byNumber then byNumber[number] else [];
    if number !in byNumber {
      numbers1 := numbers + [number];
    }
    byNumber1 := byNumber[number := bucket + [row]];
    created1 := created + [row];
    var side := SideOf(reg.items[s].name);
    if side.Err? {
      return created1, byNumber1, numbers1, Some(side.error);
    }
    AssignPassCodeRows(reg, s, e, Bumps(side.value, dir));
    err := None;
  }

  /**
   * `create_rows_and_field_passes_by_pass_codes(grouped_row_codes, field_direction)`: the new
   * registry rows and the arena are those of the pass loop; the result is its error, or the
   * new rows with the passes in ascending pass number.
   */
  method CreateRowsAndFieldPassesByPassCodes(reg: Registry, pairs: seq<(nat, nat)>, direction: real, bearing: BearingFn)
    returns (r: Result<(seq<nat>, seq<seq<nat>>)>)
    requires reg.Valid() && PairsIn(pairs, |reg.items|)
    modifies reg
    ensures reg.Valid()
    ensures reg.segments == old(reg.segments) && reg.groups == old(reg.groups)
    ensures var res := PassFold(PassState(old(reg.items), old(reg.rows), [], map[], []), pairs,
                                Orientations(old(reg.items), pairs, direction, bearing));
            PassesIndexed(res.0) && reg.items == res.0.items && reg.rows == res.0.rows
            && r == if res.1.Some? then Err(res.1.value) else Passes(res.0)
  {
    ghost var init := PassState(reg.items, reg.rows, [], map[], []);
    ghost var orients := Orientations(reg.items, pairs, direction, bearing);
    PassFoldIndexed(init, pairs, orients);
    var created: seq<nat> := [];
    var byNumber: map<int, seq<nat>> := map[];
    var numbers: seq<int> := [];
    var k := 0;
    while k < |pairs|
      invariant 0 <= k <= |pairs| && reg.Valid() && SamePlaces(init.items, reg.items)
      invariant reg.segments == old(reg.segments) && reg.groups == old(reg.groups)
      invariant PairsIn(pairs[k..], |reg.items|) && OrientedPairs(pairs[k..], orients[k..])
      invariant PassFold(init, pairs, orients)
                == PassFold(PassState(reg.items, reg.rows, created, byNumber, numbers), pairs[k..], orients[k..])
    {
      var s, e := pairs[k].0, pairs[k].1;
      assert pairs[k..][0] == (s, e) && orients[k..][0] == orients[k];
      assert pairs[k..][1..] == pairs[k + 1..] && orients[k..][1..] == orients[k + 1..];
      PairsTail(pairs[k..], orients[k..], |reg.items|);
      OrientSamePlaces(init.items, reg.items, s, e, direction, bearing);
      var o := Orient(reg.items, s, e, direction, bearing);
      assert o == orients[k];
      ghost var before := reg.items;
      var err;
      created, byNumber, numbers, err := PassPairStep(reg, s, e, o, created, byNumber, numbers);
      if err.Some? {
        return Err(err.value);
      }
      k := k + 1;
    }
    var last := PassState(reg.items, reg.rows, created, byNumber, numbers);
    var keys := SortedPassNumbers(last);
    var passes := CollectPassRows(byNumber, keys);
    if passes.Err? {
      return Err(passes.error);
    }
    r := Ok((created, passes.value));
  }

  // ---------------------------------------------------------------------------
  // calculate_projection_to_nearest_row

  /** How far from its nearest row a code may be, in meters. */
  const MaxRowDistance: real := 3.0

  /** Every row's two codes are in an arena of `n` items. */
  predicate EndsIn(rows: seq<Row>, n: nat) {
    forall t :: 0 <= t < |rows| ==> rows[t].start < n && rows[t].end < n
  }

  /** `abs` of the lateral offset of `p` from row `t`, and the projection along it; None for a zero-length row. */
  function RowDistance(items: seq<Item>, rows: seq<Row>, t: nat, p: Point, sqrt: SqrtFn): (r: Option<(real, real)>)
    requires RefsValid(items) && EndsIn(rows, |items|) && t < |rows|
    ensures r.Some? ==> r.value.0 >= 0.0
  {
    var lp := LateralAndProjection(p, Position(items, rows[t].start), Position(items, rows[t].end), sqrt);
    if lp.None? then None else Some((Abs(lp.value.0), lp.value.1))
  }

  /** The distance and projection of every row for the code at `p`. */
  function RowDistances(items: seq<Item>, rows: seq<Row>, p: Point, sqrt: SqrtFn): (r: seq<Option<(real, real)>>)
    requires RefsValid(items) && EndsIn(rows, |items|)
    ensures |r| == |rows|
  {
    seq(|rows|, t requires 0 <= t < |rows| => RowDistance(items, rows, t, p, sqrt))
  }

  /** The scan's state: `closest_row`, `min_distance` and `projection_distance`. */
  datatype Nearest = Nearest(row: Option<nat>, distance: real, projection: real)

  /**
   * The scan over the rows `ids`, given each row's distance and projection `dist`: a row
   * replaces the best so far only when strictly closer. A zero-length row returns a single
   * NaN, which the two-name unpacking refuses with a TypeError.
   */
  function Closest(ids: seq<nat>, dist: seq<Option<(real, real)>>): (r: Result<Nearest>)
    requires AllIn(ids, |dist|)
    ensures r.Ok? && r.value.row.Some? ==> r.value.row.value < |dist|
    decreases |ids|
  {
    if ids == [] then Ok(Nearest(None, FloatMax, 0.0))
    else
      var prev := Closest(ids[..|ids| - 1], dist);
      var t := ids[|ids| - 1];
      if prev.Err? then prev
      else if dist[t].None? then Err(TypeError("'float' object is not iterable"))
      else if dist[t].value.0 < prev.value.distance then Ok(Nearest(Some(t), dist[t].value.0, dist[t].value.1))
      else prev
  }

  /**
   * The scan fails exactly when one of the rows has zero length. Otherwise it picks the
   * first row of least distance, if that distance is below `sys.float_info.max`, and
   * reports that distance and the projection along that row; with no such row it keeps the
   * starting values.
   */
  lemma {:induction false} ClosestIsFirstMinimum(ids: seq<nat>, dist: seq<Option<(real, real)>>) returns (j: nat)
    requires AllIn(ids, |dist|)
    ensures var r := Closest(ids, dist);
            (r.Err? <==> exists k :: 0 <= k < |ids| && dist[ids[k]].None?)
            && (r.Ok? && r.value.row.None? ==>
                 r.value.distance == FloatMax && r.value.projection == 0.0
                 && forall k :: 0 <= k < |ids| ==> dist[ids[k]].value.0 >= FloatMax)
            && (r.Ok? && r.value.row.Some? ==>
                 j < |ids| && ids[j] == r.value.row.value
                 && dist[ids[j]] == Some((r.value.distance, r.value.projection))
                 && r.value.distance < FloatMax
                 && (forall k :: 0 <= k < |ids| ==> r.value.distance <= dist[ids[k]].value.0)
                 && (forall k :: 0 <= k < j ==> r.value.distance < dist[ids[k]].value.0))
    decreases |ids|
  {
    j := 0;
    if ids != [] {
      var init := ids[..|ids| - 1];
      var t := ids[|ids| - 1];
      var j0 := ClosestIsFirstMinimum(init, dist);
      assert forall k :: 0 <= k < |init| ==> init[k] == ids[k];
      var prev := Closest(init, dist);
      if prev.Ok? && dist[t].Some? {
        if dist[t].value.0 < prev.value.distance {
          j := |ids| - 1;
        } else {
          j := j0;
        }
      }
    }
  }

  /**
   * One code of `calculate_projection_to_nearest_row`: kept with its projection when a
   * nearest row exists and is closer than 3 m, its `row` then set to that row's number;
   * otherwise its `row` is set to -1 and it is dropped.
   */
  function ProjectCode(items: seq<Item>, rows: seq<Row>, ids: seq<nat>, c: nat, sqrt: SqrtFn): (r: Result<(seq<Item>, Option<real>)>)
    requires RefsValid(items) && EndsIn(rows, |items|) && AllIn(ids, |rows|) && c < |items|
    ensures r.Err? <==> Closest(ids, RowDistances(items, rows, Position(items, c), sqrt)).Err?
    ensures r.Ok? ==> RefsValid(r.value.0) && |r.value.0| == |items|
  {
    var n := Closest(ids, RowDistances(items, rows, Position(items, c), sqrt));
    if n.Err? then Err(n.error)
    else
      var kept := n.value.row.Some? && n.value.distance < MaxRowDistance;
      var number := if kept then RowOf(items[rows[n.value.row.value].start]) else -1;
      AssignedFrame(items, c, RowAttr(number), c);
      Ok((Assigned(items, c, RowAttr(number)), if kept then Some(n.value.projection) else None))
  }

  /**
   * After one code, its `row` reads the nearest row's number when it is kept and -1
   * otherwise (a row code with an assigned row keeps reading that), as do its references.
   */
  lemma ProjectCodeRow(items: seq<Item>, rows: seq<Row>, ids: seq<nat>, c: nat, sqrt: SqrtFn, k: nat)
    requires RefsValid(items) && EndsIn(rows, |items|) && AllIn(ids, |rows|) && c < |items|
    requires ProjectCode(items, rows, ids, c, sqrt).Ok? && (k == c || k in items[c].others)
    ensures var n := Closest(ids, RowDistances(items, rows, Position(items, c), sqrt)).value;
            var one := ProjectCode(items, rows, ids, c, sqrt).value;
            (one.1.Some? <==> n.row.Some? && n.distance < MaxRowDistance)
            && one.0[k].row == if one.1.Some? then RowOf(items[rows[n.row.value].start]) else -1
  {
    var n := Closest(ids, RowDistances(items, rows, Position(items, c), sqrt)).value;
    var kept := n.row.Some? && n.distance < MaxRowDistance;
    AssignedReadBack(items, c, if kept then RowOf(items[rows[n.row.value].start]) else -1, k);
  }

  /** The codes in order, each against the arena the earlier ones left; the kept codes with their projections. */
  function Projections(items: seq<Item>, rows: seq<Row>, ids: seq<nat>, codes: seq<nat>, sqrt: SqrtFn): (r: (seq<Item>, Result<seq<(nat, real)>>))
    requires RefsValid(items) && EndsIn(rows, |items|) && AllIn(ids, |rows|) && AllIn(codes, |items|)
    ensures RefsValid(r.0) && |r.0| == |items|
    decreases |codes|
  {
    if codes == [] then (items, Ok([]))
    else
      var prev := Projections(items, rows, ids, codes[..|codes| - 1], sqrt);
      var c := codes[|codes| - 1];
      if prev.1.Err? then prev
      else
        var one := ProjectCode(prev.0, rows, ids, c, sqrt);
        if one.Err? then (prev.0, Err(one.error))
        else (one.value.0, Ok(prev.1.value + if one.value.1.Some? then [(c, one.value.1.value)] else []))
  }

  function CodesOf(kept: seq<(nat, real)>): (r: seq<nat>)
    ensures |r| == |kept| && forall k :: 0 <= k < |kept| ==> r[k] == kept[k].0
  {
    seq(|kept|, k requires 0 <= k < |kept| => kept[k].0)
  }

  lemma CodesOfAppend(kept: seq<(nat, real)>, x: (nat, real))
    ensures CodesOf(kept + [x]) == CodesOf(kept) + [x.0]
  {
    assert CodesOf(kept + [x])[|kept|] == x.0;
  }

  /** The kept codes appear in the input order, each at most as often as in the input. */
  lemma {:induction false} ProjectionsKeepOrder(items: seq<Item>, rows: seq<Row>, ids: seq<nat>, codes: seq<nat>, sqrt: SqrtFn)
    requires RefsValid(items) && EndsIn(rows, |items|) && AllIn(ids, |rows|) && AllIn(codes, |items|)
    requires Projections(items, rows, ids, codes, sqrt).1.Ok?
    ensures IsSubsequence(CodesOf(Projections(items, rows, ids, codes, sqrt).1.value), codes)
    decreases |codes|
  {
    if codes != [] {
      ButLast(codes);
      var init := codes[..|codes| - 1];
      var c := codes[|codes| - 1];
      var prev := Projections(items, rows, ids, init, sqrt);
      ProjectionsKeepOrder(items, rows, ids, init, sqrt);
      var one := ProjectCode(prev.0, rows, ids, c, sqrt);
      SubsequenceAppend(CodesOf(prev.1.value), init, c, one.value.1.Some?);
      if one.value.1.Some? {
        CodesOfAppend(prev.1.value, (c, one.value.1.value));
      } else {
        assert prev.1.value + [] == prev.1.value;
      }
    }
  }

  /** The inner loop over the rows for the code at `p`. */
  method ScanRows(items: seq<Item>, rows: seq<Row>, ids: seq<nat>, p: Point, sqrt: SqrtFn) returns (r: Result<Nearest>)
    requires RefsValid(items) && EndsIn(rows, |items|) && AllIn(ids, |rows|)
    ensures r == Closest(ids, RowDistances(items, rows, p, sqrt))
  {
    ghost var dist := RowDistances(items, rows, p, sqrt);
    var closest: Option<nat> := None;
    var minDistance := FloatMax;
    var projection := 0.0;
    var k := 0;
    while k < |ids|
      invariant 0 <= k <= |ids|
      invariant Closest(ids[..k], dist) == Ok(Nearest(closest, minDistance, projection))
    {
      assert ids[..k + 1][..k] == ids[..k];
      var d := RowDistance(items, rows, ids[k], p, sqrt);
      assert d == dist[ids[k]];
      if d.None? {
        assert Closest(ids[..k + 1], dist).Err?;
        ClosestErrStays(ids, dist, k + 1);
        return Err(TypeError("'float' object is not iterable"));
      }
      if d.value.0 < minDistance {
        closest, minDistance, projection := Some(ids[k]), d.value.0, d.value.1;
      }
      k := k + 1;
    }
    assert ids[..k] == ids;
    r := Ok(Nearest(closest, minDistance, projection));
  }

  /** Once the scan has failed it stays failed. */
  lemma {:induction false} ClosestErrStays(ids: seq<nat>, dist: seq<Option<(real, real)>>, k: nat)
    requires AllIn(ids, |dist|) && k <= |ids| && Closest(ids[..k], dist).Err?
    ensures Closest(ids, dist) == Closest(ids[..k], dist)
    decreases |ids| - k
  {
    if k < |ids| {
      assert ids[..k + 1][..k] == ids[..k];
      ClosestErrStays(ids, dist, k + 1);
    } else {
      assert ids[..k] == ids;
    }
  }

  /** One code of the outer loop in the registry: the projection when kept, or the scan's error. */
  method ProjectOne(reg: Registry, ids: seq<nat>, c: nat, sqrt: SqrtFn) returns (r: Result<Option<real>>)
    requires reg.Valid() && AllIn(ids, |reg.rows|) && c < |reg.items| && EndsIn(reg.rows, |reg.items|)
    modifies reg
    ensures reg.Valid()
    ensures reg.segments == old(reg.segments) && reg.groups == old(reg.groups) && reg.rows == old(reg.rows)
    ensures var one := ProjectCode(old(reg.items), old(reg.rows), ids, c, sqrt);
            (one.Err? ==> r == Err(one.error) && reg.items == old(reg.items))
            && (one.Ok? ==> r == Ok(one.value.1) && reg.items == one.value.0)
  {
    var n := ScanRows(reg.items, reg.rows, ids, Position(reg.items, c), sqrt);
    if n.Err? {
      return Err(n.error);
    }
    if n.value.row.Some? && n.value.distance < MaxRowDistance {
      var number := reg.RowNumber(n.value.row.value);
      reg.Set(c, RowAttr(number));
      r := Ok(Some(n.value.projection));
    } else {
      reg.Set(c, RowAttr(-1));
      r := Ok(None);
    }
  }

  /**
   * `calculate_projection_to_nearest_row(group_codes, rows)` for the codes `codes` and the
   * rows `ids`: the arena and the result are those of `Projections`.
   */
  method CalculateProjectionToNearestRow(reg: Registry, codes: seq<nat>, ids: seq<nat>, sqrt: SqrtFn)
    returns (r: Result<seq<(nat, real)>>)
    requires reg.Valid() && AllIn(codes, |reg.items|) && AllIn(ids, |reg.rows|)
    modifies reg
    ensures reg.Valid()
    ensures reg.segments == old(reg.segments) && reg.groups == old(reg.groups) && reg.rows == old(reg.rows)
    ensures EndsIn(old(reg.rows), |old(reg.items)|)
    ensures (reg.items, r) == Projections(old(reg.items), old(reg.rows), ids, codes, sqrt)
  {
    forall t | 0 <= t < |reg.rows| ensures reg.rows[t].start < |reg.items| && reg.rows[t].end < |reg.items| {
      assert RowFits(reg.rows[t], |reg.items|, |reg.segments|);
    }
    var kept: seq<(nat, real)> := [];
    var k := 0;
    while k < |codes|
      invariant 0 <= k <= |codes| && reg.Valid() && |reg.items| == |old(reg.items)|
      invariant reg.segments == old(reg.segments) && reg.groups == old(reg.groups) && reg.rows == old(reg.rows)
      invariant (reg.items, Ok(kept)) == Projections(old(reg.items), old(reg.rows), ids, codes[..k], sqrt)
    {
      var c := codes[k];
      ProjectionsNext(old(reg.items), old(reg.rows), ids, codes, k, sqrt);
      ghost var prev := Projections(old(reg.items), old(reg.rows), ids, codes[..k], sqrt);
      assert reg.items == prev.0 && prev.1 == Ok(kept);
      var one := ProjectOne(reg, ids, c, sqrt);
      if one.Err? {
        ProjectionsErrStays(old(reg.items), old(reg.rows), ids, codes, k + 1, sqrt);
        return Err(one.error);
      }
      if one.value.Some? {
        kept := kept + [(c, one.value.value)];
      }
      k := k + 1;
    }
    assert codes[..k] == codes;
    r := Ok(kept);
  }

  /** One more code: its `ProjectCode` on the arena the earlier codes left. */
  lemma ProjectionsNext(items: seq<Item>, rows: seq<Row>, ids: seq<nat>, codes: seq<nat>, k: nat, sqrt: SqrtFn)
    requires RefsValid(items) && EndsIn(rows, |items|) && AllIn(ids, |rows|) && AllIn(codes, |items|) && k < |codes|
    requires Projections(items, rows, ids, codes[..k], sqrt).1.Ok?
    ensures var prev := Projections(items, rows, ids, codes[..k], sqrt);
            var one := ProjectCode(prev.0, rows, ids, codes[k], sqrt);
            var next := Projections(items, rows, ids, codes[..k + 1], sqrt);
            (one.Err? ==> next == (prev.0, Err(one.error)))
            && (one.Ok? && one.value.1.None? ==> next == (one.value.0, prev.1))
            && (one.Ok? && one.value.1.Some? ==> next == (one.value.0, Ok(prev.1.value + [(codes[k], one.value.1.value)])))
  {
    assert codes[..k + 1][..k] == codes[..k];
    var prev := Projections(items, rows, ids, codes[..k], sqrt);
    assert prev.1.value + [] == prev.1.value;
  }

  /** Once the codes have failed the result stays failed, with the arena as it was then. */
  lemma {:induction false} ProjectionsErrStays(items: seq<Item>, rows: seq<Row>, ids: seq<nat>, codes: seq<nat>, k: nat, sqrt: SqrtFn)
    requires RefsValid(items) && EndsIn(rows, |items|) && AllIn(ids, |rows|) && AllIn(codes, |items|) && k <= |codes|
    requires Projections(items, rows, ids, codes[..k], sqrt).1.Err?
    ensures Projections(items, rows, ids, codes, sqrt) == Projections(items, rows, ids, codes[..k], sqrt)
    decreases |codes| - k
  {
    if k < |codes| {
      assert codes[..k + 1][..k] == codes[..k];
      ProjectionsErrStays(items, rows, ids, codes, k + 1, sqrt);
    } else {
      assert codes[..k] == codes;
    }
  }
}
