/**
 * The checks of the stage 2 analysis script over the grouped field: dropping repeated code
 * listings, listing the single-code numbers that were never found, and counting the groups
 * and single segments whose lengths stray from the expected plant spacing. The script prints
 * what it finds; here each check returns what it lists or counts.
 */
module Stage2Analysis {
  import opened Wrappers
  import opened Geometry
  import opened Lists
  import opened Text
  import opened FieldItems
  import opened FieldGrouping
  import opened GroupingGroups

  // ---------------------------------------------------------------------------
  // make_code_listings_unique

  /** The ids of some listings, in order. */
  function Ids(listings: seq<CodeListing>): (r: seq<string>)
    ensures |r| == |listings| && forall k :: 0 <= k < |listings| ==> r[k] == listings[k].id
  {
    seq(|listings|, k requires 0 <= k < |listings| => listings[k].id)
  }

  /** Appending a listing appends it to the matches of its own id only. */
  lemma {:induction false} MatchingSnoc(listings: seq<CodeListing>, x: CodeListing, name: string)
    ensures Matching(listings + [x], name) == Matching(listings, name) + (if x.id == name then [x] else [])
    decreases |listings|
  {
    if listings == [] {
      assert listings + [x] == [x];
      assert [x][1..] == [];
    } else {
      var s := listings + [x];
      assert s[0] == listings[0];
      assert s[1..] == listings[1..] + [x];
      MatchingSnoc(listings[1..], x, name);
      var head := if listings[0].id == name then [listings[0]] else [];
      var tail := if x.id == name then [x] else [];
      assert Matching(s, name) == head + Matching(s[1..], name);
      assert Matching(listings, name) == head + Matching(listings[1..], name);
      assert head + (Matching(listings[1..], name) + tail) == (head + Matching(listings[1..], name)) + tail;
    }
  }

  /**
   * What `make_code_listings_unique` returns, in whatever order the dictionary yields its ids:
   * no id twice; each entry is the first listing of its id, an id listed once or twice; and
   * every id listed once or twice has its entry.
   */
  predicate UniqueListings(listings: seq<CodeListing>, unique: seq<CodeListing>) {
    Distinct(Ids(unique))
    && (forall k :: 0 <= k < |unique| ==>
          1 <= |Matching(listings, unique[k].id)| <= 2 && unique[k] == Matching(listings, unique[k].id)[0])
    && (forall j :: 0 <= j < |listings| && |Matching(listings, listings[j].id)| <= 2 ==> listings[j].id in Ids(unique))
  }

  /** The grouping loop: `unique_code_listings_dict[listing.id].append(listing)`. */
  method GroupListings(listings: seq<CodeListing>) returns (byId: map<string, seq<CodeListing>>)
    ensures forall id :: (id in byId) == (Matching(listings, id) != [])
    ensures forall id :: id in byId ==> byId[id] == Matching(listings, id)
  {
    byId := map[];
    var i := 0;
    while i < |listings|
      invariant i <= |listings|
      invariant forall id :: (id in byId) == (Matching(listings[..i], id) != [])
      invariant forall id :: id in byId ==> byId[id] == Matching(listings[..i], id)
    {
      var listing := listings[i];
      assert listings[..i + 1] == listings[..i] + [listing];
      forall id ensures Matching(listings[..i + 1], id) == Matching(listings[..i], id) + (if listing.id == id then [listing] else []) {
        MatchingSnoc(listings[..i], listing, id);
      }
      var old_entries := if listing.id in byId then byId[listing.id] else [];
      byId := byId[listing.id := old_entries + [listing]];
      i := i + 1;
    }
    assert listings[..i] == listings;
  }

  lemma IdsSnoc(unique: seq<CodeListing>, x: CodeListing)
    ensures Ids(unique + [x]) == Ids(unique) + [x.id]
  {
    assert forall k :: 0 <= k < |unique| ==> (unique + [x])[k] == unique[k];
  }

  /** The state of the loop over the ids: those no longer `remaining` have been dealt with. */
  predicate Collected(byId: map<string, seq<CodeListing>>, remaining: set<string>, unique: seq<CodeListing>) {
    remaining <= byId.Keys
    && Distinct(Ids(unique))
    && (forall k :: 0 <= k < |unique| ==>
          unique[k].id in byId && unique[k].id !in remaining
          && 1 <= |byId[unique[k].id]| <= 2 && unique[k] == byId[unique[k].id][0])
    && (forall id :: id in byId && id !in remaining && |byId[id]| <= 2 ==> id in Ids(unique))
  }

  lemma CollectStep(byId: map<string, seq<CodeListing>>, remaining: set<string>, unique: seq<CodeListing>, id: string)
    requires Collected(byId, remaining, unique) && id in remaining && byId[id] != [] && byId[id][0].id == id
    ensures |byId[id]| <= 2 ==> Collected(byId, remaining - {id}, unique + [byId[id][0]])
    ensures |byId[id]| > 2 ==> Collected(byId, remaining - {id}, unique)
  {
    var entries := byId[id];
    if |entries| <= 2 {
      var u := unique + [entries[0]];
      IdsSnoc(unique, entries[0]);
      forall a, b | 0 <= a < b < |u| ensures Ids(u)[a] != Ids(u)[b] {
        if b < |unique| {
          assert Ids(u)[a] == Ids(unique)[a] && Ids(u)[b] == Ids(unique)[b];
        } else {
          assert Ids(u)[a] == unique[a].id && Ids(u)[b] == id;
        }
      }
      forall k | 0 <= k < |u|
        ensures u[k].id in byId && u[k].id !in remaining - {id}
                && 1 <= |byId[u[k].id]| <= 2 && u[k] == byId[u[k].id][0]
      {
        if k < |unique| {
          assert u[k] == unique[k];
        }
      }
    }
  }

  /**
   * `make_code_listings_unique(code_listings)`: one listing per id, the first one, dropping
   * every id that has more than two. The ids are visited in an order the model leaves open.
   */
  method MakeCodeListingsUnique(listings: seq<CodeListing>) returns (unique: seq<CodeListing>)
    ensures UniqueListings(listings, unique)
  {
    var byId := GroupListings(listings);
    var remaining := byId.Keys;
    unique := [];
    while remaining != {}
      invariant Collected(byId, remaining, unique)
      decreases |remaining|
    {
      var id :| id in remaining;
      var entries := byId[id];
      var first := MatchingFirst(listings, id);
      CollectStep(byId, remaining, unique, id);
      if |entries| <= 2 {
        // Two entries are reported as duplicates or as differing in max plants; both keep the first.
        unique := unique + [entries[0]];
      }
      remaining := remaining - {id};
    }
    forall j | 0 <= j < |listings| && |Matching(listings, listings[j].id)| <= 2
      ensures listings[j].id in Ids(unique)
    {
      var m := MatchingFirst(listings, listings[j].id);
    }
  }

  /** Every entry of the result is one of the listings. */
  lemma UniqueListingsFromInput(listings: seq<CodeListing>, unique: seq<CodeListing>)
    requires UniqueListings(listings, unique)
    ensures forall k :: 0 <= k < |unique| ==> unique[k] in listings
  {
    forall k | 0 <= k < |unique| ensures unique[k] in listings {
      var j := MatchingFirst(listings, unique[k].id);
    }
  }

  /** The result is the same whatever order the ids are visited in: any two hold the same listings. */
  lemma UniqueListingsDetermined(listings: seq<CodeListing>, u1: seq<CodeListing>, u2: seq<CodeListing>)
    requires UniqueListings(listings, u1) && UniqueListings(listings, u2)
    ensures forall x :: x in u1 ==> x in u2
  {
    forall x | x in u1 ensures x in u2 {
      var k :| 0 <= k < |u1| && u1[k] == x;
      var j := MatchingFirst(listings, x.id);
      assert listings[j].id == x.id;
      var m :| 0 <= m < |u2| && Ids(u2)[m] == x.id;
      assert u2[m] == Matching(listings, x.id)[0];
    }
  }

  /** An id listed more than twice is dropped altogether. */
  lemma UniqueListingsDropCrowded(listings: seq<CodeListing>, unique: seq<CodeListing>, id: string)
    requires UniqueListings(listings, unique) && |Matching(listings, id)| > 2
    ensures id !in Ids(unique)
  { }

  // ---------------------------------------------------------------------------
  // warn_about_missing_single_codes

  /** `id[1:]`: the id without its first character (empty stays empty). */
  function DropFirst(s: string): (r: string)
    ensures |s| > 0 ==> r == s[1..]
    ensures |s| == 0 ==> r == ""
  {
    if |s| == 0 then "" else s[1..]
  }

  /** `int(id[1:])`; None where `int` raises ValueError. */
  function CodeNumber(id: string): Option<int> {
    ParseInt(DropFirst(id))
  }

  /** `[int(id[1:]) for id in found_code_ids]`: None as soon as one id does not parse. */
  function CodeNumbers(ids: seq<string>): (r: Option<seq<int>>)
    ensures r.Some? <==> forall k :: 0 <= k < |ids| ==> CodeNumber(ids[k]).Some?
    ensures r.Some? ==> |r.value| == |ids| && forall k :: 0 <= k < |ids| ==> r.value[k] == CodeNumber(ids[k]).value
  {
    if forall k :: 0 <= k < |ids| ==> CodeNumber(ids[k]).Some? then
      Some(seq(|ids|, k requires 0 <= k < |ids| => CodeNumber(ids[k]).value))
    else None
  }

  /** `max(numbers)` of a non-empty list. */
  function MaxNumber(numbers: seq<int>): (r: int)
    requires numbers != []
    ensures r in numbers && forall k :: 0 <= k < |numbers| ==> numbers[k] <= r
    decreases |numbers|
  {
    if |numbers| == 1 then numbers[0]
    else
      var m := MaxNumber(numbers[..|numbers| - 1]);
      assert forall k :: 0 <= k < |numbers| - 1 ==> numbers[..|numbers| - 1][k] == numbers[k];
      if numbers[|numbers| - 1] > m then numbers[|numbers| - 1] else m
  }

  /** `[n for n in range(1, m + 1) if n not in numbers]`. */
  function MissingUpTo(numbers: seq<int>, m: int): seq<int>
    decreases m
  {
    if m < 1 then [] else MissingUpTo(numbers, m - 1) + (if m in numbers then [] else [m])
  }

  /** The missing numbers are, in increasing order, exactly those from 1 to `m` not found. */
  lemma {:induction false} MissingUpToSpec(numbers: seq<int>, m: int)
    ensures forall x :: x in MissingUpTo(numbers, m) <==> 1 <= x <= m && x !in numbers
    ensures forall i, j :: 0 <= i < j < |MissingUpTo(numbers, m)| ==> MissingUpTo(numbers, m)[i] < MissingUpTo(numbers, m)[j]
    decreases m
  {
    if m >= 1 {
      MissingUpToSpec(numbers, m - 1);
      var s := MissingUpTo(numbers, m - 1);
      assert forall i :: 0 <= i < |s| ==> s[i] in s;
    }
  }

  /**
   * `warn_about_missing_single_codes(found_code_ids)`: the single-code numbers from 1 up to
   * the largest one found that no id carries. An id whose tail is not a number, and an empty
   * list (for `max`), raise ValueError.
   */
  function MissingSingleCodes(ids: seq<string>): (r: Result<seq<int>>)
    ensures r.Ok? <==> ids != [] && forall k :: 0 <= k < |ids| ==> CodeNumber(ids[k]).Some?
    ensures r.Ok? ==>
              var numbers := CodeNumbers(ids).value;
              forall x :: x in r.value <==> 1 <= x <= MaxNumber(numbers) && x !in numbers
    ensures r.Ok? ==> forall i, j :: 0 <= i < j < |r.value| ==> r.value[i] < r.value[j]
  {
    var numbers := CodeNumbers(ids);
    if numbers.None? then Err(ValueError("invalid literal for int()"))
    else if numbers.value == [] then Err(ValueError("max() arg is an empty sequence"))
    else
      MissingUpToSpec(numbers.value, MaxNumber(numbers.value));
      Ok(MissingUpTo(numbers.value, MaxNumber(numbers.value)))
  }

  // ---------------------------------------------------------------------------
  // warn_about_bad_group_lengths

  /** How the length check classes a group. */
  datatype LengthClass = NoExpectedLength | MultiSegment | TooLong | TooShort | CloseLength

  /** The expected length: the plant gaps plus half a spacing before and after each segment's codes. */
  function ExpectedGroupLength(numPlants: int, numSegments: nat, spacing: real): real {
    (numPlants - 1) as real * spacing + spacing / 2.0 * 2.0 * numSegments as real
  }

  /** The class `warn_about_bad_group_lengths` gives one group. */
  function GroupLengthClass(numPlants: int, numSegments: nat, length: real, spacing: real): (r: LengthClass)
    ensures r == NoExpectedLength <==> numPlants < 0
    ensures r == MultiSegment <==> numPlants >= 0 && numSegments > 1
  {
    if numPlants < 0 then NoExpectedLength
    else if numSegments > 1 then MultiSegment
    else
      var expected := ExpectedGroupLength(numPlants, numSegments, spacing);
      if length > expected * 1.3 then TooLong
      else if length < expected * 0.7 then TooShort
      else CloseLength
  }

  lemma ExpectedOneSegment(numPlants: int, spacing: real)
    ensures ExpectedGroupLength(numPlants, 1, spacing) == numPlants as real * spacing
  {
    calc {
      ExpectedGroupLength(numPlants, 1, spacing);
      (numPlants - 1) as real * spacing + spacing;
      { assert (numPlants - 1) as real == numPlants as real - 1.0; }
      (numPlants as real - 1.0) * spacing + spacing;
    }
  }

  /**
   * A group of one segment with a plant count is too long above 1.3 times `n * spacing`, too
   * short below 0.7 times it, and close in between; with a non-negative spacing the bands do
   * not overlap, so the order of the two tests does not matter.
   */
  lemma GroupLengthClassOneSegment(numPlants: int, length: real, spacing: real)
    requires numPlants >= 0 && spacing >= 0.0
    ensures var c := GroupLengthClass(numPlants, 1, length, spacing);
            var e := numPlants as real * spacing;
            (c == TooLong <==> length > 1.3 * e)
            && (c == TooShort <==> length < 0.7 * e)
            && (c == CloseLength <==> 0.7 * e <= length <= 1.3 * e)
  {
    ExpectedOneSegment(numPlants, spacing);
    var e := numPlants as real * spacing;
    assert e >= 0.0 by {
      NonNegativeProduct(numPlants as real, spacing);
    }
  }

  lemma NonNegativeProduct(a: real, b: real)
    requires a >= 0.0 && b >= 0.0
    ensures a * b >= 0.0
  { }

  /** The class of group `g` of the registry, its length the sum of its segments' lengths. */
  function GroupClass(reg: Registry, g: nat, spacing: real, sqrt: SqrtFn): LengthClass
    requires reg.Valid() && g < |reg.groups|
    reads reg
  {
    assert GroupFits(reg.groups[g], |reg.segments|);
    GroupLengthClass(reg.groups[g].expectedNumPlants, |reg.groups[g].segments|,
                     reg.SumLengths(reg.groups[g].segments, sqrt), spacing)
  }

  /** The class of each of the groups `groups`. */
  function Classes(reg: Registry, groups: seq<nat>, spacing: real, sqrt: SqrtFn): (r: seq<LengthClass>)
    requires reg.Valid() && AllIn(groups, |reg.groups|)
    reads reg
    ensures |r| == |groups| && forall k :: 0 <= k < |groups| ==> r[k] == GroupClass(reg, groups[k], spacing, sqrt)
  {
    seq(|groups|, k requires 0 <= k < |groups| && reg.Valid() && AllIn(groups, |reg.groups|) reads reg =>
      GroupClass(reg, groups[k], spacing, sqrt))
  }

  /** How many of the first `n` classes are `c`. */
  function Count(classes: seq<LengthClass>, n: nat, c: LengthClass): (r: nat)
    requires n <= |classes|
    ensures r <= n
  {
    if n == 0 then 0 else Count(classes, n - 1, c) + (if classes[n - 1] == c then 1 else 0)
  }

  /** One more class counts towards its own count and no other. */
  lemma CountStep(classes: seq<LengthClass>, i: nat, c: LengthClass)
    requires i < |classes| && classes[i] == c
    ensures forall d :: Count(classes, i + 1, d) == Count(classes, i, d) + (if c == d then 1 else 0)
  { }

  /** How many of the groups `groups` fall in class `c`. */
  function CountClass(reg: Registry, groups: seq<nat>, c: LengthClass, spacing: real, sqrt: SqrtFn): nat
    requires reg.Valid() && AllIn(groups, |reg.groups|)
    reads reg
  {
    Count(Classes(reg, groups, spacing, sqrt), |groups|, c)
  }

  /** Each class is exactly one of the five: the five counts of the first `n` add up to `n`. */
  lemma {:induction false} CountPartition(classes: seq<LengthClass>, n: nat)
    requires n <= |classes|
    ensures Count(classes, n, NoExpectedLength) + Count(classes, n, MultiSegment) + Count(classes, n, TooLong)
            + Count(classes, n, TooShort) + Count(classes, n, CloseLength) == n
  {
    if n > 0 {
      CountPartition(classes, n - 1);
    }
  }

  /** The body of the loop of `warn_about_bad_group_lengths` for group `g`: the class it reports. */
  method CheckGroupLength(reg: Registry, g: nat, spacing: real, sqrt: SqrtFn) returns (c: LengthClass)
    requires reg.Valid() && g < |reg.groups|
    ensures c == GroupClass(reg, g, spacing, sqrt)
  {
    var numPlants := reg.groups[g].expectedNumPlants;
    if numPlants < 0 {
      return NoExpectedLength;
    }
    var numSegments := |reg.groups[g].segments|;
    var expectedLength := ExpectedGroupLength(numPlants, numSegments, spacing);
    var actualLength := reg.GroupLength(g, sqrt);
    var maxLength := expectedLength * 1.3;
    var minLength := expectedLength * 0.7;
    // Groups of several segments get more room (five spacings) and are then skipped.
    if numSegments > 1 {
      c := MultiSegment;
    } else if actualLength > maxLength {
      c := TooLong;
    } else if actualLength < minLength {
      c := TooShort;
    } else {
      c := CloseLength;
    }
  }

  /** One turn of the loop of `warn_about_bad_group_lengths`: group `groups[i]` raises the counter of its class. */
  method TallyGroup(reg: Registry, groups: seq<nat>, i: nat, spacing: real, sqrt: SqrtFn, ghost classes: seq<LengthClass>,
                    withoutExpected: nat, tooLong: nat, tooShort: nat)
    returns (withoutExpected': nat, tooLong': nat, tooShort': nat)
    requires reg.Valid() && AllIn(groups, |reg.groups|) && i < |groups|
    requires classes == Classes(reg, groups, spacing, sqrt)
    requires withoutExpected == Count(classes, i, NoExpectedLength)
    requires tooLong == Count(classes, i, TooLong) && tooShort == Count(classes, i, TooShort)
    ensures withoutExpected' == Count(classes, i + 1, NoExpectedLength)
    ensures tooLong' == Count(classes, i + 1, TooLong) && tooShort' == Count(classes, i + 1, TooShort)
  {
    withoutExpected', tooLong', tooShort' := withoutExpected, tooLong, tooShort;
    var c := CheckGroupLength(reg, groups[i], spacing, sqrt);
    assert c == classes[i];
    CountStep(classes, i, c);
    if c == NoExpectedLength {
      withoutExpected' := withoutExpected + 1;
    } else if c == TooLong {
      tooLong' := tooLong + 1;
    } else if c == TooShort {
      tooShort' := tooShort + 1;
    }
  }

  /** The counters of the group length report. */
  datatype GroupLengthReport = GroupLengthReport(withoutExpected: nat, good: nat, tooLong: nat, tooShort: nat)

  /**
   * `warn_about_bad_group_lengths(groups, spacing_between_plants)`: counts the groups without a
   * plant count, and the one-segment groups that are too long or too short. The counter of
   * groups close to their expected length is never incremented.
   */
  method WarnAboutBadGroupLengths(reg: Registry, groups: seq<nat>, spacing: real, sqrt: SqrtFn)
    returns (report: GroupLengthReport)
    requires reg.Valid() && AllIn(groups, |reg.groups|)
    ensures report.withoutExpected == CountClass(reg, groups, NoExpectedLength, spacing, sqrt)
    ensures report.tooLong == CountClass(reg, groups, TooLong, spacing, sqrt)
    ensures report.tooShort == CountClass(reg, groups, TooShort, spacing, sqrt)
    ensures report.good == 0
  {
    var numGroupsWithoutExpectedLength, numGoodLengths, numTooLong, numTooShort := 0, 0, 0, 0;
    ghost var classes := Classes(reg, groups, spacing, sqrt);
    var i := 0;
    while i < |groups|
      invariant i <= |groups|
      invariant numGroupsWithoutExpectedLength == Count(classes, i, NoExpectedLength)
      invariant numTooLong == Count(classes, i, TooLong)
      invariant numTooShort == Count(classes, i, TooShort)
      invariant numGoodLengths == 0
    {
      numGroupsWithoutExpectedLength, numTooLong, numTooShort :=
        TallyGroup(reg, groups, i, spacing, sqrt, classes, numGroupsWithoutExpectedLength, numTooLong, numTooShort);
      i := i + 1;
    }
    report := GroupLengthReport(numGroupsWithoutExpectedLength, numGoodLengths, numTooLong, numTooShort);
  }

  /** The report as evidently intended: `good` counts the one-segment groups within their band. */
  function IntendedGroupLengthReport(reg: Registry, groups: seq<nat>, spacing: real, sqrt: SqrtFn): (r: GroupLengthReport)
    requires reg.Valid() && AllIn(groups, |reg.groups|)
    reads reg
    ensures r.withoutExpected + r.good + r.tooLong + r.tooShort + CountClass(reg, groups, MultiSegment, spacing, sqrt) == |groups|
  {
    CountPartition(Classes(reg, groups, spacing, sqrt), |groups|);
    GroupLengthReport(CountClass(reg, groups, NoExpectedLength, spacing, sqrt), CountClass(reg, groups, CloseLength, spacing, sqrt),
                      CountClass(reg, groups, TooLong, spacing, sqrt), CountClass(reg, groups, TooShort, spacing, sqrt))
  }

  /** A one-segment group of `n` plants exactly `n` spacings long is close, yet the report counts no good length. */
  lemma GoodLengthsNeverCounted(numPlants: nat, spacing: real)
    requires spacing > 0.0
    ensures GroupLengthClass(numPlants, 1, numPlants as real * spacing, spacing) == CloseLength
  {
    GroupLengthClassOneSegment(numPlants, numPlants as real * spacing, spacing);
    NonNegativeProduct(numPlants as real, spacing);
  }

  // ---------------------------------------------------------------------------
  // warn_about_missing_single_code_lengths

  /**
   * The length compared for consecutive single segments `s1`, `s2`: the distance between their
   * first plants when both have plants, otherwise the first segment's length.
   */
  function PairLength(reg: Registry, s1: nat, s2: nat, sqrt: SqrtFn): real
    requires reg.Valid() && s1 < |reg.segments| && s2 < |reg.segments|
    reads reg
  {
    assert SegmentFits(reg.segments[s1], |reg.items|, |reg.groups|);
    assert SegmentFits(reg.segments[s2], |reg.items|, |reg.groups|);
    if |reg.segments[s1].items| > 0 && |reg.segments[s2].items| > 0 then
      PositionDifference(Position(reg.items, reg.segments[s1].items[0]), Position(reg.items, reg.segments[s2].items[0]), sqrt)
    else reg.SegmentLength(s1, sqrt)
  }

  /** A pair is flagged when its length is more than 1.75 plant spacings. */
  predicate PairTooLong(reg: Registry, s1: nat, s2: nat, spacing: real, sqrt: SqrtFn)
    requires reg.Valid() && s1 < |reg.segments| && s2 < |reg.segments|
    reads reg
  {
    PairLength(reg, s1, s2, sqrt) > spacing * 1.75
  }

  /** For each consecutive pair of `segs`, whether it is flagged. */
  function Flags(reg: Registry, segs: seq<nat>, spacing: real, sqrt: SqrtFn): (r: seq<bool>)
    requires reg.Valid() && AllIn(segs, |reg.segments|)
    reads reg
    ensures |r| == (if segs == [] then 0 else |segs| - 1)
    ensures forall k :: 0 <= k < |r| ==> r[k] == PairTooLong(reg, segs[k], segs[k + 1], spacing, sqrt)
  {
    seq(if segs == [] then 0 else |segs| - 1,
        k requires 0 <= k < |segs| - 1 && reg.Valid() && AllIn(segs, |reg.segments|) reads reg =>
          PairTooLong(reg, segs[k], segs[k + 1], spacing, sqrt))
  }

  /** How many of the first `n` flags are set. */
  function CountFlagged(flags: seq<bool>, n: nat): (r: nat)
    requires n <= |flags|
    ensures r <= n
  {
    if n == 0 then 0 else CountFlagged(flags, n - 1) + (if flags[n - 1] then 1 else 0)
  }

  /** How many consecutive pairs of `segs` are flagged. */
  function CountTooLong(reg: Registry, segs: seq<nat>, spacing: real, sqrt: SqrtFn): nat
    requires reg.Valid() && AllIn(segs, |reg.segments|)
    reads reg
  {
    var flags := Flags(reg, segs, spacing, sqrt);
    CountFlagged(flags, |flags|)
  }

  /** The length the loop of `warn_about_missing_single_code_lengths` measures for one pair. */
  method MeasurePair(reg: Registry, segment: nat, nextSegment: nat, sqrt: SqrtFn) returns (actualLength: real)
    requires reg.Valid() && segment < |reg.segments| && nextSegment < |reg.segments|
    ensures actualLength == PairLength(reg, segment, nextSegment, sqrt)
  {
    assert SegmentFits(reg.segments[segment], |reg.items|, |reg.groups|);
    assert SegmentFits(reg.segments[nextSegment], |reg.items|, |reg.groups|);
    if |reg.segments[segment].items| > 0 && |reg.segments[nextSegment].items| > 0 {
      var plant1, plant2 := reg.segments[segment].items[0], reg.segments[nextSegment].items[0];
      actualLength := PositionDifference(Position(reg.items, plant1), Position(reg.items, plant2), sqrt);
    } else {
      actualLength := reg.SegmentLength(segment, sqrt);
    }
  }

  /** One turn of the loop of `warn_about_missing_single_code_lengths`: the pair at `k` is measured and maybe counted. */
  method TallyPair(reg: Registry, segs: seq<nat>, k: nat, spacing: real, sqrt: SqrtFn, ghost flags: seq<bool>, tooLong: nat)
    returns (tooLong': nat, next: nat)
    requires reg.Valid() && AllIn(segs, |reg.segments|) && flags == Flags(reg, segs, spacing, sqrt) && k < |flags|
    requires tooLong == CountFlagged(flags, k)
    ensures next == k + 1 && tooLong' == CountFlagged(flags, next)
  {
    next := k + 1;
    var actualLength := MeasurePair(reg, segs[k], segs[k + 1], sqrt);
    var maxLength := spacing * 1.75;
    assert flags[k] <==> actualLength > maxLength;
    assert CountFlagged(flags, next) == tooLong + (if flags[k] then 1 else 0);
    tooLong' := tooLong;
    if actualLength > maxLength {
      tooLong' := tooLong + 1;
    }
  }

  /** The counters of the single segment report. */
  datatype SingleLengthReport = SingleLengthReport(good: nat, tooLong: nat)

  /**
   * `warn_about_missing_single_code_lengths(single_segments, spacing_between_plants)`: counts
   * the consecutive pairs of single segments flagged too long. The segments shorter than 0.06
   * are only printed, and the counter of close lengths is never incremented.
   */
  method WarnAboutMissingSingleCodeLengths(reg: Registry, segs: seq<nat>, spacing: real, sqrt: SqrtFn)
    returns (report: SingleLengthReport)
    requires reg.Valid() && AllIn(segs, |reg.segments|)
    ensures report.tooLong == CountTooLong(reg, segs, spacing, sqrt)
    ensures report.good == 0
  {
    var numGoodLengths, numTooLong := 0, 0;
    ghost var flags := Flags(reg, segs, spacing, sqrt);
    var pairs := if segs == [] then 0 else |segs| - 1;
    assert pairs == |flags|;
    var k := 0;
    while k < pairs
      invariant k <= pairs
      invariant numTooLong == CountFlagged(flags, k)
    {
      numTooLong, k := TallyPair(reg, segs, k, spacing, sqrt, flags, numTooLong);
    }
    assert CountTooLong(reg, segs, spacing, sqrt) == CountFlagged(flags, pairs);
    report := SingleLengthReport(numGoodLengths, numTooLong);
  }

  /** With pointwise fewer flags, no more are counted. */
  lemma {:induction false} CountFlaggedMonotone(fewer: seq<bool>, more: seq<bool>, n: nat)
    requires |fewer| == |more| && n <= |fewer| && forall k :: 0 <= k < |fewer| && fewer[k] ==> more[k]
    ensures CountFlagged(fewer, n) <= CountFlagged(more, n)
  {
    if n > 0 {
      CountFlaggedMonotone(fewer, more, n - 1);
    }
  }

  /** A wider spacing flags no more pairs. */
  lemma CountTooLongMonotone(reg: Registry, segs: seq<nat>, spacing1: real, spacing2: real, sqrt: SqrtFn)
    requires reg.Valid() && AllIn(segs, |reg.segments|) && spacing1 <= spacing2
    ensures CountTooLong(reg, segs, spacing2, sqrt) <= CountTooLong(reg, segs, spacing1, sqrt)
  {
    var f1, f2 := Flags(reg, segs, spacing1, sqrt), Flags(reg, segs, spacing2, sqrt);
    CountFlaggedMonotone(f2, f1, |f1|);
  }
}
