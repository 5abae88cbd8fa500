/**
 * Reference-list bookkeeping for the merge of duplicate detections: each item carries the
 * list of items merged into it, and merging appends to those lists. The facts here are
 * about the lists alone, so they are stated on `seq<seq<nat>>`.
 */
module ReferenceLists {
  import opened Lists

  /** `x` appended to the reference list of `y`. */
  function AttachRef(refs: seq<seq<nat>>, y: nat, x: nat): (r: seq<seq<nat>>)
    requires y < |refs|
    ensures |r| == |refs|
  {
    refs[y := refs[y] + [x]]
  }

  /** The merge's effect on the reference lists and the unique list, given the match at each step. */
  function Replay(refs: seq<seq<nat>>, u: seq<nat>, rest: seq<nat>, ch: seq<int>): (r: (seq<seq<nat>>, seq<nat>))
    requires |ch| == |rest| && AllIn(u, |refs|) && AllIn(rest, |refs|)
    ensures |r.0| == |refs| && AllIn(r.1, |refs|)
    decreases |rest|
  {
    if rest == [] then (refs, u)
    else if ch[0] < 0 || ch[0] >= |u| then Replay(refs, u + [rest[0]], rest[1..], ch[1..])
    else Replay(AttachRef(refs, u[ch[0]], rest[0]), u, rest[1..], ch[1..])
  }

  /** The unique items only grow at the end. */
  lemma {:induction false} ReplayPrefix(refs: seq<seq<nat>>, u: seq<nat>, rest: seq<nat>, ch: seq<int>)
    requires |ch| == |rest| && AllIn(u, |refs|) && AllIn(rest, |refs|)
    ensures var v := Replay(refs, u, rest, ch).1; |v| >= |u| && v[..|u|] == u
    decreases |rest|
  {
    if rest != [] {
      if ch[0] < 0 || ch[0] >= |u| {
        ReplayPrefix(refs, u + [rest[0]], rest[1..], ch[1..]);
        var v := Replay(refs, u + [rest[0]], rest[1..], ch[1..]).1;
        assert v[..|u|] == v[..|u| + 1][..|u|];
      } else {
        ReplayPrefix(AttachRef(refs, u[ch[0]], rest[0]), u, rest[1..], ch[1..]);
      }
    }
  }

  /** Every unique item found after `done` comes from `rest`, in input order. */
  lemma {:induction false} ReplayOrder(refs: seq<seq<nat>>, v: seq<nat>, done: seq<nat>, rest: seq<nat>, ch: seq<int>)
    requires |ch| == |rest| && AllIn(v, |refs|) && AllIn(rest, |refs|) && IsSubsequence(v, done)
    ensures IsSubsequence(Replay(refs, v, rest, ch).1, done + rest)
    decreases |rest|
  {
    if rest == [] {
      assert done + rest == done;
    } else {
      var x := rest[0];
      assert done + rest == (done + [x]) + rest[1..];
      if ch[0] < 0 || ch[0] >= |v| {
        SubsequenceAppend(v, done, x, true);
        ReplayOrder(refs, v + [x], done + [x], rest[1..], ch[1..]);
      } else {
        SubsequenceAppend(v, done, x, false);
        ReplayOrder(AttachRef(refs, v[ch[0]], x), v, done + [x], rest[1..], ch[1..]);
      }
    }
  }

  /** The references item `x` gained since `refs0`. */
  function Appended(refs0: seq<seq<nat>>, refs: seq<seq<nat>>, x: nat): seq<nat>
    requires x < |refs0| && x < |refs|
  {
    var a, b := refs0[x], refs[x];
    if |a| <= |b| then b[|a|..] else []
  }

  /** The references gained by the items of `u`, one item after the other. */
  function AppendedAll(refs0: seq<seq<nat>>, refs: seq<seq<nat>>, u: seq<nat>): seq<nat>
    requires |refs| == |refs0| && AllIn(u, |refs0|)
  {
    if u == [] then [] else AppendedAll(refs0, refs, u[..|u| - 1]) + Appended(refs0, refs, u[|u| - 1])
  }

  /** Every reference list of `refs0` is a prefix of the one in `refs`. */
  predicate OthersGrown(refs0: seq<seq<nat>>, refs: seq<seq<nat>>) {
    |refs| == |refs0| && forall x :: 0 <= x < |refs| ==> refs0[x] <= refs[x]
  }

  lemma {:induction false} AppendedAllSame(refs0: seq<seq<nat>>, refs: seq<seq<nat>>, refs': seq<seq<nat>>, u: seq<nat>)
    requires |refs| == |refs0| == |refs'| && AllIn(u, |refs0|)
    requires forall k :: 0 <= k < |u| ==> refs'[u[k]] == refs[u[k]]
    ensures AppendedAll(refs0, refs', u) == AppendedAll(refs0, refs, u)
  {
    if u != [] { AppendedAllSame(refs0, refs, refs', u[..|u| - 1]); }
  }

  lemma AppendedAttachSelf(refs0: seq<seq<nat>>, refs: seq<seq<nat>>, y: nat, x: nat)
    requires |refs| == |refs0| && y < |refs| && refs0[y] <= refs[y]
    ensures Appended(refs0, AttachRef(refs, y, x), y) == Appended(refs0, refs, y) + [x]
  {
    var a := refs0[y];
    assert (refs[y] + [x])[|a|..] == refs[y][|a|..] + [x];
  }

  lemma {:induction false} AppendedAllAttach(refs0: seq<seq<nat>>, refs: seq<seq<nat>>, u: seq<nat>, y: nat, x: nat)
    requires |refs| == |refs0| && AllIn(u, |refs0|) && Distinct(u) && y in u
    requires y < |refs| && refs0[y] <= refs[y]
    ensures multiset(AppendedAll(refs0, AttachRef(refs, y, x), u)) == multiset(AppendedAll(refs0, refs, u)) + multiset{x}
  {
    var refs' := AttachRef(refs, y, x);
    var init, l := u[..|u| - 1], u[|u| - 1];
    DistinctLast(u);
    var after := AppendedAll(refs0, refs', init);
    if l == y {
      forall k | 0 <= k < |init|
        ensures refs'[init[k]] == refs[init[k]]
      {
        assert init[k] != y;
      }
      AppendedAllSame(refs0, refs, refs', init);
      AppendedAttachSelf(refs0, refs, y, x);
      assert AppendedAll(refs0, refs', u) == after + (Appended(refs0, refs, y) + [x]);
    } else {
      assert y in init;
      AppendedAllAttach(refs0, refs, init, y, x);
      assert Appended(refs0, refs', l) == Appended(refs0, refs, l);
      assert AppendedAll(refs0, refs', u) == after + Appended(refs0, refs, l);
    }
  }

  /**
   * Part way through the merge: only the reference lists of the unique items `u` have grown,
   * and only by appending, and the items `done` so far are, between them, the unique items
   * and the references those gained.
   */
  predicate PlacementInv(refs0: seq<seq<nat>>, refs: seq<seq<nat>>, u: seq<nat>, done: seq<nat>) {
    AllIn(u, |refs|) && OthersGrown(refs0, refs)
    && (forall x :: 0 <= x < |refs| && x !in u ==> refs[x] == refs0[x])
    && Distinct(u) && (forall x :: x in u ==> x in done)
    && multiset(u) + multiset(AppendedAll(refs0, refs, u)) == multiset(done)
  }

  lemma PlacementNewUnique(refs0: seq<seq<nat>>, refs: seq<seq<nat>>, u: seq<nat>, done: seq<nat>, x: nat)
    requires PlacementInv(refs0, refs, u, done) && x < |refs| && x !in done
    ensures PlacementInv(refs0, refs, u + [x], done + [x])
  {
    var u' := u + [x];
    assert u'[..|u'| - 1] == u;
    assert Appended(refs0, refs, x) == [];
    assert Distinct(u') by {
      forall i, j | 0 <= i < j < |u'| ensures u'[i] != u'[j] {
        if j == |u| { assert u'[i] in u; }
      }
    }
  }

  lemma PlacementAttach(refs0: seq<seq<nat>>, refs: seq<seq<nat>>, u: seq<nat>, done: seq<nat>, m: nat, x: nat)
    requires PlacementInv(refs0, refs, u, done) && x < |refs| && x !in done && m < |u|
    ensures PlacementInv(refs0, AttachRef(refs, u[m], x), u, done + [x])
  {
    var y := u[m];
    var refs' := AttachRef(refs, y, x);
    AppendedAllAttach(refs0, refs, u, y, x);
    forall t | 0 <= t < |refs'|
      ensures refs0[t] <= refs'[t]
    {
      if t == y { assert refs0[t] <= refs[t]; }
    }
  }

  lemma {:induction false} ReplayPlacement(refs0: seq<seq<nat>>, refs: seq<seq<nat>>, u: seq<nat>, done: seq<nat>,
                                          rest: seq<nat>, ch: seq<int>)
    requires PlacementInv(refs0, refs, u, done) && AllIn(rest, |refs|) && Distinct(done + rest) && |ch| == |rest|
    ensures var r := Replay(refs, u, rest, ch); PlacementInv(refs0, r.0, r.1, done + rest)
    decreases |rest|
  {
    if rest == [] {
      assert done + rest == done;
    } else {
      var x, r := rest[0], Replay(refs, u, rest, ch);
      var done' := done + [x];
      assert done + rest == done' + rest[1..];
      assert x !in done by {
        forall i | 0 <= i < |done| ensures done[i] != x {
          assert (done + rest)[i] == done[i] && (done + rest)[|done|] == x;
        }
      }
      if ch[0] < 0 || ch[0] >= |u| {
        PlacementNewUnique(refs0, refs, u, done, x);
        ReplayPlacement(refs0, refs, u + [x], done', rest[1..], ch[1..]);
        assert r == Replay(refs, u + [x], rest[1..], ch[1..]);
      } else {
        var refs' := AttachRef(refs, u[ch[0]], x);
        PlacementAttach(refs0, refs, u, done, ch[0], x);
        ReplayPlacement(refs0, refs', u, done', rest[1..], ch[1..]);
        assert r == Replay(refs', u, rest[1..], ch[1..]);
      }
    }
  }

  /** What `PlacementInv` says once every item has been placed. */
  lemma PlacementComplete(refs0: seq<seq<nat>>, refs: seq<seq<nat>>, u: seq<nat>, ids: seq<nat>)
    requires PlacementInv(refs0, refs, u, ids) && Distinct(ids)
    ensures var gained := AppendedAll(refs0, refs, u);
            (forall x :: x in ids ==> (x in u <==> x !in gained))
            && (forall x :: x in gained ==> x in ids && multiset(gained)[x] == 1)
  {
    ExactlyOnce(u, AppendedAll(refs0, refs, u), ids);
  }

  lemma ExactlyOnce(u: seq<nat>, a: seq<nat>, ids: seq<nat>)
    requires multiset(u) + multiset(a) == multiset(ids) && Distinct(ids)
    ensures forall x :: x in ids ==> (x in u <==> x !in a)
    ensures forall x :: x in a ==> x in ids && multiset(a)[x] == 1
  {
    forall x | x in ids || x in a
      ensures x in ids && (x in u <==> x !in a) && (x in a ==> multiset(a)[x] == 1)
    {
      DistinctCount(ids, x);
      assert multiset(u)[x] + multiset(a)[x] == multiset(ids)[x];
      assert x in u <==> multiset(u)[x] > 0;
      assert x in a <==> multiset(a)[x] > 0;
      assert x in ids <==> multiset(ids)[x] > 0;
    }
  }

  lemma {:induction false} DistinctCount(s: seq<nat>, x: nat)
    requires Distinct(s)
    ensures multiset(s)[x] <= 1
  {
    if s != [] {
      assert s == [s[0]] + s[1..];
      assert Distinct(s[1..]) by {
        forall i, j | 0 <= i < j < |s[1..]| ensures s[1..][i] != s[1..][j] { assert s[i + 1] != s[j + 1]; }
      }
      DistinctCount(s[1..], x);
    }
  }
}
