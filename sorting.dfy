/**
 * Python's `sorted(xs, key=k)` and `sorted(xs, key=k, reverse=True)`. Python's sort is stable,
 * and so is this insertion sort: elements with equal keys keep their input order, so both
 * produce the same list.
 */
module Sorting {
  import opened Wrappers

  predicate SortedBy<T>(s: seq<T>, key: T -> real) {
    forall i, j :: 0 <= i < j < |s| ==> key(s[i]) <= key(s[j])
  }

  predicate SortedDownBy<T>(s: seq<T>, key: T -> real) {
    forall i, j :: 0 <= i < j < |s| ==> key(s[i]) >= key(s[j])
  }

  /** Places `x` in front of the first element whose key is not smaller than its own. */
  function Insert<T>(x: T, s: seq<T>, key: T -> real): (r: seq<T>)
    ensures multiset(r) == multiset(s) + multiset{x}
    ensures |r| == |s| + 1
  {
    if s == [] || key(x) <= key(s[0]) then [x] + s
    else
      assert s == [s[0]] + s[1..];
      [s[0]] + Insert(x, s[1..], key)
  }

  /** A lower bound on the keys of `x` and of `s` bounds the keys of the insertion too. */
  lemma {:induction false} InsertBounded<T>(x: T, s: seq<T>, key: T -> real, lo: real)
    requires lo <= key(x) && forall i :: 0 <= i < |s| ==> lo <= key(s[i])
    ensures forall i :: 0 <= i < |Insert(x, s, key)| ==> lo <= key(Insert(x, s, key)[i])
  {
    if s != [] && key(x) > key(s[0]) {
      InsertBounded(x, s[1..], key, lo);
      assert Insert(x, s, key) == [s[0]] + Insert(x, s[1..], key);
    } else {
      assert Insert(x, s, key) == [x] + s;
    }
  }

  lemma {:induction false} InsertSorted<T>(x: T, s: seq<T>, key: T -> real)
    requires SortedBy(s, key)
    ensures SortedBy(Insert(x, s, key), key)
  {
    if s != [] && key(x) > key(s[0]) {
      InsertSorted(x, s[1..], key);
      var rest := Insert(x, s[1..], key);
      var r := Insert(x, s, key);
      assert r == [s[0]] + rest;
      forall j | 0 <= j < |s[1..]| ensures key(s[0]) <= key(s[1..][j]) {
        assert s[1..][j] == s[j + 1];
      }
      InsertBounded(x, s[1..], key, key(s[0]));
      forall i, j | 0 <= i < j < |r| ensures key(r[i]) <= key(r[j]) {
        if i > 0 { assert r[i] == rest[i - 1] && r[j] == rest[j - 1]; }
        else { assert r[j] == rest[j - 1]; }
      }
    }
  }

  /** `sorted(s, key=key)`. */
  function SortBy<T>(s: seq<T>, key: T -> real): (r: seq<T>)
    ensures multiset(r) == multiset(s)
    ensures |r| == |s|
    ensures SortedBy(r, key)
  {
    if s == [] then []
    else
      assert s == [s[0]] + s[1..];
      InsertSorted(s[0], SortBy(s[1..], key), key);
      Insert(s[0], SortBy(s[1..], key), key)
  }

  /** The key that orders by descending `key`. */
  function Negated<T>(key: T -> real): T -> real {
    x => -key(x)
  }

  /** `sorted(s, key=key, reverse=True)`: stable, so equal keys keep their input order. */
  function SortByDescending<T>(s: seq<T>, key: T -> real): (r: seq<T>)
    ensures multiset(r) == multiset(s)
    ensures |r| == |s|
    ensures SortedDownBy(r, key)
  {
    var r := SortBy(s, Negated(key));
    assert SortedBy(r, Negated(key));
    r
  }

  // Stability: the elements sharing a key come out in the order they went in.

  /** The elements of `s` whose key is `v`, in order. */
  function WithKey<T>(s: seq<T>, key: T -> real, v: real): (r: seq<T>)
    ensures |r| <= |s|
    ensures forall k :: 0 <= k < |r| ==> key(r[k]) == v
  {
    if s == [] then []
    else (if key(s[0]) == v then [s[0]] else []) + WithKey(s[1..], key, v)
  }

  /**
   * Inserting `x` adds it in front of the elements sharing its key: it only passes over
   * elements with smaller keys.
   */
  lemma {:induction false} InsertWithKey<T>(x: T, s: seq<T>, key: T -> real, v: real)
    ensures WithKey(Insert(x, s, key), key, v) == (if key(x) == v then [x] else []) + WithKey(s, key, v)
  {
    if s == [] || key(x) <= key(s[0]) {
      assert Insert(x, s, key) == [x] + s;
      assert ([x] + s)[1..] == s;
    } else {
      var rest := Insert(x, s[1..], key);
      assert Insert(x, s, key) == [s[0]] + rest;
      assert ([s[0]] + rest)[1..] == rest;
      InsertWithKey(x, s[1..], key, v);
    }
  }

  /** `SortBy` is stable: for every key, the elements with that key keep their input order. */
  lemma {:induction false} SortByStable<T>(s: seq<T>, key: T -> real, v: real)
    ensures WithKey(SortBy(s, key), key, v) == WithKey(s, key, v)
  {
    if s != [] {
      SortByStable(s[1..], key, v);
      InsertWithKey(s[0], SortBy(s[1..], key), key, v);
    }
  }

  /** Negating the key keeps the groups of equal keys. */
  lemma {:induction false} NegatedWithKey<T>(s: seq<T>, key: T -> real, v: real)
    ensures WithKey(s, Negated(key), -v) == WithKey(s, key, v)
  {
    if s != [] {
      NegatedWithKey(s[1..], key, v);
      assert Negated(key)(s[0]) == -key(s[0]);
    }
  }

  /** `SortByDescending` is stable too, like Python's sort with `reverse=True`. */
  lemma SortByDescendingStable<T>(s: seq<T>, key: T -> real, v: real)
    ensures WithKey(SortByDescending(s, key), key, v) == WithKey(s, key, v)
  {
    var r := SortBy(s, Negated(key));
    SortByStable(s, Negated(key), -v);
    NegatedWithKey(r, key, v);
    NegatedWithKey(s, key, v);
  }

  lemma InsertHead<T>(x: T, s: seq<T>, key: T -> real)
    requires s != []
    ensures Insert(x, s, key)[0] == if key(x) <= key(s[0]) then x else s[0]
  {
  }

  /**
   * The head of the sorted list is the first element of the input whose key is minimal:
   * Python's `sorted(...)[0]` picks the earliest of the tied best.
   */
  lemma SortByCons<T>(s: seq<T>, key: T -> real)
    requires s != []
    ensures SortBy(s, key) == Insert(s[0], SortBy(s[1..], key), key) && s == [s[0]] + s[1..]
  {
  }

  /** The index of the first element of `s` with the smallest key. */
  function FirstMin<T>(s: seq<T>, key: T -> real): (i: nat)
    requires s != []
    ensures i < |s|
  {
    if |s| == 1 then 0
    else
      var k := FirstMin(s[1..], key);
      if key(s[0]) <= key(s[1..][k]) then 0 else k + 1
  }

  /** `FirstMin` is a minimum, and every element before it has a larger key. */
  lemma {:induction false} FirstMinIsFirstMinimum<T>(s: seq<T>, key: T -> real)
    requires s != []
    ensures forall j :: 0 <= j < |s| ==> key(s[FirstMin(s, key)]) <= key(s[j])
    ensures forall j :: 0 <= j < FirstMin(s, key) ==> key(s[j]) > key(s[FirstMin(s, key)])
  {
    if |s| > 1 {
      FirstMinIsFirstMinimum(s[1..], key);
      forall j | 0 < j < |s| ensures s[j] == s[1..][j - 1] { }
    }
  }

  /**
   * The head of the sorted list is the first element of the input whose key is minimal:
   * Python's `sorted(...)[0]` picks the earliest of the tied best.
   */
  lemma {:induction false} SortByHead<T>(s: seq<T>, key: T -> real)
    requires s != []
    ensures SortBy(s, key)[0] == s[FirstMin(s, key)]
  {
    SortByCons(s, key);
    if |s| > 1 {
      var k := FirstMin(s[1..], key);
      SortByHead(s[1..], key);
      InsertHead(s[0], SortBy(s[1..], key), key);
      if key(s[0]) <= key(s[1..][k]) {
        assert FirstMin(s, key) == 0;
      } else {
        assert FirstMin(s, key) == k + 1 && s[k + 1] == s[1..][k];
      }
    } else {
      assert SortBy(s[1..], key) == [];
    }
  }

  /**
   * The elements whose penalty is a number, each paired with it: the source's
   * `[p for p in s if not math.isnan(p['penalty'])]`, with NaN as `None`.
   */
  function Scored<T>(s: seq<T>, pen: T -> Option<real>): (r: seq<(T, real)>)
    ensures |r| <= |s|
  {
    if s == [] then []
    else (if pen(s[0]).Some? then [(s[0], pen(s[0]).value)] else []) + Scored(s[1..], pen)
  }

  function ScoreKey<T>(p: (T, real)): real { p.1 }

  /** `sorted(valid, key=lambda p: p['penalty'])[0]`, or `None` when no penalty is a number. */
  function Best<T>(s: seq<T>, pen: T -> Option<real>): Option<(T, real)> {
    var v := Scored(s, pen);
    if v == [] then None else Some(SortBy(v, ScoreKey)[0])
  }

  /** `j` is the first element with a numeric penalty no other numeric penalty undercuts. */
  predicate FirstBest<T>(s: seq<T>, pen: T -> Option<real>, j: nat) {
    && j < |s| && pen(s[j]).Some?
    && (forall k :: 0 <= k < |s| && pen(s[k]).Some? ==> pen(s[j]).value <= pen(s[k]).value)
    && (forall k :: 0 <= k < j && pen(s[k]).Some? ==> pen(s[k]).value > pen(s[j]).value)
  }

  /** No penalty is a number exactly when nothing is scored. */
  lemma {:induction false} ScoredEmpty<T>(s: seq<T>, pen: T -> Option<real>)
    ensures Scored(s, pen) == [] <==> forall k :: 0 <= k < |s| ==> pen(s[k]).None?
  {
    if s != [] {
      ScoredEmpty(s[1..], pen);
      assert forall k :: 1 <= k < |s| ==> s[k] == s[1..][k - 1];
    }
  }

  /** A first element without a number moves the first best one place on. */
  lemma FirstBestSkip<T>(s: seq<T>, pen: T -> Option<real>, j: nat)
    requires s != [] && pen(s[0]).None? && FirstBest(s[1..], pen, j)
    ensures FirstBest(s, pen, j + 1)
  {
    assert forall k :: 1 <= k < |s| ==> s[k] == s[1..][k - 1];
  }

  /** A first element that no later number undercuts is the first best. */
  lemma FirstBestHead<T>(s: seq<T>, pen: T -> Option<real>, j: nat)
    requires s != [] && pen(s[0]).Some? && FirstBest(s[1..], pen, j)
    requires pen(s[0]).value <= pen(s[1..][j]).value
    ensures FirstBest(s, pen, 0)
  {
    assert forall k :: 1 <= k < |s| ==> s[k] == s[1..][k - 1];
  }

  /** A first element that a later number undercuts leaves the later first best in place. */
  lemma FirstBestTail<T>(s: seq<T>, pen: T -> Option<real>, j: nat)
    requires s != [] && pen(s[0]).Some? && FirstBest(s[1..], pen, j)
    requires pen(s[0]).value > pen(s[1..][j]).value
    ensures FirstBest(s, pen, j + 1)
  {
    assert forall k :: 1 <= k < |s| ==> s[k] == s[1..][k - 1];
  }

  /** The only number, on the first element, is the first best. */
  lemma FirstBestAlone<T>(s: seq<T>, pen: T -> Option<real>)
    requires s != [] && pen(s[0]).Some? && forall k :: 0 <= k < |s| - 1 ==> pen(s[1..][k]).None?
    ensures FirstBest(s, pen, 0)
  {
    assert forall k :: 1 <= k < |s| ==> s[k] == s[1..][k - 1];
  }

  lemma {:induction false} ScoredFirstMin<T>(s: seq<T>, pen: T -> Option<real>) returns (j: nat)
    ensures Scored(s, pen) != [] ==>
              FirstBest(s, pen, j) && Scored(s, pen)[FirstMin(Scored(s, pen), ScoreKey)] == (s[j], pen(s[j]).value)
  {
    j := 0;
    if s != [] {
      var rest := s[1..];
      var jr := ScoredFirstMin(rest, pen);
      var vr := Scored(rest, pen);
      var v := Scored(s, pen);
      if pen(s[0]).None? {
        assert v == vr;
        if vr != [] {
          FirstBestSkip(s, pen, jr);
        }
        j := jr + 1;
      } else {
        var p := pen(s[0]).value;
        assert v == [(s[0], p)] + vr;
        if vr == [] {
          ScoredEmpty(rest, pen);
          FirstBestAlone(s, pen);
          assert |v| == 1;
        } else {
          assert v[1..] == vr;
          if p > ScoreKey(vr[FirstMin(vr, ScoreKey)]) {
            FirstBestTail(s, pen, jr);
            j := jr + 1;
          } else {
            FirstBestHead(s, pen, jr);
          }
        }
      }
    }
  }

  /**
   * Python's choice of the best-scored element: `None` exactly when every penalty is NaN,
   * and otherwise the first element whose penalty is minimal, with that penalty.
   */
  lemma BestIsFirstBest<T>(s: seq<T>, pen: T -> Option<real>) returns (j: nat)
    ensures Best(s, pen).None? <==> forall k :: 0 <= k < |s| ==> pen(s[k]).None?
    ensures Best(s, pen).Some? ==> FirstBest(s, pen, j) && Best(s, pen).value == (s[j], pen(s[j]).value)
  {
    ScoredEmpty(s, pen);
    j := ScoredFirstMin(s, pen);
    var v := Scored(s, pen);
    if v != [] {
      SortByHead(v, ScoreKey);
    }
  }
}
