/** List operations the source takes from Python's `list`: `index`, `remove`, `in`. */
module Lists {

  /** `s.index(x)` when `x` is present, -1 otherwise. */
  function IndexOf<T(==)>(s: seq<T>, x: T): (r: int)
    ensures -1 <= r < |s|
    ensures r == -1 <==> x !in s
    ensures r >= 0 ==> s[r] == x && x !in s[..r]
  {
    if |s| == 0 then -1
    else if s[0] == x then 0
    else
      var i := IndexOf(s[1..], x);
      assert s[1..][..if i < 0 then 0 else i] == s[1..if i < 0 then 1 else i + 1];
      if i < 0 then -1 else i + 1
  }

  /** `s.index(s[k])` is `k` when no earlier element equals `s[k]`. */
  lemma {:induction false} IndexOfFirst<T>(s: seq<T>, k: nat)
    requires k < |s| && forall m :: 0 <= m < k ==> s[m] != s[k]
    ensures IndexOf(s, s[k]) == k
  {
    if k > 0 {
      assert s[1..][k - 1] == s[k];
      IndexOfFirst(s[1..], k - 1);
    }
  }

  /** `s.remove(x)`: drop the first occurrence of `x` (which must be present). */
  function RemoveFirst<T(==)>(s: seq<T>, x: T): (r: seq<T>)
    requires x in s
    ensures |r| == |s| - 1
    ensures multiset(r) == multiset(s) - multiset{x}
    ensures var i := IndexOf(s, x); r == s[..i] + s[i + 1..]
  {
    var i := IndexOf(s, x);
    assert s == s[..i] + [x] + s[i + 1..];
    s[..i] + s[i + 1..]
  }

  /** The first occurrence of `s[k]` is at or before `k`. */
  lemma {:induction false} IndexOfAtMost<T>(s: seq<T>, k: nat)
    requires k < |s|
    ensures IndexOf(s, s[k]) <= k
  {
    if s[0] != s[k] {
      assert s[1..][k - 1] == s[k];
      IndexOfAtMost(s[1..], k - 1);
    }
  }

  /** Whatever is left after `s.remove(x)` was in `s`. */
  lemma RemoveFirstIn<T>(s: seq<T>, x: T, y: T)
    requires x in s && y in RemoveFirst(s, x)
    ensures y in s
  {
    var i := IndexOf(s, x);
    var r := RemoveFirst(s, x);
    var k :| 0 <= k < |r| && r[k] == y;
    if k < i { assert s[k] == y; } else { assert s[k + 1] == y; }
  }

  /** The elements of `s` that satisfy `p`, in order. */
  function Filter<T>(s: seq<T>, p: T -> bool): (r: seq<T>)
    ensures |r| <= |s|
    ensures forall k :: 0 <= k < |r| ==> p(r[k])
    ensures forall x :: x in s && p(x) ==> x in r
    ensures forall x :: x in r ==> x in s
  {
    if s == [] then []
    else (if p(s[0]) then [s[0]] else []) + Filter(s[1..], p)
  }

  /** Filtering a concatenation filters each part in place, so the relative order is kept. */
  lemma {:induction false} FilterSplit<T>(s: seq<T>, t: seq<T>, p: T -> bool)
    ensures Filter(s + t, p) == Filter(s, p) + Filter(t, p)
  {
    if s == [] {
      assert s + t == t;
    } else {
      assert (s + t)[1..] == s[1..] + t;
      FilterSplit(s[1..], t, p);
    }
  }

  /** Filtering a list extended by one element extends the filtered list by that element when it passes. */
  lemma FilterAppendOne<T>(s: seq<T>, x: T, p: T -> bool)
    ensures Filter(s + [x], p) == Filter(s, p) + (if p(x) then [x] else [])
  {
    FilterSplit(s, [x], p);
    assert [x][1..] == [];
  }

  /** Filtering one more element of a prefix. */
  lemma FilterPrefixStep<T>(s: seq<T>, k: nat, p: T -> bool)
    requires k < |s|
    ensures Filter(s[..k + 1], p) == Filter(s[..k], p) + (if p(s[k]) then [s[k]] else [])
  {
    assert s[..k + 1] == s[..k] + [s[k]];
    FilterAppendOne(s[..k], s[k], p);
  }

  /** An arena-style list without repeated indices. */
  predicate Distinct<T(==)>(s: seq<T>) {
    forall i, j :: 0 <= i < j < |s| ==> s[i] != s[j]
  }

  lemma IndexOfDistinct<T>(s: seq<T>, k: nat)
    requires Distinct(s) && k < |s|
    ensures IndexOf(s, s[k]) == k
  {
    var i := IndexOf(s, s[k]);
    assert s[i] == s[k];
  }

  /** Every index in `ids` points into an arena of `n` entries. */
  predicate AllIn(ids: seq<nat>, n: nat) {
    forall k :: 0 <= k < |ids| ==> ids[k] < n
  }

  /** Dropping the last element of a list without repeats leaves a list without repeats that lacks it. */
  lemma DistinctLast(u: seq<nat>)
    requires Distinct(u) && u != []
    ensures u[|u| - 1] !in u[..|u| - 1] && Distinct(u[..|u| - 1])
  {
    var init := u[..|u| - 1];
    forall i | 0 <= i < |init| ensures init[i] != u[|u| - 1] {
      assert init[i] == u[i];
    }
  }

  /** `a` occurs in `b` in order, possibly with gaps. */
  predicate IsSubsequence(a: seq<nat>, b: seq<nat>)
    decreases |b|
  {
    if a == [] then true
    else if b == [] then false
    else if a[0] == b[0] then IsSubsequence(a[1..], b[1..])
    else IsSubsequence(a, b[1..])
  }

  lemma {:induction false} SubsequenceAppend(a: seq<nat>, b: seq<nat>, x: nat, keep: bool)
    requires IsSubsequence(a, b)
    ensures IsSubsequence(if keep then a + [x] else a, b + [x])
    decreases |b|
  {
    if a == [] {
      if keep {
        if b == [] { assert [x][1..] == []; }
        else {
          assert (b + [x])[1..] == b[1..] + [x];
          SubsequenceAppend(a, b[1..], x, keep);
        }
      }
    } else {
      assert (b + [x])[1..] == b[1..] + [x];
      if a[0] == b[0] {
        assert (if keep then a + [x] else a)[1..] == if keep then a[1..] + [x] else a[1..];
        SubsequenceAppend(a[1..], b[1..], x, keep);
      } else {
        SubsequenceAppend(a, b[1..], x, keep);
      }
    }
  }

  /** `reversed(s)`. */
  function Reversed<T>(s: seq<T>): (r: seq<T>)
    ensures |r| == |s|
    ensures forall k :: 0 <= k < |s| ==> r[k] == s[|s| - 1 - k]
  {
    if s == [] then [] else [s[|s| - 1]] + Reversed(s[..|s| - 1])
  }

  /** Reversing a list with a first and a last element swaps them and reverses what lies between. */
  lemma ReversedEnds<T>(a: T, middle: seq<T>, b: T)
    ensures Reversed([a] + middle + [b]) == [b] + Reversed(middle) + [a]
  {
    var s := [a] + middle + [b];
    var r := [b] + Reversed(middle) + [a];
    forall k | 0 <= k < |s| ensures Reversed(s)[k] == r[k] {
      if 0 < k < |s| - 1 {
        assert r[k] == Reversed(middle)[k - 1] == middle[|middle| - k];
      }
    }
  }

  /** The indices `base`, `base + 1`, ..., `base + m - 1`: the entries appended to an arena of `base` entries. */
  function Span(base: nat, m: nat): (r: seq<nat>)
    ensures |r| == m && forall k :: 0 <= k < m ==> r[k] == base + k
  {
    if m == 0 then [] else Span(base, m - 1) + [base + m - 1]
  }

  lemma AppendAssoc<T>(a: seq<T>, b: seq<T>, c: seq<T>)
    ensures (a + b) + c == a + (b + c)
  {
  }

  /** A non-empty sequence is its front followed by its last element. */
  lemma ButLast<T>(s: seq<T>)
    requires s != []
    ensures s[..|s| - 1] + [s[|s| - 1]] == s
  {
  }

  /** Appending to a list keeps any prefix it had. */
  lemma PrefixKept<T>(a: seq<T>, b: seq<T>, x: T)
    requires |b| <= |a| && a[..|b|] == b
    ensures (a + [x])[..|b|] == b
  {
    assert (a + [x])[..|b|] == a[..|b|];
  }

  /** A sequence is its prefix followed by the rest. */
  lemma TakeDrop<T>(s: seq<T>, i: nat)
    requires i <= |s|
    ensures s[..i] + s[i..] == s
  {
  }

  /** One more element of a prefix. */
  lemma TakeNext<T>(s: seq<T>, k: nat)
    requires k < |s|
    ensures s[..k + 1] == s[..k] + [s[k]]
  {
  }

  lemma SpanStep(base: nat, m: nat)
    ensures Span(base, m + 1) == Span(base, m) + [base + m]
  {
  }
}
