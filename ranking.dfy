/** Descending ranking as pandas does it with `sort_values(ascending=False)`
    and `value_counts`, followed by `head(k)`.

    The sort key is an optional real: a missing key (NaN) ranks below every
    present one, which is where `na_position="last"` puts it. pandas does
    not fix the order of equal keys, and neither do the contracts below:
    they promise a permutation that is non-increasing by key, and that
    `head(k)` keeps k of the highest-ranked elements. The insertion sort
    that realises this is one admissible order among several. */
module Ranking {
  import opened Cells

  /** `a` ranks at or above `b` in a descending sort with NaN last. */
  predicate AtLeast(a: Option<real>, b: Option<real>) {
    b.None? || (a.Some? && a.value >= b.value)
  }

  predicate NonIncreasing<T>(s: seq<T>, key: T -> Option<real>) {
    forall i, j :: 0 <= i < j < |s| ==> AtLeast(key(s[i]), key(s[j]))
  }

  /** A head that ranks at or above every element of a non-increasing
      tail keeps the sequence non-increasing. */
  lemma PrependNonIncreasing<T>(h: T, t: seq<T>, key: T -> Option<real>)
    requires NonIncreasing(t, key)
    requires forall j :: 0 <= j < |t| ==> AtLeast(key(h), key(t[j]))
    ensures NonIncreasing([h] + t, key)
  {
    var r := [h] + t;
    forall i, j | 0 <= i < j < |r| ensures AtLeast(key(r[i]), key(r[j])) {
      if i > 0 {
        assert r[i] == t[i - 1] && r[j] == t[j - 1];
      }
    }
  }

  function Insert<T(!new)>(x: T, s: seq<T>, key: T -> Option<real>): (r: seq<T>)
    requires NonIncreasing(s, key)
    ensures multiset(r) == multiset(s) + multiset{x}
    ensures forall y :: y in r ==> y == x || y in s
    ensures NonIncreasing(r, key)
  {
    if s == [] || AtLeast(key(x), key(s[0])) then
      PrependNonIncreasing(x, s, key);
      [x] + s
    else
      assert s == [s[0]] + s[1..];
      var rest := Insert(x, s[1..], key);
      HeadAtLeast(s, x, rest, key);
      PrependNonIncreasing(s[0], rest, key);
      [s[0]] + rest
  }

  /** The head of a non-increasing sequence ranks at or above anything
      drawn from its tail or ranked below it. */
  lemma HeadAtLeast<T>(s: seq<T>, x: T, rest: seq<T>, key: T -> Option<real>)
    requires s != [] && NonIncreasing(s, key) && AtLeast(key(s[0]), key(x))
    requires forall y :: y in rest ==> y == x || y in s[1..]
    ensures forall j :: 0 <= j < |rest| ==> AtLeast(key(s[0]), key(rest[j]))
  {
    forall j | 0 <= j < |rest| ensures AtLeast(key(s[0]), key(rest[j])) {
      assert rest[j] in rest;
      if rest[j] != x {
        var k :| 0 <= k < |s[1..]| && s[1..][k] == rest[j];
        assert s[k + 1] == rest[j];
      }
    }
  }

  /** A descending sort: a permutation of `s`, non-increasing by key. */
  function SortDesc<T(!new)>(s: seq<T>, key: T -> Option<real>): (r: seq<T>)
    ensures multiset(r) == multiset(s)
    ensures |r| == |s|
    ensures NonIncreasing(r, key)
  {
    if s == [] then []
    else
      assert s == [s[0]] + s[1..];
      Insert(s[0], SortDesc(s[1..], key), key)
  }

  function Min(a: nat, b: nat): nat {
    if a <= b then a else b
  }

  /** `sort_values(ascending=False).head(k)`: `min(k, |s|)` elements of
      `s`, non-increasing by key, and every element left out ranks at or
      below every element kept. */
  function TopK<T(!new)>(s: seq<T>, key: T -> Option<real>, k: nat): (r: seq<T>)
    ensures |r| == Min(k, |s|)
    ensures multiset(r) <= multiset(s)
    ensures NonIncreasing(r, key)
    ensures forall x, y :: x in multiset(s) - multiset(r) && y in r ==> AtLeast(key(y), key(x))
  {
    var sorted := SortDesc(s, key);
    var m := Min(k, |s|);
    PrefixDominates(sorted, m, key);
    sorted[..m]
  }

  /** Cutting a non-increasing sequence in two: the front is
      non-increasing, and everything in the back ranks at or below
      everything in the front. */
  lemma PrefixDominates<T>(sorted: seq<T>, m: nat, key: T -> Option<real>)
    requires NonIncreasing(sorted, key) && m <= |sorted|
    ensures NonIncreasing(sorted[..m], key)
    ensures multiset(sorted) - multiset(sorted[..m]) == multiset(sorted[m..])
    ensures multiset(sorted[..m]) <= multiset(sorted)
    ensures forall x, y :: x in multiset(sorted) - multiset(sorted[..m]) && y in sorted[..m] ==> AtLeast(key(y), key(x))
  {
    var r, rest := sorted[..m], sorted[m..];
    assert sorted == r + rest;
    forall x, y | x in rest && y in r ensures AtLeast(key(y), key(x)) {
      var j :| 0 <= j < |rest| && rest[j] == x;
      var i :| 0 <= i < |r| && r[i] == y;
      assert sorted[i] == y && sorted[m + j] == x;
    }
  }
}
