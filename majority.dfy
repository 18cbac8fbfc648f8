/**
 * The majority vote of line 41 and the threshold test of lines 42-43:
 * `max(set(l), key=l.count)` picks SOME most frequent element of `l` (which
 * one depends on set iteration order), and the proportion of that element is
 * compared with `min_proportion`.
 */
module Majority {

  /** Python's `l.count(x)`. */
  function Count<T(==)>(s: seq<T>, x: T): (r: nat)
    ensures r > 0 <==> x in s
  {
    multiset(s)[x]
  }

  /** `m` is a most frequent element of `s`: one that `max(set(s), key=s.count)` may return. */
  predicate IsMode<T(==)>(s: seq<T>, m: T)
  {
    m in s && forall x :: x in s ==> Count(s, x) <= Count(s, m)
  }

  /** The largest count, over the candidates `xs`, of an element in `s`. */
  function MaxCountOf<T(==)>(s: seq<T>, xs: seq<T>): (r: nat)
    ensures forall i :: 0 <= i < |xs| ==> Count(s, xs[i]) <= r
    ensures xs != [] ==> exists i :: 0 <= i < |xs| && Count(s, xs[i]) == r
    ensures xs == [] ==> r == 0
    ensures r <= |s|
    decreases |xs|
  {
    if xs == [] then 0
    else
      var rest := MaxCountOf(s, xs[1..]);
      CountAtMostLength(s, xs[0]);
      assert forall i :: 1 <= i < |xs| ==> xs[i] == xs[1..][i - 1];
      if Count(s, xs[0]) >= rest then Count(s, xs[0]) else rest
  }

  /** The count of the most frequent element of `s`: 0 only for the empty list. */
  function MaxCount<T(==)>(s: seq<T>): (r: nat)
    ensures r == 0 <==> s == []
    ensures r <= |s|
  {
    MaxCountOf(s, s)
  }

  /** No element occurs more often than the list is long. */
  lemma {:induction false} CountAtMostLength<T>(s: seq<T>, x: T)
    ensures Count(s, x) <= |s|
    decreases |s|
  {
    if s != [] {
      var n := |s| - 1;
      CountAtMostLength(s[..n], x);
      assert s == s[..n] + [s[n]];
    }
  }

  /** A non-empty list has a most frequent element, and its count is MaxCount. */
  lemma ModeExists<T>(s: seq<T>)
    requires s != []
    ensures exists m :: IsMode(s, m) && Count(s, m) == MaxCount(s)
  {
    var top := MaxCountOf(s, s);
    var i :| 0 <= i < |s| && Count(s, s[i]) == top;
    forall x | x in s ensures Count(s, x) <= Count(s, s[i]) {
      var k :| 0 <= k < |s| && s[k] == x;
      assert Count(s, s[k]) <= top;
    }
    assert IsMode(s, s[i]);
  }

  /**
   * Every most frequent element has the same count, MaxCount: which one
   * `max` returns does not change its count, nor anything computed from it.
   */
  lemma ModeCount<T>(s: seq<T>, m: T)
    requires IsMode(s, m)
    ensures Count(s, m) == MaxCount(s)
    ensures 1 <= Count(s, m) <= |s|
  {
    var k :| 0 <= k < |s| && s[k] == m;
    var i :| 0 <= i < |s| && Count(s, s[i]) == MaxCount(s);
    assert Count(s, s[i]) <= Count(s, m);
    CountAtMostLength(s, m);
  }

  type Positive = n: int | n > 0 witness 1

  /** A threshold `min_proportion` written exactly as the fraction num / den. */
  datatype Ratio = Ratio(num: int, den: Positive)

  /**
   * `count / total > num / den`, the test of line 43, by cross-multiplication
   * (`total` and `den` are positive).
   */
  predicate Exceeds(count: nat, total: nat, t: Ratio)
    ensures Exceeds(count, total, t) && count <= total ==> t.num < t.den
  {
    assert count <= total && t.num >= t.den ==> count * t.den <= t.num * total by {
      if count <= total && t.num >= t.den {
        assert count * t.den <= total * t.den;
        assert total * t.den <= total * t.num;
      }
    }
    count * t.den > t.num * total
  }

  /** Cross-multiplying is exactly the comparison of the two quotients. */
  lemma ExceedsIsQuotientComparison(count: nat, total: nat, t: Ratio)
    requires total > 0
    ensures Exceeds(count, total, t) <==> (count as real) / (total as real) > (t.num as real) / (t.den as real)
  {
    var p := (count as real) / (total as real);
    var q := (t.num as real) / (t.den as real);
    var td := (total as real) * (t.den as real);
    assert td > 0.0;
    assert p * (total as real) == count as real;
    assert q * (t.den as real) == t.num as real;
    assert p * td == (count as real) * (t.den as real);
    assert q * td == (t.num as real) * (total as real);
    assert (count * t.den) as real == (count as real) * (t.den as real);
    assert (t.num * total) as real == (t.num as real) * (total as real);
    if p > q {
      assert p * td > q * td;
    } else {
      assert p * td <= q * td;
    }
  }
}
