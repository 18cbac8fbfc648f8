/**
 * find_fusions_and_splits: for every chromosome of the source genome, the
 * chromosomes of the other (target) genome on which its markers lie, and the
 * list of source chromosomes whose most frequent destination does not take
 * more than `min_proportion` of them. Run from reference to query it finds
 * split chromosomes; from query to reference, fused ones.
 */
module FusionSplit {
  import opened Util
  import opened BuscoTable
  import opened Majority

  /** The ValueError that `max()` raises at line 41 when a chromosome has no destination. */
  datatype VoteError = EmptyDestinations(chr: Chr)

  /** The target chromosome of every marker in `ids` that the target dict knows, in the order of `ids`. */
  function Destinations(ids: seq<Id>, target: map<Id, Locus>): (d: seq<Chr>)
    ensures |d| <= |ids|
    decreases |ids|
  {
    if ids == [] then []
    else
      var n := |ids| - 1;
      var d := Destinations(ids[..n], target);
      if ids[n] in target then d + [target[ids[n]].chr] else d
  }

  /** The inner loop of lines 35-40 (and 52-57): a marker missing from the target dict is skipped. */
  method CollectDestinations(ids: seq<Id>, target: map<Id, Locus>) returns (d: seq<Chr>)
    ensures d == Destinations(ids, target)
  {
    d := [];
    for i := 0 to |ids|
      invariant d == Destinations(ids[..i], target)
    {
      assert ids[..i + 1][..i] == ids[..i];
      if ids[i] in target {
        d := d + [target[ids[i]].chr];
      }
    }
    assert ids[..|ids|] == ids;
  }

  /** A chromosome is a destination exactly when one of the markers lies on it in the target. */
  lemma {:induction false} DestinationsMembers(ids: seq<Id>, target: map<Id, Locus>, c: Chr)
    ensures c in Destinations(ids, target) <==>
      exists i :: 0 <= i < |ids| && ids[i] in target && target[ids[i]].chr == c
    decreases |ids|
  {
    if ids != [] {
      var n := |ids| - 1;
      DestinationsMembers(ids[..n], target, c);
      forall i | 0 <= i < n ensures ids[..n][i] == ids[i] { }
    }
  }

  /** Destinations keep the order of the markers: those of a concatenation are concatenated. */
  lemma {:induction false} DestinationsAppend(ids1: seq<Id>, ids2: seq<Id>, target: map<Id, Locus>)
    ensures Destinations(ids1 + ids2, target) == Destinations(ids1, target) + Destinations(ids2, target)
    decreases |ids2|
  {
    if ids2 == [] {
      assert ids1 + ids2 == ids1;
    } else {
      var n := |ids2| - 1;
      DestinationsAppend(ids1, ids2[..n], target);
      assert (ids1 + ids2)[..|ids1| + n] == ids1 + ids2[..n];
    }
  }

  /** One destination per marker exactly when no marker is missing from the target dict. */
  lemma {:induction false} DestinationsDropMissing(ids: seq<Id>, target: map<Id, Locus>)
    ensures |Destinations(ids, target)| == |ids| <==> forall i :: 0 <= i < |ids| ==> ids[i] in target
    decreases |ids|
  {
    if ids != [] {
      var n := |ids| - 1;
      DestinationsDropMissing(ids[..n], target);
      forall i | 0 <= i < n ensures ids[..n][i] == ids[i] { }
    }
  }

  /** Line 43: the top destination's proportion is not strictly greater than min_proportion. */
  predicate Flagged(d: seq<Chr>, t: Ratio)
    ensures t.num >= t.den ==> Flagged(d, t)
  {
    !Exceeds(MaxCount(d), |d|, t)
  }

  /** The list find_fusions_and_splits returns for the source keys in `order`, or the error it raises. */
  function Classification(order: seq<Chr>, c2b: map<Chr, seq<Id>>, target: map<Id, Locus>, t: Ratio)
    : (r: Result<seq<Chr>, VoteError>)
    requires forall c :: c in order ==> c in c2b
    ensures r.Success? ==> |r.value| <= |order|
    decreases |order|
  {
    if order == [] then Success([])
    else
      var n := |order| - 1;
      assert forall c :: c in order[..n] ==> c in order;
      match Classification(order[..n], c2b, target, t)
      case Failure(err) => Failure(err)
      case Success(flagged) =>
        var d := Destinations(c2b[order[n]], target);
        if d == [] then Failure(EmptyDestinations(order[n]))
        else if Flagged(d, t) then Success(flagged + [order[n]])
        else Success(flagged)
  }

  /**
   * find_fusions_and_splits (lines 32-45). Of the two tables of each genome
   * only the source chromosome dict and the target marker dict are read.
   */
  method FindFusionsAndSplits(order: seq<Chr>, c2b: map<Chr, seq<Id>>, target: map<Id, Locus>, t: Ratio)
    returns (r: Result<seq<Chr>, VoteError>)
    requires forall c :: c in order ==> c in c2b
    ensures r == Classification(order, c2b, target, t)
  {
    var nonAncestral: seq<Chr> := [];
    for i := 0 to |order|
      invariant Classification(order[..i], c2b, target, t) == Success(nonAncestral)
    {
      var c := order[i];
      var dest := CollectDestinations(c2b[c], target);
      ClassificationStep(order, c2b, target, t, i);
      if dest == [] {
        FailurePersists(order, c2b, target, t, i + 1);
        return Failure(EmptyDestinations(c));
      }
      ModeExists(dest);
      var top :| IsMode(dest, top);
      ModeCount(dest, top);
      if !Exceeds(Count(dest, top), |dest|, t) {
        nonAncestral := nonAncestral + [c];
      }
    }
    assert order[..|order|] == order;
    r := Success(nonAncestral);
  }

  /** One more source key: it raises, is appended when flagged, or is passed over. */
  lemma ClassificationStep(order: seq<Chr>, c2b: map<Chr, seq<Id>>, target: map<Id, Locus>, t: Ratio, i: nat)
    requires forall c :: c in order ==> c in c2b
    requires i < |order| && Classification(order[..i], c2b, target, t).Success?
    ensures var d, prev := Destinations(c2b[order[i]], target), Classification(order[..i], c2b, target, t).value;
      Classification(order[..i + 1], c2b, target, t)
        == if d == [] then Failure(EmptyDestinations(order[i]))
           else if Flagged(d, t) then Success(prev + [order[i]])
           else Success(prev)
  {
    assert order[..i + 1][..i] == order[..i];
  }

  /** Once a prefix of the keys raises, the whole run raises the same error. */
  lemma {:induction false} FailurePersists(order: seq<Chr>, c2b: map<Chr, seq<Id>>, target: map<Id, Locus>, t: Ratio, k: nat)
    requires forall c :: c in order ==> c in c2b
    requires k <= |order|
    requires Classification(order[..k], c2b, target, t).Failure?
    ensures Classification(order, c2b, target, t) == Classification(order[..k], c2b, target, t)
    decreases |order|
  {
    if k < |order| {
      var n := |order| - 1;
      assert order[..n][..k] == order[..k];
      FailurePersists(order[..n], c2b, target, t, k);
    } else {
      assert order[..k] == order;
    }
  }

  /** `a` is `b` with some elements left out, the rest kept in order. */
  ghost predicate Subsequence(a: seq<Chr>, b: seq<Chr>)
    decreases |b|
  {
    if b == [] then a == []
    else
      || (a != [] && a[|a| - 1] == b[|b| - 1] && Subsequence(a[..|a| - 1], b[..|b| - 1]))
      || Subsequence(a, b[..|b| - 1])
  }

  /**
   * The run raises exactly when some source chromosome has no destination,
   * and the error names the first such chromosome in key order.
   */
  lemma ClassificationFails(order: seq<Chr>, c2b: map<Chr, seq<Id>>, target: map<Id, Locus>, t: Ratio)
    requires forall c :: c in order ==> c in c2b
    ensures var r := Classification(order, c2b, target, t);
      && (r.Failure? <==> exists i :: 0 <= i < |order| && NoDestination(order, c2b, target, i))
      && (r.Failure? ==>
            exists i :: 0 <= i < |order| && order[i] == r.error.chr && NoDestination(order, c2b, target, i)
                        && forall j :: 0 <= j < i ==> !NoDestination(order, c2b, target, j))
  {
    ClassificationFailsFirst(order, c2b, target, t);
    ClassificationSucceeds(order, c2b, target, t);
  }

  /** A failed run names the first source chromosome without a destination. */
  lemma {:induction false} ClassificationFailsFirst(order: seq<Chr>, c2b: map<Chr, seq<Id>>, target: map<Id, Locus>, t: Ratio)
    requires forall c :: c in order ==> c in c2b
    ensures var r := Classification(order, c2b, target, t);
      r.Failure? ==> exists i :: FirstNoDestination(order, c2b, target, i) && order[i] == r.error.chr
    decreases |order|
  {
    var r := Classification(order, c2b, target, t);
    if order != [] && r.Failure? {
      var n := |order| - 1;
      var prefix := order[..n];
      assert forall c :: c in prefix ==> c in order;
      ClassificationFailsFirst(prefix, c2b, target, t);
      forall i | 0 <= i < n ensures NoDestination(prefix, c2b, target, i) == NoDestination(order, c2b, target, i) {
        assert prefix[i] == order[i];
      }
      var r' := Classification(prefix, c2b, target, t);
      if r'.Failure? {
        assert r == r';
        var i :| FirstNoDestination(prefix, c2b, target, i) && prefix[i] == r'.error.chr;
        assert FirstNoDestination(order, c2b, target, i) && order[i] == r.error.chr;
      } else {
        ClassificationSucceeds(prefix, c2b, target, t);
        ClassificationStep(order, c2b, target, t, n);
        assert order[..n + 1] == order;
        assert FirstNoDestination(order, c2b, target, n) && order[n] == r.error.chr;
      }
    }
  }

  /** A successful run saw a destination for every source chromosome. */
  lemma {:induction false} ClassificationSucceeds(order: seq<Chr>, c2b: map<Chr, seq<Id>>, target: map<Id, Locus>, t: Ratio)
    requires forall c :: c in order ==> c in c2b
    ensures Classification(order, c2b, target, t).Success? ==>
      forall i :: 0 <= i < |order| ==> !NoDestination(order, c2b, target, i)
    decreases |order|
  {
    if order != [] && Classification(order, c2b, target, t).Success? {
      var n := |order| - 1;
      var prefix := order[..n];
      assert forall c :: c in prefix ==> c in order;
      ClassificationSucceeds(prefix, c2b, target, t);
      assert Destinations(c2b[order[n]], target) != [] by {
        ClassificationStep(order, c2b, target, t, n);
        assert order[..n + 1] == order;
      }
      forall i | 0 <= i < |order| ensures !NoDestination(order, c2b, target, i) {
        if i < n {
          assert prefix[i] == order[i];
          assert !NoDestination(prefix, c2b, target, i);
        }
      }
    }
  }

  /** The `i`-th source chromosome is the first one without a destination. */
  predicate FirstNoDestination(order: seq<Chr>, c2b: map<Chr, seq<Id>>, target: map<Id, Locus>, i: int)
    requires forall c :: c in order ==> c in c2b
  {
    && NoDestination(order, c2b, target, i)
    && forall j :: 0 <= j < i ==> !NoDestination(order, c2b, target, j)
  }

  /** The `i`-th source chromosome has no marker in the target dict. */
  predicate NoDestination(order: seq<Chr>, c2b: map<Chr, seq<Id>>, target: map<Id, Locus>, i: int)
    requires forall c :: c in order ==> c in c2b
  {
    0 <= i < |order| && Destinations(c2b[order[i]], target) == []
  }

  /**
   * A successful run lists exactly the flagged source chromosomes, in key
   * order, each once when the keys are distinct, and nothing else.
   */
  lemma ClassificationMembers(order: seq<Chr>, c2b: map<Chr, seq<Id>>, target: map<Id, Locus>, t: Ratio)
    requires forall c :: c in order ==> c in c2b
    requires Classification(order, c2b, target, t).Success?
    ensures var flagged := Classification(order, c2b, target, t).value;
      && (forall c :: c in flagged <==> c in order && Flagged(Destinations(c2b[c], target), t))
      && Subsequence(flagged, order)
      && (Distinct(order) ==> Distinct(flagged))
  {
    FlaggedMembers(order, c2b, target, t);
    FlaggedSubsequence(order, c2b, target, t);
    if Distinct(order) {
      FlaggedDistinct(order, c2b, target, t);
    }
  }

  /** The result holds exactly the flagged source chromosomes. */
  lemma {:induction false} FlaggedMembers(order: seq<Chr>, c2b: map<Chr, seq<Id>>, target: map<Id, Locus>, t: Ratio)
    requires forall c :: c in order ==> c in c2b
    requires Classification(order, c2b, target, t).Success?
    ensures forall c :: c in Classification(order, c2b, target, t).value <==>
      c in order && Flagged(Destinations(c2b[c], target), t)
    decreases |order|
  {
    if order != [] {
      var n := |order| - 1;
      assert order == order[..n] + [order[n]];
      FlaggedMembers(order[..n], c2b, target, t);
      ClassificationStep(order, c2b, target, t, n);
      assert order[..n + 1] == order;
    }
  }

  /** The result lists source chromosomes in key order. */
  lemma {:induction false} FlaggedSubsequence(order: seq<Chr>, c2b: map<Chr, seq<Id>>, target: map<Id, Locus>, t: Ratio)
    requires forall c :: c in order ==> c in c2b
    requires Classification(order, c2b, target, t).Success?
    ensures Subsequence(Classification(order, c2b, target, t).value, order)
    decreases |order|
  {
    if order != [] {
      var n := |order| - 1;
      FlaggedSubsequence(order[..n], c2b, target, t);
      ClassificationStep(order, c2b, target, t, n);
      assert order[..n + 1] == order;
      var prev := Classification(order[..n], c2b, target, t).value;
      var flagged := Classification(order, c2b, target, t).value;
      if flagged == prev + [order[n]] {
        assert flagged[..|flagged| - 1] == prev;
      }
    }
  }

  /** Distinct keys give a result without repeats. */
  lemma {:induction false} FlaggedDistinct(order: seq<Chr>, c2b: map<Chr, seq<Id>>, target: map<Id, Locus>, t: Ratio)
    requires forall c :: c in order ==> c in c2b
    requires Classification(order, c2b, target, t).Success?
    requires Distinct(order)
    ensures Distinct(Classification(order, c2b, target, t).value)
    decreases |order|
  {
    if order != [] {
      var n := |order| - 1;
      DistinctPrefix(order, n);
      FlaggedDistinct(order[..n], c2b, target, t);
      FlaggedMembers(order[..n], c2b, target, t);
      ClassificationStep(order, c2b, target, t, n);
      assert order[..n + 1] == order;
      var prev := Classification(order[..n], c2b, target, t).value;
      if order[n] !in prev { DistinctSnoc(prev, order[n]); }
    }
  }

  /**
   * The theorem behind line 41: whichever most frequent destination `max`
   * returns, the chromosome is flagged exactly when that destination's count
   * is not above min_proportion of the list. Tie-breaking does not matter.
   */
  lemma FlagIgnoresTieBreak(order: seq<Chr>, c2b: map<Chr, seq<Id>>, target: map<Id, Locus>, t: Ratio, c: Chr, top: Chr)
    requires forall x :: x in order ==> x in c2b
    requires Classification(order, c2b, target, t).Success?
    requires c in order && IsMode(Destinations(c2b[c], target), top)
    ensures var d := Destinations(c2b[c], target);
      c in Classification(order, c2b, target, t).value <==> !Exceeds(Count(d, top), |d|, t)
  {
    ClassificationMembers(order, c2b, target, t);
    ModeCount(Destinations(c2b[c], target), top);
  }

  /**
   * A source chromosome all of whose found markers lie on one target
   * chromosome is not flagged when min_proportion is below 1.
   */
  lemma UnanimousNotFlagged(order: seq<Chr>, c2b: map<Chr, seq<Id>>, target: map<Id, Locus>, t: Ratio, c: Chr, y: Chr)
    requires forall x :: x in order ==> x in c2b
    requires Classification(order, c2b, target, t).Success?
    requires c in order && t.num < t.den
    requires forall x :: x in Destinations(c2b[c], target) ==> x == y
    ensures c !in Classification(order, c2b, target, t).value
  {
    ClassificationFails(order, c2b, target, t);
    var k :| 0 <= k < |order| && order[k] == c;
    assert !NoDestination(order, c2b, target, k);
    UnanimousExceeds(Destinations(c2b[c], target), y, t);
    ClassificationMembers(order, c2b, target, t);
  }

  /** A non-empty list of one repeated chromosome is not flagged below a threshold of 1. */
  lemma UnanimousExceeds(d: seq<Chr>, y: Chr, t: Ratio)
    requires d != [] && t.num < t.den
    requires forall x :: x in d ==> x == y
    ensures !Flagged(d, t)
  {
    UnanimousCount(d, y);
    assert IsMode(d, y);
    ModeCount(d, y);
    FullShareExceeds(|d|, t);
  }

  /** A share of n out of n (n > 0) exceeds any threshold below 1. */
  lemma FullShareExceeds(n: nat, t: Ratio)
    requires n > 0 && t.num < t.den
    ensures Exceeds(n, n, t)
  {
    var gap := t.den - t.num;
    assert n * gap > 0;
    assert n * t.den == t.num * n + n * gap;
  }

  /** A list whose elements all equal `y` holds `y` as many times as it is long. */
  lemma {:induction false} UnanimousCount(d: seq<Chr>, y: Chr)
    requires forall x :: x in d ==> x == y
    ensures Count(d, y) == |d|
    decreases |d|
  {
    if d != [] {
      var n := |d| - 1;
      assert forall x :: x in d[..n] ==> x in d;
      UnanimousCount(d[..n], y);
      assert d == d[..n] + [d[n]];
      assert d[n] in d;
      assert multiset(d) == multiset(d[..n]) + multiset{d[n]};
    }
  }
}
