/**
  Prime-implicant generation (the Quine-McCluskey consensus procedure):
  one level of pairwise merging, the iteration of levels to a fixed point,
  and the removal of implicants covered by another one.
*/
module Implicants {
  import opened Wrappers
  import opened PyOrder
  import opened CubeAlgebra

  /** The cubes of `terms` with exactly `k` ones, in list order. */
  function WithOnes(terms: seq<string>, k: nat): (r: seq<string>)
    ensures |r| <= |terms|
    ensures forall t :: t in r <==> t in terms && Count(t, '1') == k
  {
    if terms == [] then []
    else (if Count(terms[0], '1') == k then [terms[0]] else []) + WithOnes(terms[1..], k)
  }

  function MaxWidth(terms: seq<string>): (r: nat)
    ensures forall t :: t in terms ==> |t| <= r
  {
    if terms == [] then 0
    else var rest := MaxWidth(terms[1..]); if |terms[0]| > rest then |terms[0]| else rest
  }

  /** The buckets of `terms` for the counts of ones `k`, `k + 1`, ..., `top`, concatenated. */
  function BucketsFrom(terms: seq<string>, k: nat, top: nat): (r: seq<string>)
    ensures forall t :: t in r <==> t in terms && k <= Count(t, '1') <= top
    decreases top - k
  {
    if k > top then [] else WithOnes(terms, k) + BucketsFrom(terms, k + 1, top)
  }

  /** The cubes are in non-decreasing order of their number of ones. */
  predicate OnesOrdered(s: seq<string>)
  {
    forall i, j :: 0 <= i < j < |s| ==> Count(s[i], '1') <= Count(s[j], '1')
  }

  lemma {:induction false} BucketsOrdered(terms: seq<string>, k: nat, top: nat)
    ensures OnesOrdered(BucketsFrom(terms, k, top))
    decreases top - k
  {
    if k <= top {
      BucketsOrdered(terms, k + 1, top);
      BucketStep(terms, k, top);
    }
  }

  /** The bucket of count `k` followed by the ordered later buckets is ordered. */
  lemma BucketStep(terms: seq<string>, k: nat, top: nat)
    requires k <= top
    requires OnesOrdered(BucketsFrom(terms, k + 1, top))
    ensures OnesOrdered(BucketsFrom(terms, k, top))
  {
    var here := WithOnes(terms, k);
    var rest := BucketsFrom(terms, k + 1, top);
    assert BucketsFrom(terms, k, top) == here + rest;
    AppendBucket(here, rest, k);
  }

  /** A bucket of count `k` put in front of ordered cubes with more ones stays ordered. */
  lemma AppendBucket(here: seq<string>, rest: seq<string>, k: nat)
    requires forall t :: t in here ==> Count(t, '1') == k
    requires forall t :: t in rest ==> k < Count(t, '1')
    requires OnesOrdered(rest)
    ensures OnesOrdered(here + rest)
  {
    var b := here + rest;
    forall i, j | 0 <= i < j < |b| ensures Count(b[i], '1') <= Count(b[j], '1') {
      if j < |here| {
        assert b[i] == here[i] && here[i] in here;
        assert b[j] == here[j] && here[j] in here;
      } else if i < |here| {
        assert b[i] == here[i] && here[i] in here;
        assert b[j] == rest[j - |here|] && rest[j - |here|] in rest;
      } else {
        assert b[i] == rest[i - |here|] && b[j] == rest[j - |here|];
      }
    }
  }

  /**
    `sorted(terms, key=lambda s: s.count('1'))`: Python's sort is stable, so
    the result is the bucket of cubes with no one, then those with one one,
    and so on, each bucket in list order.
  */
  function SortByOnes(terms: seq<string>): (r: seq<string>)
    ensures forall t :: t in r <==> t in terms
    ensures multiset(r) == multiset(terms)
  {
    BucketsMultiset(terms, 0, MaxWidth(terms));
    var r := BucketsFrom(terms, 0, MaxWidth(terms));
    assert forall t :: multiset(r)[t] == multiset(terms)[t] by {
      forall t ensures multiset(r)[t] == multiset(terms)[t] {
        if t in terms {
          assert Count(t, '1') <= |t| <= MaxWidth(terms);
        }
      }
    }
    r
  }

  /** `b` holds each cube whose count of ones lies in `lo .. top` as often as `terms` does, and no other cube. */
  ghost predicate SameCountsIn(b: seq<string>, terms: seq<string>, lo: int, top: int)
  {
    forall t :: multiset(b)[t] == (if lo <= Count(t, '1') <= top then multiset(terms)[t] else 0)
  }

  /** The bucket of count `k` holds each cube with `k` ones as often as `terms` does, and no other cube. */
  lemma {:induction false} WithOnesMultiset(terms: seq<string>, k: nat)
    ensures SameCountsIn(WithOnes(terms, k), terms, k, k)
  {
    if terms != [] {
      WithOnesMultiset(terms[1..], k);
      assert terms == [terms[0]] + terms[1..];
    }
  }

  /** The buckets `k .. top` hold each cube whose count lies in that range as often as `terms` does. */
  lemma {:induction false} BucketsMultiset(terms: seq<string>, k: nat, top: nat)
    ensures SameCountsIn(BucketsFrom(terms, k, top), terms, k, top)
    decreases top - k
  {
    if k <= top {
      BucketsMultiset(terms, k + 1, top);
      BucketsMultisetStep(terms, k, top);
    }
  }

  /** One more bucket in front adds the cubes with `k` ones. */
  lemma BucketsMultisetStep(terms: seq<string>, k: nat, top: nat)
    requires k <= top
    requires SameCountsIn(BucketsFrom(terms, k + 1, top), terms, k + 1, top)
    ensures SameCountsIn(BucketsFrom(terms, k, top), terms, k, top)
  {
    var here := WithOnes(terms, k);
    var rest := BucketsFrom(terms, k + 1, top);
    assert BucketsFrom(terms, k, top) == here + rest;
    WithOnesMultiset(terms, k);
    forall t ensures multiset(here + rest)[t] == (if k <= Count(t, '1') <= top then multiset(terms)[t] else 0) {
      assert multiset(here + rest)[t] == multiset(here)[t] + multiset(rest)[t];
    }
  }

  /** Selecting the cubes with `k` ones distributes over concatenation. */
  lemma {:induction false} WithOnesAppend(a: seq<string>, b: seq<string>, k: nat)
    ensures WithOnes(a + b, k) == WithOnes(a, k) + WithOnes(b, k)
  {
    if a == [] {
      assert a + b == b;
    } else {
      WithOnesAppend(a[1..], b, k);
      var head := if Count(a[0], '1') == k then [a[0]] else [];
      TailOfAppend(a, b);
      calc {
        WithOnes(a + b, k);
        head + WithOnes(a[1..] + b, k);
        head + (WithOnes(a[1..], k) + WithOnes(b, k));
        { AppendAssoc(head, WithOnes(a[1..], k), WithOnes(b, k)); }
        (head + WithOnes(a[1..], k)) + WithOnes(b, k);
        WithOnes(a, k) + WithOnes(b, k);
      }
    }
  }

  /** Selecting count `k` from the bucket of count `j` gives that bucket when `j == k`, and nothing otherwise. */
  lemma {:induction false} WithOnesTwice(terms: seq<string>, j: nat, k: nat)
    ensures WithOnes(WithOnes(terms, j), k) == (if j == k then WithOnes(terms, k) else [])
  {
    if terms != [] {
      WithOnesTwice(terms[1..], j, k);
      var head := if Count(terms[0], '1') == j then [terms[0]] else [];
      WithOnesAppend(head, WithOnes(terms[1..], j), k);
    }
  }

  /** Selecting count `k` from `b` gives the bucket of count `k` of `terms` when `k` is in `lo .. top`, and nothing otherwise. */
  predicate SelectsBucket(b: seq<string>, terms: seq<string>, lo: int, top: int, k: nat)
  {
    WithOnes(b, k) == (if lo <= k <= top then WithOnes(terms, k) else [])
  }

  /** Selecting count `k` from the buckets `lo .. top` gives the bucket of `k` when it is in range. */
  lemma {:induction false} BucketsSelect(terms: seq<string>, lo: nat, top: nat, k: nat)
    ensures SelectsBucket(BucketsFrom(terms, lo, top), terms, lo, top, k)
    decreases top - lo, 1
  {
    if lo <= top {
      BucketsSelectStep(terms, lo, top, k);
    } else {
      assert BucketsFrom(terms, lo, top) == [];
    }
  }

  /** One more bucket in front contributes to the selection of count `k` only when it is bucket `k`. */
  lemma {:induction false} BucketsSelectStep(terms: seq<string>, lo: nat, top: nat, k: nat)
    requires lo <= top
    ensures SelectsBucket(BucketsFrom(terms, lo, top), terms, lo, top, k)
    decreases top - lo, 0
  {
    BucketsSelect(terms, lo + 1, top, k);
    assert BucketsFrom(terms, lo, top) == WithOnes(terms, lo) + BucketsFrom(terms, lo + 1, top);
    WithOnesAppend(WithOnes(terms, lo), BucketsFrom(terms, lo + 1, top), k);
    WithOnesTwice(terms, lo, k);
  }

  /** No cube has more ones than the longest cube is long, so that bucket is empty. */
  lemma {:induction false} WithOnesAbsent(terms: seq<string>, k: nat)
    requires k > MaxWidth(terms)
    ensures WithOnes(terms, k) == []
  {
    if terms != [] {
      WithOnesAbsent(terms[1..], k);
      assert MaxWidth(terms[1..]) <= MaxWidth(terms);
      assert Count(terms[0], '1') <= |terms[0]|;
    }
  }

  /**
    Python's sort is stable: the cubes with `k` ones come out in the order
    they have in `terms`.
  */
  lemma SortByOnesStable(terms: seq<string>, k: nat)
    ensures WithOnes(SortByOnes(terms), k) == WithOnes(terms, k)
  {
    BucketsSelect(terms, 0, MaxWidth(terms), k);
    if k > MaxWidth(terms) {
      WithOnesAbsent(terms, k);
    }
  }

  /** The cubes come out in non-decreasing order of their number of ones. */
  lemma SortByOnesOrdered(terms: seq<string>)
    ensures forall i, j :: 0 <= i < j < |SortByOnes(terms)| ==>
      Count(SortByOnes(terms)[i], '1') <= Count(SortByOnes(terms)[j], '1')
  {
    BucketsOrdered(terms, 0, MaxWidth(terms));
  }

  /** `c` is the merge of two cubes of `terms`. */
  ghost predicate IsMergeOf(c: string, terms: seq<string>)
  {
    exists x, y :: x in terms && y in terms && Combined(x, y) == Some(c)
  }

  /** `t` merges with some cube of `terms`: `group_once` marks it used. */
  ghost predicate TakesPart(t: string, terms: seq<string>)
  {
    exists y :: y in terms && Combined(t, y).Some?
  }

  /** The merges of cube `i` with the cubes `i + 1 .. j - 1` of `ts`. */
  ghost function RowMerges(ts: seq<string>, i: int, j: int): set<string>
    requires 0 <= i < j <= |ts|
    decreases j
  {
    if j == i + 1 then {}
    else
      var c := Combined(ts[i], ts[j - 1]);
      RowMerges(ts, i, j - 1) + (if c.Some? then {c.value} else {})
  }

  /** The cubes marked used by merging cube `i` with the cubes `i + 1 .. j - 1`. */
  ghost function RowUsed(ts: seq<string>, i: int, j: int): set<string>
    requires 0 <= i < j <= |ts|
    decreases j
  {
    if j == i + 1 then {}
    else RowUsed(ts, i, j - 1) + (if Combined(ts[i], ts[j - 1]).Some? then {ts[i], ts[j - 1]} else {})
  }

  /** The merges of the rows `0 .. i - 1` of the double loop. */
  ghost function Merges(ts: seq<string>, i: int): set<string>
    requires 0 <= i <= |ts|
  {
    if i == 0 then {} else Merges(ts, i - 1) + RowMerges(ts, i - 1, |ts|)
  }

  /** The cubes marked used in the rows `0 .. i - 1` of the double loop. */
  ghost function UsedIn(ts: seq<string>, i: int): set<string>
    requires 0 <= i <= |ts|
  {
    if i == 0 then {} else UsedIn(ts, i - 1) + RowUsed(ts, i - 1, |ts|)
  }

  /**
    `group_once`: every pair `i < j` of the cubes sorted by their number of
    ones is merged when it can be; `new_terms` is the sorted set of merges,
    `leftovers` the sorted cubes that took part in no merge.
  */
  method GroupOnce(terms: seq<string>) returns (newTerms: seq<string>, leftovers: seq<string>)
    ensures Sorted(newTerms)
    ensures forall c :: c in newTerms <==> IsMergeOf(c, terms)
    ensures exists used: set<string> ::
      (forall t :: t in used <==> t in terms && TakesPart(t, terms))
      && leftovers == Without(SortByOnes(terms), used)
    ensures forall t :: t in leftovers <==> t in terms && !TakesPart(t, terms)
  {
    var ts := SortByOnes(terms);
    var newSet, used := AllRows(ts);
    AllPairs(terms, ts);
    leftovers := Without(ts, used);
    newTerms := SortSet(newSet);
  }

  /** The outer loop of `group_once`: every cube against every later cube. */
  method AllRows(ts: seq<string>) returns (newSet: set<string>, used: set<string>)
    ensures newSet == Merges(ts, |ts|) && used == UsedIn(ts, |ts|)
  {
    newSet, used := {}, {};
    var i := 0;
    while i < |ts|
      invariant 0 <= i <= |ts|
      invariant newSet == Merges(ts, i) && used == UsedIn(ts, i)
    {
      newSet, used := MergeRow(ts, i, newSet, used);
      i := i + 1;
    }
  }

  /** The inner loop of `group_once`: cube `i` against every later cube. */
  method MergeRow(ts: seq<string>, i: int, newSet0: set<string>, used0: set<string>)
    returns (newSet: set<string>, used: set<string>)
    requires 0 <= i < |ts|
    ensures newSet == newSet0 + RowMerges(ts, i, |ts|)
    ensures used == used0 + RowUsed(ts, i, |ts|)
  {
    newSet, used := newSet0, used0;
    var j := i + 1;
    while j < |ts|
      invariant i + 1 <= j <= |ts|
      invariant newSet == newSet0 + RowMerges(ts, i, j)
      invariant used == used0 + RowUsed(ts, i, j)
    {
      var c := CombineIfOneBitDiff(ts[i], ts[j]);
      if c.Some? {
        newSet := newSet + {c.value};
        used := used + {ts[i], ts[j]};
      }
      j := j + 1;
    }
  }

  predicate MergePair(ts: seq<string>, p: int, q: int, c: string)
  {
    0 <= p < q < |ts| && Combined(ts[p], ts[q]) == Some(c)
  }

  predicate UsedPair(ts: seq<string>, p: int, q: int, t: string)
  {
    0 <= p < q < |ts| && Combined(ts[p], ts[q]).Some? && (t == ts[p] || t == ts[q])
  }

  /** The merges of one row are what the pairs `(i, q)` of that row merge to. */
  lemma {:induction false} RowMergeMembers(ts: seq<string>, i: int, j: int)
    requires 0 <= i < j <= |ts|
    ensures forall c :: c in RowMerges(ts, i, j) <==> exists q :: i < q < j && MergePair(ts, i, q, c)
    decreases j
  {
    if j > i + 1 {
      RowMergeMembers(ts, i, j - 1);
      forall c | c in RowMerges(ts, i, j) ensures exists q :: i < q < j && MergePair(ts, i, q, c) {
        if c !in RowMerges(ts, i, j - 1) {
          assert MergePair(ts, i, j - 1, c);
        }
      }
      forall c | exists q :: i < q < j && MergePair(ts, i, q, c) ensures c in RowMerges(ts, i, j) {
        var q :| i < q < j && MergePair(ts, i, q, c);
        if q < j - 1 {
          assert c in RowMerges(ts, i, j - 1);
        }
      }
    }
  }

  /** The cubes one row marks used are the two sides of the pairs `(i, q)` of that row that merge. */
  lemma {:induction false} RowUsedMembers(ts: seq<string>, i: int, j: int)
    requires 0 <= i < j <= |ts|
    ensures forall t :: t in RowUsed(ts, i, j) <==> exists q :: i < q < j && UsedPair(ts, i, q, t)
    decreases j
  {
    if j > i + 1 {
      RowUsedMembers(ts, i, j - 1);
      forall t | t in RowUsed(ts, i, j) ensures exists q :: i < q < j && UsedPair(ts, i, q, t) {
        if t !in RowUsed(ts, i, j - 1) {
          assert UsedPair(ts, i, j - 1, t);
        }
      }
      forall t | exists q :: i < q < j && UsedPair(ts, i, q, t) ensures t in RowUsed(ts, i, j) {
        var q :| i < q < j && UsedPair(ts, i, q, t);
        if q < j - 1 {
          assert t in RowUsed(ts, i, j - 1);
        }
      }
    }
  }

  lemma {:induction false} AllMerges(ts: seq<string>, i: int)
    requires 0 <= i <= |ts|
    ensures forall c :: c in Merges(ts, i) <==> exists p, q :: p < i && MergePair(ts, p, q, c)
  {
    if i > 0 {
      AllMerges(ts, i - 1);
      RowMergeMembers(ts, i - 1, |ts|);
      forall c | c in Merges(ts, i) ensures exists p, q :: p < i && MergePair(ts, p, q, c) {
        if c in Merges(ts, i - 1) {
          var p, q :| p < i - 1 && MergePair(ts, p, q, c);
          assert p < i && MergePair(ts, p, q, c);
        } else {
          var q :| i - 1 < q < |ts| && MergePair(ts, i - 1, q, c);
        }
      }
      forall c | exists p, q :: p < i && MergePair(ts, p, q, c) ensures c in Merges(ts, i) {
        var p, q :| p < i && MergePair(ts, p, q, c);
        if p == i - 1 {
          assert c in RowMerges(ts, i - 1, |ts|);
        }
      }
    }
  }

  lemma {:induction false} AllUsed(ts: seq<string>, i: int)
    requires 0 <= i <= |ts|
    ensures forall t :: t in UsedIn(ts, i) <==> exists p, q :: p < i && UsedPair(ts, p, q, t)
  {
    if i > 0 {
      AllUsed(ts, i - 1);
      RowUsedMembers(ts, i - 1, |ts|);
      forall t | t in UsedIn(ts, i) ensures exists p, q :: p < i && UsedPair(ts, p, q, t) {
        if t in UsedIn(ts, i - 1) {
          var p, q :| p < i - 1 && UsedPair(ts, p, q, t);
          assert p < i && UsedPair(ts, p, q, t);
        } else {
          var q :| i - 1 < q < |ts| && UsedPair(ts, i - 1, q, t);
        }
      }
      forall t | exists p, q :: p < i && UsedPair(ts, p, q, t) ensures t in UsedIn(ts, i) {
        var p, q :| p < i && UsedPair(ts, p, q, t);
        if p == i - 1 {
          assert t in RowUsed(ts, i - 1, |ts|);
        }
      }
    }
  }

  /** After the double loop, the merges and the used cubes are those of all pairs of `terms`. */
  lemma AllPairs(terms: seq<string>, ts: seq<string>)
    requires forall t :: t in ts <==> t in terms
    ensures forall c :: c in Merges(ts, |ts|) <==> IsMergeOf(c, terms)
    ensures forall t :: t in UsedIn(ts, |ts|) <==> t in terms && TakesPart(t, terms)
  {
    AllMerges(ts, |ts|);
    AllUsed(ts, |ts|);
    forall c | IsMergeOf(c, terms) ensures c in Merges(ts, |ts|) {
      var x, y :| x in terms && y in terms && Combined(x, y) == Some(c);
      var p, q := PairOf(ts, x, y);
      assert MergePair(ts, p, q, c);
    }
    forall c | c in Merges(ts, |ts|) ensures IsMergeOf(c, terms) {
      var p, q :| p < |ts| && MergePair(ts, p, q, c);
      assert ts[p] in terms && ts[q] in terms;
    }
    forall t | t in terms && TakesPart(t, terms) ensures t in UsedIn(ts, |ts|) {
      var y :| y in terms && Combined(t, y).Some?;
      var p, q := PairOf(ts, t, y);
      assert UsedPair(ts, p, q, t);
    }
    forall t | t in UsedIn(ts, |ts|) ensures t in terms && TakesPart(t, terms) {
      var p, q :| p < |ts| && UsedPair(ts, p, q, t);
      CombinedSymmetric(ts[p], ts[q]);
      assert ts[p] in terms && ts[q] in terms;
    }
  }

  /** A mergeable pair of cubes of `ts` sits at two positions `p < q`, in one order or the other. */
  lemma PairOf(ts: seq<string>, x: string, y: string) returns (p: int, q: int)
    requires x in ts && y in ts && Combined(x, y).Some?
    ensures 0 <= p < q < |ts| && Combined(ts[p], ts[q]) == Combined(x, y)
    ensures (ts[p] == x && ts[q] == y) || (ts[p] == y && ts[q] == x)
  {
    if x == y {
      NoDifferenceNone(x, y);
      assert false;
    }
    var a :| 0 <= a < |ts| && ts[a] == x;
    var b :| 0 <= b < |ts| && ts[b] == y;
    CombinedSymmetric(x, y);
    if a < b {
      p, q := a, b;
    } else {
      p, q := b, a;
    }
  }

  /** All cubes of `s` have the width `w`. */
  predicate AllWidth(s: set<string>, w: int)
  {
    forall t :: t in s ==> |t| == w
  }

  /** All the given minterms have one width. */
  predicate Uniform(minterms: seq<string>)
  {
    forall i, j :: 0 <= i < |minterms| && 0 <= j < |minterms| ==> |minterms[i]| == |minterms[j]|
  }

  predicate AllCubes(minterms: seq<string>)
  {
    forall i :: 0 <= i < |minterms| ==> IsCube(minterms[i])
  }

  /**
    `t` is an implicant of the function whose on-set (with don't-cares) the
    `minterms` describe: every bit vector of its width that `t` covers is
    covered by one of the minterms.
  */
  ghost predicate Implicant(t: string, minterms: seq<string>)
  {
    forall x :: IsBits(x) && |x| == |t| && Covers(t, x) ==> exists m :: m in minterms && Covers(m, x)
  }

  /** `any(i != j and implicant_covers_implicant(pj, pi) for j, pj in enumerate(pis))`. */
  predicate CoveredByOther(pis: seq<string>, i: int)
    requires 0 <= i < |pis|
  {
    exists j :: 0 <= j < |pis| && j != i && Covers(pis[j], pis[i])
  }

  /** No other cube of `s` covers `t`. */
  ghost predicate Kept(s: set<string>, t: string)
  {
    forall u :: u in s && u != t ==> !Covers(u, t)
  }

  /** Every minterm is covered by a cube still in play: a collected one or one of the current level. */
  ghost predicate Covering(minterms: seq<string>, primes: set<string>, current: seq<string>)
  {
    forall m :: m in minterms ==> exists t :: (t in primes || t in current) && Covers(t, m)
  }

  predicate WidthIs(primes: set<string>, current: seq<string>, w: int)
  {
    (forall t :: t in primes ==> |t| == w) && (forall t :: t in current ==> |t| == w)
  }

  /** Every cube in play is a cube and an implicant of the minterms. */
  ghost predicate AllImplicants(minterms: seq<string>, primes: set<string>, current: seq<string>)
  {
    forall t :: t in primes || t in current ==> IsCube(t) && Implicant(t, minterms)
  }

  /**
    `derive_prime_implicants`: merge level after level until a level yields
    no merge, collect the cubes that were never merged, then drop every cube
    covered by another one.  The result is sorted and no returned cube is
    covered by a different returned cube.  For minterms of one width every
    minterm is covered by a returned cube and every returned cube is an
    implicant of the same width; for bit-vector minterms the result is
    exactly the prime implicants.
  */
  method DerivePrimeImplicants(minterms: seq<string>) returns (r: seq<string>)
    ensures Sorted(r)
    ensures minterms == [] ==> r == []
    ensures forall i, j :: 0 <= i < |r| && 0 <= j < |r| && i != j ==> !Covers(r[j], r[i])
    ensures Uniform(minterms) ==>
      forall m :: m in minterms ==> exists i :: 0 <= i < |r| && Covers(r[i], m)
    ensures Uniform(minterms) ==>
      forall i, k :: 0 <= i < |r| && 0 <= k < |minterms| ==> |r[i]| == |minterms[k]|
    ensures Uniform(minterms) && AllCubes(minterms) ==>
      forall i :: 0 <= i < |r| ==> IsCube(r[i]) && Implicant(r[i], minterms)
    ensures Uniform(minterms) && AllBits(minterms) ==> forall i :: 0 <= i < |r| ==> Prime(r[i], minterms)
    ensures Uniform(minterms) && AllBits(minterms) ==>
      forall t, k :: 0 <= k < |minterms| && |t| == |minterms[k]| && Prime(t, minterms) ==> t in r
    ensures Uniform(minterms) && AllBits(minterms) ==>
      forall c, k :: 0 <= k < |minterms| && |c| == |minterms[k]| && IsCube(c) && Implicant(c, minterms) ==>
        exists i :: 0 <= i < |r| && Covers(r[i], c)
    ensures PrimeList(r, minterms)
  {
    var primes := CollectLevels(minterms);
    var pis := SortSet(primes);
    var kept := NonRedundant(pis, primes);
    r := SortSet(set t | t in kept);
    Finish(minterms, primes, kept, r);
    if BitRows(minterms) {
      FinishPrimes(minterms, |minterms[0]|, primes, r);
      PrimesCoverImplicants(minterms, |minterms[0]|, r);
    }
  }

  /**
    What `derive_prime_implicants` returns for `minterms`: a sorted list in
    which no cube covers another, and, for bit-vector minterms of one width,
    exactly the prime implicants of that width.
  */
  ghost predicate PrimeList(r: seq<string>, minterms: seq<string>)
  {
    Sorted(r)
    && (forall i, j :: 0 <= i < |r| && 0 <= j < |r| && i != j ==> !Covers(r[j], r[i]))
    && (Uniform(minterms) && AllBits(minterms) ==>
          (forall i :: 0 <= i < |r| ==> Prime(r[i], minterms))
          && (forall t, k :: 0 <= k < |minterms| && |t| == |minterms[k]| && Prime(t, minterms) ==> t in r))
  }

  /** The minterms are bit vectors of one width, and there is at least one. */
  predicate BitRows(minterms: seq<string>)
  {
    |minterms| > 0 && Uniform(minterms) && AllBits(minterms)
  }

  /** What the level loop keeps: `bound` bounds the literals of the current cubes, and the covering, width, implicant and level facts. */
  ghost predicate LevelInv(minterms: seq<string>, primes: set<string>, current: seq<string>, bound: nat, level: nat)
  {
    (forall t :: t in current ==> Literals(t) <= bound)
    && (minterms == [] ==> current == [] && primes == {})
    && (Uniform(minterms) ==> Covering(minterms, primes, current))
    && (Uniform(minterms) && |minterms| > 0 ==> WidthIs(primes, current, |minterms[0]|))
    && (Uniform(minterms) && AllCubes(minterms) ==> AllImplicants(minterms, primes, current))
    && (BitRows(minterms) ==> PrimeLevel(minterms, |minterms[0]|, primes, current, level))
  }

  /** What the level loop hands to the redundancy filter. */
  ghost predicate Collected(minterms: seq<string>, primes: set<string>)
  {
    (minterms == [] ==> primes == {})
    && (Uniform(minterms) ==> Covering(minterms, primes, []))
    && (Uniform(minterms) && |minterms| > 0 ==> WidthIs(primes, [], |minterms[0]|))
    && (Uniform(minterms) && AllCubes(minterms) ==> AllImplicants(minterms, primes, []))
    && (BitRows(minterms) ==> forall t :: t in primes <==> |t| == |minterms[0]| && Prime(t, minterms))
  }

  /**
    The `while True` loop of `derive_prime_implicants`: group the current
    cubes, collect the leftovers, and stop at the first level without a
    merge, collecting its cubes too.
  */
  method CollectLevels(minterms: seq<string>) returns (primes: set<string>)
    ensures Collected(minterms, primes)
  {
    var current := SortSet(set t | t in minterms);
    primes := {};
    ghost var bound := MaxWidth(minterms);
    ghost var level := 0;
    FirstLevels(minterms, current);
    while true
      invariant LevelInv(minterms, primes, current, bound, level)
      decreases bound
    {
      var newTerms, leftovers := GroupOnce(current);
      ghost var oldPrimes := primes;
      primes := primes + set t | t in leftovers;
      if newTerms == [] {
        primes := primes + set t | t in current;
        LevelExit(minterms, oldPrimes, current, leftovers, primes, newTerms, bound, level);
        break;
      }
      LevelStep(minterms, oldPrimes, current, leftovers, primes, newTerms, bound, level);
      current := newTerms;
      bound := bound - 1;
      level := level + 1;
    }
  }

  /** The loop starts from the distinct minterms, at level 0. */
  lemma FirstLevels(minterms: seq<string>, current: seq<string>)
    requires forall t :: t in current <==> t in minterms
    ensures LevelInv(minterms, {}, current, MaxWidth(minterms), 0)
  {
    FirstLevel(minterms, current);
    if BitRows(minterms) {
      FirstLevelPrimes(minterms, current);
    }
  }

  /** A level with merges keeps the loop facts one level up, with a smaller bound. */
  lemma LevelStep(minterms: seq<string>, oldPrimes: set<string>, current: seq<string>, leftovers: seq<string>,
                  primes: set<string>, newTerms: seq<string>, bound: nat, level: nat)
    requires LevelInv(minterms, oldPrimes, current, bound, level)
    requires forall t :: t in leftovers <==> t in current && !TakesPart(t, current)
    requires primes == oldPrimes + set t | t in leftovers
    requires forall c :: c in newTerms <==> IsMergeOf(c, current)
    requires newTerms != []
    ensures bound >= 1 && LevelInv(minterms, primes, newTerms, bound - 1, level + 1)
  {
    LevelLiterals(current, newTerms, bound);
    if Uniform(minterms) {
      LevelCovering(minterms, current, oldPrimes, leftovers, primes, newTerms);
    }
    if Uniform(minterms) && |minterms| > 0 {
      LevelWidths(current, oldPrimes, leftovers, primes, newTerms, |minterms[0]|);
    }
    if Uniform(minterms) && AllCubes(minterms) && |minterms| > 0 {
      LevelImplicants(minterms, current, oldPrimes, leftovers, primes, newTerms);
    }
    if BitRows(minterms) {
      LevelPrimes(minterms, |minterms[0]|, current, oldPrimes, leftovers, primes, newTerms, level);
    }
    MergesNeedTerms(current, newTerms);
  }

  /** A merge needs two cubes to merge. */
  lemma MergesNeedTerms(current: seq<string>, newTerms: seq<string>)
    requires forall c :: c in newTerms <==> IsMergeOf(c, current)
    requires newTerms != []
    ensures current != []
  {
    assert IsMergeOf(newTerms[0], current);
  }

  /** The level without a merge: its cubes join the collected ones, which then carry the loop's facts. */
  lemma LevelExit(minterms: seq<string>, oldPrimes: set<string>, current: seq<string>, leftovers: seq<string>,
                  primes: set<string>, newTerms: seq<string>, bound: nat, level: nat)
    requires LevelInv(minterms, oldPrimes, current, bound, level)
    requires forall t :: t in leftovers <==> t in current && !TakesPart(t, current)
    requires primes == oldPrimes + (set t | t in leftovers) + (set t | t in current)
    requires forall c :: c in newTerms <==> IsMergeOf(c, current)
    requires newTerms == []
    ensures Collected(minterms, primes)
  {
    Collect(minterms, oldPrimes, current, leftovers, primes);
    if BitRows(minterms) {
      CollectPrimes(minterms, |minterms[0]|, current, oldPrimes, primes, level);
    }
  }

  /**
    The filtering loop of `derive_prime_implicants`: keep each cube of the
    sorted primes that no other prime covers.
  */
  method NonRedundant(pis: seq<string>, ghost primes: set<string>) returns (kept: seq<string>)
    requires Sorted(pis) && forall t :: t in pis <==> t in primes
    ensures forall t :: t in kept <==> t in primes && Kept(primes, t)
  {
    kept := [];
    var i := 0;
    while i < |pis|
      invariant 0 <= i <= |pis|
      invariant forall t :: t in kept <==> t in pis[..i] && Kept(primes, t)
    {
      KeptIff(pis, primes, i);
      if !CoveredByOther(pis, i) {
        kept := kept + [pis[i]];
      }
      i := i + 1;
    }
    assert pis[..i] == pis;
  }

  lemma FirstLevel(minterms: seq<string>, current: seq<string>)
    requires forall t :: t in current <==> t in minterms
    ensures forall t :: t in current ==> Literals(t) <= MaxWidth(minterms)
    ensures minterms == [] ==> current == []
    ensures Uniform(minterms) ==> Covering(minterms, {}, current)
    ensures Uniform(minterms) && |minterms| > 0 ==> WidthIs({}, current, |minterms[0]|)
    ensures Uniform(minterms) && AllCubes(minterms) ==> AllImplicants(minterms, {}, current)
  {
    if current != [] {
      assert current[0] in minterms;
    }
    if Uniform(minterms) {
      forall m | m in minterms ensures exists t :: t in current && Covers(t, m) {
        assert m in current && Covers(m, m);
      }
      if |minterms| > 0 {
        forall t | t in current ensures |t| == |minterms[0]| {
          var k :| 0 <= k < |minterms| && minterms[k] == t;
        }
      }
    }
    if Uniform(minterms) && AllCubes(minterms) {
      forall t | t in current ensures IsCube(t) && Implicant(t, minterms) {
        var k :| 0 <= k < |minterms| && minterms[k] == t;
        forall x | IsBits(x) && |x| == |t| && Covers(t, x) ensures exists m :: m in minterms && Covers(m, x) {
          assert t in minterms;
        }
      }
    }
  }

  /** A level with merges lowers the bound on the number of literals: the loop terminates. */
  lemma LevelLiterals(current: seq<string>, newTerms: seq<string>, bound: nat)
    requires forall t :: t in current ==> Literals(t) <= bound
    requires forall c :: c in newTerms <==> IsMergeOf(c, current)
    requires newTerms != []
    ensures bound >= 1
    ensures forall t :: t in newTerms ==> Literals(t) <= bound - 1
  {
    forall c | c in newTerms ensures Literals(c) < bound {
      var x, y :| x in current && y in current && Combined(x, y) == Some(c);
      CombinedLiterals(x, y);
    }
    assert newTerms[0] in newTerms;
  }

  /** A cube of the level that merges is covered by its merge, and a cube that does not is collected. */
  lemma LevelCovering(minterms: seq<string>, current: seq<string>, oldPrimes: set<string>,
                      leftovers: seq<string>, primes: set<string>, newTerms: seq<string>)
    requires Uniform(minterms) && Covering(minterms, oldPrimes, current)
    requires |minterms| > 0 ==> WidthIs(oldPrimes, current, |minterms[0]|)
    requires forall t :: t in leftovers <==> t in current && !TakesPart(t, current)
    requires forall t :: t in primes <==> t in oldPrimes || t in leftovers
    requires forall c :: c in newTerms <==> IsMergeOf(c, current)
    ensures Covering(minterms, primes, newTerms)
  {
    forall m | m in minterms ensures exists u :: (u in primes || u in newTerms) && Covers(u, m) {
      var t :| (t in oldPrimes || t in current) && Covers(t, m);
      if t in oldPrimes || t in leftovers {
        assert t in primes;
      } else {
        var y :| y in current && Combined(t, y).Some?;
        var c := Combined(t, y).value;
        assert IsMergeOf(c, current);
        CombinedCoversOperands(t, y);
        var k :| 0 <= k < |minterms| && minterms[k] == m;
        CoversTransitive(c, t, m);
      }
    }
  }

  lemma LevelWidths(current: seq<string>, oldPrimes: set<string>, leftovers: seq<string>,
                    primes: set<string>, newTerms: seq<string>, w: int)
    requires WidthIs(oldPrimes, current, w)
    requires forall t :: t in leftovers ==> t in current
    requires forall t :: t in primes <==> t in oldPrimes || t in leftovers
    requires forall c :: c in newTerms <==> IsMergeOf(c, current)
    ensures WidthIs(primes, newTerms, w)
  {
    forall c | c in newTerms ensures |c| == w {
      var x, y :| x in current && y in current && Combined(x, y) == Some(c);
      var p :| OneBitApart(x, y, p);
    }
  }

  /** A merge of two implicants is an implicant. */
  lemma LevelImplicants(minterms: seq<string>, current: seq<string>, oldPrimes: set<string>,
                        leftovers: seq<string>, primes: set<string>, newTerms: seq<string>)
    requires |minterms| > 0 && AllImplicants(minterms, oldPrimes, current)
    requires WidthIs(oldPrimes, current, |minterms[0]|)
    requires forall t :: t in leftovers ==> t in current
    requires forall t :: t in primes <==> t in oldPrimes || t in leftovers
    requires forall c :: c in newTerms <==> IsMergeOf(c, current)
    ensures AllImplicants(minterms, primes, newTerms)
  {
    forall c | c in newTerms ensures IsCube(c) && Implicant(c, minterms) {
      var x, y :| x in current && y in current && Combined(x, y) == Some(c);
      MergeIsImplicant(minterms, x, y);
    }
  }

  lemma MergeIsImplicant(minterms: seq<string>, x: string, y: string)
    requires |x| == |y| && IsCube(x) && IsCube(y)
    requires Implicant(x, minterms) && Implicant(y, minterms)
    requires Combined(x, y).Some?
    ensures IsCube(Combined(x, y).value) && Implicant(Combined(x, y).value, minterms)
  {
    var c := Combined(x, y).value;
    var p :| OneBitApart(x, y, p);
    assert c == x[p := '-'];
    forall z | IsBits(z) && |z| == |c| && Covers(c, z) ensures exists m :: m in minterms && Covers(m, z) {
      CombinedCoversExactly(x, y, z);
    }
  }

  /** When no level merges any more, the collected cubes carry the loop's facts on their own. */
  lemma Collect(minterms: seq<string>, oldPrimes: set<string>, current: seq<string>, leftovers: seq<string>,
                primes: set<string>)
    requires forall t :: t in leftovers ==> t in current
    requires primes == oldPrimes + (set t | t in leftovers) + (set t | t in current)
    requires Uniform(minterms) ==> Covering(minterms, oldPrimes, current)
    requires Uniform(minterms) && |minterms| > 0 ==> WidthIs(oldPrimes, current, |minterms[0]|)
    requires Uniform(minterms) && AllCubes(minterms) ==> AllImplicants(minterms, oldPrimes, current)
    ensures Uniform(minterms) ==> Covering(minterms, primes, [])
    ensures Uniform(minterms) && |minterms| > 0 ==> WidthIs(primes, [], |minterms[0]|)
    ensures Uniform(minterms) && AllCubes(minterms) ==> AllImplicants(minterms, primes, [])
  {
    if Uniform(minterms) {
      forall m | m in minterms ensures exists t :: t in primes && Covers(t, m) {
        var t :| (t in oldPrimes || t in current) && Covers(t, m);
      }
    }
  }

  /** The filter keeps `pis[i]` exactly when no other cube covers it. */
  lemma KeptIff(pis: seq<string>, primes: set<string>, i: int)
    requires Sorted(pis) && (forall t :: t in pis <==> t in primes) && 0 <= i < |pis|
    ensures !CoveredByOther(pis, i) <==> Kept(primes, pis[i])
  {
    if CoveredByOther(pis, i) {
      var j :| 0 <= j < |pis| && j != i && Covers(pis[j], pis[i]);
      SortedDistinct(pis, i, j);
      assert pis[j] in primes;
    }
    if !Kept(primes, pis[i]) {
      var u :| u in primes && u != pis[i] && Covers(u, pis[i]);
      var j :| 0 <= j < |pis| && pis[j] == u;
    }
  }

  /** Following covers upwards from any cover of `m` ends at a kept cube that still covers `m`. */
  lemma {:induction false} MaximalCover(s: set<string>, t: string, m: string)
    requires t in s && Covers(t, m)
    requires forall u :: u in s ==> |u| == |m|
    ensures exists u :: u in s && Covers(u, m) && Kept(s, u)
    decreases Literals(t)
  {
    if !Kept(s, t) {
      var u :| u in s && u != t && Covers(u, t);
      CoversLiterals(u, t);
      CoversTransitive(u, t, m);
      MaximalCover(s, u, m);
    }
  }

  lemma Finish(minterms: seq<string>, primes: set<string>, kept: seq<string>, r: seq<string>)
    requires Uniform(minterms) ==> Covering(minterms, primes, [])
    requires Uniform(minterms) && |minterms| > 0 ==> WidthIs(primes, [], |minterms[0]|)
    requires Uniform(minterms) && AllCubes(minterms) ==> AllImplicants(minterms, primes, [])
    requires minterms == [] ==> primes == {}
    requires forall t :: t in kept <==> t in primes && Kept(primes, t)
    requires Sorted(r) && forall t :: t in r <==> t in kept
    ensures minterms == [] ==> r == []
    ensures forall i, j :: 0 <= i < |r| && 0 <= j < |r| && i != j ==> !Covers(r[j], r[i])
    ensures Uniform(minterms) ==>
      forall m :: m in minterms ==> exists i :: 0 <= i < |r| && Covers(r[i], m)
    ensures Uniform(minterms) ==>
      forall i, k :: 0 <= i < |r| && 0 <= k < |minterms| ==> |r[i]| == |minterms[k]|
    ensures Uniform(minterms) && AllCubes(minterms) ==>
      forall i :: 0 <= i < |r| ==> IsCube(r[i]) && Implicant(r[i], minterms)
  {
    if r != [] {
      assert r[0] in r;
    }
    FinishIrredundant(primes, r);
    if Uniform(minterms) {
      FinishCovering(minterms, primes, r);
      FinishShape(minterms, primes, r);
    }
  }

  /** No kept cube covers a different kept cube. */
  lemma FinishIrredundant(primes: set<string>, r: seq<string>)
    requires Sorted(r) && forall t :: t in r ==> t in primes && Kept(primes, t)
    ensures forall i, j :: 0 <= i < |r| && 0 <= j < |r| && i != j ==> !Covers(r[j], r[i])
  {
    forall i, j | 0 <= i < |r| && 0 <= j < |r| && i != j ensures !Covers(r[j], r[i]) {
      SortedDistinct(r, i, j);
      assert r[i] in r && r[j] in r;
    }
  }

  /** Every minterm covered by a prime is covered by a kept prime. */
  lemma FinishCovering(minterms: seq<string>, primes: set<string>, r: seq<string>)
    requires Uniform(minterms) && Covering(minterms, primes, [])
    requires |minterms| > 0 ==> WidthIs(primes, [], |minterms[0]|)
    requires forall t :: t in primes && Kept(primes, t) ==> t in r
    ensures forall m :: m in minterms ==> exists i :: 0 <= i < |r| && Covers(r[i], m)
  {
    forall m | m in minterms ensures exists i :: 0 <= i < |r| && Covers(r[i], m) {
      var t :| t in primes && Covers(t, m);
      var k :| 0 <= k < |minterms| && minterms[k] == m;
      assert |minterms| > 0;
      MaximalCover(primes, t, m);
      var u :| u in primes && Covers(u, m) && Kept(primes, u);
      assert u in r;
      var i :| 0 <= i < |r| && r[i] == u;
    }
  }

  /** The kept cubes have the minterms' width and, for minterms that are cubes, are implicants. */
  lemma FinishShape(minterms: seq<string>, primes: set<string>, r: seq<string>)
    requires Uniform(minterms)
    requires |minterms| > 0 ==> WidthIs(primes, [], |minterms[0]|)
    requires AllCubes(minterms) ==> AllImplicants(minterms, primes, [])
    requires forall t :: t in r ==> t in primes
    ensures forall i, k :: 0 <= i < |r| && 0 <= k < |minterms| ==> |r[i]| == |minterms[k]|
    ensures AllCubes(minterms) ==> forall i :: 0 <= i < |r| ==> IsCube(r[i]) && Implicant(r[i], minterms)
  {
    forall i, k | 0 <= i < |r| && 0 <= k < |minterms| ensures |r[i]| == |minterms[k]| {
      assert r[i] in r;
    }
    if AllCubes(minterms) {
      forall i | 0 <= i < |r| ensures IsCube(r[i]) && Implicant(r[i], minterms) {
        assert r[i] in r;
      }
    }
  }

  /** Every minterm is a bit vector: a row of the truth table. */
  predicate AllBits(minterms: seq<string>)
  {
    forall i :: 0 <= i < |minterms| ==> IsBits(minterms[i])
  }

  /** `t` is a prime implicant: an implicant that no other implicant of its width covers. */
  ghost predicate Prime(t: string, minterms: seq<string>)
  {
    IsCube(t) && Implicant(t, minterms)
    && forall c :: IsCube(c) && |c| == |t| && Implicant(c, minterms) && Covers(c, t) ==> c == t
  }

  /** The implicants of width `w` with exactly `d` dashes: what level `d` of the merging holds. */
  ghost predicate AtLevel(c: string, minterms: seq<string>, w: int, d: int)
  {
    IsCube(c) && |c| == w && Count(c, '-') == d && Implicant(c, minterms)
  }

  /**
    The merging loop at level `d`: the current cubes are exactly the
    implicants with `d` dashes, every collected cube is a prime implicant,
    and every prime implicant with fewer than `d` dashes is collected.
  */
  ghost predicate PrimeLevel(minterms: seq<string>, w: int, primes: set<string>, current: seq<string>, d: nat)
  {
    (forall c :: c in current ==> AtLevel(c, minterms, w, d))
    && (forall c :: AtLevel(c, minterms, w, d) ==> c in current)
    && (forall t :: t in primes ==> |t| == w && Prime(t, minterms))
    && (forall t :: |t| == w && Prime(t, minterms) && Count(t, '-') < d ==> t in primes)
  }

  /** `s.count(ch)` is zero exactly when no character of `s` is `ch`. */
  lemma {:induction false} CountZero(s: string, ch: char)
    ensures Count(s, ch) == 0 <==> forall k :: 0 <= k < |s| ==> s[k] != ch
  {
    if |s| > 0 {
      CountZero(s[1..], ch);
      assert forall k :: 1 <= k < |s| ==> s[k] == s[1..][k - 1];
    }
  }

  /** A cube covered by an implicant of its width is an implicant. */
  lemma SubCube(c: string, s: string, minterms: seq<string>)
    requires |c| == |s| && Covers(c, s) && Implicant(c, minterms)
    ensures Implicant(s, minterms)
  {
    forall x | IsBits(x) && |x| == |s| && Covers(s, x) ensures exists m :: m in minterms && Covers(m, x) {
      CoversTransitive(c, s, x);
    }
  }

  /** Fixing a dash of an implicant to a bit gives an implicant with one dash fewer. */
  lemma HalfOf(c: string, p: int, bit: char, minterms: seq<string>)
    requires IsCube(c) && 0 <= p < |c| && c[p] == '-' && Implicant(c, minterms)
    requires bit == '0' || bit == '1'
    ensures IsCube(c[p := bit]) && Implicant(c[p := bit], minterms) && Count(c[p := bit], '-') + 1 == Count(c, '-')
  {
    var a := c[p := bit];
    SubCube(c, a, minterms);
    CountUpdate(a, p, '-');
    assert a[p := '-'] == c;
  }

  /**
    Fixing a dash of an implicant to '0' or to '1' gives two implicants with
    one dash fewer, and merging those two gives the implicant back.
  */
  lemma Halves(c: string, p: int, minterms: seq<string>)
    requires IsCube(c) && 0 <= p < |c| && c[p] == '-' && Implicant(c, minterms)
    ensures IsCube(c[p := '0']) && Implicant(c[p := '0'], minterms) && Count(c[p := '0'], '-') + 1 == Count(c, '-')
    ensures IsCube(c[p := '1']) && Implicant(c[p := '1'], minterms) && Count(c[p := '1'], '-') + 1 == Count(c, '-')
    ensures Combined(c[p := '0'], c[p := '1']) == Some(c)
  {
    HalfOf(c, p, '0', minterms);
    HalfOf(c, p, '1', minterms);
    var a, b := c[p := '0'], c[p := '1'];
    assert OneBitApart(a, b, p);
    assert a[..p] + "-" + a[p + 1..Min(|a|, |b|)] == c;
  }

  /** An implicant with more than `k` dashes covers an implicant of its width with exactly `k + 1` dashes. */
  lemma {:induction false} Refine(c: string, k: nat, minterms: seq<string>) returns (s: string)
    requires IsCube(c) && Implicant(c, minterms) && Count(c, '-') > k
    ensures IsCube(s) && |s| == |c| && Implicant(s, minterms) && Count(s, '-') == k + 1
    decreases Count(c, '-')
  {
    if Count(c, '-') == k + 1 {
      s := c;
    } else {
      CountZero(c, '-');
      var p :| 0 <= p < |c| && c[p] == '-';
      Halves(c, p, minterms);
      s := Refine(c[p := '0'], k, minterms);
    }
  }

  /** A merge of two implicants with `d` dashes is an implicant with `d + 1` dashes. */
  lemma MergeAtLevel(minterms: seq<string>, w: int, current: seq<string>, d: nat, c: string)
    requires forall c :: c in current ==> AtLevel(c, minterms, w, d)
    requires IsMergeOf(c, current)
    ensures AtLevel(c, minterms, w, d + 1)
  {
    var x, y :| x in current && y in current && Combined(x, y) == Some(c);
    MergeIsImplicant(minterms, x, y);
    CombinedDashes(x, y);
    assert x[..Min(|x|, |y|)] == x;
  }

  /** An implicant with `d + 1` dashes is the merge of two implicants with `d` dashes. */
  lemma LevelMerges(minterms: seq<string>, w: int, current: seq<string>, d: nat, c: string)
    requires forall c :: AtLevel(c, minterms, w, d) ==> c in current
    requires AtLevel(c, minterms, w, d + 1)
    ensures IsMergeOf(c, current)
  {
    CountZero(c, '-');
    var p :| 0 <= p < |c| && c[p] == '-';
    Halves(c, p, minterms);
    assert AtLevel(c[p := '0'], minterms, w, d) && AtLevel(c[p := '1'], minterms, w, d);
  }

  /** The merges of the implicants with `d` dashes are exactly the implicants with `d + 1` dashes. */
  lemma NextLevel(minterms: seq<string>, w: int, current: seq<string>, d: nat, newTerms: seq<string>)
    requires forall c :: c in current <==> AtLevel(c, minterms, w, d)
    requires forall c :: c in newTerms <==> IsMergeOf(c, current)
    ensures forall c :: c in newTerms <==> AtLevel(c, minterms, w, d + 1)
  {
    forall c | IsMergeOf(c, current) ensures AtLevel(c, minterms, w, d + 1) {
      MergeAtLevel(minterms, w, current, d, c);
    }
    forall c | AtLevel(c, minterms, w, d + 1) ensures IsMergeOf(c, current) {
      LevelMerges(minterms, w, current, d, c);
    }
  }

  /** When the implicants with `d` dashes merge no more, no implicant has more than `d` dashes. */
  lemma NoHigherLevel(minterms: seq<string>, w: int, current: seq<string>, d: nat, t: string)
    requires forall c :: AtLevel(c, minterms, w, d) ==> c in current
    requires forall c :: !IsMergeOf(c, current)
    requires IsCube(t) && |t| == w && Implicant(t, minterms)
    ensures Count(t, '-') <= d
  {
    if Count(t, '-') > d {
      var s := Refine(t, d, minterms);
      LevelMerges(minterms, w, current, d, s);
    }
  }

  /**
    A cube of level `d` covered by a different implicant of its width merges
    with a cube of its level: fix one of the cover's extra dashes the other way.
  */
  lemma CoveredMerges(minterms: seq<string>, w: int, current: seq<string>, d: nat, t: string, c: string)
    requires forall c :: c in current <==> AtLevel(c, minterms, w, d)
    requires t in current
    requires IsCube(c) && |c| == |t| && Implicant(c, minterms) && Covers(c, t) && c != t
    ensures TakesPart(t, current)
  {
    var p :| 0 <= p < |t| && c[p] != t[p];
    var u := t[p := '-'];
    assert Covers(c, u);
    SubCube(c, u, minterms);
    CountUpdate(t, p, '-');
    Halves(u, p, minterms);
    var f := if t[p] == '0' then u[p := '1'] else u[p := '0'];
    assert AtLevel(f, minterms, w, d);
    assert OneBitApart(t, f, p);
    assert f in current && Combined(t, f).Some?;
  }

  /** A cube of level `d` that merges with no cube of its level is a prime implicant. */
  lemma LeftoverPrime(minterms: seq<string>, w: int, current: seq<string>, d: nat, t: string)
    requires forall c :: c in current <==> AtLevel(c, minterms, w, d)
    requires t in current && !TakesPart(t, current)
    ensures Prime(t, minterms)
  {
    forall c | IsCube(c) && |c| == |t| && Implicant(c, minterms) && Covers(c, t) ensures c == t {
      if c != t {
        CoveredMerges(minterms, w, current, d, t, c);
      }
    }
  }

  /** A prime implicant of the current level merges with no cube of that level. */
  lemma PrimeNotMerged(minterms: seq<string>, w: int, current: seq<string>, d: nat, t: string)
    requires forall c :: c in current ==> AtLevel(c, minterms, w, d)
    requires t in current && Prime(t, minterms)
    ensures !TakesPart(t, current)
  {
    if TakesPart(t, current) {
      var y :| y in current && Combined(t, y).Some?;
      var p :| OneBitApart(t, y, p);
      MergeIsImplicant(minterms, t, y);
      CombinedCoversOperands(t, y);
    }
  }

  /** The first level holds the minterms themselves: the implicants without a dash. */
  lemma FirstLevelPrimes(minterms: seq<string>, current: seq<string>)
    requires |minterms| > 0 && Uniform(minterms) && AllBits(minterms)
    requires forall t :: t in current <==> t in minterms
    ensures PrimeLevel(minterms, |minterms[0]|, {}, current, 0)
  {
    var w := |minterms[0]|;
    forall c | c in current ensures AtLevel(c, minterms, w, 0) {
      MintermAtLevel(minterms, c);
    }
    forall c | AtLevel(c, minterms, w, 0) ensures c in current {
      LevelZeroMinterm(minterms, w, c);
    }
  }

  /** A bit-vector minterm is an implicant with no '-'. */
  lemma MintermAtLevel(minterms: seq<string>, c: string)
    requires |minterms| > 0 && Uniform(minterms) && AllBits(minterms) && c in minterms
    ensures AtLevel(c, minterms, |minterms[0]|, 0)
  {
    var k :| 0 <= k < |minterms| && minterms[k] == c;
    CountZero(c, '-');
  }

  /** An implicant with no '-' is one of the bit-vector minterms. */
  lemma LevelZeroMinterm(minterms: seq<string>, w: int, c: string)
    requires |minterms| > 0 && Uniform(minterms) && AllBits(minterms) && w == |minterms[0]|
    requires AtLevel(c, minterms, w, 0)
    ensures c in minterms
  {
    CountZero(c, '-');
    assert IsBits(c) && Covers(c, c);
    var m :| m in minterms && Covers(m, c);
    var k :| 0 <= k < |minterms| && minterms[k] == m;
    assert m == c;
  }

  /** One level of merging keeps the loop state, one level higher. */
  lemma LevelPrimes(minterms: seq<string>, w: int, current: seq<string>, oldPrimes: set<string>,
                    leftovers: seq<string>, primes: set<string>, newTerms: seq<string>, d: nat)
    requires PrimeLevel(minterms, w, oldPrimes, current, d)
    requires forall t :: t in leftovers <==> t in current && !TakesPart(t, current)
    requires forall t :: t in primes <==> t in oldPrimes || t in leftovers
    requires forall c :: c in newTerms <==> IsMergeOf(c, current)
    ensures PrimeLevel(minterms, w, primes, newTerms, d + 1)
  {
    NextLevel(minterms, w, current, d, newTerms);
    forall t | t in leftovers ensures |t| == w && Prime(t, minterms) {
      LeftoverPrime(minterms, w, current, d, t);
    }
    forall t | |t| == w && Prime(t, minterms) && Count(t, '-') < d + 1 ensures t in primes {
      if Count(t, '-') == d {
        assert AtLevel(t, minterms, w, d);
        PrimeNotMerged(minterms, w, current, d, t);
      }
    }
  }

  /**
    The last level merges nothing: then no implicant has more dashes, its
    cubes are prime, and the collected cubes are exactly the prime implicants.
  */
  lemma CollectPrimes(minterms: seq<string>, w: int, current: seq<string>, oldPrimes: set<string>,
                      primes: set<string>, d: nat)
    requires PrimeLevel(minterms, w, oldPrimes, current, d)
    requires forall c :: !IsMergeOf(c, current)
    requires forall t :: t in primes <==> t in oldPrimes || t in current
    ensures forall t :: t in primes <==> |t| == w && Prime(t, minterms)
  {
    forall t | t in current ensures Prime(t, minterms) {
      NoMergeNoPart(current, t);
      LeftoverPrime(minterms, w, current, d, t);
    }
    forall t | |t| == w && Prime(t, minterms) ensures t in primes {
      NoHigherLevel(minterms, w, current, d, t);
      if Count(t, '-') == d {
        assert AtLevel(t, minterms, w, d);
      }
    }
  }

  /** When no two cubes merge, no cube takes part in a merge. */
  lemma NoMergeNoPart(current: seq<string>, t: string)
    requires forall c :: !IsMergeOf(c, current)
    requires t in current
    ensures !TakesPart(t, current)
  {
    if TakesPart(t, current) {
      var y :| y in current && Combined(t, y).Some?;
      assert IsMergeOf(Combined(t, y).value, current);
    }
  }

  /** No prime implicant covers a different one of its width, so the redundancy filter keeps them all. */
  lemma FinishPrimes(minterms: seq<string>, w: int, primes: set<string>, r: seq<string>)
    requires forall t :: t in primes <==> |t| == w && Prime(t, minterms)
    requires forall t :: t in r <==> t in primes && Kept(primes, t)
    ensures forall i :: 0 <= i < |r| ==> Prime(r[i], minterms)
    ensures forall t :: |t| == w && Prime(t, minterms) ==> t in r
  {
    forall i | 0 <= i < |r| ensures Prime(r[i], minterms) {
      assert r[i] in r;
    }
    forall t | |t| == w && Prime(t, minterms) ensures t in r {
      forall u | u in primes && u != t ensures !Covers(u, t) {
        assert IsCube(u) && |u| == |t| && Implicant(u, minterms);
      }
    }
  }

  /**
    Every implicant is covered by a prime implicant of its width: widen it
    as long as some other implicant covers it.
  */
  /** A list holding every prime implicant of width `w` covers every implicant of that width. */
  lemma PrimesCoverImplicants(minterms: seq<string>, w: int, r: seq<string>)
    requires forall t :: |t| == w && Prime(t, minterms) ==> t in r
    ensures forall c :: |c| == w && IsCube(c) && Implicant(c, minterms) ==> exists i :: 0 <= i < |r| && Covers(r[i], c)
  {
    forall c | |c| == w && IsCube(c) && Implicant(c, minterms)
      ensures exists i :: 0 <= i < |r| && Covers(r[i], c)
    {
      var t := ImplicantUnderPrime(c, minterms);
      var i :| 0 <= i < |r| && r[i] == t;
    }
  }

  lemma {:induction false} ImplicantUnderPrime(c: string, minterms: seq<string>) returns (t: string)
    requires IsCube(c) && Implicant(c, minterms)
    ensures Prime(t, minterms) && |t| == |c| && Covers(t, c)
    decreases Literals(c)
  {
    if Prime(c, minterms) {
      t := c;
    } else {
      var u :| IsCube(u) && |u| == |c| && Implicant(u, minterms) && Covers(u, c) && u != c;
      CoversLiterals(u, c);
      t := ImplicantUnderPrime(u, minterms);
      CoversTransitive(t, u, c);
    }
  }

  /**
    `build_onset_terms`, and the on-set and don't-care comprehensions of
    `select_cover_for_one_output`: the input rows whose output row carries
    `ch` in column `col`, in table order (the two lists are zipped).
  */
  function RowsWith(inputs: seq<string>, outputs: seq<string>, col: nat, ch: char): (r: seq<string>)
    requires forall k :: 0 <= k < |inputs| && k < |outputs| ==> col < |outputs[k]|
    ensures |r| <= |inputs|
    ensures forall x :: x in r <==> exists k :: 0 <= k < |inputs| && k < |outputs| && inputs[k] == x && outputs[k][col] == ch
  {
    if inputs == [] || outputs == [] then []
    else
      var rest := RowsWith(inputs[1..], outputs[1..], col, ch);
      (if outputs[0][col] == ch then [inputs[0]] else []) + rest
  }
}
