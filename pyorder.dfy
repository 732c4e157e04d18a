/**
  Python's ordering of `str` values and the `sorted(set(...))` idiom the
  minimiser uses everywhere.  Python compares strings code point by code
  point and a proper prefix sorts first; on cube text that puts
  '-' < '0' < '1'.
*/
module PyOrder {

  /** Python's `a < b` on `str`. */
  predicate Less(a: string, b: string)
    decreases |a|
  {
    if |a| == 0 then |b| > 0
    else if |b| == 0 then false
    else if a[0] == b[0] then Less(a[1..], b[1..])
    else a[0] < b[0]
  }

  lemma {:induction false} LessIrreflexive(a: string)
    ensures !Less(a, a)
    decreases |a|
  {
    if |a| > 0 {
      LessIrreflexive(a[1..]);
    }
  }

  lemma {:induction false} LessTransitive(a: string, b: string, c: string)
    requires Less(a, b) && Less(b, c)
    ensures Less(a, c)
    decreases |a|
  {
    if |a| > 0 && a[0] == b[0] && b[0] == c[0] {
      LessTransitive(a[1..], b[1..], c[1..]);
    }
  }

  lemma {:induction false} LessTotal(a: string, b: string)
    requires a != b
    ensures Less(a, b) || Less(b, a)
    decreases |a|
  {
    if |a| > 0 && |b| > 0 && a[0] == b[0] {
      assert a == [a[0]] + a[1..] && b == [b[0]] + b[1..];
      LessTotal(a[1..], b[1..]);
    }
  }

  lemma LessAsymmetric(a: string, b: string)
    requires Less(a, b)
    ensures !Less(b, a)
  {
    if Less(b, a) {
      LessTransitive(a, b, a);
      LessIrreflexive(a);
    }
  }

  /** Strictly increasing in Python's order: what `sorted(set(xs))` returns. */
  predicate Sorted(s: seq<string>)
  {
    forall i, j :: 0 <= i < j < |s| ==> Less(s[i], s[j])
  }

  lemma SortedDistinct(s: seq<string>, i: int, j: int)
    requires Sorted(s) && 0 <= i < |s| && 0 <= j < |s| && i != j
    ensures s[i] != s[j]
  {
    if i < j { LessIrreflexive(s[i]); } else { LessIrreflexive(s[j]); }
  }

  /** Insertion of a new element into a sorted sequence. */
  function Insert(x: string, s: seq<string>): (r: seq<string>)
    ensures |r| == |s| + 1
    ensures forall y :: y in r <==> y == x || y in s
  {
    if s == [] then [x]
    else if Less(x, s[0]) then [x] + s
    else [s[0]] + Insert(x, s[1..])
  }

  lemma {:induction false} InsertSorted(x: string, s: seq<string>)
    requires Sorted(s) && x !in s
    ensures Sorted(Insert(x, s))
  {
    if s == [] {
    } else if Less(x, s[0]) {
      forall j | 0 < j < |s| ensures Less(x, s[j]) {
        LessTransitive(x, s[0], s[j]);
      }
    } else {
      LessTotal(x, s[0]);
      InsertSorted(x, s[1..]);
      var r := Insert(x, s[1..]);
      forall j | 0 <= j < |r| ensures Less(s[0], r[j]) {
        assert r[j] in r;
      }
    }
  }

  /** Two sorted sequences with the same elements are equal: `sorted(set(xs))` is determined by the set. */
  lemma {:induction false} SortedUnique(s: seq<string>, t: seq<string>)
    requires Sorted(s) && Sorted(t)
    requires forall x :: x in s <==> x in t
    ensures s == t
  {
    if s != [] {
      assert s[0] in t;
    }
    if t != [] {
      assert t[0] in s;
    }
    if s != [] && t != [] {
      if s[0] != t[0] {
        var i :| 0 <= i < |t| && t[i] == s[0];
        var j :| 0 <= j < |s| && s[j] == t[0];
        LessAsymmetric(s[0], s[j]);
      }
      forall x ensures x in s[1..] <==> x in t[1..] {
        if x in s[1..] {
          var k :| 1 <= k < |s| && s[k] == x;
          SortedDistinct(s, 0, k);
          assert x in t;
        }
        if x in t[1..] {
          var k :| 1 <= k < |t| && t[k] == x;
          SortedDistinct(t, 0, k);
          assert x in s;
        }
      }
      SortedUnique(s[1..], t[1..]);
      assert s == [s[0]] + s[1..] && t == [t[0]] + t[1..];
    }
  }

  /** `sorted(s)` for a set of strings. */
  method SortSet(s: set<string>) returns (r: seq<string>)
    ensures Sorted(r)
    ensures forall x :: x in r <==> x in s
  {
    r := [];
    var rest := s;
    while rest != {}
      invariant rest <= s
      invariant Sorted(r)
      invariant forall x :: x in r <==> x in s && x !in rest
      decreases rest
    {
      MemberOfNonEmpty(rest);
      var x :| x in rest;
      InsertSorted(x, r);
      r := Insert(x, r);
      rest := rest - {x};
    }
  }

  lemma EmptyIfNoMember<T>(s: set<T>)
    requires forall x :: x !in s
    ensures s == {}
  {
    var e: set<T> := {};
    assert forall x :: x in s <==> x in e;
  }

  /** A non-empty set has a member (spelled out, so that `:|` can pick one). */
  lemma MemberOfNonEmpty<T>(s: set<T>)
    requires s != {}
    ensures exists x :: x in s
  {
    if forall x :: x !in s {
      EmptyIfNoMember(s);
      assert false;
    }
  }

  /** The same for a set of `int`s, whose members Dafny boxes differently. */
  lemma IntMemberOfNonEmpty(s: set<int>)
    requires s != {}
    ensures exists x :: x in s
  {
    if forall x :: x !in s {
      EmptyIfNoMember(s);
      assert false;
    }
  }

  lemma {:induction false} Minimum(s: set<int>) returns (m: int)
    requires s != {}
    ensures m in s && forall y :: y in s ==> m <= y
    decreases |s|
  {
    IntMemberOfNonEmpty(s);
    var x :| x in s;
    var rest := s - {x};
    if rest == {} {
      m := x;
      forall y | y in s ensures x <= y {
        assert y !in rest;
      }
    } else {
      var least := Minimum(rest);
      m := if x < least then x else least;
      forall y | y in s ensures m <= y {
        if y != x {
          assert y in rest;
        }
      }
    }
  }

  lemma MinimumExists(s: set<int>)
    requires s != {}
    ensures exists m :: m in s && forall y :: y in s ==> m <= y
  {
    var m := Minimum(s);
  }

  /** `sorted(s)` for a set of Python ints: numeric order. */
  function SortInts(s: set<int>): (r: seq<int>)
    ensures forall x :: x in r <==> x in s
    ensures forall i, j :: 0 <= i < j < |r| ==> r[i] < r[j]
    decreases |s|
  {
    if s == {} then []
    else
      MinimumExists(s);
      var m :| m in s && forall y :: y in s ==> m <= y;
      var rest := SortInts(s - {m});
      PrependLeast(s, m, rest);
      [m] + rest
  }

  /** Putting the least member in front of the sorted rest gives the sorted whole. */
  lemma PrependLeast(s: set<int>, m: int, rest: seq<int>)
    requires m in s && forall y :: y in s ==> m <= y
    requires forall x :: x in rest <==> x in s - {m}
    requires forall i, j :: 0 <= i < j < |rest| ==> rest[i] < rest[j]
    ensures forall x :: x in [m] + rest <==> x in s
    ensures forall i, j :: 0 <= i < j < |[m] + rest| ==> ([m] + rest)[i] < ([m] + rest)[j]
  {
    forall j | 0 <= j < |rest| ensures m < rest[j] {
      assert rest[j] in rest;
      assert rest[j] in s - {m};
    }
  }

  /** `[t for t in s if t not in out]`: a list filter that keeps the order. */
  function Without(s: seq<string>, out: set<string>): (r: seq<string>)
    ensures |r| <= |s|
    ensures forall t :: t in r <==> t in s && t !in out
  {
    if s == [] then []
    else (if s[0] in out then [] else [s[0]]) + Without(s[1..], out)
  }

  lemma {:induction false} WithoutTwice(s: seq<string>, a: set<string>, b: set<string>)
    ensures Without(Without(s, a), b) == Without(s, a + b)
  {
    if s != [] {
      WithoutTwice(s[1..], a, b);
      var w := Without(s[1..], a);
      if s[0] in a {
        assert Without(s, a) == w;
      } else {
        assert Without(s, a) == [s[0]] + w;
        assert ([s[0]] + w)[1..] == w;
      }
    }
  }

  /**
    The filter works string by string, left to right: filtering a
    concatenation concatenates the filtered pieces, so the kept strings keep
    their relative order.
  */
  lemma {:induction false} WithoutAppend(a: seq<string>, b: seq<string>, out: set<string>)
    ensures Without(a + b, out) == Without(a, out) + Without(b, out)
  {
    if a == [] {
      assert a + b == b;
    } else {
      WithoutAppend(a[1..], b, out);
      var head := if a[0] in out then [] else [a[0]];
      TailOfAppend(a, b);
      calc {
        Without(a + b, out);
        head + Without(a[1..] + b, out);
        head + (Without(a[1..], out) + Without(b, out));
        { AppendAssoc(head, Without(a[1..], out), Without(b, out)); }
        (head + Without(a[1..], out)) + Without(b, out);
        Without(a, out) + Without(b, out);
      }
    }
  }

  lemma TailOfAppend<T>(a: seq<T>, b: seq<T>)
    requires a != []
    ensures (a + b)[0] == a[0] && (a + b)[1..] == a[1..] + b
  {
  }

  lemma AppendAssoc<T>(x: seq<T>, y: seq<T>, z: seq<T>)
    ensures x + (y + z) == (x + y) + z
  {
  }

  /** Filtering out an element of the list shortens it. */
  lemma {:induction false} WithoutShorter(s: seq<string>, out: set<string>, x: string)
    requires x in s && x in out
    ensures |Without(s, out)| < |s|
  {
    if s[0] != x {
      WithoutShorter(s[1..], out, x);
    }
  }
}
