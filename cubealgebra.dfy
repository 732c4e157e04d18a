/**
  Cubes and the two cube operations of the Quine-McCluskey procedure.

  A cube is the Python text the minimiser works on: one character per input
  variable, '0' or '1' for a fixed literal and '-' for a variable the cube
  does not mention.  A row of the truth table is a cube without '-' (a bit
  vector).  Both the covering test and the merge walk the two texts with
  `zip`, so they only look at the common prefix; the theorems that need the
  two cubes to have the same width say so in their hypotheses.
*/
module CubeAlgebra {
  import opened Wrappers

  /** Every character is '0', '1' or '-'. */
  predicate IsCube(s: string)
  {
    forall k :: 0 <= k < |s| ==> s[k] == '0' || s[k] == '1' || s[k] == '-'
  }

  /** Every character is '0' or '1': a row of the truth table. */
  predicate IsBits(s: string)
  {
    forall k :: 0 <= k < |s| ==> s[k] == '0' || s[k] == '1'
  }

  function Min(a: int, b: int): int
  {
    if a <= b then a else b
  }

  /** `s.count(ch)` for a one-character `ch`. */
  function Count(s: string, ch: char): (r: nat)
    ensures r <= |s|
  {
    if |s| == 0 then 0 else (if s[0] == ch then 1 else 0) + Count(s[1..], ch)
  }

  /** Number of fixed literals of a cube: `len(pi) - pi.count('-')`. */
  function Literals(s: string): nat
  {
    |s| - Count(s, '-')
  }

  /**
    `implicant_covers_input(a, b)` and `implicant_covers_implicant(a, b)`
    (the two are the same test): over the zipped positions, `a` has '-' or
    the same character as `b`.
  */
  predicate Covers(a: string, b: string)
  {
    forall i :: 0 <= i < |a| && i < |b| ==> a[i] == '-' || a[i] == b[i]
  }

  lemma CoversReflexive(a: string)
    ensures Covers(a, a)
  {
  }

  /** Covering is transitive whenever the middle cube spans the zipped positions of the outer two. */
  lemma CoversTransitive(a: string, b: string, c: string)
    requires Covers(a, b) && Covers(b, c)
    requires Min(|a|, |c|) <= |b|
    ensures Covers(a, c)
  {
  }

  lemma {:induction false} CountSplit(s: string, ch: char, k: int)
    requires 0 <= k <= |s|
    ensures Count(s, ch) == Count(s[..k], ch) + Count(s[k..], ch)
    decreases k
  {
    if k > 0 {
      CountSplit(s[1..], ch, k - 1);
      assert s[1..][..k - 1] == s[..k][1..];
      assert s[1..][k - 1..] == s[k..];
    }
  }

  /** Writing `ch` over one other character raises `s.count(ch)` by exactly one. */
  lemma {:induction false} CountUpdate(s: string, p: int, ch: char)
    requires 0 <= p < |s| && s[p] != ch
    ensures Count(s[p := ch], ch) == Count(s, ch) + 1
    decreases |s|
  {
    if p > 0 {
      CountUpdate(s[1..], p - 1, ch);
      assert s[p := ch][1..] == s[1..][p - 1 := ch];
    } else {
      assert s[p := ch][1..] == s[1..];
    }
  }

  /**
    For cubes of one width, a cover has at most as many literals as the
    cube it covers, and strictly fewer unless the two are equal.
  */
  lemma {:induction false} CoversLiterals(a: string, b: string)
    requires |a| == |b| && Covers(a, b)
    ensures Literals(a) <= Literals(b)
    ensures a != b ==> Literals(a) < Literals(b)
    decreases |a|
  {
    if |a| > 0 {
      CoversLiterals(a[1..], b[1..]);
      if a != b && a[1..] == b[1..] {
        assert a[0] != b[0];
      }
      assert a == [a[0]] + a[1..] && b == [b[0]] + b[1..];
    }
  }

  /**
    Covering means what it should: for cubes of one width, `a` covers `b`
    exactly when every bit vector that `b` covers is also covered by `a`.
  */
  lemma CoversSemantics(a: string, b: string)
    requires |a| == |b| && IsCube(b)
    ensures Covers(a, b) <==>
      forall x :: IsBits(x) && |x| == |b| && Covers(b, x) ==> Covers(a, x)
  {
    if !Covers(a, b) {
      var i :| 0 <= i < |a| && a[i] != '-' && a[i] != b[i];
      var odd := if a[i] == '0' then '1' else '0';
      var x := seq(|b|, k requires 0 <= k < |b| =>
        if b[k] != '-' then b[k] else if k == i then odd else '0');
      assert IsBits(x) && Covers(b, x);
      assert x[i] != a[i];
    }
  }

  /**
    `combine_if_one_bit_diff` may merge `a` and `b` at position `p`: there
    both carry fixed and opposite literals, and at every other zipped
    position they agree.
  */
  predicate OneBitApart(a: string, b: string, p: int)
  {
    0 <= p < |a| && p < |b| && a[p] != '-' && b[p] != '-' && a[p] != b[p]
    && forall i :: 0 <= i < |a| && i < |b| && i != p ==> a[i] == b[i]
  }

  /**
    What `combine_if_one_bit_diff(a, b)` returns: a merge exists exactly when
    the two cubes are one bit apart, and it is `a` (cut to the zipped width)
    with '-' written over the differing position.
  */
  function Combined(a: string, b: string): (r: Option<string>)
    ensures r.Some? <==> exists p :: OneBitApart(a, b, p)
    ensures forall p :: OneBitApart(a, b, p) ==>
      r == Some(a[..p] + "-" + a[p + 1..Min(|a|, |b|)])
  {
    var m := Min(|a|, |b|);
    if exists p :: 0 <= p < m && OneBitApart(a, b, p) then
      var c := seq(m, i requires 0 <= i < m => if a[i] == b[i] then a[i] else '-');
      assert forall p :: OneBitApart(a, b, p) ==> c == a[..p] + "-" + a[p + 1..m];
      Some(c)
    else
      None
  }

  /** `combine_if_one_bit_diff`: the loop over the zipped characters with its early exits. */
  method CombineIfOneBitDiff(a: string, b: string) returns (r: Option<string>)
    ensures r == Combined(a, b)
  {
    var m := Min(|a|, |b|);
    var diff := 0;
    var out := "";
    ghost var first := 0;
    var k := 0;
    while k < m
      invariant 0 <= k <= m
      invariant |out| == k
      invariant forall i :: 0 <= i < k ==> out[i] == (if a[i] == b[i] then a[i] else '-')
      invariant forall i :: 0 <= i < k && a[i] != b[i] ==> a[i] != '-' && b[i] != '-'
      invariant diff == 0 || diff == 1
      invariant diff == 0 ==> forall i :: 0 <= i < k ==> a[i] == b[i]
      invariant diff == 1 ==> 0 <= first < k && a[first] != b[first]
      invariant diff == 1 ==> forall i :: 0 <= i < k && i != first ==> a[i] == b[i]
    {
      if a[k] == b[k] {
        out := out + [a[k]];
      } else {
        if a[k] == '-' || b[k] == '-' {
          DashClashNone(a, b, k);
          return None;
        }
        diff := diff + 1;
        if diff > 1 {
          TwoDifferencesNone(a, b, first, k);
          return None;
        }
        first := k;
        out := out + ['-'];
      }
      k := k + 1;
    }
    if diff != 1 {
      assert forall p :: !OneBitApart(a, b, p);
      return None;
    }
    assert OneBitApart(a, b, first);
    assert out == Combined(a, b).value;
    return Some(out);
  }

  /** A '-' facing a fixed literal at any zipped position forbids the merge. */
  lemma DashClashNone(a: string, b: string, i: int)
    requires 0 <= i < |a| && i < |b| && a[i] != b[i]
    requires a[i] == '-' || b[i] == '-'
    ensures Combined(a, b) == None
  {
    assert forall p :: !OneBitApart(a, b, p);
  }

  /** Two differing zipped positions forbid the merge. */
  lemma TwoDifferencesNone(a: string, b: string, i: int, j: int)
    requires 0 <= i < |a| && i < |b| && 0 <= j < |a| && j < |b| && i != j
    requires a[i] != b[i] && a[j] != b[j]
    ensures Combined(a, b) == None
  {
    assert forall p :: !OneBitApart(a, b, p);
  }

  /** Zipped-equal cubes (in particular identical ones) never merge. */
  lemma NoDifferenceNone(a: string, b: string)
    requires forall i :: 0 <= i < |a| && i < |b| ==> a[i] == b[i]
    ensures Combined(a, b) == None
  {
  }

  /** The merge does not depend on the order of its operands. */
  lemma CombinedSymmetric(a: string, b: string)
    ensures Combined(a, b) == Combined(b, a)
  {
    if Combined(a, b).Some? {
      var p :| OneBitApart(a, b, p);
      assert OneBitApart(b, a, p);
      var m := Min(|a|, |b|);
      assert a[..p] + "-" + a[p + 1..m] == b[..p] + "-" + b[p + 1..m];
    } else {
      if Combined(b, a).Some? {
        var p :| OneBitApart(b, a, p);
        assert OneBitApart(a, b, p);
      }
    }
  }

  /**
    A merge has exactly one more '-' than the (zipped part of the) first
    operand, hence, for equal widths, than each operand.
  */
  lemma CombinedDashes(a: string, b: string)
    requires Combined(a, b).Some?
    ensures Count(Combined(a, b).value, '-') == Count(a[..Min(|a|, |b|)], '-') + 1
    ensures |a| == |b| ==>
      Count(Combined(a, b).value, '-') == Count(a, '-') + 1 == Count(b, '-') + 1
  {
    var p :| OneBitApart(a, b, p);
    var m := Min(|a|, |b|);
    var c := Combined(a, b).value;
    assert c == a[..m][p := '-'];
    CountUpdate(a[..m], p, '-');
    if |a| == |b| {
      assert a[..m] == a;
      CombinedSymmetric(a, b);
      assert OneBitApart(b, a, p);
      assert c == b[p := '-'];
      CountUpdate(b, p, '-');
    }
  }

  /** A merge has fewer literals than its first operand: the measure that bounds the consensus levels. */
  lemma CombinedLiterals(a: string, b: string)
    requires Combined(a, b).Some?
    ensures Literals(Combined(a, b).value) < Literals(a)
  {
    var m := Min(|a|, |b|);
    CombinedDashes(a, b);
    CountSplit(a, '-', m);
  }

  /** A merge covers both of its operands. */
  lemma CombinedCoversOperands(a: string, b: string)
    requires Combined(a, b).Some?
    ensures Covers(Combined(a, b).value, a) && Covers(Combined(a, b).value, b)
  {
  }

  /**
    For cubes of one width a merge covers exactly the bit vectors that one
    of its operands covers: merging loses nothing and adds nothing.
  */
  lemma CombinedCoversExactly(a: string, b: string, x: string)
    requires |a| == |b| == |x| && IsCube(a) && IsCube(b) && IsBits(x)
    requires Combined(a, b).Some?
    ensures Covers(Combined(a, b).value, x) <==> Covers(a, x) || Covers(b, x)
  {
    var p :| OneBitApart(a, b, p);
    var c := Combined(a, b).value;
    if Covers(c, x) {
      if x[p] == a[p] {
        assert Covers(a, x);
      } else {
        assert x[p] == b[p];
        assert Covers(b, x);
      }
    }
  }
}
