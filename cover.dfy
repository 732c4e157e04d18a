/**
  Cover selection for one output: the implicant table, the essential prime
  implicants, the greedy completion of the cover, and the rendering of the
  chosen implicants as a sum of products and as PLA cube rows.
*/
module Cover {
  import opened Wrappers
  import opened PyOrder
  import opened PyText
  import opened CubeAlgebra
  import opened Implicants

  /** `{bits: idx for idx, bits in enumerate(inputs)}`: a later equal row overrides an earlier one. */
  function IndexByBits(inputs: seq<string>): (m: map<string, int>)
    ensures forall b :: b in m <==> b in inputs
    ensures forall b :: b in m ==> 0 <= m[b] < |inputs| && inputs[m[b]] == b
  {
    if inputs == [] then map[]
    else
      var last := |inputs| - 1;
      IndexByBits(inputs[..last])[inputs[last] := last]
  }

  /** The index kept for a row is its last occurrence. */
  lemma {:induction false} IndexByBitsLast(inputs: seq<string>, b: string, j: int)
    requires b in inputs && IndexByBits(inputs)[b] < j < |inputs|
    ensures inputs[j] != b
  {
    var last := |inputs| - 1;
    if j < last && inputs[last] != b {
      IndexByBitsLast(inputs[..last], b, j);
    }
  }

  /** `set(idx_by_bits[b] for b in onset)`: the indices of the on-set rows. */
  function OnIndices(inputs: seq<string>, onset: seq<string>): (r: set<int>)
    requires forall b :: b in onset ==> b in inputs
    ensures forall i :: i in r ==> 0 <= i < |inputs| && inputs[i] in onset && IndexByBits(inputs)[inputs[i]] == i
    ensures forall b :: b in onset ==> IndexByBits(inputs)[b] in r
  {
    var idx := IndexByBits(inputs);
    set b | b in onset :: idx[b]
  }

  /** The implicants of `pis` that cover the input row `x`. */
  function CandidatesFor(pis: seq<string>, x: string): set<string>
  {
    set pi | pi in pis && Covers(pi, x)
  }

  /** `pi` is the only implicant of `pis` that covers `x`. */
  predicate SoleCandidate(pis: seq<string>, x: string, pi: string)
  {
    CandidatesFor(pis, x) == {pi}
  }

  /**
    `build_minterm_to_pis`: one entry per on-set index, listing the
    implicants that cover that input row.
  */
  method BuildMintermToPis(inputs: seq<string>, onset: seq<string>, pis: seq<string>)
    returns (table: map<int, set<string>>)
    requires forall b :: b in onset ==> b in inputs
    ensures table.Keys == OnIndices(inputs, onset)
    ensures forall i :: i in table ==> 0 <= i < |inputs| && table[i] == CandidatesFor(pis, inputs[i])
  {
    var idx := IndexByBits(inputs);
    var on := OnIndices(inputs, onset);
    table := map i | i in on :: {};
    var p := 0;
    while p < |pis|
      invariant 0 <= p <= |pis|
      invariant table.Keys == on
      invariant forall i, q :: i in table ==> (q in table[i] <==> q in pis[..p] && Covers(q, inputs[i]))
    {
      assert pis[..p + 1] == pis[..p] + [pis[p]];
      var next := AddToRows(inputs, onset, idx, table, pis[p]);
      forall i, q | i in next ensures q in next[i] <==> q in pis[..p + 1] && Covers(q, inputs[i]) {
        assert q in pis[..p + 1] <==> q in pis[..p] || q == pis[p];
      }
      table, p := next, p + 1;
    }
    assert pis[..p] == pis;
  }

  /** The inner loop of `build_minterm_to_pis`: `pi` joins the entry of every on-set row it covers. */
  method AddToRows(inputs: seq<string>, onset: seq<string>, idx: map<string, int>,
                   table0: map<int, set<string>>, pi: string)
    returns (table: map<int, set<string>>)
    requires forall b :: b in idx ==> 0 <= idx[b] < |inputs| && inputs[idx[b]] == b
    requires forall i :: i in table0 ==> 0 <= i < |inputs| && inputs[i] in onset && inputs[i] in idx && idx[inputs[i]] == i
    requires forall b :: b in onset ==> b in idx && idx[b] in table0
    ensures table.Keys == table0.Keys
    ensures forall i, q :: i in table ==> (q in table[i] <==> q in table0[i] || (q == pi && Covers(pi, inputs[i])))
  {
    table := table0;
    var todo := idx.Keys;
    while todo != {}
      invariant todo <= idx.Keys
      invariant table.Keys == table0.Keys
      invariant forall i, q :: i in table ==> (q in table[i] <==>
        q in table0[i] || (q == pi && inputs[i] !in todo && Covers(pi, inputs[i])))
      decreases todo
    {
      MemberOfNonEmpty(todo);
      var bits :| bits in todo;
      if bits in onset && Covers(pi, bits) {
        table := table[idx[bits] := table[idx[bits]] + {pi}];
      }
      todo := todo - {bits};
    }
  }

  /**
    `pick_epis`: the implicants that are the only candidate of some index,
    and the indices whose candidates include one of them.
  */
  method PickEpis(table: map<int, set<string>>) returns (epis: set<string>, covered: set<int>)
    ensures forall pi :: pi in epis <==> exists m :: m in table && table[m] == {pi}
    ensures forall m :: m in covered <==> m in table && exists pi :: pi in epis && pi in table[m]
  {
    epis := {};
    covered := {};
    var todo := table.Keys;
    while todo != {}
      invariant todo <= table.Keys
      invariant forall pi :: pi in epis <==> exists m :: m in table && m !in todo && table[m] == {pi}
      decreases todo
    {
      IntMemberOfNonEmpty(todo);
      var m :| m in todo;
      var cand := table[m];
      if |cand| == 1 {
        MemberOfNonEmpty(cand);
        var pi :| pi in cand;
        assert cand == {pi} by {
          assert |cand - {pi}| == 0;
        }
        epis := epis + {pi};
      }
      todo := todo - {m};
    }
    if epis != {} {
      todo := table.Keys;
      while todo != {}
        invariant todo <= table.Keys
        invariant forall m :: m in covered <==> m in table && m !in todo && exists pi :: pi in epis && pi in table[m]
        decreases todo
      {
        IntMemberOfNonEmpty(todo);
        var m :| m in todo;
        if exists pi :: pi in epis && pi in table[m] {
          covered := covered + {m};
        }
        todo := todo - {m};
      }
    }
  }

  /** The tuple `(cover_gain, dash_count, -literal_count)`. */
  datatype Score = Score(gain: int, dashes: int, negLiterals: int)

  /** Python's `>` on such tuples: lexicographic order. */
  predicate Greater(a: Score, b: Score)
  {
    a.gain > b.gain
    || (a.gain == b.gain && (a.dashes > b.dashes || (a.dashes == b.dashes && a.negLiterals > b.negLiterals)))
  }

  /** `covers.get(pi, set())`. */
  function CoverOf(covers: map<string, set<int>>, pi: string): set<int>
  {
    if pi in covers then covers[pi] else {}
  }

  /**
    `score_pi_for_greedy`: how many still uncovered indices `pi` would
    cover, then its number of '-', then minus its number of literals.
  */
  function ScorePiForGreedy(pi: string, uncovered: set<int>, covers: map<string, set<int>>): (s: Score)
    ensures 0 <= s.gain <= |uncovered|
    ensures 0 <= s.dashes && s.dashes - s.negLiterals == |pi|
  {
    var dashCount := Count(pi, '-');
    var gained := CoverOf(covers, pi) * uncovered;
    assert gained <= uncovered;
    SubsetSize(gained, uncovered);
    Score(|gained|, dashCount, -(|pi| - dashCount))
  }

  lemma {:induction false} SubsetSize(a: set<int>, b: set<int>)
    requires a <= b
    ensures |a| <= |b|
    decreases |b|
  {
    if a != {} {
      IntMemberOfNonEmpty(a);
      var x :| x in a;
      SubsetSize(a - {x}, b - {x});
    }
  }

  /** The gain is positive exactly when `pi` covers one of the uncovered indices. */
  lemma GainPositive(pi: string, uncovered: set<int>, covers: map<string, set<int>>)
    ensures ScorePiForGreedy(pi, uncovered, covers).gain > 0 <==>
      exists i :: i in uncovered && i in CoverOf(covers, pi)
  {
    var gained := CoverOf(covers, pi) * uncovered;
    assert ScorePiForGreedy(pi, uncovered, covers).gain == |gained|;
    if exists i :: i in uncovered && i in CoverOf(covers, pi) {
      var i :| i in uncovered && i in CoverOf(covers, pi);
      assert i in gained;
    } else {
      EmptyIfNoMember(gained);
    }
  }

  /**
    The inner loop of `greedy_complete_cover`: the first implicant of
    `remaining` with the greatest score above `(0, 0, 0)`, if any; ties go
    to the earliest one because the comparison is strict.
  */
  method PickBest(remaining: seq<string>, uncovered: set<int>, covers: map<string, set<int>>)
    returns (best: Option<string>, bestScore: Score)
    ensures forall k :: 0 <= k < |remaining| ==>
      !Greater(ScorePiForGreedy(remaining[k], uncovered, covers), bestScore)
    ensures best.None? ==> bestScore == Score(0, 0, 0)
    ensures best.Some? ==> Greater(bestScore, Score(0, 0, 0))
    ensures best.Some? ==>
      exists k :: 0 <= k < |remaining| && remaining[k] == best.value
        && bestScore == ScorePiForGreedy(remaining[k], uncovered, covers)
        && forall j :: 0 <= j < k ==> Greater(bestScore, ScorePiForGreedy(remaining[j], uncovered, covers))
  {
    best, bestScore := None, Score(0, 0, 0);
    ghost var at := 0;
    var i := 0;
    while i < |remaining|
      invariant 0 <= i <= |remaining|
      invariant forall k :: 0 <= k < i ==> !Greater(ScorePiForGreedy(remaining[k], uncovered, covers), bestScore)
      invariant best.None? ==> bestScore == Score(0, 0, 0)
      invariant best.Some? ==> Greater(bestScore, Score(0, 0, 0))
      invariant best.Some? ==>
        0 <= at < i && remaining[at] == best.value
        && bestScore == ScorePiForGreedy(remaining[at], uncovered, covers)
        && forall j :: 0 <= j < at ==> Greater(bestScore, ScorePiForGreedy(remaining[j], uncovered, covers))
    {
      var sc := ScorePiForGreedy(remaining[i], uncovered, covers);
      if Greater(sc, bestScore) {
        best, bestScore := Some(remaining[i]), sc;
        at := i;
      }
      i := i + 1;
    }
  }

  /** The on-set indices that no implicant of `selected` covers. */
  ghost function Uncovered(allOn: set<int>, covers: map<string, set<int>>, selected: set<string>): set<int>
  {
    set i | i in allOn && forall pi :: pi in selected ==> i !in CoverOf(covers, pi)
  }

  lemma UncoveredAdd(allOn: set<int>, covers: map<string, set<int>>, selected: set<string>, pi: string)
    ensures Uncovered(allOn, covers, selected + {pi}) == Uncovered(allOn, covers, selected) - CoverOf(covers, pi)
  {
  }

  /** The selection after the greedy rounds that picked `picks`, in order, on top of `start`. */
  function Picked(start: set<string>, picks: seq<string>): set<string>
  {
    start + set p | p in picks
  }

  /**
    The choice one greedy round makes once `before` is selected: among the
    remaining implicants (those of `pis` not yet selected, in order) `pick`
    has the greatest score, it covers at least one uncovered index, and it
    scores strictly above every remaining implicant before it.
  */
  ghost predicate GreedyStep(pis: seq<string>, covers: map<string, set<int>>, allOn: set<int>,
                             before: set<string>, pick: string)
  {
    var uncovered := Uncovered(allOn, covers, before);
    var remaining := Without(pis, before);
    var sc := ScorePiForGreedy(pick, uncovered, covers);
    sc.gain > 0
    && (forall j :: 0 <= j < |remaining| ==> !Greater(ScorePiForGreedy(remaining[j], uncovered, covers), sc))
    && exists k :: 0 <= k < |remaining| && remaining[k] == pick
         && forall j :: 0 <= j < k ==> Greater(sc, ScorePiForGreedy(remaining[j], uncovered, covers))
  }

  /** Each of `picks` is the greedy choice after `start` and the picks before it. */
  ghost predicate GreedyRun(pis: seq<string>, covers: map<string, set<int>>, allOn: set<int>,
                            start: set<string>, picks: seq<string>)
  {
    picks == []
    || (GreedyRun(pis, covers, allOn, start, picks[..|picks| - 1])
        && GreedyStep(pis, covers, allOn, Picked(start, picks[..|picks| - 1]), picks[|picks| - 1]))
  }

  /** A greedy run extended by one more greedy choice. */
  lemma GreedyRunAppend(pis: seq<string>, covers: map<string, set<int>>, allOn: set<int>,
                        start: set<string>, picks: seq<string>, pick: string)
    requires GreedyRun(pis, covers, allOn, start, picks)
    requires GreedyStep(pis, covers, allOn, Picked(start, picks), pick)
    ensures GreedyRun(pis, covers, allOn, start, picks + [pick])
    ensures Picked(start, picks + [pick]) == Picked(start, picks) + {pick}
  {
    assert (picks + [pick])[..|picks|] == picks;
  }

  /** A greedy pick is an implicant of `pis` that was not selected yet. */
  lemma GreedyPickIsNew(pis: seq<string>, covers: map<string, set<int>>, allOn: set<int>,
                        before: set<string>, pick: string)
    requires GreedyStep(pis, covers, allOn, before, pick)
    ensures pick in pis && pick !in before
    ensures exists i :: i in Uncovered(allOn, covers, before) && i in CoverOf(covers, pick)
  {
    var k :| 0 <= k < |Without(pis, before)| && Without(pis, before)[k] == pick;
    GainPositive(pick, Uncovered(allOn, covers, before), covers);
  }

  /** The first loop of `greedy_complete_cover`: the on-set indices the already selected implicants leave uncovered. */
  method UncoveredBy(covers: map<string, set<int>>, selected: set<string>, allOn: set<int>) returns (uncovered: set<int>)
    ensures uncovered == Uncovered(allOn, covers, selected)
  {
    uncovered := allOn;
    var todo := selected;
    while todo != {}
      invariant todo <= selected
      invariant uncovered == Uncovered(allOn, covers, selected - todo)
      decreases todo
    {
      MemberOfNonEmpty(todo);
      var pi :| pi in todo;
      UncoveredAdd(allOn, covers, selected - todo, pi);
      assert selected - (todo - {pi}) == (selected - todo) + {pi};
      uncovered := uncovered - CoverOf(covers, pi);
      todo := todo - {pi};
    }
    assert selected - todo == selected;
  }

  /** When the best remaining score gains nothing, no unselected implicant covers an uncovered index. */
  lemma NoGainLeft(pis: seq<string>, covers: map<string, set<int>>, selected: set<string>, uncovered: set<int>,
                   remaining: seq<string>, bestScore: Score)
    requires remaining == Without(pis, selected)
    requires forall k :: 0 <= k < |remaining| ==> !Greater(ScorePiForGreedy(remaining[k], uncovered, covers), bestScore)
    requires bestScore.gain == 0
    ensures forall pi :: pi in pis && pi !in selected ==> forall i :: i in uncovered ==> i !in CoverOf(covers, pi)
  {
    forall pi | pi in pis && pi !in selected
      ensures forall i :: i in uncovered ==> i !in CoverOf(covers, pi)
    {
      var k :| 0 <= k < |remaining| && remaining[k] == pi;
      GainPositive(pi, uncovered, covers);
    }
  }

  /**
    `greedy_complete_cover`: starting from `already_selected`, keep adding
    the best-scoring remaining implicant while it covers something new.
    `picks` lists the added implicants in the order of the rounds, each the
    greedy choice of its round.  On return `uncovered` is the part of the
    on-set that the selection misses, and either it is empty or no
    unselected implicant covers any of it.
  */
  method GreedyCompleteCover(pis: seq<string>, covers: map<string, set<int>>,
                             alreadySelected: set<string>, allOn: set<int>)
    returns (selected: set<string>, uncovered: set<int>, ghost picks: seq<string>)
    ensures selected == Picked(alreadySelected, picks)
    ensures GreedyRun(pis, covers, allOn, alreadySelected, picks)
    ensures alreadySelected <= selected
    ensures forall pi :: pi in selected ==> pi in alreadySelected || pi in pis
    ensures uncovered == Uncovered(allOn, covers, selected)
    ensures uncovered == {} ||
      forall pi :: pi in pis && pi !in selected ==> forall i :: i in uncovered ==> i !in CoverOf(covers, pi)
  {
    selected := alreadySelected;
    uncovered := UncoveredBy(covers, selected, allOn);
    var remaining := Without(pis, selected);
    picks := [];
    while uncovered != {}
      invariant selected == Picked(alreadySelected, picks)
      invariant GreedyRun(pis, covers, allOn, alreadySelected, picks)
      invariant alreadySelected <= selected
      invariant forall pi :: pi in selected ==> pi in alreadySelected || pi in pis
      invariant uncovered == Uncovered(allOn, covers, selected)
      invariant remaining == Without(pis, selected)
      decreases |remaining|
    {
      var best, bestScore := PickBest(remaining, uncovered, covers);
      if best.None? || bestScore.gain == 0 {
        NoGainLeft(pis, covers, selected, uncovered, remaining, bestScore);
        break;
      }
      var pick := best.value;
      assert GreedyStep(pis, covers, allOn, selected, pick);
      GreedyRunAppend(pis, covers, allOn, alreadySelected, picks, pick);
      picks := picks + [pick];
      UncoveredAdd(allOn, covers, selected, pick);
      WithoutShorter(remaining, {pick}, pick);
      WithoutTwice(pis, selected, {pick});
      selected := selected + {pick};
      uncovered := uncovered - CoverOf(covers, pick);
      remaining := Without(remaining, {pick});
    }
  }

  /** The text `implicant_to_product_term` emits for one zipped position: `name`, `name'` or nothing. */
  function LiteralText(b: char, name: string): seq<string>
  {
    if b == '1' then [name] else if b == '0' then [name + "'"] else []
  }

  /** The literal texts for the zipped positions from `k` on, in order. */
  function TermsFrom(cube: string, names: seq<string>, k: nat): (r: seq<string>)
    ensures r == [] <==> forall i :: k <= i < |cube| && i < |names| ==> cube[i] != '0' && cube[i] != '1'
    ensures forall j :: 0 <= j < |r| ==>
      exists i :: k <= i < |cube| && i < |names| && (r[j] == names[i] || r[j] == names[i] + "'")
    decreases |cube| - k
  {
    if k >= |cube| || k >= |names| then []
    else LiteralText(cube[k], names[k]) + TermsFrom(cube, names, k + 1)
  }

  /**
    `implicant_to_product_term`: the literals of the cube side by side, a
    primed name for a '0'; the constant "1" when the cube fixes nothing.
    Without names the variables are called `x1`, `x2`, ...
  */
  function ImplicantToProductTerm(implicant: string, varNames: Option<seq<string>>): (r: string)
    ensures (forall i :: 0 <= i < |implicant| ==> implicant[i] != '0' && implicant[i] != '1') ==> r == "1"
    ensures varNames.None? ==>
      (r == "1" <==> forall i :: 0 <= i < |implicant| ==> implicant[i] != '0' && implicant[i] != '1')
  {
    var names := if varNames.None? then DefaultNames("x", |implicant|) else varNames.value;
    var terms := TermsFrom(implicant, names, 0);
    if terms == [] then "1"
    else
      assert varNames.None? ==> Join("", terms) != "1" by {
        if varNames.None? {
          var i :| 0 <= i < |implicant| && i < |names| && (terms[0] == names[i] || terms[0] == names[i] + "'");
          assert names[i] == "x" + ShowNat(i + 1);
          JoinFirstChar("", terms);
        }
      }
      Join("", terms)
  }

  /** What follows the `x` of each default-named literal from position `k` on: its number and a prime for '0'. */
  function PiecesFrom(cube: string, k: nat): (r: seq<string>)
    ensures forall i :: 0 <= i < |r| ==> 'x' !in r[i]
    decreases |cube| - k
  {
    if k >= |cube| then []
    else
      var rest := PiecesFrom(cube, k + 1);
      if cube[k] == '1' then [ShowNat(k + 1)] + rest
      else if cube[k] == '0' then [ShowNat(k + 1) + "'"] + rest
      else rest
  }

  /** The literal of index `i` (0-based) among decoded pieces, '-' if none names it. */
  function LookupBit(pieces: seq<string>, i: int): char
  {
    if pieces == [] then '-'
    else
      var p := pieces[0];
      var neg := |p| > 0 && p[|p| - 1] == '\'';
      var digits := if neg then p[..|p| - 1] else p;
      if (forall k :: 0 <= k < |digits| ==> IsDigit(digits[k])) && DigitsValue(digits) == i + 1 then
        (if neg then '0' else '1')
      else LookupBit(pieces[1..], i)
  }

  /** Reads a product term over the default names back into a cube of width `n`. */
  function DecodeProductTerm(term: string, n: nat): (r: string)
    ensures |r| == n
  {
    if term == "1" then seq(n, i => '-')
    else
      var pieces := Split(term, 'x')[1..];
      seq(n, i requires 0 <= i < n => LookupBit(pieces, i))
  }

  /** Each piece preceded by the variable letter. */
  function Prefixed(ps: seq<string>): (r: seq<string>)
    ensures |r| == |ps|
    ensures forall i :: 0 <= i < |ps| ==> r[i] == "x" + ps[i]
  {
    if ps == [] then [] else ["x" + ps[0]] + Prefixed(ps[1..])
  }

  /** With the default names every literal text is `x` followed by its piece. */
  lemma {:induction false} TermsArePieces(cube: string, k: nat)
    ensures TermsFrom(cube, DefaultNames("x", |cube|), k) == Prefixed(PiecesFrom(cube, k))
    decreases |cube| - k
  {
    if k < |cube| {
      TermsArePieces(cube, k + 1);
      var names := DefaultNames("x", |cube|);
      var num := ShowNat(k + 1);
      var rest := PiecesFrom(cube, k + 1);
      assert names[k] == "x" + num;
      if cube[k] == '1' {
        assert PiecesFrom(cube, k) == [num] + rest;
        assert Prefixed([num] + rest) == ["x" + num] + Prefixed(rest);
      } else if cube[k] == '0' {
        assert PiecesFrom(cube, k) == [num + "'"] + rest;
        assert names[k] + "'" == "x" + (num + "'");
        assert Prefixed([num + "'"] + rest) == ["x" + (num + "'")] + Prefixed(rest);
      }
    }
  }

  lemma {:induction false} JoinPrefixed(ps: seq<string>)
    requires |ps| >= 1
    ensures Join("", Prefixed(ps)) == "x" + Join("x", ps)
    decreases |ps|
  {
    if |ps| > 1 {
      JoinPrefixed(ps[1..]);
      assert Prefixed(ps)[1..] == Prefixed(ps[1..]);
    }
  }

  lemma {:induction false} LookupPieces(cube: string, k: nat, i: int)
    requires IsCube(cube) && 0 <= i
    ensures LookupBit(PiecesFrom(cube, k), i) == if k <= i < |cube| then cube[i] else '-'
    decreases |cube| - k
  {
    if k < |cube| {
      LookupPieces(cube, k + 1, i);
      var num := ShowNat(k + 1);
      ShowNatParses(k + 1);
      if cube[k] == '0' {
        var p := num + "'";
        assert p[..|p| - 1] == num;
      } else if cube[k] == '1' {
        assert num[|num| - 1] != '\'';
      }
    }
  }

  /**
    With the default names the product term determines the implicant:
    reading it back gives the cube, '-' wherever no literal is written.
  */
  lemma ProductTermRoundTrip(cube: string)
    requires IsCube(cube)
    ensures DecodeProductTerm(ImplicantToProductTerm(cube, None), |cube|) == cube
  {
    var ps := PiecesFrom(cube, 0);
    TermsArePieces(cube, 0);
    forall i | 0 <= i < |cube| ensures LookupBit(ps, i) == cube[i] {
      LookupPieces(cube, 0, i);
    }
    if ps != [] {
      var term := ImplicantToProductTerm(cube, None);
      JoinPrefixed(ps);
      assert term == "x" + Join("x", ps);
      assert term[1..] == Join("x", ps);
      SplitJoin(ps, 'x');
      assert Split(term, 'x')[1..] == ps;
    }
  }

  /** The product term of each selected implicant, in order. */
  function ProductTerms(selected: seq<string>, varNames: Option<seq<string>>): (r: seq<string>)
    ensures |r| == |selected|
    ensures forall i :: 0 <= i < |selected| ==> r[i] == ImplicantToProductTerm(selected[i], varNames)
  {
    if selected == [] then [] else [ImplicantToProductTerm(selected[0], varNames)] + ProductTerms(selected[1..], varNames)
  }

  /** `build_sum_of_products`: the product terms joined by " + ", or "0" for an empty selection. */
  function SumOfProducts(selected: seq<string>, varNames: Option<seq<string>>): (r: string)
    ensures selected == [] ==> r == "0"
    ensures |selected| == 1 ==> r == ImplicantToProductTerm(selected[0], varNames)
  {
    if selected == [] then "0" else Join(" + ", ProductTerms(selected, varNames))
  }

  /** The characters a product term over the default names is made of. */
  const TermAlphabet: set<char> := {'x', '\'', '0', '1', '2', '3', '4', '5', '6', '7', '8', '9'}

  /** A product term over the default names is "1" or starts with `x`, and uses only `TermAlphabet`. */
  lemma DefaultTermShape(cube: string)
    requires IsCube(cube)
    ensures |ImplicantToProductTerm(cube, None)| > 0
    ensures ImplicantToProductTerm(cube, None) == "1" || ImplicantToProductTerm(cube, None)[0] == 'x'
    ensures forall c :: c in ImplicantToProductTerm(cube, None) ==> c in TermAlphabet
  {
    var ps := PiecesFrom(cube, 0);
    TermsArePieces(cube, 0);
    if ps != [] {
      JoinPrefixed(ps);
      PiecesAlphabet(cube, 0);
      JoinCharsIn("x", ps, TermAlphabet);
    }
  }

  lemma {:induction false} PiecesAlphabet(cube: string, k: nat)
    ensures forall i, c :: 0 <= i < |PiecesFrom(cube, k)| && c in PiecesFrom(cube, k)[i] ==> c in TermAlphabet
    decreases |cube| - k
  {
    if k < |cube| {
      PiecesAlphabet(cube, k + 1);
      var num := ShowNat(k + 1);
      assert forall c :: c in num ==> c in TermAlphabet by {
        forall c | c in num ensures c in TermAlphabet {
          var j :| 0 <= j < |num| && num[j] == c;
          assert IsDigit(num[j]);
        }
      }
    }
  }

  /** Reads a sum of products over the default names back into its implicants of width `n`. */
  function DecodeSum(sop: string, n: nat): (r: seq<string>)
    ensures forall i :: 0 <= i < |r| ==> |r[i]| == n
  {
    if sop == "0" then []
    else
      var pieces := Split(sop, '+');
      seq(|pieces|, i requires 0 <= i < |pieces| => DecodeProductTerm(Strip(pieces[i]), n))
  }

  /**
    With the default names the sum of products determines the selection:
    reading it back gives the selected implicants in their order.
  */
  lemma SumOfProductsRoundTrip(selected: seq<string>, n: nat)
    requires forall i :: 0 <= i < |selected| ==> IsCube(selected[i]) && |selected[i]| == n
    ensures DecodeSum(SumOfProducts(selected, None), n) == selected
  {
    if selected != [] {
      var ts := ProductTerms(selected, None);
      SumPieces(selected);
      forall i | 0 <= i < |ts| ensures Trimmed(ts[i]) {
        DefaultTermTrimmed(selected[i]);
      }
      PaddedStrip(ts, true);
      forall i | 0 <= i < |selected|
        ensures DecodeProductTerm(Strip(Padded(ts, true)[i]), n) == selected[i]
      {
        ProductTermRoundTrip(selected[i]);
      }
    }
  }

  /** A product term over the default names has no blank at either end and no '+'. */
  lemma DefaultTermTrimmed(cube: string)
    requires IsCube(cube)
    ensures Trimmed(ImplicantToProductTerm(cube, None)) && '+' !in ImplicantToProductTerm(cube, None)
  {
    var t := ImplicantToProductTerm(cube, None);
    DefaultTermShape(cube);
    assert t[0] in t && t[|t| - 1] in t;
  }

  /** A non-empty sum over the default names is not "0" and splits at '+' into its padded terms. */
  lemma SumPieces(selected: seq<string>)
    requires selected != []
    requires forall i :: 0 <= i < |selected| ==> IsCube(selected[i])
    ensures SumOfProducts(selected, None) != "0"
    ensures Split(SumOfProducts(selected, None), '+') == Padded(ProductTerms(selected, None), true)
  {
    var ts := ProductTerms(selected, None);
    var sop := Join(" + ", ts);
    assert SumOfProducts(selected, None) == sop;
    DefaultTermShape(selected[0]);
    JoinFirstChar(" + ", ts);
    assert sop[0] != '0';
    TermsSplit(selected, ts);
  }

  lemma TermsSplit(selected: seq<string>, ts: seq<string>)
    requires ts != [] && |ts| == |selected|
    requires forall i :: 0 <= i < |selected| ==> IsCube(selected[i]) && ts[i] == ImplicantToProductTerm(selected[i], None)
    ensures Split(Join(" + ", ts), '+') == Padded(ts, true)
  {
    forall i | 0 <= i < |ts| ensures Trimmed(ts[i]) && '+' !in ts[i] {
      DefaultTermTrimmed(selected[i]);
    }
    SplitPadded(ts);
  }

  /** `y = ['0'] * n; y[which] = '1'`: the output part of a PLA row. */
  function OutputVector(n: nat, which: nat): (v: string)
    requires which < n
    ensures |v| == n && IsBits(v)
    ensures forall p :: 0 <= p < n ==> (v[p] == '1' <==> p == which)
  {
    seq(n, p requires 0 <= p < n => if p == which then '1' else '0')
  }

  /**
    `cubes_for_espresso`: one PLA row per selected implicant, the implicant,
    a blank, and an output vector with its only '1' at `which`.
  */
  function CubesForEspresso(selected: seq<string>, nOutputs: nat, which: nat): (r: seq<string>)
    requires selected != [] ==> which < nOutputs
    ensures |r| == |selected|
  {
    if selected == [] then []
    else [selected[0] + " " + OutputVector(nOutputs, which)] + CubesForEspresso(selected[1..], nOutputs, which)
  }

  /** Every PLA row splits at its blank back into the implicant and the output vector. */
  lemma {:induction false} CubesForEspressoRows(selected: seq<string>, nOutputs: nat, which: nat)
    requires selected != [] ==> which < nOutputs
    requires forall i :: 0 <= i < |selected| ==> IsCube(selected[i])
    ensures forall i :: 0 <= i < |selected| ==>
      Split(CubesForEspresso(selected, nOutputs, which)[i], ' ') == [selected[i], OutputVector(nOutputs, which)]
    decreases |selected|
  {
    if selected != [] {
      CubesForEspressoRows(selected[1..], nOutputs, which);
      var v := OutputVector(nOutputs, which);
      assert ' ' !in selected[0] && ' ' !in v by {
        assert forall k :: 0 <= k < |selected[0]| ==> selected[0][k] != ' ';
        assert forall k :: 0 <= k < |v| ==> v[k] != ' ';
      }
      SplitFirstPiece(selected[0], ' ', v);
      SplitNoSeparator(v, ' ');
      assert selected[0] + " " + v == selected[0] + [' '] + v;
      forall i | 1 <= i < |selected|
        ensures CubesForEspresso(selected, nOutputs, which)[i] == CubesForEspresso(selected[1..], nOutputs, which)[i - 1]
      {
      }
    }
  }

  /** `[pi for pi in pis if not any(implicant_covers_input(pi, x) for x in off)]`. */
  function DropOffCovering(pis: seq<string>, off: set<string>): (r: seq<string>)
    ensures |r| <= |pis|
    ensures forall pi :: pi in r <==> pi in pis && forall x :: x in off ==> !Covers(pi, x)
  {
    if pis == [] then []
    else (if exists x :: x in off && Covers(pis[0], x) then [] else [pis[0]]) + DropOffCovering(pis[1..], off)
  }

  /**
    The inner loop that fills `covers[pi]`: the index of every on-set row
    that `pi` covers.
  */
  method CoveredIndices(onset: seq<string>, idx: map<string, int>, pi: string) returns (indices: set<int>)
    ensures forall i :: i in indices <==> exists b :: b in idx && b in onset && Covers(pi, b) && idx[b] == i
  {
    indices := {};
    var todo := idx.Keys;
    while todo != {}
      invariant todo <= idx.Keys
      invariant forall i :: i in indices <==>
        exists b :: b in idx && b !in todo && b in onset && Covers(pi, b) && idx[b] == i
      decreases todo
    {
      MemberOfNonEmpty(todo);
      var bits :| bits in todo;
      if bits in onset && Covers(pi, bits) {
        indices := indices + {idx[bits]};
      }
      todo := todo - {bits};
    }
  }

  /** The `covers` dictionary of `select_cover_for_one_output`: for each implicant, the on-set indices it covers. */
  method BuildCovers(inputs: seq<string>, onset: seq<string>, pis: seq<string>)
    returns (covers: map<string, set<int>>)
    requires forall b :: b in onset ==> b in inputs
    ensures forall pi :: pi in covers <==> pi in pis
    ensures forall pi, i :: pi in covers ==>
      (i in covers[pi] <==> i in OnIndices(inputs, onset) && Covers(pi, inputs[i]))
  {
    var idx := IndexByBits(inputs);
    covers := map[];
    var p := 0;
    while p < |pis|
      invariant 0 <= p <= |pis|
      invariant forall pi :: pi in covers <==> pi in pis[..p]
      invariant forall pi, i :: pi in covers ==>
        (i in covers[pi] <==> i in OnIndices(inputs, onset) && Covers(pi, inputs[i]))
    {
      var indices := CoveredIndices(onset, idx, pis[p]);
      assert forall i :: i in indices <==> i in OnIndices(inputs, onset) && Covers(pis[p], inputs[i]) by {
        forall i ensures i in indices <==> i in OnIndices(inputs, onset) && Covers(pis[p], inputs[i]) {
          if i in OnIndices(inputs, onset) {
            assert inputs[i] in idx && idx[inputs[i]] == i;
          }
        }
      }
      covers := covers[pis[p] := indices];
      assert pis[..p + 1] == pis[..p] + [pis[p]];
      p := p + 1;
    }
    assert pis[..p] == pis;
  }

  /** A table whose input rows are bit vectors of one width. */
  predicate WellFormedTable(inputs: seq<string>)
  {
    (forall a, b :: a in inputs && b in inputs ==> |a| == |b|) && (forall a :: a in inputs ==> IsBits(a))
  }

  /** The on-set indices that no implicant of `pis` covers. */
  function NoCandidate(inputs: seq<string>, on: set<int>, pis: seq<string>): set<int>
  {
    set i | i in on && 0 <= i < |inputs| && forall pi :: pi in pis ==> !Covers(pi, inputs[i])
  }

  /** Two bit vectors of one width cover each other only when they are equal. */
  lemma BitsCoverEqual(m: string, x: string)
    requires IsBits(m) && IsBits(x) && |m| == |x| && Covers(m, x)
    ensures m == x
  {
  }

  /** Every on-set index the greedy completion does not leave uncovered is covered by a selected implicant. */
  lemma SelectionCovers(inputs: seq<string>, on: set<int>, covers: map<string, set<int>>,
                        selected: set<string>, uncovered: set<int>)
    requires forall i :: i in on ==> 0 <= i < |inputs|
    requires forall pi, i :: pi in covers ==> (i in covers[pi] <==> i in on && Covers(pi, inputs[i]))
    requires uncovered == Uncovered(on, covers, selected)
    ensures forall i :: i in on && i !in uncovered ==> exists pi :: pi in selected && Covers(pi, inputs[i])
  {
    forall i | i in on && i !in uncovered ensures exists pi :: pi in selected && Covers(pi, inputs[i]) {
      var pi :| pi in selected && i in CoverOf(covers, pi);
      assert pi in covers;
    }
  }

  /** What the greedy completion leaves uncovered: exactly the indices no implicant covers. */
  lemma GreedyLeavesNoCandidate(inputs: seq<string>, on: set<int>, pis: seq<string>,
                                covers: map<string, set<int>>, selected: set<string>, uncovered: set<int>)
    requires forall i :: i in on ==> 0 <= i < |inputs|
    requires forall pi :: pi in covers <==> pi in pis
    requires forall pi, i :: pi in covers ==> (i in covers[pi] <==> i in on && Covers(pi, inputs[i]))
    requires forall pi :: pi in selected ==> pi in pis
    requires uncovered == Uncovered(on, covers, selected)
    requires uncovered == {} ||
      forall pi :: pi in pis && pi !in selected ==> forall i :: i in uncovered ==> i !in CoverOf(covers, pi)
    ensures uncovered == NoCandidate(inputs, on, pis)
  {
    if uncovered != {} {
      forall i | i in uncovered ensures i in NoCandidate(inputs, on, pis) {
        forall pi | pi in pis ensures !Covers(pi, inputs[i]) {
          assert i !in CoverOf(covers, pi);
        }
      }
    }
    forall i | i in NoCandidate(inputs, on, pis) ensures i in uncovered {
      forall pi | pi in selected ensures i !in CoverOf(covers, pi) {
        assert pi in pis;
      }
    }
  }

  /**
    On a well-formed table a prime implicant of the on-set plus don't-cares
    covers no bit vector of its width outside those rows.
  */
  lemma PrimesStayInside(inputs: seq<string>, union: seq<string>, primes: seq<string>)
    requires WellFormedTable(inputs)
    requires forall x :: x in union ==> x in inputs
    requires forall i, k :: 0 <= i < |primes| && 0 <= k < |union| ==> |primes[i]| == |union[k]|
    requires forall i :: 0 <= i < |primes| ==> Implicant(primes[i], union)
    ensures forall pi, x :: pi in primes && IsBits(x) && |x| == |pi| && Covers(pi, x) ==> x in union
  {
    forall pi, x | pi in primes && IsBits(x) && |x| == |pi| && Covers(pi, x) ensures x in union {
      var i :| 0 <= i < |primes| && primes[i] == pi;
      var m :| m in union && Covers(m, x);
      var k :| 0 <= k < |union| && union[k] == m;
      assert |m| == |pi|;
      BitsCoverEqual(m, x);
    }
  }

  /**
    On a well-formed table the off-set filter keeps every prime implicant
    of the on-set plus don't-cares.
  */
  lemma PrimesKept(inputs: seq<string>, union: seq<string>, primes: seq<string>, off: set<string>)
    requires WellFormedTable(inputs)
    requires forall x :: x in union ==> x in inputs
    requires forall x :: x in off ==> x in inputs && x !in union
    requires union == [] ==> primes == []
    requires forall i, k :: 0 <= i < |primes| && 0 <= k < |union| ==> |primes[i]| == |union[k]|
    requires forall pi, x :: pi in primes && IsBits(x) && |x| == |pi| && Covers(pi, x) ==> x in union
    ensures forall pi :: pi in primes ==> pi in DropOffCovering(primes, off)
  {
    forall pi | pi in primes ensures pi in DropOffCovering(primes, off) {
      forall x | x in off ensures !Covers(pi, x) {
        var i :| 0 <= i < |primes| && primes[i] == pi;
        assert union[0] in union;
        assert |x| == |union[0]|;
      }
    }
  }

  /** Both facts above, from what `derive_prime_implicants` guarantees about the rows of a well-formed table. */
  lemma WellFormedKept(inputs: seq<string>, union: seq<string>, primes: seq<string>, off: set<string>)
    requires WellFormedTable(inputs)
    requires forall x :: x in union ==> x in inputs
    requires forall x :: x in off ==> x in inputs && x !in union
    requires union == [] ==> primes == []
    requires Uniform(union) ==>
      forall m :: m in union ==> exists i :: 0 <= i < |primes| && Covers(primes[i], m)
    requires Uniform(union) ==>
      forall i, k :: 0 <= i < |primes| && 0 <= k < |union| ==> |primes[i]| == |union[k]|
    requires Uniform(union) && AllCubes(union) ==>
      forall i :: 0 <= i < |primes| ==> IsCube(primes[i]) && Implicant(primes[i], union)
    ensures forall x :: x in union ==> exists pi :: pi in DropOffCovering(primes, off) && Covers(pi, x)
    ensures forall pi, x :: pi in DropOffCovering(primes, off) && IsBits(x) && |x| == |pi| && Covers(pi, x) ==> x in union
  {
    forall i | 0 <= i < |union| ensures IsCube(union[i]) {
      assert union[i] in union;
    }
    assert Uniform(union) by {
      forall i, j | 0 <= i < |union| && 0 <= j < |union| ensures |union[i]| == |union[j]| {
        assert union[i] in union && union[j] in union;
      }
    }
    PrimesStayInside(inputs, union, primes);
    PrimesKept(inputs, union, primes, off);
  }

  /** After the off-set filter, an implicant covers only on-set or don't-care rows of the table. */
  lemma OffFilterInside(inputs: seq<string>, union: seq<string>, primes: seq<string>, off: set<string>)
    requires off == (set x | x in inputs) - (set x | x in union)
    ensures forall pi, x :: pi in DropOffCovering(primes, off) && x in inputs && Covers(pi, x) ==> x in union
  {
    forall pi, x | pi in DropOffCovering(primes, off) && x in inputs && Covers(pi, x) ensures x in union {
      assert x !in off;
    }
  }

  /** The rows picked out of a table are rows of the table. */
  lemma RowsWithIn(inputs: seq<string>, outputs: seq<string>, col: nat, ch: char)
    requires forall k :: 0 <= k < |inputs| && k < |outputs| ==> col < |outputs[k]|
    ensures forall x :: x in RowsWith(inputs, outputs, col, ch) ==> x in inputs
  {
  }

  /** `sorted(set(onset_bits) | set(dcare_bits))` for column `which`. */
  method OnAndDontCareRows(inputs: seq<string>, outputs: seq<string>, which: nat) returns (union: seq<string>)
    requires forall k :: 0 <= k < |inputs| && k < |outputs| ==> which < |outputs[k]|
    ensures Sorted(union)
    ensures forall x :: x in union <==>
      x in RowsWith(inputs, outputs, which, '1') || x in RowsWith(inputs, outputs, which, '-')
    ensures forall x :: x in union ==> x in inputs
  {
    var onset := RowsWith(inputs, outputs, which, '1');
    var dcare := RowsWith(inputs, outputs, which, '-');
    union := SortSet(set x | x in onset + dcare);
    RowsWithIn(inputs, outputs, which, '1');
    RowsWithIn(inputs, outputs, which, '-');
  }

  /** A kept implicant means some on-set or don't-care row, so the table has rows. */
  lemma KeptNonEmpty(inputs: seq<string>, union: seq<string>, primes: seq<string>, pis: seq<string>)
    requires union == [] ==> primes == []
    requires forall pi :: pi in pis ==> pi in primes
    requires forall x :: x in union ==> x in inputs
    ensures pis != [] ==> union != [] && |inputs| > 0
  {
    if pis != [] {
      assert pis[0] in primes;
      assert union[0] in inputs;
    }
  }

  /**
    The first half of `select_cover_for_one_output`: the on-set and
    don't-care rows of column `which`, and the prime implicants of their
    union that cover no off-set row.  `primes` is the list
    `derive_prime_implicants` returned for the union.
  */
  method KeptPrimes(inputs: seq<string>, outputs: seq<string>, which: nat)
    returns (union: seq<string>, pis: seq<string>, ghost primes: seq<string>)
    requires forall k :: 0 <= k < |inputs| && k < |outputs| ==> which < |outputs[k]|
    ensures forall x :: x in union <==>
      x in RowsWith(inputs, outputs, which, '1') || x in RowsWith(inputs, outputs, which, '-')
    ensures PrimeList(primes, union)
    ensures pis == DropOffCovering(primes, OffRows(inputs, union))
    ensures pis != [] ==> union != [] && |inputs| > 0
    ensures forall pi, x :: pi in pis && x in inputs && Covers(pi, x) ==> x in union
    ensures WellFormedTable(inputs) ==> forall x :: x in union ==> exists pi :: pi in pis && Covers(pi, x)
    ensures WellFormedTable(inputs) ==>
      forall pi, x :: pi in pis && IsBits(x) && |x| == |pi| && Covers(pi, x) ==> x in union
  {
    union := OnAndDontCareRows(inputs, outputs, which);
    pis, primes := PrimesOffFiltered(inputs, union);
  }

  /** `off_bits`: the rows of the table outside the on-set and the don't-care set. */
  function OffRows(inputs: seq<string>, union: seq<string>): (off: set<string>)
    ensures forall x :: x in off <==> x in inputs && x !in union
  {
    (set x | x in inputs) - (set x | x in union)
  }

  /**
    The prime implicants of `union` that cover no row of `inputs` outside
    `union`: the list `derive_prime_implicants` returns with the off-set
    covering ones dropped.  Every kept implicant stays inside the union,
    and, for a table of equal-width bit rows, the kept implicants still
    cover every union row.
  */
  method PrimesOffFiltered(inputs: seq<string>, union: seq<string>) returns (pis: seq<string>, ghost primes: seq<string>)
    requires forall x :: x in union ==> x in inputs
    ensures PrimeList(primes, union)
    ensures pis == DropOffCovering(primes, OffRows(inputs, union))
    ensures pis != [] ==> union != [] && |inputs| > 0
    ensures forall pi, x :: pi in pis && x in inputs && Covers(pi, x) ==> x in union
    ensures WellFormedTable(inputs) ==> forall x :: x in union ==> exists pi :: pi in pis && Covers(pi, x)
    ensures WellFormedTable(inputs) ==>
      forall pi, x :: pi in pis && IsBits(x) && |x| == |pi| && Covers(pi, x) ==> x in union
  {
    var derived := DerivePrimeImplicants(union);
    primes := derived;
    var off := OffRows(inputs, union);
    if WellFormedTable(inputs) {
      WellFormedKept(inputs, union, derived, off);
    }
    pis := DropOffCovering(derived, off);
    OffFilterInside(inputs, union, derived, off);
    KeptNonEmpty(inputs, union, derived, pis);
  }

  /**
    `select_cover_for_one_output`: the kept prime implicants, the essential
    ones, the greedy completion, and the chosen implicants rendered as a sum
    of products and as PLA rows.  `pis` names the implicants the selection
    is made from.
  */
  method SelectCoverForOneOutput(inputs: seq<string>, outputs: seq<string>, which: nat,
                                 varNames: Option<seq<string>>)
    returns (selectedPis: seq<string>, uncovered: set<int>, sop: string, cubes: seq<string>,
             ghost pis: seq<string>, ghost primes: seq<string>, ghost union: seq<string>,
             ghost essentials: set<string>, ghost picks: seq<string>)
    requires |outputs| > 0
    requires forall k :: 0 <= k < |inputs| && k < |outputs| ==> which < |outputs[k]|
    ensures sop == SumOfProducts(selectedPis, varNames)
    ensures selectedPis != [] ==> which < |outputs[0]|
    ensures cubes == CubesForEspresso(selectedPis, |outputs[0]|, which)
    ensures forall x :: x in union <==>
      x in RowsWith(inputs, outputs, which, '1') || x in RowsWith(inputs, outputs, which, '-')
    ensures PrimeList(primes, union)
    ensures pis == DropOffCovering(primes, OffRows(inputs, union))
    ensures forall pi :: pi in essentials <==>
      exists i :: i in OnRows(inputs, outputs, which) && SoleCandidate(pis, inputs[i], pi)
    ensures forall pi :: pi in selectedPis <==> pi in Picked(essentials, picks)
    ensures GreedyRun(pis, CoverMap(inputs, OnRows(inputs, outputs, which), pis),
                      OnRows(inputs, outputs, which), essentials, picks)
    ensures Sorted(selectedPis)
    ensures forall pi :: pi in selectedPis ==> pi in pis
    ensures forall pi, x :: pi in pis && x in inputs && Covers(pi, x) ==>
      x in RowsWith(inputs, outputs, which, '1') || x in RowsWith(inputs, outputs, which, '-')
    ensures forall i, pi ::
      i in OnRows(inputs, outputs, which) && SoleCandidate(pis, inputs[i], pi)
      ==> pi in selectedPis
    ensures uncovered == NoCandidate(inputs, OnRows(inputs, outputs, which), pis)
    ensures WellFormedTable(inputs) ==> uncovered == {}
    ensures forall i :: i in OnRows(inputs, outputs, which) && i !in uncovered ==>
      exists pi :: pi in selectedPis && Covers(pi, inputs[i])
    ensures WellFormedTable(inputs) ==> forall pi, x :: pi in pis && IsBits(x) && |x| == |pi| && Covers(pi, x) ==>
      x in RowsWith(inputs, outputs, which, '1') || x in RowsWith(inputs, outputs, which, '-')
  {
    var rows, kept, derived := KeptPrimes(inputs, outputs, which);
    pis, primes, union := kept, derived, rows;
    var selectedAll;
    selectedAll, uncovered, essentials, picks := ChooseCover(inputs, outputs, which, kept);
    if WellFormedTable(inputs) {
      NothingUncovered(inputs, rows, OnRows(inputs, outputs, which), kept);
    }
    selectedPis := SortSet(selectedAll);
    forall i | i in OnRows(inputs, outputs, which) && i !in uncovered
      ensures exists pi :: pi in selectedPis && Covers(pi, inputs[i])
    {
      var pi :| pi in selectedAll && Covers(pi, inputs[i]);
      assert pi in selectedPis;
    }
    sop := SumOfProducts(selectedPis, varNames);
    if selectedPis != [] {
      assert selectedPis[0] in selectedAll;
      assert kept != [];
    }
    cubes := CubesForEspresso(selectedPis, |outputs[0]|, which);
  }

  /** The indices of the on-set rows of column `which`: `minterm_indices` for that column. */
  function OnRows(inputs: seq<string>, outputs: seq<string>, which: nat): (on: set<int>)
    requires forall k :: 0 <= k < |inputs| && k < |outputs| ==> which < |outputs[k]|
    ensures forall i :: i in on ==> 0 <= i < |inputs| && inputs[i] in RowsWith(inputs, outputs, which, '1')
  {
    RowsWithIn(inputs, outputs, which, '1');
    OnIndices(inputs, RowsWith(inputs, outputs, which, '1'))
  }

  /**
    The covers map `build_covers` makes: for each implicant of `pis`, the
    indices of `on` whose input row it covers.
  */
  function CoverMap(inputs: seq<string>, on: set<int>, pis: seq<string>): (covers: map<string, set<int>>)
    ensures forall pi :: pi in covers <==> pi in pis
  {
    map pi | pi in pis :: set i | i in on && 0 <= i < |inputs| && Covers(pi, inputs[i])
  }

  /**
    The selection steps of `select_cover_for_one_output`: the covers of each
    kept implicant, the minterm table, the essential implicants and the
    greedy completion.  The selection is the essential implicants (the sole
    candidates of on-set rows) plus the greedy picks, in round order, each
    the best-scoring choice of its round.  Only kept implicants are
    selected, and `uncovered` is exactly the on-set rows with no candidate.
  */
  method ChooseCover(inputs: seq<string>, outputs: seq<string>, which: nat, pis: seq<string>)
    returns (selectedAll: set<string>, uncovered: set<int>, ghost essentials: set<string>, ghost picks: seq<string>)
    requires forall k :: 0 <= k < |inputs| && k < |outputs| ==> which < |outputs[k]|
    ensures forall pi :: pi in essentials <==>
      exists i :: i in OnRows(inputs, outputs, which) && SoleCandidate(pis, inputs[i], pi)
    ensures selectedAll == Picked(essentials, picks)
    ensures GreedyRun(pis, CoverMap(inputs, OnRows(inputs, outputs, which), pis),
                      OnRows(inputs, outputs, which), essentials, picks)
    ensures forall pi :: pi in selectedAll ==> pi in pis
    ensures forall i, pi ::
      i in OnRows(inputs, outputs, which) && SoleCandidate(pis, inputs[i], pi)
      ==> pi in selectedAll
    ensures uncovered == NoCandidate(inputs, OnRows(inputs, outputs, which), pis)
    ensures forall i :: i in OnRows(inputs, outputs, which) && i !in uncovered ==>
      exists pi :: pi in selectedAll && Covers(pi, inputs[i])
  {
    var onset := RowsWith(inputs, outputs, which, '1');
    RowsWithIn(inputs, outputs, which, '1');
    var on := OnIndices(inputs, onset);
    var covers := BuildCovers(inputs, onset, pis);
    CoversAreCoverMap(inputs, on, pis, covers);
    var epis := Essentials(inputs, onset, pis);
    essentials := epis;
    selectedAll, uncovered, picks := GreedyCompleteCover(pis, covers, epis, on);
    GreedyLeavesNoCandidate(inputs, on, pis, covers, selectedAll, uncovered);
    SelectionCovers(inputs, on, covers, selectedAll, uncovered);
  }

  /** The map `build_covers` fills is the covers map. */
  lemma CoversAreCoverMap(inputs: seq<string>, on: set<int>, pis: seq<string>, covers: map<string, set<int>>)
    requires forall i :: i in on ==> 0 <= i < |inputs|
    requires forall pi :: pi in covers <==> pi in pis
    requires forall pi, i :: pi in covers ==> (i in covers[pi] <==> i in on && Covers(pi, inputs[i]))
    ensures covers == CoverMap(inputs, on, pis)
  {
    var m := CoverMap(inputs, on, pis);
    assert covers.Keys == m.Keys;
    forall pi | pi in covers ensures covers[pi] == m[pi] {
      forall i ensures i in covers[pi] <==> i in m[pi] {
        if i in on {
          assert 0 <= i < |inputs|;
        }
      }
    }
  }

  /**
    The essential implicants: `minterm_to_pis` built for the on-set rows,
    then `pick_epis`.  They are exactly the sole candidates of the on-set
    rows, so implicants of `pis`.
  */
  method Essentials(inputs: seq<string>, onset: seq<string>, pis: seq<string>) returns (epis: set<string>)
    requires forall b :: b in onset ==> b in inputs
    ensures forall pi :: pi in epis ==> pi in pis
    ensures forall pi :: pi in epis <==> exists i :: i in OnIndices(inputs, onset) && SoleCandidate(pis, inputs[i], pi)
  {
    var table := BuildMintermToPis(inputs, onset, pis);
    var covered;
    epis, covered := PickEpis(table);
    EssentialsAreCandidates(inputs, pis, table, epis);
  }

  /** An essential implicant is one of the implicants the table was built from, and every sole candidate is one. */
  lemma EssentialsAreCandidates(inputs: seq<string>, pis: seq<string>, table: map<int, set<string>>, epis: set<string>)
    requires forall i :: i in table ==> 0 <= i < |inputs| && table[i] == CandidatesFor(pis, inputs[i])
    requires forall pi :: pi in epis <==> exists m :: m in table && table[m] == {pi}
    ensures forall pi :: pi in epis ==> pi in pis
    ensures forall pi :: pi in epis <==> exists i :: i in table && SoleCandidate(pis, inputs[i], pi)
  {
    forall pi | pi in epis ensures pi in pis && exists i :: i in table && SoleCandidate(pis, inputs[i], pi) {
      var m :| m in table && table[m] == {pi};
      assert pi in table[m];
      assert SoleCandidate(pis, inputs[m], pi);
    }
  }

  /** On a well-formed table every on-set index has a candidate, so nothing is left uncovered. */
  lemma NothingUncovered(inputs: seq<string>, union: seq<string>, on: set<int>, pis: seq<string>)
    requires forall i :: i in on ==> 0 <= i < |inputs| && inputs[i] in union
    requires forall x :: x in union ==> exists pi :: pi in pis && Covers(pi, x)
    ensures NoCandidate(inputs, on, pis) == {}
  {
    forall i | i in on ensures i !in NoCandidate(inputs, on, pis) {
      var pi :| pi in pis && Covers(pi, inputs[i]);
    }
  }
}
