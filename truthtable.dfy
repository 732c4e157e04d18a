/**
  The pure parts of truth-table construction: the enumeration of all input
  rows, the output rows built from on-set and don't-care indices, the
  tokeniser for the index lists of a sum-of-minterms file, and the text of
  one line of such a file.
*/
module TruthTable {
  import opened Wrappers
  import opened PyOrder
  import opened PyText
  import opened Binary
  import opened CubeAlgebra

  /** Each text of `ss` preceded by the character `c`. */
  function PrefixAll(c: char, ss: seq<string>): (r: seq<string>)
    ensures |r| == |ss|
    ensures forall i :: 0 <= i < |ss| ==> r[i] == [c] + ss[i]
  {
    if ss == [] then [] else [[c] + ss[0]] + PrefixAll(c, ss[1..])
  }

  /** `[''.join(bits) for bits in itertools.product('01', repeat=n)]`: the first position varies slowest. */
  function Product(n: nat): seq<string>
  {
    if n == 0 then [""] else PrefixAll('0', Product(n - 1)) + PrefixAll('1', Product(n - 1))
  }

  /** Row `i` of the enumeration is `i` written with `n` bits, most significant bit first. */
  lemma {:induction false} ProductRows(n: nat)
    ensures |Product(n)| == Pow2(n)
    ensures forall i :: 0 <= i < |Product(n)| ==>
      |Product(n)[i]| == n && IsBits(Product(n)[i]) && BitsValue(Product(n)[i]) == i
  {
    if n > 0 {
      ProductRows(n - 1);
      var half := Product(n - 1);
      var p := Product(n);
      forall i | 0 <= i < |p| ensures |p[i]| == n && IsBits(p[i]) && BitsValue(p[i]) == i {
        if i < |half| {
          assert p[i] == ['0'] + half[i];
          PrefixBit('0', half[i]);
        } else {
          assert p[i] == ['1'] + half[i - |half|];
          PrefixBit('1', half[i - |half|]);
        }
      }
    }
  }

  /** A bit put in front of a bit string weighs `2^|s|` when it is '1'. */
  lemma PrefixBit(c: char, s: string)
    requires c == '0' || c == '1'
    requires IsBits(s)
    ensures IsBits([c] + s)
    ensures BitsValue([c] + s) == (if c == '1' then Pow2(|s|) else 0) + BitsValue(s)
  {
    assert ([c] + s)[1..] == s;
  }

  /** Different rows of the enumeration are different bit strings. */
  lemma ProductDistinct(n: nat, i: int, j: int)
    requires 0 <= i < |Product(n)| && 0 <= j < |Product(n)| && i != j
    ensures Product(n)[i] != Product(n)[j]
  {
    ProductRows(n);
  }

  /**
    `gen_all_input_combinations`: an error below one input; otherwise the
    `2^n` rows of `n` bits, row `i` spelling `i` in binary.
  */
  function GenAllInputCombinations(nInputs: int): (r: Result<seq<string>, string>)
    ensures r.Err? <==> nInputs < 1
    ensures r.Ok? ==> |r.value| == Pow2(nInputs)
    ensures r.Ok? ==> forall i :: 0 <= i < |r.value| ==>
      |r.value[i]| == nInputs && IsBits(r.value[i]) && BitsValue(r.value[i]) == i
  {
    if nInputs < 1 then Err("n_inputs must be >= 1")
    else
      ProductRows(nInputs);
      Ok(Product(nInputs))
  }

  /** The on-set and the don't-care set of one output, as row indices. */
  datatype OutputSpec = OutputSpec(on: set<int>, dc: set<int>)

  /** Why `build_outputs_from_minterm_indices` raises `ValueError`. */
  datatype TableError =
    | TooFewInputs
    | BadOn(name: string, bad: set<int>)
    | BadDc(name: string, bad: set<int>)
    | Overlap(name: string, common: set<int>)

  /** The input rows, the output rows and the output names. */
  datatype Table = Table(inputs: seq<string>, rows: seq<string>, names: seq<string>)

  /** `[i for i in s if i < 0 or i > max_index]`, as a set. */
  function BadIndices(s: set<int>, maxIndex: int): (r: set<int>)
    ensures forall i :: i in r <==> i in s && (i < 0 || i > maxIndex)
  {
    set i | i in s && (i < 0 || i > maxIndex)
  }

  /** The check of one output, in the order of the source: bad on-set indices, bad don't-care indices, overlap. */
  function ProblemOf(name: string, o: OutputSpec, maxIndex: int): (r: Option<TableError>)
    ensures r.None? <==>
      (forall i :: i in o.on ==> 0 <= i <= maxIndex) && (forall i :: i in o.dc ==> 0 <= i <= maxIndex)
      && forall i :: i in o.on ==> i !in o.dc
  {
    var badOn := BadIndices(o.on, maxIndex);
    var badDc := BadIndices(o.dc, maxIndex);
    if badOn != {} then Some(BadOn(name, badOn))
    else if badDc != {} then Some(BadDc(name, badDc))
    else if o.on * o.dc != {} then Some(Overlap(name, o.on * o.dc))
    else None
  }

  /** An error names an output and what is wrong with it. */
  lemma ProblemMeaning(name: string, o: OutputSpec, maxIndex: int)
    ensures ProblemOf(name, o, maxIndex) == Some(BadOn(name, BadIndices(o.on, maxIndex))) <==>
      exists i :: i in o.on && (i < 0 || i > maxIndex)
    ensures ProblemOf(name, o, maxIndex).Some? && ProblemOf(name, o, maxIndex).value.Overlap? ==>
      ProblemOf(name, o, maxIndex).value.common == o.on * o.dc && o.on * o.dc != {}
  {
    var badOn := BadIndices(o.on, maxIndex);
    if exists i :: i in o.on && (i < 0 || i > maxIndex) {
      var i :| i in o.on && (i < 0 || i > maxIndex);
      assert i in badOn;
    } else {
      EmptyIfNoMember(badOn);
    }
  }

  /**
    The validation loop of `build_outputs_from_minterm_indices`: no error
    exactly when every output passes its check, and an error is the check
    failure of some output (which one depends on the dictionary's order).
  */
  method ValidateSpec(spec: map<string, OutputSpec>, maxIndex: int) returns (err: Option<TableError>)
    ensures err.None? <==> forall name :: name in spec ==> ProblemOf(name, spec[name], maxIndex).None?
    ensures err.Some? ==> exists name :: name in spec && ProblemOf(name, spec[name], maxIndex) == err
  {
    var todo := spec.Keys;
    while todo != {}
      invariant todo <= spec.Keys
      invariant forall name :: name in spec && name !in todo ==> ProblemOf(name, spec[name], maxIndex).None?
      decreases todo
    {
      MemberOfNonEmpty(todo);
      var name :| name in todo;
      var problem := ProblemOf(name, spec[name], maxIndex);
      if problem.Some? {
        return problem;
      }
      todo := todo - {name};
    }
    return None;
  }

  /** The inner loop: the output characters of row `i`, one per output name. */
  method RowChars(spec: map<string, OutputSpec>, names: seq<string>, i: int) returns (row: string)
    requires forall j :: 0 <= j < |names| ==> names[j] in spec
    ensures |row| == |names|
    ensures forall j :: 0 <= j < |names| ==>
      (row[j] == '1' <==> i in spec[names[j]].on)
      && (row[j] == '-' <==> i !in spec[names[j]].on && i in spec[names[j]].dc)
      && (row[j] == '0' <==> i !in spec[names[j]].on && i !in spec[names[j]].dc)
  {
    row := "";
    var j := 0;
    while j < |names|
      invariant 0 <= j <= |names|
      invariant |row| == j
      invariant forall k :: 0 <= k < j ==>
        (row[k] == '1' <==> i in spec[names[k]].on)
        && (row[k] == '-' <==> i !in spec[names[k]].on && i in spec[names[k]].dc)
        && (row[k] == '0' <==> i !in spec[names[k]].on && i !in spec[names[k]].dc)
    {
      var o := spec[names[j]];
      if i in o.on {
        row := row + ['1'];
      } else if i in o.dc {
        row := row + ['-'];
      } else {
        row := row + ['0'];
      }
      j := j + 1;
    }
  }

  /** The outer loop: one output row per input row index. */
  method BuildRows(spec: map<string, OutputSpec>, names: seq<string>, count: nat) returns (rows: seq<string>)
    requires forall j :: 0 <= j < |names| ==> names[j] in spec
    ensures |rows| == count
    ensures forall i :: 0 <= i < count ==> |rows[i]| == |names|
    ensures forall i, j :: 0 <= i < count && 0 <= j < |names| ==>
      (rows[i][j] == '1' <==> i in spec[names[j]].on)
      && (rows[i][j] == '-' <==> i !in spec[names[j]].on && i in spec[names[j]].dc)
      && (rows[i][j] == '0' <==> i !in spec[names[j]].on && i !in spec[names[j]].dc)
  {
    rows := [];
    var i := 0;
    while i < count
      invariant 0 <= i <= count
      invariant |rows| == i
      invariant forall k :: 0 <= k < i ==> |rows[k]| == |names|
      invariant forall k, j :: 0 <= k < i && 0 <= j < |names| ==>
        (rows[k][j] == '1' <==> k in spec[names[j]].on)
        && (rows[k][j] == '-' <==> k !in spec[names[j]].on && k in spec[names[j]].dc)
        && (rows[k][j] == '0' <==> k !in spec[names[j]].on && k !in spec[names[j]].dc)
    {
      var row := RowChars(spec, names, i);
      rows := rows + [row];
      i := i + 1;
    }
  }

  /** No output of `spec` fails its check against the largest row index of `n` inputs. */
  predicate ValidSpec(spec: map<string, OutputSpec>, n: nat)
  {
    forall name :: name in spec ==> ProblemOf(name, spec[name], Pow2(n) - 1).None?
  }

  /**
    `build_outputs_from_minterm_indices`: the `2^n` input rows, one output
    row per input row with one character per output in name order ('1' on
    the on-set, '-' on the don't-care set, '0' elsewhere), and the sorted
    output names; an error below one input or when an output fails its check.
  */
  method BuildOutputsFromMintermIndices(nInputs: int, spec: map<string, OutputSpec>)
    returns (r: Result<Table, TableError>)
    ensures nInputs < 1 ==> r == Err(TooFewInputs)
    ensures nInputs >= 1 ==> (r.Ok? <==> ValidSpec(spec, nInputs))
    ensures r.Err? && nInputs >= 1 ==>
      exists name :: name in spec && ProblemOf(name, spec[name], Pow2(nInputs) - 1) == Some(r.error)
    ensures r.Ok? ==> nInputs >= 1 && r.value.inputs == Product(nInputs)
    ensures r.Ok? ==> Sorted(r.value.names) && forall name :: name in r.value.names <==> name in spec
    ensures r.Ok? ==> |r.value.rows| == Pow2(nInputs)
    ensures r.Ok? ==> forall i :: 0 <= i < |r.value.rows| ==> |r.value.rows[i]| == |r.value.names|
    ensures r.Ok? ==> forall i, j :: 0 <= i < |r.value.rows| && 0 <= j < |r.value.names| ==>
      (r.value.rows[i][j] == '1' <==> i in spec[r.value.names[j]].on)
      && (r.value.rows[i][j] == '-' <==> i in spec[r.value.names[j]].dc)
      && (r.value.rows[i][j] == '0' <==> i !in spec[r.value.names[j]].on && i !in spec[r.value.names[j]].dc)
  {
    var inputs := GenAllInputCombinations(nInputs);
    if inputs.Err? {
      return Err(TooFewInputs);
    }
    var maxIndex := Pow2(nInputs) - 1;
    var names := SortSet(spec.Keys);
    var err := ValidateSpec(spec, maxIndex);
    if err.Some? {
      return Err(err.value);
    }
    var rows := BuildRows(spec, names, Pow2(nInputs));
    return Ok(Table(inputs.value, rows, names));
  }

  /**
    The tokens of one index list, left to right: a blank token is skipped,
    any other must be decimal digits, and the first one that is not stops
    the parse with that token as the error.
  */
  function ParseTokens(toks: seq<string>): (r: Result<set<int>, string>)
    ensures r.Ok? ==> forall x :: x in r.value ==> x >= 0
    ensures r.Err? ==> r.error != "" && !IsDigits(r.error)
    decreases |toks|
  {
    if toks == [] then Ok({})
    else
      match ParseTokens(toks[..|toks| - 1])
      case Err(e) => Err(e)
      case Ok(xs) =>
        var tok := Strip(toks[|toks| - 1]);
        if tok == "" then Ok(xs)
        else if IsDigits(tok) then Ok(xs + {DigitsValue(tok)})
        else Err(tok)
  }

  /** What `parse_list(body)` returns: nothing for a missing or blank body, else the comma-separated tokens. */
  function ParseListSpec(body: Option<string>): (r: Result<set<int>, string>)
    ensures body.None? ==> r == Ok({})
    ensures r.Ok? ==> forall x :: x in r.value ==> x >= 0
    ensures r.Err? ==> r.error != "" && !IsDigits(r.error)
  {
    if body.None? || Strip(body.value) == "" then Ok({})
    else ParseTokens(Split(body.value, ','))
  }

  /** `parse_list`, the loop that collects the integers of the tokens. */
  method ParseList(body: Option<string>) returns (r: Result<set<int>, string>)
    ensures r == ParseListSpec(body)
  {
    if body.None? || Strip(body.value) == "" {
      return Ok({});
    }
    var toks := Split(body.value, ',');
    var xs: seq<int> := [];
    var i := 0;
    assert toks[..0] == [];
    assert Elements(xs) == {};
    while i < |toks|
      invariant 0 <= i <= |toks|
      invariant ParseTokens(toks[..i]) == Ok(Elements(xs))
    {
      assert toks[..i + 1] == toks[..i] + [toks[i]];
      ParseTokensSnoc(toks[..i], toks[i]);
      var tok := Strip(toks[i]);
      if tok != "" {
        if !IsDigits(tok) {
          ErrorStops(toks, i + 1);
          return Err(tok);
        }
        ElementsSnoc(xs, DigitsValue(tok));
        xs := xs + [DigitsValue(tok)];
      }
      i := i + 1;
    }
    assert toks[..i] == toks;
    return Ok(Elements(xs));
  }

  /** `set(xs)`. */
  function Elements(xs: seq<int>): (r: set<int>)
    ensures forall x :: x in r <==> x in xs
  {
    set x | x in xs
  }

  lemma ElementsSnoc(xs: seq<int>, v: int)
    ensures Elements(xs + [v]) == Elements(xs) + {v}
  {
  }

  /** One more token at the end: the definition read forwards. */
  lemma ParseTokensSnoc(a: seq<string>, t: string)
    ensures ParseTokens(a + [t]) ==
      match ParseTokens(a)
      case Err(e) => Err(e)
      case Ok(xs) =>
        if Strip(t) == "" then Ok(xs)
        else if IsDigits(Strip(t)) then Ok(xs + {DigitsValue(Strip(t))})
        else Err(Strip(t))
  {
    assert (a + [t])[..|a|] == a;
  }

  /** Once a prefix fails, the whole list fails with the same token. */
  lemma {:induction false} ErrorStops(toks: seq<string>, i: int)
    requires 0 <= i <= |toks| && ParseTokens(toks[..i]).Err?
    ensures ParseTokens(toks) == ParseTokens(toks[..i])
    decreases |toks| - i
  {
    if i < |toks| {
      assert toks[..i + 1] == toks[..i] + [toks[i]];
      ParseTokensSnoc(toks[..i], toks[i]);
      ErrorStops(toks, i + 1);
    } else {
      assert toks[..i] == toks;
    }
  }

  /** A blank token anywhere in the list changes nothing. */
  lemma {:induction false} BlankTokenSkipped(a: seq<string>, blank: string, c: seq<string>)
    requires Strip(blank) == ""
    ensures ParseTokens(a + [blank] + c) == ParseTokens(a + c)
    decreases |c|
  {
    if c == [] {
      ParseTokensSnoc(a, blank);
      assert a + [blank] + c == a + [blank];
      assert a + c == a;
    } else {
      var last := |c| - 1;
      BlankTokenSkipped(a, blank, c[..last]);
      assert a + [blank] + c == (a + [blank] + c[..last]) + [c[last]];
      assert a + c == (a + c[..last]) + [c[last]];
      ParseTokensSnoc(a + [blank] + c[..last], c[last]);
      ParseTokensSnoc(a + c[..last], c[last]);
    }
  }

  /** `str(i)` for each element. */
  function ShowAll(xs: seq<int>): (r: seq<string>)
    ensures |r| == |xs|
    ensures forall i :: 0 <= i < |xs| ==> r[i] == ShowInt(xs[i])
  {
    seq(|xs|, i requires 0 <= i < |xs| => ShowInt(xs[i]))
  }

  /** `",".join(str(i) for i in sorted(s))`: the index list written for a set. */
  function FormatList(s: set<int>): string
  {
    Join(",", ShowAll(SortInts(s)))
  }

  lemma {:induction false} ParseShown(xs: seq<int>)
    requires forall i :: 0 <= i < |xs| ==> xs[i] >= 0
    ensures ParseTokens(ShowAll(xs)) == Ok(Elements(xs))
    decreases |xs|
  {
    if xs == [] {
      assert Elements(xs) == {};
    } else {
      var last := |xs| - 1;
      var init := xs[..last];
      var t := ShowNat(xs[last]);
      assert xs == init + [xs[last]];
      assert ShowAll(xs) == ShowAll(init) + [t];
      ParseShown(init);
      StripKeepsText(t);
      ShowNatParses(xs[last]);
      ParseTokensSnoc(ShowAll(init), t);
      ElementsSnoc(init, xs[last]);
    }
  }

  /** Parsing the index list written for a set of row indices gives the set back. */
  lemma FormatListRoundTrip(s: set<int>)
    requires forall i :: i in s ==> i >= 0
    ensures ParseListSpec(Some(FormatList(s))) == Ok(s)
  {
    var sorted := SortInts(s);
    assert Elements(sorted) == s;
    if s == {} {
      assert sorted == [];
    } else {
      assert sorted != [] by {
        IntMemberOfNonEmpty(s);
      }
      forall i | 0 <= i < |sorted| ensures sorted[i] >= 0 {
        assert sorted[i] in s;
      }
      ShownTokens(sorted);
      ParseShown(sorted);
    }
  }

  /** The written list of non-negative numbers is not blank and splits at ',' into the numbers' texts. */
  lemma ShownTokens(xs: seq<int>)
    requires xs != [] && forall i :: 0 <= i < |xs| ==> xs[i] >= 0
    ensures Strip(Join(",", ShowAll(xs))) != ""
    ensures Split(Join(",", ShowAll(xs)), ',') == ShowAll(xs)
  {
    var strs := ShowAll(xs);
    var body := Join(",", strs);
    forall i | 0 <= i < |strs| ensures ',' !in strs[i] {
      assert strs[i] == ShowNat(xs[i]);
      assert forall k :: 0 <= k < |strs[i]| ==> IsDigit(strs[i][k]);
    }
    JoinFirstChar(",", strs);
    assert IsDigit(body[0]);
    StripBlank(body);
    SplitJoin(strs, ',');
  }

  /** One line of a sum-of-minterms file; the `d{...}` part only when the don't-care set is not empty. */
  function FormatLine(name: string, o: OutputSpec): (r: string)
    ensures |r| > |name| + 7 && r[..|name| + 7] == name + " = sum{" && r[|r| - 1] == '}'
  {
    var onPart := FormatList(o.on);
    if o.dc != {} then name + " = sum{" + onPart + "} d{" + FormatList(o.dc) + "}"
    else name + " = sum{" + onPart + "}"
  }

  /** The text between the first '{' and the next '}': what the pattern captures as the on-set body. */
  function OnBody(line: string): string
  {
    var pieces := Split(line, '{');
    if |pieces| >= 2 then Split(pieces[1], '}')[0] else ""
  }

  /** The text inside a second pair of braces, if there is one: the optional don't-care body. */
  function DcBody(line: string): Option<string>
  {
    var pieces := Split(line, '{');
    if |pieces| >= 3 then Some(Split(pieces[2], '}')[0]) else None
  }

  /** A written index list holds only digits and commas: no brace and no line break. */
  lemma FormatListChars(s: set<int>)
    requires forall i :: i in s ==> i >= 0
    ensures '{' !in FormatList(s) && '}' !in FormatList(s) && '\n' !in FormatList(s)
  {
    var sorted := SortInts(s);
    var strs := ShowAll(sorted);
    forall i | 0 <= i < |strs|
      ensures forall k :: 0 <= k < |strs[i]| ==> IsDigit(strs[i][k])
    {
      assert sorted[i] in s;
      assert strs[i] == ShowNat(sorted[i]);
    }
    JoinAvoids(",", strs, '{');
    JoinAvoids(",", strs, '}');
    JoinAvoids(",", strs, '\n');
  }

  /**
    Reading a written line back: the braces give back the on-set text and,
    exactly when the don't-care set is not empty, the don't-care text, and
    `parse_list` turns both into the original sets.
  */
  lemma FormatLineRoundTrip(name: string, o: OutputSpec)
    requires '{' !in name && '}' !in name
    requires forall i :: i in o.on ==> i >= 0
    requires forall i :: i in o.dc ==> i >= 0
    ensures DcBody(FormatLine(name, o)).Some? <==> o.dc != {}
    ensures ParseListSpec(Some(OnBody(FormatLine(name, o)))) == Ok(o.on)
    ensures ParseListSpec(DcBody(FormatLine(name, o))) == Ok(o.dc)
  {
    FormatListChars(o.on);
    FormatListChars(o.dc);
    LineBodies(name, o);
    FormatListRoundTrip(o.on);
    FormatListRoundTrip(o.dc);
  }

  /** The braces of a written line hold the written index lists. */
  lemma LineBodies(name: string, o: OutputSpec)
    requires '{' !in name && '}' !in name
    requires '{' !in FormatList(o.on) && '}' !in FormatList(o.on)
    requires '{' !in FormatList(o.dc) && '}' !in FormatList(o.dc)
    ensures OnBody(FormatLine(name, o)) == FormatList(o.on)
    ensures DcBody(FormatLine(name, o)) == if o.dc != {} then Some(FormatList(o.dc)) else None
  {
    var a := FormatList(o.on);
    var b := FormatList(o.dc);
    var head := name + " = sum";
    assert '{' !in head;
    if o.dc != {} {
      assert FormatLine(name, o) == head + "{" + a + "} d{" + b + "}";
      BracesWithDc(head, a, b);
    } else {
      assert FormatLine(name, o) == head + "{" + a + "}";
      BracesOnly(head, a);
    }
  }

  lemma BracesOnly(head: string, a: string)
    requires '{' !in head && '{' !in a && '}' !in a
    ensures OnBody(head + "{" + a + "}") == a
    ensures DcBody(head + "{" + a + "}") == None
  {
    var line := head + "{" + a + "}";
    assert line == head + ['{'] + (a + "}");
    SplitFirstPiece(head, '{', a + "}");
    SplitNoSeparator(a + "}", '{');
    assert Split(line, '{') == [head, a + "}"];
    SplitFirstPiece(a, '}', "");
    assert a + "}" == a + ['}'] + "";
  }

  lemma BracesWithDc(head: string, a: string, b: string)
    requires '{' !in head && '{' !in a && '}' !in a && '{' !in b && '}' !in b
    ensures OnBody(head + "{" + a + "} d{" + b + "}") == a
    ensures DcBody(head + "{" + a + "} d{" + b + "}") == Some(b)
  {
    var line := head + "{" + a + "} d{" + b + "}";
    var mid := a + "} d";
    assert line == head + ['{'] + (mid + ['{'] + (b + "}"));
    SplitFirstPiece(head, '{', mid + ['{'] + (b + "}"));
    SplitFirstPiece(mid, '{', b + "}");
    SplitNoSeparator(b + "}", '{');
    assert Split(line, '{') == [head, mid, b + "}"];
    assert mid == a + ['}'] + " d";
    SplitFirstPiece(a, '}', " d");
    assert b + "}" == b + ['}'] + "";
    SplitFirstPiece(b, '}', "");
  }

  /** The line of each named output, in the given order. */
  function SpecLines(spec: map<string, OutputSpec>, names: seq<string>): (r: seq<string>)
    requires forall i :: 0 <= i < |names| ==> names[i] in spec
    ensures |r| == |names|
    ensures forall i :: 0 <= i < |names| ==> r[i] == FormatLine(names[i], spec[names[i]])
  {
    seq(|names|, i requires 0 <= i < |names| => FormatLine(names[i], spec[names[i]]))
  }

  /**
    The text `write_sum_of_minterms_file` writes: one line per output, in
    sorted name order, joined by newlines.  `names` is that order.
  */
  method SumOfMintermsText(spec: map<string, OutputSpec>) returns (text: string, ghost names: seq<string>)
    ensures Sorted(names) && forall name :: name in names <==> name in spec
    ensures text == Join("\n", SpecLines(spec, names))
  {
    var sortedNames := SortSet(spec.Keys);
    names := sortedNames;
    var lines: seq<string> := [];
    var i := 0;
    while i < |sortedNames|
      invariant 0 <= i <= |sortedNames|
      invariant lines == SpecLines(spec, sortedNames[..i])
    {
      var name := sortedNames[i];
      lines := lines + [FormatLine(name, spec[name])];
      assert sortedNames[..i + 1] == sortedNames[..i] + [name];
      i := i + 1;
    }
    assert sortedNames[..i] == sortedNames;
    text := Join("\n", lines);
  }

  /** A written line holds a newline only if its name does. */
  lemma FormatLineNoNewline(name: string, o: OutputSpec)
    requires '\n' !in name
    requires forall i :: i in o.on ==> i >= 0
    requires forall i :: i in o.dc ==> i >= 0
    ensures '\n' !in FormatLine(name, o)
  {
    FormatListChars(o.on);
    FormatListChars(o.dc);
  }

  /** Splitting the written text at newlines gives back one line per output, in order. */
  lemma SumOfMintermsLines(spec: map<string, OutputSpec>, names: seq<string>)
    requires |names| >= 1
    requires forall i :: 0 <= i < |names| ==> names[i] in spec && '\n' !in names[i]
    requires forall name, i :: name in spec && (i in spec[name].on || i in spec[name].dc) ==> i >= 0
    ensures Split(Join("\n", SpecLines(spec, names)), '\n') == SpecLines(spec, names)
  {
    var lines := SpecLines(spec, names);
    forall i | 0 <= i < |lines| ensures '\n' !in lines[i] {
      FormatLineNoNewline(names[i], spec[names[i]]);
    }
    SplitJoin(lines, '\n');
  }
}
