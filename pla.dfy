/**
  The text of a complete PLA file for a table: the `.i`/`.o` counts, the
  input and output name lines, the cube rows verbatim, and the `.e`
  terminator, one per line.
*/
module Pla {
  import opened Wrappers
  import opened PyText

  /** The lines of `build_full_pla`, or the error it raises for an empty table. */
  function PlaLines(inputs: seq<string>, outputs: seq<string>, cubes: seq<string>,
                    inputNames: Option<seq<string>>, outputNames: Option<seq<string>>)
    : (r: Result<seq<string>, string>)
    ensures r.Err? <==> inputs == [] || outputs == []
    ensures r.Ok? ==> |r.value| == |cubes| + 5 && r.value[4..4 + |cubes|] == cubes
    ensures r.Ok? ==> r.value[|r.value| - 1] == ".e"
  {
    if inputs == [] || outputs == [] then Err("inputs_bits/outputs are empty.")
    else
      var n := |inputs[0]|;
      var m := |outputs[0]|;
      var ins := if inputNames.None? then DefaultNames("x", n) else inputNames.value;
      var outs := if outputNames.None? then DefaultNames("f", m) else outputNames.value;
      var header := [".i " + ShowNat(n), ".o " + ShowNat(m), ".ilb " + Join(" ", ins), ".ob " + Join(" ", outs)];
      Ok(header + cubes + [".e"])
  }

  /** `build_full_pla`: the lines joined by newlines. */
  function BuildFullPla(inputs: seq<string>, outputs: seq<string>, cubes: seq<string>,
                        inputNames: Option<seq<string>>, outputNames: Option<seq<string>>)
    : (r: Result<string, string>)
    ensures r.Err? <==> inputs == [] || outputs == []
    ensures r.Ok? ==> |r.value| >= 3 && r.value[..3] == ".i " && r.value[|r.value| - 2..] == ".e"
  {
    match PlaLines(inputs, outputs, cubes, inputNames, outputNames)
    case Err(e) => Err(e)
    case Ok(lines) =>
      PlaCounts(inputs, outputs, cubes, inputNames, outputNames);
      JoinLast("\n", lines);
      assert Join("\n", lines) == lines[0] + "\n" + Join("\n", lines[1..]);
      Ok(Join("\n", lines))
  }

  /**
    The counts on the first two lines read back as the width of the first
    input row and of the first output row.
  */
  lemma PlaCounts(inputs: seq<string>, outputs: seq<string>, cubes: seq<string>,
                  inputNames: Option<seq<string>>, outputNames: Option<seq<string>>)
    requires inputs != [] && outputs != []
    ensures var lines := PlaLines(inputs, outputs, cubes, inputNames, outputNames).value;
      lines[0][..3] == ".i " && lines[1][..3] == ".o "
      && IsDigits(lines[0][3..]) && DigitsValue(lines[0][3..]) == |inputs[0]|
      && IsDigits(lines[1][3..]) && DigitsValue(lines[1][3..]) == |outputs[0]|
  {
    var lines := PlaLines(inputs, outputs, cubes, inputNames, outputNames).value;
    assert lines[0] == ".i " + ShowNat(|inputs[0]|) && lines[0][3..] == ShowNat(|inputs[0]|);
    assert lines[1] == ".o " + ShowNat(|outputs[0]|) && lines[1][3..] == ShowNat(|outputs[0]|);
    ShowNatParses(|inputs[0]|);
    ShowNatParses(|outputs[0]|);
  }

  /** The generated names contain no blank. */
  lemma DefaultNamesNoBlank(prefix: string, n: nat)
    requires ' ' !in prefix
    ensures forall i :: 0 <= i < n ==> ' ' !in DefaultNames(prefix, n)[i]
  {
    forall i | 0 <= i < n ensures ' ' !in DefaultNames(prefix, n)[i] {
      var num := ShowNat(i + 1);
      assert forall k :: 0 <= k < |num| ==> IsDigit(num[k]);
    }
  }

  /**
    Without given names the name lines list `x1 .. xN` and `f1 .. fM`:
    splitting them at blanks gives the default names back.
  */
  lemma PlaDefaultNames(inputs: seq<string>, outputs: seq<string>, cubes: seq<string>)
    requires inputs != [] && outputs != [] && |inputs[0]| >= 1 && |outputs[0]| >= 1
    ensures var lines := PlaLines(inputs, outputs, cubes, None, None).value;
      lines[2][..5] == ".ilb " && Split(lines[2][5..], ' ') == DefaultNames("x", |inputs[0]|)
      && lines[3][..4] == ".ob " && Split(lines[3][4..], ' ') == DefaultNames("f", |outputs[0]|)
  {
    var lines := PlaLines(inputs, outputs, cubes, None, None).value;
    var ins := DefaultNames("x", |inputs[0]|);
    var outs := DefaultNames("f", |outputs[0]|);
    assert lines[2][5..] == Join(" ", ins);
    assert lines[3][4..] == Join(" ", outs);
    DefaultNamesNoBlank("x", |inputs[0]|);
    DefaultNamesNoBlank("f", |outputs[0]|);
    SplitJoin(ins, ' ');
    SplitJoin(outs, ' ');
  }

  /** With no newline inside a name or a cube, splitting the PLA text at newlines gives back its lines. */
  lemma PlaTextLines(inputs: seq<string>, outputs: seq<string>, cubes: seq<string>,
                     inputNames: Option<seq<string>>, outputNames: Option<seq<string>>)
    requires inputs != [] && outputs != []
    requires forall i :: 0 <= i < |cubes| ==> '\n' !in cubes[i]
    requires inputNames.Some? ==> forall i :: 0 <= i < |inputNames.value| ==> '\n' !in inputNames.value[i]
    requires outputNames.Some? ==> forall i :: 0 <= i < |outputNames.value| ==> '\n' !in outputNames.value[i]
    ensures BuildFullPla(inputs, outputs, cubes, inputNames, outputNames).Ok?
    ensures Split(BuildFullPla(inputs, outputs, cubes, inputNames, outputNames).value, '\n') ==
      PlaLines(inputs, outputs, cubes, inputNames, outputNames).value
  {
    var lines := PlaLines(inputs, outputs, cubes, inputNames, outputNames).value;
    var n := |inputs[0]|;
    var m := |outputs[0]|;
    var ins := if inputNames.None? then DefaultNames("x", n) else inputNames.value;
    var outs := if outputNames.None? then DefaultNames("f", m) else outputNames.value;
    forall i | 0 <= i < |lines| ensures '\n' !in lines[i] {
      if i == 0 || i == 1 {
        var num := ShowNat(if i == 0 then n else m);
        assert forall k :: 0 <= k < |num| ==> IsDigit(num[k]);
        assert lines[i] == (if i == 0 then ".i " else ".o ") + num;
      } else if i == 2 || i == 3 {
        var names := if i == 2 then ins else outs;
        DefaultNamesNoNewline("x", n);
        DefaultNamesNoNewline("f", m);
        JoinNoNewline(" ", names);
        assert lines[i] == (if i == 2 then ".ilb " else ".ob ") + Join(" ", names);
      } else if i < 4 + |cubes| {
        assert lines[i] == cubes[i - 4];
      }
    }
    SplitJoin(lines, '\n');
  }

  lemma DefaultNamesNoNewline(prefix: string, n: nat)
    requires '\n' !in prefix
    ensures forall i :: 0 <= i < n ==> '\n' !in DefaultNames(prefix, n)[i]
  {
    forall i | 0 <= i < n ensures '\n' !in DefaultNames(prefix, n)[i] {
      var num := ShowNat(i + 1);
      assert forall k :: 0 <= k < |num| ==> IsDigit(num[k]);
    }
  }

  lemma JoinNoNewline(sep: string, parts: seq<string>)
    requires '\n' !in sep
    requires forall i :: 0 <= i < |parts| ==> '\n' !in parts[i]
    ensures '\n' !in Join(sep, parts)
  {
    var alphabet := set c | c in sep || exists i :: 0 <= i < |parts| && c in parts[i];
    JoinCharsIn(sep, parts, alphabet);
  }
}
