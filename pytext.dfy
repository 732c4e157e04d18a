/**
  The handful of Python `str` operations the minimiser's text handling
  relies on: `sep.join`, `s.split(c)`, `s.strip()`, `str(int)` and `int(s)`
  on decimal digits, and the generated default names `x1..xN` / `f1..fM`.
*/
module PyText {

  /** `sep.join(parts)`. */
  function Join(sep: string, parts: seq<string>): string
    decreases |parts|
  {
    if |parts| == 0 then ""
    else if |parts| == 1 then parts[0]
    else parts[0] + sep + Join(sep, parts[1..])
  }

  /** `s.split(c)` for a one-character separator: never empty, no piece holds `c`. */
  function Split(s: string, c: char): (r: seq<string>)
    ensures |r| >= 1
    ensures forall i :: 0 <= i < |r| ==> c !in r[i]
    decreases |s|
  {
    if |s| == 0 then [""]
    else
      var rest := Split(s[1..], c);
      if s[0] == c then [""] + rest
      else [[s[0]] + rest[0]] + rest[1..]
  }

  /** Joining the pieces of a split with the same separator gives the text back. */
  lemma {:induction false} JoinSplit(s: string, c: char)
    ensures Join([c], Split(s, c)) == s
    decreases |s|
  {
    if |s| > 0 {
      var rest := Split(s[1..], c);
      JoinSplit(s[1..], c);
      if s[0] == c {
        assert Split(s, c) == [""] + rest;
        assert ([""] + rest)[1..] == rest;
        assert s == [c] + s[1..];
      } else {
        var r := Split(s, c);
        assert r == [[s[0]] + rest[0]] + rest[1..];
        if |rest| == 1 {
          assert s == [s[0]] + rest[0];
        } else {
          assert r[1..] == rest[1..];
          assert Join([c], rest) == rest[0] + [c] + Join([c], rest[1..]);
          assert s == [s[0]] + s[1..];
        }
      }
    }
  }

  lemma {:induction false} SplitNoSeparator(p: string, c: char)
    requires c !in p
    ensures Split(p, c) == [p]
    decreases |p|
  {
    if |p| > 0 {
      SplitNoSeparator(p[1..], c);
      assert p == [p[0]] + p[1..];
    }
  }

  lemma {:induction false} SplitFirstPiece(p: string, c: char, rest: string)
    requires c !in p
    ensures Split(p + [c] + rest, c) == [p] + Split(rest, c)
    decreases |p|
  {
    var s := p + [c] + rest;
    if |p| == 0 {
      assert s == [c] + rest && s[1..] == rest;
    } else {
      assert s[1..] == p[1..] + [c] + rest;
      SplitFirstPiece(p[1..], c, rest);
      assert p == [p[0]] + p[1..];
    }
  }

  /** Splitting a join gives the pieces back when no piece holds the separator. */
  lemma {:induction false} SplitJoin(parts: seq<string>, c: char)
    requires |parts| >= 1
    requires forall i :: 0 <= i < |parts| ==> c !in parts[i]
    ensures Split(Join([c], parts), c) == parts
    decreases |parts|
  {
    if |parts| == 1 {
      SplitNoSeparator(parts[0], c);
    } else {
      SplitJoin(parts[1..], c);
      SplitFirstPiece(parts[0], c, Join([c], parts[1..]));
      assert parts == [parts[0]] + parts[1..];
    }
  }

  /** Python's `str.isspace()` for one character. */
  predicate IsSpace(ch: char)
  {
    var k := ch as int;
    k == 0x20 || 0x09 <= k <= 0x0D || 0x1C <= k <= 0x1F || k == 0x85 || k == 0xA0
    || k == 0x1680 || 0x2000 <= k <= 0x200A || k == 0x2028 || k == 0x2029
    || k == 0x202F || k == 0x205F || k == 0x3000
  }

  function StripLeft(s: string): string
    decreases |s|
  {
    if |s| > 0 && IsSpace(s[0]) then StripLeft(s[1..]) else s
  }

  function StripRight(s: string): string
    decreases |s|
  {
    if |s| > 0 && IsSpace(s[|s| - 1]) then StripRight(s[..|s| - 1]) else s
  }

  /** `s.strip()`: leading and trailing white space removed. */
  function Strip(s: string): string
  {
    StripRight(StripLeft(s))
  }

  lemma {:induction false} StripLeftEmpty(s: string)
    ensures StripLeft(s) == "" <==> forall k :: 0 <= k < |s| ==> IsSpace(s[k])
    ensures |StripLeft(s)| > 0 ==> !IsSpace(StripLeft(s)[0])
    decreases |s|
  {
    if |s| > 0 && IsSpace(s[0]) {
      StripLeftEmpty(s[1..]);
      assert forall k :: 1 <= k < |s| ==> s[k] == s[1..][k - 1];
    }
  }

  lemma {:induction false} StripRightEmpty(s: string)
    ensures StripRight(s) == "" <==> forall k :: 0 <= k < |s| ==> IsSpace(s[k])
    decreases |s|
  {
    if |s| > 0 && IsSpace(s[|s| - 1]) {
      var t := s[..|s| - 1];
      StripRightEmpty(t);
      assert forall k :: 0 <= k < |t| ==> s[k] == t[k];
    }
  }

  /** `s.strip()` keeps text that neither starts nor ends with white space. */
  lemma StripKeepsText(s: string)
    requires |s| > 0 ==> !IsSpace(s[0]) && !IsSpace(s[|s| - 1])
    ensures Strip(s) == s
  {
  }

  /** `s.strip() == ""` holds exactly when `s` is all white space. */
  lemma StripBlank(s: string)
    ensures Strip(s) == "" <==> forall k :: 0 <= k < |s| ==> IsSpace(s[k])
  {
    StripLeftEmpty(s);
    StripRightEmpty(StripLeft(s));
  }

  function DigitChar(d: nat): char
    requires d < 10
  {
    (('0' as int) + d) as char
  }

  predicate IsDigit(ch: char)
  {
    '0' <= ch <= '9'
  }

  /** A non-empty run of ASCII decimal digits: the only tokens `int(...)` meets here. */
  predicate IsDigits(s: string)
  {
    |s| > 0 && forall k :: 0 <= k < |s| ==> IsDigit(s[k])
  }

  /** `str(n)` for a non-negative `int`: decimal, no leading zero. */
  function ShowNat(n: nat): (r: string)
    ensures IsDigits(r)
    ensures |r| > 1 ==> r[0] != '0'
    decreases n
  {
    if n < 10 then [DigitChar(n)] else ShowNat(n / 10) + [DigitChar(n % 10)]
  }

  /** `str(i)` for any `int`. */
  function ShowInt(i: int): string
  {
    if i < 0 then "-" + ShowNat(-i) else ShowNat(i)
  }

  /** `int(s)` for a string of decimal digits. */
  function DigitsValue(s: string): nat
    requires forall k :: 0 <= k < |s| ==> IsDigit(s[k])
    decreases |s|
  {
    if |s| == 0 then 0
    else
      assert IsDigit(s[|s| - 1]);
      DigitsValue(s[..|s| - 1]) * 10 + (s[|s| - 1] as int - '0' as int)
  }

  /** `int(str(n)) == n`. */
  lemma {:induction false} ShowNatParses(n: nat)
    ensures DigitsValue(ShowNat(n)) == n
    decreases n
  {
    if n >= 10 {
      ShowNatParses(n / 10);
      var s := ShowNat(n);
      assert s[..|s| - 1] == ShowNat(n / 10);
    }
  }

  /** `[f"{prefix}{i+1}" for i in range(n)]`. */
  function DefaultNames(prefix: string, n: nat): seq<string>
  {
    seq(n, i requires 0 <= i < n => prefix + ShowNat(i + 1))
  }

  /** Every character of `sep.join(parts)` comes from `sep` or from a part. */
  lemma {:induction false} JoinCharsIn(sep: string, parts: seq<string>, alphabet: set<char>)
    requires forall c :: c in sep ==> c in alphabet
    requires forall i, c :: 0 <= i < |parts| && c in parts[i] ==> c in alphabet
    ensures forall c :: c in Join(sep, parts) ==> c in alphabet
    decreases |parts|
  {
    if |parts| > 1 {
      JoinCharsIn(sep, parts[1..], alphabet);
      assert forall c :: c in parts[0] + sep + Join(sep, parts[1..]) ==>
        c in parts[0] || c in sep || c in Join(sep, parts[1..]);
    }
  }

  /** A character found neither in `sep` nor in any part is not in `sep.join(parts)`. */
  lemma {:induction false} JoinAvoids(sep: string, parts: seq<string>, c: char)
    requires c !in sep
    requires forall i :: 0 <= i < |parts| ==> c !in parts[i]
    ensures c !in Join(sep, parts)
    decreases |parts|
  {
    if |parts| > 1 {
      JoinAvoids(sep, parts[1..], c);
      assert parts[0] + sep + Join(sep, parts[1..]) == Join(sep, parts);
    }
  }

  /** `sep.join(parts)` ends with its last part. */
  lemma {:induction false} JoinLast(sep: string, parts: seq<string>)
    requires |parts| >= 1
    ensures |parts[|parts| - 1]| <= |Join(sep, parts)|
    ensures Join(sep, parts)[|Join(sep, parts)| - |parts[|parts| - 1]|..] == parts[|parts| - 1]
    decreases |parts|
  {
    if |parts| > 1 {
      JoinLast(sep, parts[1..]);
      var last := parts[|parts| - 1];
      assert parts[1..][|parts| - 2] == last;
      var u, j := parts[0] + sep, Join(sep, parts[1..]);
      assert Join(sep, parts) == u + j;
      assert (u + j)[|u| + |j| - |last|..] == j[|j| - |last|..];
    }
  }

  /** `sep.join(parts)` starts where its first part starts. */
  lemma JoinFirstChar(sep: string, parts: seq<string>)
    requires |parts| >= 1 && |parts[0]| > 0
    ensures |Join(sep, parts)| > 0 && Join(sep, parts)[0] == parts[0][0]
  {
  }

  /**
    The pieces that `s.split('+')` finds in `" + ".join(parts)`: every part
    keeps the blanks that stood next to its separators.
  */
  function Padded(parts: seq<string>, first: bool): (r: seq<string>)
    ensures |r| == |parts|
    decreases |parts|
  {
    if |parts| == 0 then []
    else
      var lead := if first then "" else " ";
      if |parts| == 1 then [lead + parts[0]]
      else [lead + parts[0] + " "] + Padded(parts[1..], false)
  }

  lemma {:induction false} JoinPadded(parts: seq<string>, first: bool)
    requires |parts| >= 1
    ensures Join("+", Padded(parts, first)) == (if first then "" else " ") + Join(" + ", parts)
    decreases |parts|
  {
    if |parts| > 1 {
      JoinPadded(parts[1..], false);
      var lead := if first then "" else " ";
      var rest := Join(" + ", parts[1..]);
      assert Padded(parts, first)[1..] == Padded(parts[1..], false);
      assert (lead + parts[0] + " ") + "+" + (" " + rest) == lead + (parts[0] + " + " + rest);
    }
  }

  /** Text that neither starts nor ends with white space. */
  predicate Trimmed(t: string)
  {
    |t| > 0 && !IsSpace(t[0]) && !IsSpace(t[|t| - 1])
  }

  lemma StripAround(lead: string, t: string, trail: string)
    requires lead == "" || lead == " "
    requires trail == "" || trail == " "
    requires Trimmed(t)
    ensures Strip(lead + t + trail) == t
  {
    var s := lead + t + trail;
    var u := t + trail;
    if lead == " " {
      assert s[1..] == u;
    }
    assert u[0] == t[0];
    assert StripLeft(s) == u;
    assert StripRight(t) == t;
    if trail == " " {
      assert u[|u| - 1] == ' ';
      assert u[..|u| - 1] == t;
    }
  }

  /** Each piece of `Padded(parts, first)` strips back to its part. */
  lemma {:induction false} PaddedStrip(parts: seq<string>, first: bool)
    requires forall i :: 0 <= i < |parts| ==> Trimmed(parts[i])
    ensures forall i :: 0 <= i < |parts| ==> Strip(Padded(parts, first)[i]) == parts[i]
    decreases |parts|
  {
    if |parts| > 0 {
      var lead := if first then "" else " ";
      var trail := if |parts| == 1 then "" else " ";
      assert Padded(parts, first)[0] == lead + parts[0] + trail;
      StripAround(lead, parts[0], trail);
      if |parts| > 1 {
        PaddedStrip(parts[1..], false);
        assert Padded(parts, first)[1..] == Padded(parts[1..], false);
      }
    }
  }

  /** Padding adds blanks and nothing else. */
  lemma {:induction false} PaddedChars(parts: seq<string>, first: bool)
    ensures forall i, c :: 0 <= i < |parts| && c in Padded(parts, first)[i] ==> c == ' ' || c in parts[i]
    decreases |parts|
  {
    if |parts| > 0 {
      var lead := if first then "" else " ";
      var trail := if |parts| == 1 then "" else " ";
      assert Padded(parts, first)[0] == lead + parts[0] + trail;
      if |parts| > 1 {
        PaddedChars(parts[1..], false);
        assert Padded(parts, first)[1..] == Padded(parts[1..], false);
      }
    }
  }

  /** `" + ".join(parts).split('+')` gives the padded parts when no part holds a '+'. */
  lemma SplitPadded(parts: seq<string>)
    requires |parts| >= 1
    requires forall i :: 0 <= i < |parts| ==> '+' !in parts[i]
    ensures Split(Join(" + ", parts), '+') == Padded(parts, true)
  {
    var pads := Padded(parts, true);
    JoinPadded(parts, true);
    assert Join("+", pads) == Join(" + ", parts);
    PaddedChars(parts, true);
    assert forall i :: 0 <= i < |pads| ==> '+' !in pads[i];
    SplitJoin(pads, '+');
    assert Split(Join("+", pads), '+') == pads;
  }
}
