/**
  Powers of two and the value of a bit string read most significant bit
  first: the row numbering shared by the truth tables and the decision
  diagrams.
*/
module Binary {

  /** `1 << n`. */
  function Pow2(n: nat): (r: nat)
    ensures r >= 1
  {
    if n == 0 then 1 else 2 * Pow2(n - 1)
  }

  /** The number a string of '0' and '1' spells, most significant bit first. */
  function BitsValue(s: string): (r: nat)
    ensures r < Pow2(|s|)
  {
    if s == [] then 0 else (if s[0] == '1' then Pow2(|s| - 1) else 0) + BitsValue(s[1..])
  }

  /** Reading a suffix of a bit string: the first bit of the suffix weighs `2^(bits after it)`. */
  lemma BitsValueFrom(s: string, k: nat)
    requires k < |s|
    ensures BitsValue(s[k..]) == (if s[k] == '1' then Pow2(|s| - k - 1) else 0) + BitsValue(s[k + 1..])
  {
    assert s[k..][1..] == s[k + 1..];
  }

  /** Distinct exponents give distinct powers of two. */
  lemma {:induction false} Pow2Injective(a: nat, b: nat)
    requires Pow2(a) == Pow2(b)
    ensures a == b
  {
    if a != 0 && b != 0 {
      Pow2Injective(a - 1, b - 1);
    }
  }
}
