/** Numbers in decimal, most significant digit first. */
module Decimals {

  type Digit = d: int | 0 <= d < 10

  function Digits(n: nat): (d: seq<Digit>)
    ensures d != []
  {
    if n < 10 then [n] else Digits(n / 10) + [n % 10]
  }

  function ValueOf(d: seq<Digit>): nat {
    if d == [] then 0 else 10 * ValueOf(d[..|d| - 1]) + d[|d| - 1]
  }

  lemma {:induction false} DigitsValue(n: nat)
    ensures ValueOf(Digits(n)) == n
  {
    var d := Digits(n);
    if n < 10 {
      assert d[..0] == [];
    } else {
      DigitsValue(n / 10);
      assert d[..|d| - 1] == Digits(n / 10);
    }
  }

  /** A number in decimal, in some alphabet */
  function Written<C>(n: nat, glyph: Digit -> C): (t: seq<C>)
    ensures t != [] && |t| == |Digits(n)| && forall i | 0 <= i < |t| :: t[i] == glyph(Digits(n)[i])
  {
    var d := Digits(n);
    seq(|d|, i requires 0 <= i < |d| => glyph(d[i]))
  }

  lemma WrittenInjective<C>(m: nat, n: nat, glyph: Digit -> C)
    requires forall a: Digit, b: Digit | glyph(a) == glyph(b) :: a == b
    requires Written(m, glyph) == Written(n, glyph)
    ensures m == n
  {
    forall i | 0 <= i < |Digits(m)| ensures Digits(m)[i] == Digits(n)[i] {
      assert Written(m, glyph)[i] == Written(n, glyph)[i];
    }
    assert Digits(m) == Digits(n);
    DigitsValue(m);
    DigitsValue(n);
  }
}
