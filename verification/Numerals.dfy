/** Positional numerals, most significant digit first, as `format!` prints them. */
module Numerals {

  datatype Radix = Decimal | Hexadecimal {
    function Base(): nat {
      if Decimal? then 10 else 16
    }

    /** n without its last digit. */
    function Front(n: nat): nat {
      if Decimal? then n / 10 else n / 16
    }

    /** The last digit of n. */
    function Last(n: nat): nat {
      if Decimal? then n % 10 else n % 16
    }

    function Shifted(n: nat): nat {
      if Decimal? then n * 10 else n * 16
    }
  }

  function Digits(n: nat, radix: Radix): (ds: seq<nat>)
    ensures ds != [] && (forall i :: 0 <= i < |ds| ==> ds[i] < radix.Base())
    decreases n
  {
    if n < radix.Base() then [n] else Digits(radix.Front(n), radix) + [radix.Last(n)]
  }

  function Evaluate(ds: seq<nat>, radix: Radix): nat {
    if ds == [] then 0 else radix.Shifted(Evaluate(ds[..|ds| - 1], radix)) + ds[|ds| - 1]
  }

  /** Reading back what was printed. */
  lemma {:induction false} DigitsEvaluate(n: nat, radix: Radix)
    ensures Evaluate(Digits(n, radix), radix) == n
    decreases n
  {
    var ds := Digits(n, radix);
    if n < radix.Base() {
      assert ds[..0] == [];
    } else {
      DigitsEvaluate(radix.Front(n), radix);
      assert ds[..|ds| - 1] == Digits(radix.Front(n), radix);
    }
  }
}
