/** Bitwise or and masks of low bits on unsigned numbers, bit by bit. */
module Bits {

  function Pow2(bits: nat): nat {
    if bits == 0 then 1 else 2 * Pow2(bits - 1)
  }

  /** `a | b` on numbers of the given width. */
  function Or(a: nat, b: nat, bits: nat): (r: nat)
    ensures r < Pow2(bits)
  {
    if bits == 0 then 0
    else 2 * Or(a / 2, b / 2, bits - 1) + if a % 2 == 1 || b % 2 == 1 then 1 else 0
  }

  /** `a & mask`, for the mask of the n lowest bits. */
  function LowBits(a: nat, n: nat): (r: nat)
    ensures r < Pow2(n)
  {
    if n == 0 then 0 else 2 * LowBits(a / 2, n - 1) + a % 2
  }

  /** `a >> n`. */
  function Shifted(a: nat, n: nat): nat {
    if n == 0 then a else Shifted(a / 2, n - 1)
  }

  /** Numbers without a common bit are added. */
  lemma {:induction false} OrAdds(a: nat, b: nat, bits: nat, low: nat)
    requires LowBits(a, low) == 0 && b < Pow2(low) && a < Pow2(bits) && low <= bits
    ensures Or(a, b, bits) == a + b
    decreases bits
  {
    if low > 0 {
      OrAdds(a / 2, b / 2, bits - 1, low - 1);
    } else if bits > 0 {
      OrAdds(a / 2, 0, bits - 1, 0);
    }
  }

  lemma Doubled(p: nat, q: nat)
    ensures (2 * p) * q == 2 * (p * q)
  {
  }

  /** A number is its upper and its lower bits. */
  lemma {:induction false} Split(a: nat, n: nat)
    ensures a == Pow2(n) * Shifted(a, n) + LowBits(a, n)
    decreases n
  {
    if n > 0 {
      var p, q, low := Pow2(n - 1), Shifted(a / 2, n - 1), LowBits(a / 2, n - 1);
      Split(a / 2, n - 1);
      Doubled(p, q);
      assert Pow2(n) == 2 * p && Shifted(a, n) == q && LowBits(a, n) == 2 * low + a % 2;
      hide Pow2, Shifted, LowBits;
    }
  }

  lemma {:induction false} JoinedLow(q: nat, r: nat, n: nat)
    requires r < Pow2(n)
    ensures LowBits(Pow2(n) * q + r, n) == r && Shifted(Pow2(n) * q + r, n) == q
    decreases n
  {
    if n > 0 {
      var p := Pow2(n - 1);
      var a := Pow2(n) * q + r;
      Doubled(p, q);
      HalfOf(a, p * q, r);
      JoinedLow(q, r / 2, n - 1);
    }
  }

  lemma HalfOf(a: nat, half: nat, r: nat)
    requires a == 2 * half + r
    ensures a / 2 == half + r / 2 && a % 2 == r % 2
  {
  }

  lemma Powers()
    ensures Pow2(4) == 16 && Pow2(5) == 32 && Pow2(6) == 64 && Pow2(7) == 128 && Pow2(8) == 256
  {
    assert Pow2(4) == 2 * (2 * (2 * (2 * Pow2(0))));
    assert Pow2(5) == 2 * Pow2(4) && Pow2(6) == 2 * Pow2(5) && Pow2(7) == 2 * Pow2(6) && Pow2(8) == 2 * Pow2(7);
  }
}
