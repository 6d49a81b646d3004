/** Powers of two, and the few facts about quotients and remainders the CIDR proofs need. */
module Arithmetic {

  function Pow2(n: nat): (r: nat)
    ensures r >= 1
  {
    if n == 0 then 1 else 2 * Pow2(n - 1)
  }

  lemma Pow2Add(a: nat, b: nat)
    ensures Pow2(a + b) == Pow2(a) * Pow2(b)
  {
    if a > 0 {
      Pow2Add(a - 1, b);
    }
  }

  lemma Pow2Zero()
    ensures Pow2(0) == 1
  {
  }

  lemma Pow2Sixteen()
    ensures Pow2(16) == 0x1_0000
  {
    Pow2Add(8, 8);
    assert Pow2(8) == 256 by {
      Pow2Add(4, 4);
    }
  }

  lemma Pow2TimesSixteenBits(n: nat)
    ensures Pow2(n + 16) == Pow2(n) * 0x1_0000
  {
    Pow2Add(n, 16);
    Pow2Sixteen();
  }

  /** Multiples of `b` are at least `b` apart. */
  lemma MultiplesApart(q: nat, r: nat, b: nat)
    requires q < r
    ensures q * b + b <= r * b
  {
    assert r * b == (q + 1) * b + (r - q - 1) * b;
  }

  /** Quotient and remainder are determined by the equation they satisfy. */
  lemma DivModUnique(x: nat, q: nat, b: nat, r: nat)
    requires b > 0 && x == q * b + r && r < b
    ensures x / b == q && x % b == r
  {
    var q' := x / b;
    assert x == q' * b + x % b;
    if q' < q {
      MultiplesApart(q', q, b);
    } else if q < q' {
      MultiplesApart(q, q', b);
    }
  }

  lemma HalfMod(x: nat, b: nat)
    requires b > 0
    ensures x % (2 * b) == 2 * ((x / 2) % b) + x % 2
  {
    var q, r := (x / 2) / b, (x / 2) % b;
    assert x / 2 == q * b + r;
    assert q * (2 * b) == 2 * (q * b);
    DivModUnique(x, q, 2 * b, 2 * r + x % 2);
  }
}
