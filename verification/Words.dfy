// Powers of two, shifts and masks on unsigned words, written as arithmetic on natural numbers:
// `x << n` is x * Pow2(n), `x >> n` is x / Pow2(n) and `x & ((1 << n) - 1)` is x % Pow2(n).
module Words {

  type byte = x: int | 0 <= x < 256

  const UINT_MAX: int := 0xFFFF_FFFF
  const INT_MAX: int := 0x7FFF_FFFF

  function Min(a: int, b: int): int { if a < b then a else b }

  function Max(a: int, b: int): int { if a < b then b else a }

  function Abs(a: int): int { if a < 0 then -a else a }

  function Pow2(n: nat): (p: nat)
    ensures p >= 1
  {
    if n == 0 then 1 else 2 * Pow2(n - 1)
  }

  // The low n bits: x & ((1 << n) - 1).
  function Low(x: nat, n: nat): nat { x % Pow2(n) }

  // x >> n
  function High(x: nat, n: nat): nat {
    QuotientIsNat(x, Pow2(n));
    x / Pow2(n)
  }

  lemma QuotientIsNat(x: nat, d: nat)
    requires d > 0
    ensures x / d >= 0
  {}

  // x << n
  function Shl(x: nat, n: nat): nat { x * Pow2(n) }

  lemma {:induction false} Pow2Add(m: nat, n: nat)
    ensures Pow2(m + n) == Pow2(m) * Pow2(n)
  {
    if m > 0 {
      Pow2Add(m - 1, n);
      MulAssoc(2, Pow2(m - 1), Pow2(n));
    }
  }

  lemma {:induction false} Pow2Mono(m: nat, n: nat)
    requires m <= n
    ensures Pow2(m) <= Pow2(n)
    ensures m < n ==> 2 * Pow2(m) <= Pow2(n)
    decreases n
  {
    if m < n { Pow2Mono(m, n - 1); }
  }

  lemma Pow2Values()
    ensures Pow2(0) == 1 && Pow2(1) == 2 && Pow2(2) == 4 && Pow2(3) == 8 && Pow2(4) == 16
    ensures Pow2(5) == 32 && Pow2(6) == 64 && Pow2(7) == 128 && Pow2(8) == 256 && Pow2(9) == 512
    ensures Pow2(10) == 1024 && Pow2(11) == 2048 && Pow2(12) == 4096 && Pow2(13) == 8192
    ensures Pow2(14) == 0x4000 && Pow2(15) == 0x8000 && Pow2(16) == 0x1_0000
    ensures Pow2(24) == 0x100_0000 && Pow2(31) == 0x8000_0000 && Pow2(32) == 0x1_0000_0000
  {
    assert Pow2(4) == 16;
    assert Pow2(8) == 256;
    assert Pow2(12) == 4096;
    assert Pow2(16) == 0x1_0000;
    assert Pow2(20) == 0x10_0000;
    assert Pow2(24) == 0x100_0000;
    assert Pow2(28) == 0x1000_0000;
    assert Pow2(32) == 0x1_0000_0000;
  }

  lemma IntegerLimits()
    ensures UINT_MAX == Pow2(32) - 1 && INT_MAX == Pow2(31) - 1
  {
    Pow2Values();
  }

  lemma MulAssoc(a: int, b: int, c: int)
    ensures a * (b * c) == (a * b) * c
  {}

  lemma Distribute(a: int, b: int, c: int)
    ensures (a + b) * c == a * c + b * c
  {}

  lemma MulMono(a: nat, b: nat, c: nat)
    requires a <= b
    ensures a * c <= b * c
  {}

  // Quotient and remainder are determined by any decomposition with a small remainder.
  lemma DivModUnique(v: int, d: int, q: int, r: int)
    requires 0 <= r < d && v == q * d + r
    ensures v / d == q && v % d == r
  {
    var q', r' := v / d, v % d;
    assert (q - q') * d == r' - r by {
      assert v == q' * d + r';
    }
    if q != q' {
      MulMono(1, Abs(q - q'), d);
      assert false;
    }
  }

  lemma Recombine(q2: int, r2: nat, r: nat, a: nat, b: nat)
    requires r < a && r2 < b
    ensures 0 <= r2 * a + r < a * b
    ensures (q2 * b + r2) * a + r == q2 * (a * b) + (r2 * a + r)
  {
    MulMono(r2, b - 1, a);
    assert (b - 1) * a == a * b - a;
    assert (q2 * b + r2) * a == (q2 * b) * a + r2 * a;
    assert (q2 * b) * a == q2 * (a * b);
  }

  lemma DivDiv(v: nat, a: nat, b: nat)
    requires a > 0 && b > 0
    ensures a * b > 0 && v / a / b == v / (a * b)
  {
    var q, r := v / a, v % a;
    var q2, r2 := q / b, q % b;
    Recombine(q2, r2, r, a, b);
    assert v == (q2 * b + r2) * a + r;
    DivModUnique(v, a * b, q2, r2 * a + r);
  }

  // Shifting by m and then by n is shifting by m + n.
  lemma DivPow2Div(v: nat, m: nat, n: nat)
    ensures v / Pow2(m) / Pow2(n) == v / Pow2(m + n)
  {
    DivDiv(v, Pow2(m), Pow2(n));
    Pow2Add(m, n);
  }

  lemma LowSmall(v: nat, s: nat)
    requires v < Pow2(s)
    ensures Low(v, s) == v
  {
    DivModUnique(v, Pow2(s), 0, v);
  }
}
