/** Powers of two and the facts about Euclidean division the proofs use. */
module Arithmetic {

  /** `2^k`; Rust's `1 << k` when it does not overflow. */
  function Pow2(k: nat): (r: nat)
    ensures r >= 1
  {
    if k == 0 then 1 else 2 * Pow2(k - 1)
  }

  lemma {:induction false} Pow2Add(a: nat, b: nat)
    ensures Pow2(a + b) == Pow2(a) * Pow2(b)
  {
    if a > 0 {
      Pow2Add(a - 1, b);
    }
  }

  lemma Pow2Of8()
    ensures Pow2(8) == 256
  {
    assert Pow2(2) == 4;
    assert Pow2(4) == 16;
    assert Pow2(6) == 64;
  }

  lemma Pow2Of63()
    ensures Pow2(63) == 0x8000_0000_0000_0000
  {
    Pow2Of8();
    Pow2Add(8, 8);
    assert Pow2(16) == 0x1_0000;
    Pow2Add(16, 16);
    assert Pow2(32) == 0x1_0000_0000;
    Pow2Add(32, 32);
    assert Pow2(64) == 0x1_0000_0000_0000_0000;
  }

  /** Euclidean remainders are unique. */
  lemma ModUnique(x: int, m: int, t: int, r: int)
    requires m > 0 && 0 <= r < m && x == m * t + r
    ensures x % m == r
  {
    var t', r' := x / m, x % m;
    assert m * t' + r' == m * t + r;
    var d := t - t';
    assert m * d == r' - r;
    assert d >= 1 ==> m * d >= m;
    assert d <= -1 ==> m * d <= -m;
  }

  lemma ModAddMultiple(q: int, m: int, b: int)
    requires m > 0
    ensures (q * m + b) % m == b % m
  {
    var r := b % m;
    var t := b / m;
    assert b == m * t + r;
    assert q * m + b == m * (q + t) + r;
    ModUnique(q * m + b, m, q + t, r);
  }

  lemma MulRegroup(a: int, m: int, k: int)
    ensures a * (m * k) == (a * k) * m
  {
  }

  lemma MulMono(a: int, b: int, c: nat)
    requires a <= b
    ensures a * c <= b * c
  {
  }

  /** `2^k` grows with `k`. */
  lemma Pow2Monotone(a: nat, b: nat)
    requires a <= b
    ensures Pow2(a) <= Pow2(b)
  {
    Pow2Add(a, b - a);
    MulMono(1, Pow2(b - a), Pow2(a));
  }
}
