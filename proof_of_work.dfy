/**
 * The proof-of-work acceptance rule of block.rs (`is_valid_for_proof`,
 * lines 95-113): the last `difficulty / 8` bytes of the digest must be zero
 * and, when `difficulty % 8 > 0`, the byte before them must be divisible by
 * `2^(difficulty % 8)`. This module defines that byte rule, the meaning it is
 * meant to have ("the digest, read as a big-endian number, has its low
 * `difficulty` bits zero") and proves the two equivalent.
 */
module ProofOfWork {
  import opened Types
  import opened Arithmetic

  /** The 32-byte SHA-256 output (`GenericArray<u8, U32>`). */
  type Digest = s: seq<u8> | |s| == 32 witness seq(32, _ => 0)

  /** The number a byte string denotes, most significant byte first. */
  function BigEndian(bytes: seq<u8>): nat
  {
    if bytes == [] then 0 else BigEndian(bytes[..|bytes| - 1]) * 256 + bytes[|bytes| - 1]
  }

  /** The low `difficulty` bits of the big-endian value are all zero. */
  predicate LowBitsZero(h: seq<u8>, difficulty: nat)
  {
    BigEndian(h) % Pow2(difficulty) == 0
  }

  /**
   * The byte/bit rule as block.rs evaluates it. Every index it reads lies in
   * `0 .. |h|` whenever `difficulty < 8 * |h|`; for a 32-byte digest that is
   * every `u8` difficulty.
   */
  predicate TrailingZeroRule(h: seq<u8>, difficulty: nat)
    requires difficulty < 8 * |h|
  {
    var nBytes := difficulty / 8;
    var nBits := difficulty % 8;
    (forall j :: |h| - nBytes <= j < |h| ==> h[j] == 0) &&
    (nBits > 0 ==> h[|h| - 1 - nBytes] % Pow2(nBits) == 0)
  }

  /** Dividing out one low byte: `256 * m` divides `256 * a + b` iff `b == 0` and `m` divides `a`. */
  lemma DivisibleAfterByte(a: nat, b: u8, m: nat)
    requires m > 0
    ensures (a * 256 + b) % (256 * m) == 0 <==> b == 0 && a % m == 0
  {
    var x := a * 256 + b;
    if x % (256 * m) == 0 {
      var q := x / (256 * m);
      assert x == (256 * m) * q;
      var z := m * q - a;
      assert b == 256 * z;
      assert z == 0;
      ModAddMultiple(q, m, 0);
      assert a == q * m;
    }
    if b == 0 && a % m == 0 {
      var t := a / m;
      assert a == t * m;
      assert x == t * (256 * m);
      ModAddMultiple(t, 256 * m, 0);
    }
  }

  // ---------------------------------------------------------------------------
  // The byte rule means "low `difficulty` bits zero"

  /** The byte/bit rule holds exactly when the digest's value is divisible by `2^difficulty`. */
  lemma {:induction false} TrailingZeroRuleMeaning(h: seq<u8>, difficulty: nat)
    requires difficulty < 8 * |h|
    ensures TrailingZeroRule(h, difficulty) <==> LowBitsZero(h, difficulty)
  {
    var front := h[..|h| - 1];
    if difficulty < 8 {
      LastByteDecides(h, difficulty);
    } else {
      var d := difficulty - 8;
      Pow2Add(8, d);
      Pow2Of8();
      assert BigEndian(h) == BigEndian(front) * 256 + h[|h| - 1];
      DivisibleAfterByte(BigEndian(front), h[|h| - 1], Pow2(d));
      TrailingZeroRuleMeaning(front, d);
      TrailingZeroRuleStep(h, difficulty);
    }
  }

  /** Below 8 bits only the last byte matters. */
  lemma LastByteDecides(h: seq<u8>, difficulty: nat)
    requires 0 < |h| && difficulty < 8
    ensures LowBitsZero(h, difficulty) <==> h[|h| - 1] % Pow2(difficulty) == 0
  {
    var a: int := BigEndian(h[..|h| - 1]);
    var b: int := h[|h| - 1];
    var m: int := Pow2(difficulty);
    var k: int := Pow2(8 - difficulty);
    Pow2Add(difficulty, 8 - difficulty);
    Pow2Of8();
    MulRegroup(a, m, k);
    assert BigEndian(h) == (a * k) * m + b;
    ModAddMultiple(a * k, m, b);
  }

  /** For `difficulty >= 8`: the rule on `h` is "last byte zero" plus the rule on the rest with 8 bits fewer. */
  lemma TrailingZeroRuleStep(h: seq<u8>, difficulty: nat)
    requires 8 <= difficulty < 8 * |h|
    ensures TrailingZeroRule(h, difficulty) <==>
            h[|h| - 1] == 0 && TrailingZeroRule(h[..|h| - 1], difficulty - 8)
  {
    var n := |h|;
    var front := h[..n - 1];
    var nBytes := difficulty / 8;
    assert (difficulty - 8) / 8 == nBytes - 1 && (difficulty - 8) % 8 == difficulty % 8;
    if TrailingZeroRule(h, difficulty) {
      forall j | |front| - (nBytes - 1) <= j < |front|
        ensures front[j] == 0
      {
        assert front[j] == h[j];
      }
    }
    if h[n - 1] == 0 && TrailingZeroRule(front, difficulty - 8) {
      forall j | n - nBytes <= j < n
        ensures h[j] == 0
      {
        if j < n - 1 {
          assert h[j] == front[j];
        }
      }
    }
  }
}
