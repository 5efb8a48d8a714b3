/**
 The 64-bit FNV-1a digest that binds program records to their content. Each step is a
 bijection of the state and is injective in the byte, so no single-byte change goes unseen.
 */
module Fnv {
  import opened Bytes

  const OFFSET_BASIS := 0xCBF2_9CE4_8422_2325
  const PRIME := 0x0000_0100_0000_01B3
  // the inverse of PRIME modulo 2^64, and the multiple of 2^64 by which the product exceeds 1
  const PRIME_INVERSE := 0xCE96_5057_AFF6_957B
  const EXCESS := 0xCE_9650_590F

  type u64 = v: int | 0 <= v < U64_LIMIT

  /** Bitwise exclusive or of two unbounded naturals. */
  function Xor(a: nat, b: nat): nat
    decreases a + b
  {
    if a == 0 && b == 0 then 0
    else (if a % 2 == b % 2 then 0 else 1) + 2 * Xor(a / 2, b / 2)
  }

  lemma {:induction false} XorTwice(a: nat, b: nat)
    ensures Xor(Xor(a, b), b) == a
    decreases a + b
  {
    if a != 0 || b != 0 {
      var rest := Xor(a / 2, b / 2);
      XorTwice(a / 2, b / 2);
      assert Xor(a, b) / 2 == rest && Xor(a, b) % 2 == if a % 2 == b % 2 then 0 else 1;
    }
  }

  function Pow2(k: nat): nat {
    if k == 0 then 1 else 2 * Pow2(k - 1)
  }

  lemma {:induction false} XorBounded(a: nat, b: nat, k: nat)
    requires a < Pow2(k) && b < Pow2(k)
    ensures Xor(a, b) < Pow2(k)
    decreases a + b
  {
    if a != 0 || b != 0 {
      XorBounded(a / 2, b / 2, k - 1);
    }
  }

  lemma {:induction false} Pow2Splits(j: nat, k: nat)
    ensures Pow2(j + k) == Pow2(j) * Pow2(k)
  {
    if j > 0 {
      Pow2Splits(j - 1, k);
    }
  }

  lemma Pow2Of64()
    ensures Pow2(64) == U64_LIMIT
  {
    assert Pow2(4) == 16 by { assert Pow2(2) == 4; }
    Pow2Splits(4, 4);
    Pow2Splits(8, 8);
    Pow2Splits(16, 16);
    Pow2Splits(32, 32);
  }

  function Step(value: u64, b: byte): (next: u64) {
    (Xor(value, b) * PRIME) % U64_LIMIT
  }

  function Digest(value: u64, payload: bytes): u64
    decreases |payload|
  {
    if payload == [] then value else Digest(Step(value, payload[0]), payload[1..])
  }

  function Digest64(payload: bytes): u64 {
    Digest(OFFSET_BASIS, payload)
  }

  /** `digest64`, the loop. */
  method ComputeDigest64(payload: bytes) returns (value: u64)
    ensures value == Digest64(payload)
  {
    value := OFFSET_BASIS;
    for i := 0 to |payload|
      invariant Digest(value, payload[i..]) == Digest64(payload)
    {
      assert payload[i..][1..] == payload[i + 1..];
      value := Step(value, payload[i]);
    }
  }

  // ------------------------------------------------------------- injectivity

  /** A multiple of 2^64 that is smaller than 2^64 in size is zero. */
  lemma SmallMultiple(x: int, k: int)
    requires x == k * U64_LIMIT && -U64_LIMIT < x < U64_LIMIT
    ensures x == 0
  {
  }

  /** Multiplying by the odd prime loses nothing modulo 2^64. */
  lemma PrimeIsInvertible(x: u64, y: u64)
    requires (x * PRIME) % U64_LIMIT == (y * PRIME) % U64_LIMIT
    ensures x == y
  {
    var d := x - y;
    var t := (x * PRIME) / U64_LIMIT - (y * PRIME) / U64_LIMIT;
    assert d * PRIME == t * U64_LIMIT;
    assert PRIME * PRIME_INVERSE == 1 + EXCESS * U64_LIMIT;
    assert d * (PRIME * PRIME_INVERSE) == (t * PRIME_INVERSE) * U64_LIMIT;
    SmallMultiple(d, t * PRIME_INVERSE - d * EXCESS);
  }

  lemma XorFits(value: u64, b: byte)
    ensures Xor(value, b) < U64_LIMIT
  {
    Pow2Of64();
    XorBounded(value, b, 64);
  }

  lemma {:induction false} XorCommutes(a: nat, b: nat)
    ensures Xor(a, b) == Xor(b, a)
    decreases a + b
  {
    if a != 0 || b != 0 {
      XorCommutes(a / 2, b / 2);
    }
  }

  lemma StepInjective(v: u64, a: byte, w: u64, b: byte)
    requires Step(v, a) == Step(w, b)
    ensures a == b ==> v == w
    ensures v == w ==> a == b
  {
    XorFits(v, a);
    XorFits(w, b);
    PrimeIsInvertible(Xor(v, a), Xor(w, b));
    XorTwice(v, a);
    XorTwice(w, b);
    XorCommutes(v, a);
    XorCommutes(w, b);
    XorTwice(a, v);
    XorTwice(b, w);
  }

  /** Different states stay different over any common rest. */
  lemma {:induction false} DigestKeepsDifference(v: u64, w: u64, rest: bytes)
    requires v != w
    ensures Digest(v, rest) != Digest(w, rest)
    decreases |rest|
  {
    if rest != [] {
      if Step(v, rest[0]) == Step(w, rest[0]) {
        StepInjective(v, rest[0], w, rest[0]);
      }
      DigestKeepsDifference(Step(v, rest[0]), Step(w, rest[0]), rest[1..]);
    }
  }

  lemma {:induction false} DigestAppend(v: u64, xs: bytes, ys: bytes)
    ensures Digest(v, xs + ys) == Digest(Digest(v, xs), ys)
    decreases |xs|
  {
    if xs == [] {
      assert xs + ys == ys;
    } else {
      assert (xs + ys)[1..] == xs[1..] + ys;
      DigestAppend(Step(v, xs[0]), xs[1..], ys);
    }
  }

  /** Replacing one byte by another one always changes the digest. */
  lemma DigestSeesOneByte(payload: bytes, i: nat, b: byte)
    requires i < |payload|
    ensures Digest64(payload[i := b]) == Digest64(payload) <==> b == payload[i]
  {
    var before, after := payload[..i], payload[i + 1..];
    var state := Digest(OFFSET_BASIS, before);
    assert payload == before + ([payload[i]] + after) && payload[i := b] == before + ([b] + after);
    DigestAppend(OFFSET_BASIS, before, [payload[i]] + after);
    DigestAppend(OFFSET_BASIS, before, [b] + after);
    assert ([b] + after)[1..] == after && ([payload[i]] + after)[1..] == after;
    if b != payload[i] {
      if Step(state, b) == Step(state, payload[i]) {
        StepInjective(state, b, state, payload[i]);
      }
      DigestKeepsDifference(Step(state, b), Step(state, payload[i]), after);
    }
  }
}
