/** Universal hashing of integer keys into a fixed number of buckets
    (hashtable.c:129-167): the parameters `a`, `b`, `m`, the prime `p`, and
    the bucket index `((((a * key + b) % p) + p) % p) % m` computed with C's
    remainder operator. */
module Hashing {

  /** The fixed prime modulus `p`. */
  const P: int := 15733

  /** C's `%` on `int`: the quotient is truncated toward zero, so the
      remainder takes the sign of the dividend. */
  function CRem(x: int, d: int): (r: int)
    requires d > 0
    ensures x >= 0 ==> 0 <= r < d
    ensures x < 0 ==> -d < r <= 0
  {
    if x >= 0 then x % d else -((-x) % d)
  }

  /** C defines `x % d` as `x - (x / d) * d`, with the quotient truncated
      toward zero: together with the sign ranges above this fixes `CRem`. */
  lemma CRemIsRemainder(x: int, d: int)
    requires d > 0
    ensures x == (if x >= 0 then x / d else -((-x) / d)) * d + CRem(x, d)
  {
    if x < 0 {
      assert -x == ((-x) / d) * d + (-x) % d;
    }
  }

  /** The process-wide parameters of the hash function: multiplier `a`,
      increment `b` and bucket count `m`. */
  datatype HashParams = HashParams(a: int, b: int, m: int)

  /** The ranges the parameters are drawn from, and a positive bucket count. */
  predicate ValidParams(hp: HashParams)
  {
    1 <= hp.a <= P - 1 && 0 <= hp.b <= P - 2 && hp.m > 0
  }

  /** initialize_hash_parameters: `r1` and `r2` stand for the two values
      `rand()` returns (non-negative). */
  function InitializeHashParameters(size: int, r1: nat, r2: nat): (hp: HashParams)
    ensures 1 <= hp.a <= P - 1 && 0 <= hp.b <= P - 2 && hp.m == size
    ensures size > 0 ==> ValidParams(hp)
  {
    HashParams(1 + CRem(r1, P - 1), CRem(r2, P - 1), size)
  }

  /** Every admissible parameter triple is reachable from some pair of
      `rand()` results. */
  lemma InitializeHashParametersOnto(hp: HashParams)
    requires ValidParams(hp)
    ensures InitializeHashParameters(hp.m, hp.a - 1, hp.b) == hp
  {
    assert CRem(hp.a - 1, P - 1) == hp.a - 1;
    assert CRem(hp.b, P - 1) == hp.b;
  }

  /** universal_hash_function: a bucket index in `[0, m)` for every key,
      negative keys included. */
  function UniversalHash(hp: HashParams, key: int): (k: int)
    requires hp.m > 0
    ensures 0 <= k < hp.m
  {
    CRem(CRem(CRem(hp.a * key + hp.b, P) + P, P), hp.m)
  }

  /** The `+ p) % p` step turns C's signed remainder into the mathematical
      residue of `x` modulo `p`. */
  lemma {:induction false} NormalizedRemainder(x: int)
    ensures CRem(CRem(x, P) + P, P) == x % P
  {
    var r := CRem(x, P);
    if x >= 0 {
      assert r == x % P;
      assert CRem(r + P, P) == r;
    } else {
      var q, s := (-x) / P, (-x) % P;
      assert -x == q * P + s && r == -s;
      if s == 0 {
        assert x == (-q) * P;
        assert CRem(r + P, P) == 0;
      } else {
        assert x == (-q - 1) * P + (P - s);
        assert CRem(r + P, P) == P - s;
      }
    }
  }

  /** The bucket index is the residue of `a * key + b` modulo `p`, reduced
      modulo `m`: the textbook Carter-Wegman hash. */
  lemma UniversalHashIsResidue(hp: HashParams, key: int)
    requires hp.m > 0
    ensures UniversalHash(hp, key) == ((hp.a * key + hp.b) % P) % hp.m
  {
    NormalizedRemainder(hp.a * key + hp.b);
  }
}
