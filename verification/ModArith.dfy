/** Arithmetic modulo `n`, as the BIGNUM calls of the ECDSA harness use it.  Two integers are
    congruent when they leave the same remainder; `Inverse` is the modular inverse, found by the
    extended Euclidean algorithm. */
module ModArith {

  ghost predicate IsPrime(n: int) {
    2 <= n && forall m :: 2 <= m < n ==> n % m != 0
  }

  predicate Cong(a: int, b: int, n: int)
    requires 0 < n
  {
    a % n == b % n
  }

  lemma MultipleGrows(e: int, n: int)
    requires 0 < n
    ensures 1 <= e ==> n <= e * n
    ensures e <= 0 ==> e * n <= 0
    ensures e <= -1 ==> e * n <= -n
  {
  }

  lemma RemainderUnique(a: int, q: int, r: int, n: int)
    requires 0 <= r < n
    requires a == q * n + r
    ensures a % n == r
  {
    var e := q - a / n;
    assert e * n == a % n - r;
    MultipleGrows(e, n);
  }

  /** A multiple of `n` as difference is the same as a common remainder. */
  lemma CongIntro(a: int, b: int, k: int, n: int)
    requires 0 < n
    requires a - b == k * n
    ensures Cong(a, b, n)
  {
    assert a == (b / n + k) * n + b % n;
    RemainderUnique(a, b / n + k, b % n, n);
  }

  lemma CongElim(a: int, b: int, n: int) returns (k: int)
    requires 0 < n
    requires Cong(a, b, n)
    ensures a - b == k * n
  {
    k := a / n - b / n;
  }

  lemma CongAdd(a: int, a': int, b: int, b': int, n: int)
    requires 0 < n
    requires Cong(a, a', n) && Cong(b, b', n)
    ensures Cong(a + b, a' + b', n) && Cong(a - b, a' - b', n)
  {
    var i := CongElim(a, a', n);
    var j := CongElim(b, b', n);
    assert (i + j) * n == i * n + j * n;
    assert (i - j) * n == i * n - j * n;
    CongIntro(a + b, a' + b', i + j, n);
    CongIntro(a - b, a' - b', i - j, n);
  }

  lemma ProductDifference(a: int, a': int, b: int, b': int, i: int, j: int, n: int)
    requires a - a' == i * n && b - b' == j * n
    ensures a * b - a' * b' == (a * j + b' * i) * n
  {
    calc {
      a * b - a' * b';
      a * (b - b') + b' * (a - a');
      { assert a * (j * n) == (a * j) * n; assert b' * (i * n) == (b' * i) * n; }
      (a * j) * n + (b' * i) * n;
      (a * j + b' * i) * n;
    }
  }

  lemma CongMul(a: int, a': int, b: int, b': int, n: int)
    requires 0 < n
    requires Cong(a, a', n) && Cong(b, b', n)
    ensures Cong(a * b, a' * b', n)
  {
    var i := CongElim(a, a', n);
    var j := CongElim(b, b', n);
    ProductDifference(a, a', b, b', i, j, n);
    CongIntro(a * b, a' * b', a * j + b' * i, n);
  }

  lemma CongSelf(a: int, n: int)
    requires 0 < n
    ensures Cong(a % n, a, n)
    ensures 0 <= a < n ==> a % n == a
  {
    assert a % n - a == (-(a / n)) * n;
    CongIntro(a % n, a, -(a / n), n);
    if 0 <= a < n {
      RemainderUnique(a, 0, a, n);
    }
  }

  lemma GcdStep(a: nat, b: nat, g: nat, x: int, y: int)
    requires 0 < b && 0 < g && b % g == 0 && (a % b) % g == 0
    requires x * b + y * (a % b) == g
    ensures y * a + (x - (a / b) * y) * b == g
    ensures a % g == 0
  {
    var q := a / b;
    calc {
      y * a + (x - q * y) * b;
      y * (q * b + a % b) + (x - q * y) * b;
      { assert y * (q * b + a % b) == q * y * b + y * (a % b); assert (x - q * y) * b == x * b - q * y * b; }
      x * b + y * (a % b);
    }
    var i := CongElim(b, 0, g);
    var j := CongElim(a % b, 0, g);
    assert q * (i * g) + j * g == (q * i + j) * g;
    CongIntro(a, 0, q * i + j, g);
  }

  /** `g == gcd(a, b)` divides both, and is the combination `x * a + y * b`. */
  function ExtendedGcd(a: nat, b: nat): (r: (nat, int, int))
    requires 0 < a || 0 < b
    ensures r.1 * a + r.2 * b == r.0
    ensures 0 < r.0 && a % r.0 == 0 && b % r.0 == 0
    decreases b
  {
    if b == 0 then
      RemainderUnique(a, 1, 0, a);
      (a, 1, 0)
    else
      var (g, x, y) := ExtendedGcd(b, a % b);
      GcdStep(a, b, g, x, y);
      (g, y, x - (a / b) * y)
  }

  /** The residue that BN_mod_inverse computes; meaningful when `a` is invertible modulo `n`. */
  function Inverse(a: nat, n: nat): nat
    requires 0 < n
  {
    ExtendedGcd(a % n, n).1 % n
  }

  /** Modulo a prime, every number that is not a multiple of the modulus has an inverse. */
  lemma InverseCorrect(a: nat, n: nat)
    requires IsPrime(n) && a % n != 0
    ensures 0 < Inverse(a, n) < n
    ensures Cong(Inverse(a, n) * a, 1, n)
  {
    var (g, x, y) := ExtendedGcd(a % n, n);
    var i := CongElim(a % n, 0, g);
    MultipleGrows(i, g);
    assert g == 1;
    CongIntro(x * (a % n), 1, -y, n);
    CongSelf(x, n);
    CongSelf(a, n);
    CongMul(x % n, x, a, a % n, n);
    CongSelf(1, n);
    if x % n == 0 {
      CongSelf(0, n);
      assert false;
    }
  }

  lemma CancelLeft(v: int, a: int, b: int, n: int)
    requires 0 < n && Cong(v * a, 1, n)
    ensures Cong(v * (a * b), b, n)
  {
    CongMul(v * a, 1, b, b, n);
    assert v * (a * b) == (v * a) * b;
  }

  /** An invertible factor cancels. */
  lemma CongCancel(a: nat, b: int, c: int, n: nat)
    requires IsPrime(n) && a % n != 0
    requires Cong(a * b, a * c, n)
    ensures Cong(b, c, n)
  {
    var v := Inverse(a, n);
    InverseCorrect(a, n);
    CancelLeft(v, a, b, n);
    CancelLeft(v, a, c, n);
    CongMul(v, v, a * b, a * c, n);
  }

  // BN_mod_add, BN_mod_sub and BN_mod_mul

  function ModAdd(a: int, b: int, n: nat): nat
    requires 0 < n
  {
    (a + b) % n
  }

  function ModSub(a: int, b: int, n: nat): nat
    requires 0 < n
  {
    (a - b) % n
  }

  function ModMul(a: int, b: int, n: nat): nat
    requires 0 < n
  {
    (a * b) % n
  }

  lemma ModMulFlip(a: int, b: int, n: nat)
    requires 0 < n
    ensures ModMul(a, b, n) == ModMul(b, a, n)
  {
    assert a * b == b * a;
  }

  /** Sums and differences of a product may be reduced early. */
  lemma ModMulAdd(a: int, b: int, c: int, n: nat)
    requires 0 < n
    ensures ModAdd(ModMul(a, b, n), c, n) == (a * b + c) % n
    ensures ModSub(ModMul(a, b, n), c, n) == (a * b - c) % n
  {
    CongSelf(a * b, n);
    CongAdd((a * b) % n, a * b, c, c, n);
  }

  /** `b / a` modulo `n`. */
  function Quotient(b: int, a: nat, n: nat): nat
    requires 0 < n
  {
    ModMul(Inverse(a, n), b % n, n)
  }

  lemma Regroup(a: int, v: int, c: int)
    ensures a * (v * c) == (v * a) * c
  {
  }

  lemma InverseTimes(v: int, a: int, c: int, b: int, n: nat)
    requires 0 < n && Cong(v * a, 1, n) && Cong(c, b, n)
    ensures Cong(a * ModMul(v, c, n), b, n)
  {
    var p := v * c;
    CongSelf(p, n);
    CongMul(a, a, p % n, p, n);
    Regroup(a, v, c);
    CongMul(v * a, 1, c, b, n);
  }

  lemma QuotientIsSolution(b: int, a: nat, n: nat)
    requires IsPrime(n) && a % n != 0
    ensures Cong(a * Quotient(b, a, n), b, n)
  {
    InverseCorrect(a, n);
    CongSelf(b, n);
    InverseTimes(Inverse(a, n), a, b % n, b, n);
  }

  /** `Quotient(b, a, n)` is the one solution of `a * x == b` modulo the prime `n`. */
  lemma QuotientSolves(b: int, a: nat, x: int, n: nat)
    requires IsPrime(n) && a % n != 0
    ensures Cong(a * x, b, n) <==> Cong(x, Quotient(b, a, n), n)
  {
    var q := Quotient(b, a, n);
    QuotientIsSolution(b, a, n);
    if Cong(a * x, b, n) {
      CongCancel(a, x, q, n);
    }
    if Cong(x, q, n) {
      CongMul(a, a, x, q, n);
    }
  }
}
