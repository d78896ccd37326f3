/** The raw ECDSA signer, verifier and nonce-reuse solver of the sequence harness
    (section 6.4 of FIPS 186-5), over an abstract group of prime order. */
module Ecdsa {
  import opened CurveGroup
  import opened ModArith
  import opened Options

  /** A BIGNUM that the library calls overwrite. */
  class BigNum {
    var v: nat
  }

  /** The x-coordinate modulo the order.  At infinity there are no coordinates to store, and the
      fresh destination keeps its zero. */
  function XMod<P>(g: Group<P>, p: P): nat
    requires 0 < g.order
  {
    match g.affineX(p)
    case None => 0
    case Some(x) => x % g.order
  }

  /** The nonce taken from the draw of BN_rand_range: zero is replaced by one. */
  function NonceK(draw: nat): nat {
    if draw == 0 then 1 else draw
  }

  /** Every draw below the order gives a nonce between 1 and n - 1, each of them is given, and two
      draws give the same nonce exactly when they are equal or are zero and one. */
  lemma NonceFromDraw(a: nat, b: nat, n: nat)
    requires 2 <= n && a < n && b < n
    ensures 1 <= NonceK(a) < n && (1 <= a ==> NonceK(a) == a)
    ensures NonceK(a) == NonceK(b) <==> a == b || {a, b} == {0, 1}
  {
    assert {0, 1} == {1, 0};
    assert a in {a, b} && b in {a, b};
  }

  /** The four modular calls that compute s. */
  function SignS(r: nat, d: nat, z: nat, k: nat, n: nat): nat
    requires 0 < n
  {
    ModMul(Inverse(k, n), ModAdd(ModMul(r, d, n), z, n), n)
  }

  /** s is `r * d + z` divided by `k`. */
  lemma SignSIsQuotient(r: nat, d: nat, z: nat, k: nat, n: nat)
    requires 0 < n
    ensures SignS(r, d, z, k, n) == Quotient(r * d + z, k, n)
  {
    ModMulAdd(r, d, z, n);
  }

  /** The signature (r, s) that private key `d` and nonce `k` give on digest `z`, if any. */
  function Sign<P>(g: Group<P>, d: nat, z: nat, k: nat): Option<(nat, nat)>
    requires 0 < g.order
  {
    var r := XMod(g, Mul(g, k, g.gen));
    var s := SignS(r, d, z, k, g.order);
    if r == 0 || s == 0 then None else Some((r, s))
  }

  /** What verification computes for a signature whose `s` is invertible. */
  ghost predicate Accepts<P>(g: Group<P>, pub: P, z: nat, r: nat, s: nat)
    requires 0 < g.order
  {
    var u1, u2 := Quotient(z, s, g.order), Quotient(r, s, g.order);
    XMod(g, g.add(Mul(g, u1, g.gen), Mul(g, u2, pub))) == r
  }

  // ----- what a signature is

  /** A signature is characterised by `k * s == z + r * d` modulo the order. */
  lemma SignEquation<P(!new)>(g: Group<P>, d: nat, z: nat, k: nat, r: nat, s: nat)
    requires Laws(g) && 1 <= k < g.order
    ensures Sign(g, d, z, k) == Some((r, s)) <==>
            && r == XMod(g, Mul(g, k, g.gen)) && 0 < r
            && 0 < s < g.order && Cong(k * s, r * d + z, g.order)
    ensures Sign(g, d, z, k) == Some((r, s)) ==>
            var x := g.affineX(Mul(g, k, g.gen)); x.Some? && r == x.value % g.order
  {
    var x := XMod(g, Mul(g, k, g.gen));
    CongSelf(k, g.order);
    SignSIsQuotient(x, d, z, k, g.order);
    QuotientSolves(r * d + z, k, s, g.order);
    if s < g.order {
      CongSelf(s, g.order);
    }
    CongSelf(Quotient(r * d + z, k, g.order), g.order);
  }

  lemma Distribute(s: int, u1: int, u2: int, d: int)
    ensures s * (u1 + u2 * d) == s * u2 * d + s * u1
  {
  }

  lemma Combine(s: int, u1: int, u2: int, z: int, r: int, d: int, n: int)
    requires 0 < n && Cong(s * u1, z, n) && Cong(s * u2, r, n)
    ensures Cong(s * (u1 + u2 * d), r * d + z, n)
  {
    CongMul(s * u2, r, d, d, n);
    CongAdd(s * u2 * d, r * d, s * u1, z, n);
    Distribute(s, u1, u2, d);
  }

  /** The scalar that verification multiplies the generator by, in effect. */
  function ScalarOf(z: nat, r: nat, d: nat, s: nat, n: nat): nat
    requires 0 < n
  {
    Quotient(z, s, n) + Quotient(r, s, n) * d
  }

  /** The scalars of verification satisfy u1 + u2 * d == k, because s * k == z + r * d. */
  lemma VerifyScalars(z: nat, r: nat, d: nat, s: nat, k: nat, n: nat)
    requires IsPrime(n) && s % n != 0
    requires Cong(s * k, r * d + z, n)
    ensures Cong(ScalarOf(z, r, d, s, n), k, n)
  {
    var u1, u2 := Quotient(z, s, n), Quotient(r, s, n);
    QuotientIsSolution(z, s, n);
    QuotientIsSolution(r, s, n);
    Combine(s, u1, u2, z, r, d, n);
    CongCancel(s, u1 + u2 * d, k, n);
  }

  lemma LinearCombination<P(!new)>(g: Group<P>, u1: nat, u2: nat, d: nat, k: nat)
    requires Laws(g) && Mul(g, u1 + u2 * d, g.gen) == Mul(g, k, g.gen)
    ensures g.add(Mul(g, u1, g.gen), Mul(g, u2, Mul(g, d, g.gen))) == Mul(g, k, g.gen)
  {
    MulMul(g, u2, d, g.gen);
    MulAdd(g, u1, u2 * d, g.gen);
  }

  lemma VerifyMultiple<P(!new)>(g: Group<P>, d: nat, z: nat, r: nat, s: nat, k: nat)
    requires Laws(g) && s % g.order != 0
    requires Cong(s * k, r * d + z, g.order)
    ensures Mul(g, ScalarOf(z, r, d, s, g.order), g.gen) == Mul(g, k, g.gen)
  {
    VerifyScalars(z, r, d, s, k, g.order);
    MulCong(g, ScalarOf(z, r, d, s, g.order), k);
  }

  /** Verification evaluates the x-coordinate at the scalar `(z + r * d) / s`. */
  lemma VerifyPoint<P(!new)>(g: Group<P>, d: nat, z: nat, r: nat, s: nat, k: nat)
    requires Laws(g) && s % g.order != 0
    requires Cong(s * k, r * d + z, g.order)
    ensures Accepts(g, Mul(g, d, g.gen), z, r, s) <==> XMod(g, Mul(g, k, g.gen)) == r
  {
    VerifyMultiple(g, d, z, r, s, k);
    LinearCombination(g, Quotient(z, s, g.order), Quotient(r, s, g.order), d, k);
  }

  lemma XModReduced<P(!new)>(g: Group<P>, p: P)
    requires Laws(g)
    ensures XMod(g, p) < g.order
  {
  }

  /** The scalar at which verification evaluates the x-coordinate. */
  lemma VerifyScalar(r: nat, d: nat, z: nat, s: nat, n: nat) returns (k: nat)
    requires IsPrime(n) && s % n != 0
    ensures k == Quotient(r * d + z, s, n) < n
    ensures Cong(s * k, r * d + z, n) && Cong(k * (s % n), r * d + z, n)
  {
    k := Quotient(r * d + z, s, n);
    QuotientIsSolution(r * d + z, s, n);
    CongSelf(s, n);
    CongMul(s % n, s, k, k, n);
    ModMulFlip(s % n, k, n);
    ModMulFlip(s, k, n);
  }

  /** With r positive, the one nonce that can have produced a signature did so exactly when its point
      has r as reduced coordinate. */
  lemma SignedWith<P(!new)>(g: Group<P>, d: nat, z: nat, r: nat, s: nat, k: nat)
    requires Laws(g) && 0 < r && s % g.order != 0 && k < g.order
    requires Cong(k * (s % g.order), r * d + z, g.order)
    ensures XMod(g, Mul(g, k, g.gen)) == r <==> 1 <= k && Sign(g, d, z, k) == Some((r, s % g.order))
  {
    if k == 0 {
      assert InfinityAt(g, g.zero);
    } else {
      SignEquation(g, d, z, k, r, s % g.order);
    }
  }

  /** Some nonce signs digest `z` as (r, s). */
  ghost predicate Signed<P>(g: Group<P>, d: nat, z: nat, r: nat, s: nat)
    requires 0 < g.order
  {
    exists k :: 1 <= k < g.order && Sign(g, d, z, k) == Some((r, s))
  }

  lemma SignedAccepted<P(!new)>(g: Group<P>, d: nat, z: nat, r: nat, s: nat, k: nat)
    requires Laws(g) && s % g.order != 0 && 1 <= k < g.order
    requires Sign(g, d, z, k) == Some((r, s % g.order))
    ensures 0 < r && Accepts(g, Mul(g, d, g.gen), z, r, s)
  {
    var m := s % g.order;
    SignEquation(g, d, z, k, r, m);
    CongSelf(s, g.order);
    CongMul(s, m, k, k, g.order);
    ModMulFlip(m, k, g.order);
    VerifyPoint(g, d, z, r, s, k);
  }

  lemma AcceptedSigned<P(!new)>(g: Group<P>, d: nat, z: nat, r: nat, s: nat)
    requires Laws(g) && 0 < r && s % g.order != 0
    requires Accepts(g, Mul(g, d, g.gen), z, r, s)
    ensures Signed(g, d, z, r, s % g.order)
  {
    var k := VerifyScalar(r, d, z, s, g.order);
    VerifyPoint(g, d, z, r, s, k);
    SignedWith(g, d, z, r, s, k);
  }

  /** The verifier makes no range test of its own.  For every r and every invertible s it accepts
      exactly the signatures that the owner of the key can produce with some nonce, with s reduced,
      and beside them r == 0 when the point of `z / s` has the reduced coordinate zero.  Within the
      range that the standard prescribes, that is every signature and nothing else. */
  lemma VerifyAcceptsExactlySignatures<P(!new)>(g: Group<P>, d: nat, z: nat, r: nat, s: nat)
    requires Laws(g) && s % g.order != 0
    ensures Accepts(g, Mul(g, d, g.gen), z, r, s) <==>
            || Signed(g, d, z, r, s % g.order)
            || (r == 0 && XMod(g, Mul(g, Quotient(z, s, g.order), g.gen)) == 0)
    ensures 0 < r && s < g.order ==> (Accepts(g, Mul(g, d, g.gen), z, r, s) <==> Signed(g, d, z, r, s))
  {
    CongSelf(s, g.order);
    if 0 < r {
      if Accepts(g, Mul(g, d, g.gen), z, r, s) {
        AcceptedSigned(g, d, z, r, s);
      }
    } else {
      var k := VerifyScalar(r, d, z, s, g.order);
      VerifyPoint(g, d, z, r, s, k);
    }
    if k :| 1 <= k < g.order && Sign(g, d, z, k) == Some((r, s % g.order)) {
      SignedAccepted(g, d, z, r, s, k);
    }
  }

  lemma HonestVerifies<P(!new)>(g: Group<P>, d: nat, z: nat, k: nat, r: nat, s: nat)
    requires Laws(g) && 1 <= k < g.order
    requires Sign(g, d, z, k) == Some((r, s))
    ensures s % g.order != 0 && Accepts(g, Mul(g, d, g.gen), z, r, s)
  {
    SignEquation(g, d, z, k, r, s);
    CongSelf(s, g.order);
    SignedAccepted(g, d, z, r, s, k);
  }

  // ----- equal r

  lemma OppositeDifference(k: int, s: int, n: int)
    ensures (n - k) * (n - s) - k * s == (n - k - s) * n
  {
  }

  lemma OppositeProduct(k: int, s: int, e: int, n: int)
    requires 0 < n && Cong(k * s, e, n)
    ensures Cong((n - k) * (n - s), e, n)
  {
    OppositeDifference(k, s, n);
    CongIntro((n - k) * (n - s), k * s, n - k - s, n);
  }

  lemma OddOrder(n: int, k: int)
    requires IsPrime(n) && 2 < n
    ensures k != n - k
  {
    assert n % 2 != 0;
  }

  lemma SignDefined<P(!new)>(g: Group<P>, d: nat, z: nat, k: nat, r: nat)
    requires Laws(g) && 1 <= k < g.order && 0 < r == XMod(g, Mul(g, k, g.gen))
    ensures Sign(g, d, z, k).Some? <==> (r * d + z) % g.order != 0
    ensures Sign(g, d, z, k).Some? ==> Sign(g, d, z, k).value.0 == r
  {
    var e := r * d + z;
    CongSelf(k, g.order);
    CongSelf(0, g.order);
    SignSIsQuotient(r, d, z, k, g.order);
    CongSelf(Quotient(e, k, g.order), g.order);
    QuotientSolves(e, k, 0, g.order);
  }

  /** The nonces `k` and `order - k` differ, and whatever the two messages are, their signatures
      share r.  The second signature exists unless its digest is `-r * d`; on one digest the two s
      are opposite. */
  lemma OppositeNonces<P(!new)>(g: Group<P>, d: nat, z1: nat, z2: nat, k: nat, r: nat, s: nat)
    requires Laws(g) && 1 <= k < g.order
    requires Sign(g, d, z1, k) == Some((r, s))
    ensures 2 < g.order ==> g.order - k != k
    ensures Sign(g, d, z2, g.order - k).Some? <==> (r * d + z2) % g.order != 0
    ensures Sign(g, d, z2, g.order - k).Some? ==> Sign(g, d, z2, g.order - k).value.0 == r
    ensures Sign(g, d, z1, g.order - k) == Some((r, g.order - s))
  {
    var n := g.order;
    SignEquation(g, d, z1, k, r, s);
    MulOpposite(g, k);
    if 2 < n {
      OddOrder(n, k);
    }
    SignDefined(g, d, z2, n - k, r);
    OppositeProduct(k, s, r * d + z1, n);
    SignEquation(g, d, z1, n - k, r, n - s);
  }

  lemma FinitePoint<P(!new)>(g: Group<P>, k: nat)
    requires Laws(g) && 0 < k < g.order
    ensures g.affineX(Mul(g, k, g.gen)).Some?
  {
    CongSelf(k, g.order);
    MulIsZero(g, k);
    assert InfinityAt(g, Mul(g, k, g.gen));
  }

  function Coordinate<P>(g: Group<P>, k: nat): Option<nat> { g.affineX(Mul(g, k, g.gen)) }

  /** Two scalars reach coordinates that differ by a nonzero multiple of the order. */
  ghost predicate Collide<P>(g: Group<P>, j: nat, k: nat)
    requires 0 < g.order
  {
    var x, y := Coordinate(g, j), Coordinate(g, k);
    x.Some? && y.Some? && x.value != y.value && (x.value - y.value) % g.order == 0
  }

  /** Every coordinate is below `bound`, as the coordinates of a curve are below its field's size. */
  ghost predicate CoordinatesBelow<P(!new)>(g: Group<P>, bound: nat) {
    forall p :: g.affineX(p).Some? ==> g.affineX(p).value < bound
  }

  lemma CongDifference(x: int, y: int, n: int)
    requires 0 < n
    ensures Cong(x, y, n) <==> (x - y) % n == 0
  {
    CongSelf(0, n);
    if Cong(x, y, n) {
      CongAdd(x, y, y, y, n);
    }
    if (x - y) % n == 0 {
      CongAdd(x - y, 0, y, y, n);
    }
  }

  lemma MultipleOf(i: int, n: int)
    requires 0 < n && -2 * n < i * n < 2 * n
    ensures -2 < i < 2
  {
  }

  lemma SmallMultiple(e: int, n: int)
    requires 0 < n && e % n == 0 && e != 0 && -2 * n < e < 2 * n
    ensures e == n || e == -n
  {
    CongSelf(0, n);
    var i := CongElim(e, 0, n);
    MultipleGrows(i - 2, n);
    MultipleGrows(-i - 2, n);
    MultipleOf(i, n);
  }

  /** When coordinates are below twice the order, as on P-256, a collision is a difference by exactly the
      order; when they are below the order there is none. */
  lemma CollideIff<P(!new)>(g: Group<P>, j: nat, k: nat)
    requires Laws(g) && 1 <= j < g.order && 1 <= k < g.order
    ensures Coordinate(g, j).Some? && Coordinate(g, k).Some?
    ensures CoordinatesBelow(g, 2 * g.order) ==>
              (Collide(g, j, k) <==>
                || Coordinate(g, j).value == Coordinate(g, k).value + g.order
                || Coordinate(g, k).value == Coordinate(g, j).value + g.order)
    ensures CoordinatesBelow(g, g.order) ==> !Collide(g, j, k)
  {
    FinitePoint(g, j);
    FinitePoint(g, k);
    var e: int := Coordinate(g, j).value - Coordinate(g, k).value;
    var n: int := g.order;
    CongSelf(0, n);
    CongIntro(n, 0, 1, n);
    CongIntro(-n, 0, -1, n);
    if CoordinatesBelow(g, 2 * g.order) && Collide(g, j, k) {
      SmallMultiple(e, g.order);
    }
    if CoordinatesBelow(g, g.order) && Collide(g, j, k) {
      SmallMultiple(e, g.order);
      assert false;
    }
  }

  /** Two signatures share r exactly when their nonces are equal, are opposite, or reach coordinates
      that collide modulo the order. */
  lemma EqualRIff<P(!new)>(g: Group<P>, d: nat, z1: nat, z2: nat, k1: nat, k2: nat, r1: nat, r2: nat, s1: nat, s2: nat)
    requires Laws(g) && SharedOnlyByOpposites(g) && 1 <= k1 < g.order && 1 <= k2 < g.order
    requires Sign(g, d, z1, k1) == Some((r1, s1)) && Sign(g, d, z2, k2) == Some((r2, s2))
    ensures r1 == r2 <==> k1 == k2 || k1 + k2 == g.order || Collide(g, k1, k2)
  {
    EqualCoordinatesIff(g, k1, k2);
    FinitePoint(g, k1);
    FinitePoint(g, k2);
    CongDifference(Coordinate(g, k1).value, Coordinate(g, k2).value, g.order);
  }

  /** So "equal r" means "reused nonce" for two signatures exactly when their nonces are equal, or are
      neither opposite nor in collision; where coordinates are below the order, exactly when they are
      equal or not opposite. */
  lemma EqualRMeansReuseIff<P(!new)>(
    g: Group<P>, d: nat, z1: nat, z2: nat, k1: nat, k2: nat, r1: nat, r2: nat, s1: nat, s2: nat)
    requires Laws(g) && SharedOnlyByOpposites(g) && 1 <= k1 < g.order && 1 <= k2 < g.order
    requires Sign(g, d, z1, k1) == Some((r1, s1)) && Sign(g, d, z2, k2) == Some((r2, s2))
    ensures (r1 == r2 <==> k1 == k2) <==> k1 == k2 || (k1 + k2 != g.order && !Collide(g, k1, k2))
    ensures CoordinatesBelow(g, g.order) ==> ((r1 == r2 <==> k1 == k2) <==> k1 == k2 || k1 + k2 != g.order)
  {
    EqualRIff(g, d, z1, z2, k1, k2, r1, r2, s1, s2);
    CollideIff(g, k1, k2);
  }

  // ----- solving for the key from two signatures

  /** `k` as the harness solves for it. */
  function SolvedK(z1: nat, z2: nat, s1: nat, s2: nat, n: nat): nat
    requires 0 < n
  {
    Quotient(z1 - z2, (s1 - s2) % n, n)
  }

  /** `d` as the harness solves for it. */
  function SolvedD(z1: nat, s1: nat, r: nat, k: nat, n: nat): nat
    requires 0 < n
  {
    ModMul(Inverse(r, n), ModSub(ModMul(s1, k, n), z1, n), n)
  }

  lemma DistinctResidues(a: nat, b: nat, n: nat)
    requires a < n && b < n && a != b
    ensures (a - b) % n != 0
  {
    if (a - b) % n == 0 {
      CongSelf(0, n);
      CongAdd(a - b, 0, b, b, n);
      CongSelf(a, n);
      CongSelf(b, n);
      assert false;
    }
  }

  /** Given the first equation, the second holds exactly when their difference does. */
  lemma SecondEquation(z1: int, z2: int, s1: int, s2: int, k: int, e: int, n: int)
    requires 0 < n && Cong(k * s1, z1 + e, n)
    ensures Cong((s1 - s2) * k, z1 - z2, n) <==> Cong(k * s2, z2 + e, n)
  {
    assert (s1 - s2) * k == k * s1 - k * s2;
    if Cong((s1 - s2) * k, z1 - z2, n) {
      CongAdd(k * s1, z1 + e, (s1 - s2) * k, z1 - z2, n);
    }
    if Cong(k * s2, z2 + e, n) {
      CongAdd(k * s1, z1 + e, k * s2, z2 + e, n);
    }
  }

  /** The solved nonce is the nonce of the first signature exactly when it satisfies the equation
      of the second signature too. */
  lemma SolvedKIff(z1: nat, z2: nat, s1: nat, s2: nat, k: nat, e: int, n: nat)
    requires IsPrime(n) && s1 < n && s2 < n && s1 != s2
    requires Cong(k * s1, z1 + e, n)
    ensures Cong(SolvedK(z1, z2, s1, s2, n), k, n) <==> Cong(k * s2, z2 + e, n)
  {
    var t := (s1 - s2) % n;
    DistinctResidues(s1, s2, n);
    CongSelf(t, n);
    QuotientSolves(z1 - z2, t, k, n);
    CongSelf(s1 - s2, n);
    CongMul(t, s1 - s2, k, k, n);
    SecondEquation(z1, z2, s1, s2, k, e, n);
  }

  lemma NonceFromEquation(k1: nat, k2: nat, s: nat, e: int, n: nat)
    requires IsPrime(n) && k1 < n && k2 < n && s % n != 0
    requires Cong(k2 * s, e, n)
    ensures Cong(k1 * s, e, n) <==> k1 == k2
  {
    if Cong(k1 * s, e, n) {
      assert k1 * s == s * k1 && k2 * s == s * k2;
      CongCancel(s, k1, k2, n);
      CongSelf(k1, n);
      CongSelf(k2, n);
    }
  }

  /** Given the equation at `k1`, it holds at `k` exactly when the two are congruent. */
  lemma EquationIff(d: nat, z: nat, s: nat, r: nat, k: nat, k1: nat, n: nat)
    requires IsPrime(n) && s % n != 0 && Cong(k1 * s, r * d + z, n)
    ensures Cong(r * d, s * k - z, n) <==> Cong(k, k1, n)
  {
    ModMulFlip(k1, s, n);
    CongAdd(s * k1, r * d + z, z, z, n);
    if Cong(r * d, s * k - z, n) {
      CongAdd(r * d, s * k - z, z, z, n);
      CongCancel(s, k, k1, n);
    }
    if Cong(k, k1, n) {
      CongMul(s, s, k, k1, n);
      CongAdd(s * k, s * k1, z, z, n);
    }
  }

  lemma SolvedDIff(d: nat, z: nat, s: nat, r: nat, k: nat, k1: nat, n: nat)
    requires IsPrime(n) && d < n && s % n != 0 && r % n != 0
    requires Cong(k1 * s, r * d + z, n)
    ensures SolvedD(z, s, r, k, n) == d <==> Cong(k, k1, n)
  {
    ModMulAdd(s, k, z, n);
    QuotientSolves(s * k - z, r, d, n);
    CongSelf(d, n);
    CongSelf(SolvedD(z, s, r, k, n), n);
    EquationIff(d, z, s, r, k, k1, n);
  }

  /** Solving returns the private key exactly when the nonce was reused.  Equal r alone is not
      enough: `OppositeNonces` gives equal r with two different nonces. */
  lemma SolvedKeyIffNonceReused<P(!new)>(
    g: Group<P>, d: nat, z1: nat, z2: nat, k1: nat, k2: nat, r: nat, s1: nat, s2: nat)
    requires Laws(g) && d < g.order && 1 <= k1 < g.order && 1 <= k2 < g.order
    requires Sign(g, d, z1, k1) == Some((r, s1)) && Sign(g, d, z2, k2) == Some((r, s2))
    requires s1 != s2
    ensures SolvedD(z1, s1, r, SolvedK(z1, z2, s1, s2, g.order), g.order) == d <==> k1 == k2
    ensures SolvedK(z1, z2, s1, s2, g.order) == k1 <==> k1 == k2
  {
    var n := g.order;
    var k := SolvedK(z1, z2, s1, s2, n);
    SignEquation(g, d, z1, k1, r, s1);
    SignEquation(g, d, z2, k2, r, s2);
    CongSelf(r, n); CongSelf(d, n); CongSelf(s1, n); CongSelf(s2, n);
    CongSelf(k, n); CongSelf(k1, n); CongSelf(k2, n);
    // k == k1 iff the second equation holds at k1 iff k1 == k2
    SolvedKIff(z1, z2, s1, s2, k1, r * d, n);
    NonceFromEquation(k1, k2, s2, r * d + z2, n);
    // the solved d is d iff s1 * k == s1 * k1
    SolvedDIff(d, z1, s1, r, k, k1, n);
  }

  lemma EqualS(e: int, z1: nat, z2: nat, k: nat, s1: nat, s2: nat, n: nat)
    requires IsPrime(n) && k % n != 0 && s1 < n && s2 < n
    requires Cong(k * s1, e + z1, n) && Cong(k * s2, e + z2, n)
    ensures s1 == s2 <==> Cong(z1, z2, n)
  {
    if s1 == s2 {
      CongAdd(e + z1, e + z2, e, e, n);
    }
    if Cong(z1, z2, n) {
      CongAdd(e, e, z1, z2, n);
      CongCancel(k, s1, s2, n);
      CongSelf(s1, n);
      CongSelf(s2, n);
    }
  }

  /** With one nonce, r is repeated, and s is repeated only on congruent digests. */
  lemma ReusedNonce<P(!new)>(g: Group<P>, d: nat, z1: nat, z2: nat, k: nat, s1: nat, s2: nat, r1: nat, r2: nat)
    requires Laws(g) && 1 <= k < g.order
    requires Sign(g, d, z1, k) == Some((r1, s1)) && Sign(g, d, z2, k) == Some((r2, s2))
    ensures r1 == r2
    ensures s1 == s2 <==> Cong(z1, z2, g.order)
  {
    SignEquation(g, d, z1, k, r1, s1);
    SignEquation(g, d, z2, k, r2, s2);
    CongSelf(k, g.order);
    EqualS(r1 * d, z1, z2, k, s1, s2, g.order);
  }

  // ----- equal r without nonce reuse, concretely

  type Residue5 = x: int | 0 <= x < 5

  function Add5(p: Residue5, q: Residue5): Residue5 { if p + q < 5 then p + q else p + q - 5 }
  function Neg5(p: Residue5): Residue5 { if p == 0 then 0 else 5 - p }
  function X5(p: Residue5): Option<nat> { if p == 0 then None else if p <= 2 then Some(p) else Some(5 - p) }

  /** The integers modulo 5, with a coordinate that opposite elements share. */
  function GroupOf5(): Group<Residue5> {
    Group(Add5, 0, Neg5, 1, 5, X5)
  }

  lemma MulOf5(k: nat)
    requires k <= 5
    ensures Mul(GroupOf5(), k, 1) == if k == 5 then 0 else k
  {
    if 0 < k {
      MulOf5(k - 1);
    }
  }

  lemma GroupOf5Laws()
    ensures Laws(GroupOf5()) && SharedOnlyByOpposites(GroupOf5())
  {
    MulOf5(5);
  }

  /** "Equal r" is not the same as "reused nonce": here the nonces 1 and 4 give the same r on the
      digests 1 and 0, and solving returns neither the nonce nor the key. */
  lemma EqualRWithoutReuse()
    ensures Laws(GroupOf5()) && SharedOnlyByOpposites(GroupOf5())
    ensures Sign(GroupOf5(), 1, 1, 1) == Some((1, 2)) && Sign(GroupOf5(), 1, 0, 4) == Some((1, 4))
    ensures SolvedK(1, 0, 2, 4, 5) != 1
    ensures SolvedD(1, 2, 1, SolvedK(1, 0, 2, 4, 5), 5) != 1
  {
    var g := GroupOf5();
    GroupOf5Laws();
    MulOf5(1);
    MulOf5(4);
    SignEquation(g, 1, 1, 1, 1, 2);
    SignEquation(g, 1, 0, 4, 1, 4);
    SolvedKeyIffNonceReused(g, 1, 1, 0, 1, 4, 1, 2, 4);
  }

  /** Outside the range of the standard the verifier accepts what nobody signed: here r == 0, on the
      digest 0. */
  lemma AcceptsUnsignedZero()
    ensures Laws(GroupOf5()) && Accepts(GroupOf5(), 1, 0, 0, 1)
    ensures !Signed(GroupOf5(), 1, 0, 0, 1)
  {
    var g := GroupOf5();
    GroupOf5Laws();
    MulOf5(1);
    CongSelf(0, 5);
    CongSelf(1, 5);
    QuotientSolves(0, 1, 0, 5);
    CongSelf(Quotient(0, 1, 5), 5);
    assert Mul(g, 0, 1) == 0 && X5(0) == None;
    VerifyAcceptsExactlySignatures(g, 1, 0, 0, 1);
    if k :| 1 <= k < 5 && Sign(g, 1, 0, k) == Some((0, 1)) {
      SignEquation(g, 1, 0, k, 0, 1);
    }
  }

  // ----- the harness code

  /** nonce_k: the nonce lies between 1 and n - 1, and is the draw unless that is zero. */
  method DrawNonce(order: nat, draw: nat, k: BigNum)
    requires 2 <= order && draw < order
    modifies k
    ensures 1 <= k.v < order && (draw != 0 ==> k.v == draw) && (draw == 0 ==> k.v == 1)
  {
    k.v := draw;
    if k.v == 0 {
      k.v := 1;
    }
  }

  lemma NoInverse(a: nat, n: nat)
    requires IsPrime(n) && a % n == 0
    ensures forall x: nat :: !Cong(x * a, 1, n)
  {
    CongSelf(0, n);
    CongSelf(1, n);
    forall x: nat
      ensures !Cong(x * a, 1, n)
    {
      CongMul(x, x, a, 0, n);
    }
  }

  /** BN_mod_inverse: the inverse between 1 and n - 1, where there is one.  The caller ignores failure,
      which happens exactly when no number is an inverse; `left` is what a failed call leaves behind. */
  method ModInverse(dst: BigNum, a: nat, n: nat, left: nat)
    requires IsPrime(n)
    modifies dst
    ensures a % n != 0 ==> 0 < dst.v < n && Cong(dst.v * a, 1, n) && dst.v == Inverse(a, n)
    ensures a % n == 0 ==> dst.v == left && forall x: nat :: !Cong(x * a, 1, n)
  {
    dst.v := if a % n != 0 then Inverse(a, n) else left;
    if a % n != 0 {
      InverseCorrect(a, n);
    } else {
      NoInverse(a, n);
    }
  }

  lemma NonceInvertible<P(!new)>(g: Group<P>, k: nat)
    requires Laws(g) && 0 < k < g.order
    ensures k % g.order != 0
  {
    CongSelf(k, g.order);
  }

  /** ecdsa_sign, with the SHA-256 function and the random draw as parameters. */
  method EcdsaSign<P(!new)>(
    g: Group<P>, hash: seq<bv8> -> nat, d: nat, msg: seq<bv8>, draw: nat, r: BigNum, s: BigNum)
    returns (ok: bool)
    requires Laws(g) && draw < g.order && r != s
    modifies r, s
    ensures ok <==> Sign(g, d, hash(msg) % g.order, NonceK(draw)).Some?
    ensures ok ==> Sign(g, d, hash(msg) % g.order, NonceK(draw)) == Some((r.v, s.v))
  {
    var n := g.order;
    var z, k, kinv, tmp := new BigNum, new BigNum, new BigNum, new BigNum;
    z.v := hash(msg);
    z.v := z.v % n;
    DrawNonce(n, draw, k);
    var point := Mul(g, k.v, g.gen);
    FinitePoint(g, k.v);
    r.v := g.affineX(point).value;
    r.v := r.v % n;
    if r.v == 0 {
      return false;
    }
    NonceInvertible(g, k.v);
    ModInverse(kinv, k.v, n, 0);
    tmp.v := ModMul(r.v, d, n);
    tmp.v := ModAdd(tmp.v, z.v, n);
    s.v := ModMul(kinv.v, tmp.v, n);
    return s.v != 0;
  }

  /** A factor that is reduced first, and stands on the other side. */
  lemma QuotientFlip(b: nat, a: nat, n: nat)
    requires 0 < n
    ensures ModMul(b, Inverse(a, n), n) == Quotient(b, a, n)
  {
    var v := Inverse(a, n);
    ModMulFlip(b, v, n);
    CongSelf(b, n);
    CongMul(v, v, b % n, b, n);
  }

  lemma ZeroScalars<P(!new)>(g: Group<P>, z: nat, r: nat, pub: P)
    requires Laws(g)
    ensures XMod(g, g.add(Mul(g, ModMul(z, 0, g.order), g.gen), Mul(g, ModMul(r, 0, g.order), pub))) == 0
  {
    CongSelf(0, g.order);
    assert UnitAt(g, g.zero) && InfinityAt(g, g.zero);
  }

  /** ecdsa_verify.  For an s without inverse, the outcome depends on what the failed inversion leaves
      behind; if that is the initial zero, exactly r == 0 is accepted. */
  method EcdsaVerify<P(!new)>(
    g: Group<P>, hash: seq<bv8> -> nat, pub: P, msg: seq<bv8>, r: nat, s: nat, left: nat) returns (ok: bool)
    requires Laws(g)
    ensures s % g.order != 0 ==> (ok <==> Accepts(g, pub, hash(msg) % g.order, r, s))
    ensures s % g.order == 0 ==> (ok <==>
              XMod(g, g.add(Mul(g, ModMul(hash(msg) % g.order, left, g.order), g.gen),
                            Mul(g, ModMul(r, left, g.order), pub))) == r)
    ensures s % g.order == 0 && left == 0 ==> (ok <==> r == 0)
  {
    var n := g.order;
    var z, w, u1, u2, x := new BigNum, new BigNum, new BigNum, new BigNum, new BigNum;
    z.v := hash(msg);
    z.v := z.v % n;
    ModInverse(w, s, n, left);
    u1.v := ModMul(z.v, w.v, n);
    u2.v := ModMul(r, w.v, n);
    var point := g.add(Mul(g, u1.v, g.gen), Mul(g, u2.v, pub));
    x.v := 0;  // as BN_CTX_get hands it out
    if g.affineX(point).Some? {
      x.v := g.affineX(point).value;
    }
    x.v := x.v % n;
    CongSelf(0, n);
    assert x.v == XMod(g, point);
    ok := x.v == r;
    QuotientFlip(z.v, s, n);
    QuotientFlip(r, s, n);
    if s % n == 0 && left == 0 {
      ZeroScalars(g, z.v, r, pub);
    }
  }

  lemma ZeroDifference(z1: int, z2: int, t: int, n: nat)
    requires 0 < n
    ensures Cong(z1, z2, n) ==> ModMul(ModSub(z1, z2, n), t, n) == 0
  {
    if Cong(z1, z2, n) {
      CongAdd(z1, z2, z2, z2, n);
      CongSelf(0, n);
    }
  }

  /** The nonce and the key as the block leaves them, where its two inversions leave `left1` and `left2`
      behind when they fail. */
  function LeftK(z1: nat, z2: nat, s1: nat, s2: nat, n: nat, left1: nat): nat
    requires 0 < n
  {
    if (s1 - s2) % n != 0 then SolvedK(z1, z2, s1, s2, n) else ModMul(ModSub(z1, z2, n), left1, n)
  }

  function LeftD(z1: nat, s1: nat, r1: nat, k: nat, n: nat, left2: nat): nat
    requires 0 < n
  {
    if r1 % n != 0 then SolvedD(z1, s1, r1, k, n) else ModMul(ModSub(ModMul(s1, k, n), z1, n), left2, n)
  }

  /** The block that solves for the nonce and then the key; `dr` ends with the key.  On congruent digests
      the solved nonce is zero. */
  method SolveForKey(n: nat, z1: nat, z2: nat, r1: nat, s1: nat, s2: nat, k: BigNum, dr: BigNum, left1: nat, left2: nat)
    requires IsPrime(n) && k != dr
    modifies k, dr
    ensures k.v == LeftK(z1, z2, s1, s2, n, left1) && (Cong(z1, z2, n) ==> k.v == 0)
    ensures dr.v == LeftD(z1, s1, r1, k.v, n, left2)
  {
    var t := new BigNum;
    t.v := ModSub(s1, s2, n);
    CongSelf(t.v, n);
    ModInverse(t, t.v, n, left1);
    k.v := ModSub(z1, z2, n);
    ModMulFlip(k.v, t.v, n);
    ZeroDifference(z1, z2, t.v, n);
    k.v := ModMul(k.v, t.v, n);
    dr.v := ModMul(s1, k.v, n);
    dr.v := ModSub(dr.v, z1, n);
    ModInverse(t, r1, n, left2);
    ModMulFlip(dr.v, t.v, n);
    dr.v := ModMul(dr.v, t.v, n);
  }

  /** From a nonce reused on congruent digests the two s are equal, the solved nonce is zero, and no
      key comes out: the solved key is never the right one. */
  lemma EqualDigestsSolveNothing<P(!new)>(g: Group<P>, d: nat, z: nat, k: nat, r: nat, s: nat)
    requires Laws(g) && d < g.order && 1 <= k < g.order && Sign(g, d, z, k) == Some((r, s))
    ensures SolvedD(z, s, r, 0, g.order) != d
  {
    SignEquation(g, d, z, k, r, s);
    XModReduced(g, Mul(g, k, g.gen));
    CongSelf(r, g.order);
    CongSelf(s, g.order);
    CongSelf(0, g.order);
    CongSelf(k, g.order);
    SolvedDIff(d, z, s, r, 0, k, g.order);
  }

  /** From a reused nonce the block ends with the private key exactly when the digests are not
      congruent, whatever its failed inversions leave behind. */
  lemma ReuseRevealsKeyIff<P(!new)>(
    g: Group<P>, d: nat, z1: nat, z2: nat, k: nat, r: nat, s1: nat, s2: nat, left1: nat, left2: nat)
    requires Laws(g) && d < g.order && 1 <= k < g.order
    requires Sign(g, d, z1, k) == Some((r, s1)) && Sign(g, d, z2, k) == Some((r, s2))
    ensures LeftD(z1, s1, r, LeftK(z1, z2, s1, s2, g.order, left1), g.order, left2) == d <==> !Cong(z1, z2, g.order)
  {
    var n := g.order;
    ReusedNonce(g, d, z1, z2, k, s1, s2, r, r);
    SignEquation(g, d, z1, k, r, s1);
    SignEquation(g, d, z2, k, r, s2);
    XModReduced(g, Mul(g, k, g.gen));
    CongSelf(r, n);
    CongSelf(0, n);
    if s1 == s2 {
      ZeroDifference(z1, z2, left1, n);
      EqualDigestsSolveNothing(g, d, z1, k, r, s1);
    } else {
      DistinctResidues(s1, s2, n);
      SolvedKeyIffNonceReused(g, d, z1, z2, k, k, r, s1, s2);
    }
  }

  /** How one harness run ends. */
  datatype Outcome = Quiet | SignVerifyViolation | NonceReuseViolation

  /** The two-signature sequence: an honest signature is never reported, and reuse is reported
      exactly when both signatures exist and agree in r. */
  method RunSequence<P(!new)>(
    g: Group<P>, hash: seq<bv8> -> nat, dDraw: nat, draw1: nat, draw2: nat, m1: seq<bv8>, m2: seq<bv8>)
    returns (o: Outcome)
    requires Laws(g) && dDraw < g.order && draw1 < g.order && draw2 < g.order
    ensures var sig1 := Sign(g, NonceK(dDraw), hash(m1) % g.order, NonceK(draw1));
            var sig2 := Sign(g, NonceK(dDraw), hash(m2) % g.order, NonceK(draw2));
            o == if sig1.Some? && sig2.Some? && sig1.value.0 == sig2.value.0
                 then NonceReuseViolation else Quiet
  {
    var n := g.order;
    var d, r1, s1, r2, s2 := new BigNum, new BigNum, new BigNum, new BigNum, new BigNum;
    DrawNonce(n, dDraw, d);
    var pub := Mul(g, d.v, g.gen);
    var ok := EcdsaSign(g, hash, d.v, m1, draw1, r1, s1);
    if ok {
      ok := EcdsaSign(g, hash, d.v, m2, draw2, r2, s2);
    }
    o := Quiet;
    if ok {
      var verified := EcdsaVerify(g, hash, pub, m1, r1.v, s1.v, 0);
      HonestVerifies(g, d.v, hash(m1) % n, NonceK(draw1), r1.v, s1.v);
      if !verified {
        return SignVerifyViolation;
      }
      if r1.v == r2.v {
        return NonceReuseViolation;
      }
    }
  }
}
