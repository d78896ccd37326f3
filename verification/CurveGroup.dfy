/** An abstract group of prime order with an affine x-coordinate, standing for the P-256 group that
    the ECDSA harness reaches through OpenSSL.  Only the laws the proofs need are assumed, and they
    are assumed as a precondition on the group value. */
module CurveGroup {
  import opened ModArith
  import opened Options

  datatype Group<!P> = Group(
    add: (P, P) -> P, zero: P, neg: P -> P, gen: P, order: nat, affineX: P -> Option<nat>)

  /** `k` copies of `p` added up. */
  function Mul<P>(g: Group<P>, k: nat, p: P): P {
    if k == 0 then g.zero else g.add(p, Mul(g, k - 1, p))
  }

  // Each law is named, so that a proof says at which points it uses it.
  ghost predicate AssocAt<P>(g: Group<P>, p: P, q: P, r: P) {
    g.add(g.add(p, q), r) == g.add(p, g.add(q, r))
  }

  ghost predicate CommAt<P>(g: Group<P>, p: P, q: P) {
    g.add(p, q) == g.add(q, p)
  }

  ghost predicate UnitAt<P>(g: Group<P>, p: P) {
    g.add(g.zero, p) == p
  }

  ghost predicate OppositeAt<P>(g: Group<P>, p: P) {
    g.add(p, g.neg(p)) == g.zero && g.affineX(g.neg(p)) == g.affineX(p)
  }

  ghost predicate InfinityAt<P>(g: Group<P>, p: P) {
    g.affineX(p).None? <==> p == g.zero
  }

  ghost predicate Laws<P(!new)>(g: Group<P>) {
    && (forall p, q, r :: AssocAt(g, p, q, r))
    && (forall p, q :: CommAt(g, p, q))
    && (forall p :: UnitAt(g, p))
    && (forall p :: OppositeAt(g, p))
    && (forall p :: InfinityAt(g, p))
    && IsPrime(g.order) && g.gen != g.zero && Mul(g, g.order, g.gen) == g.zero
  }

  lemma {:induction false} MulAdd<P(!new)>(g: Group<P>, j: nat, k: nat, p: P)
    requires Laws(g)
    ensures Mul(g, j + k, p) == g.add(Mul(g, j, p), Mul(g, k, p))
  {
    if j == 0 {
      assert UnitAt(g, Mul(g, k, p));
    } else {
      MulAdd(g, j - 1, k, p);
      assert AssocAt(g, p, Mul(g, j - 1, p), Mul(g, k, p));
    }
  }

  lemma {:induction false} MulMul<P(!new)>(g: Group<P>, j: nat, k: nat, p: P)
    requires Laws(g)
    ensures Mul(g, j * k, p) == Mul(g, j, Mul(g, k, p))
  {
    if j != 0 {
      MulMul(g, j - 1, k, p);
      assert j * k == k + (j - 1) * k;
      MulAdd(g, k, (j - 1) * k, p);
    } else {
      assert j * k == 0;
    }
  }

  lemma {:induction false} MulZero<P(!new)>(g: Group<P>, k: nat)
    requires Laws(g)
    ensures Mul(g, k, g.zero) == g.zero
  {
    if k != 0 {
      MulZero(g, k - 1);
      assert UnitAt(g, g.zero);
    }
  }

  /** Scalars act modulo the order. */
  lemma MulReduced<P(!new)>(g: Group<P>, k: nat)
    requires Laws(g)
    ensures Mul(g, k, g.gen) == Mul(g, k % g.order, g.gen)
  {
    var q, r := k / g.order, k % g.order;
    assert k == q * g.order + r;
    MulAdd(g, q * g.order, r, g.gen);
    MulMul(g, q, g.order, g.gen);
    MulZero(g, q);
    assert UnitAt(g, Mul(g, r, g.gen));
  }

  lemma MulCong<P(!new)>(g: Group<P>, j: nat, k: nat)
    requires Laws(g) && Cong(j, k, g.order)
    ensures Mul(g, j, g.gen) == Mul(g, k, g.gen)
  {
    MulReduced(g, j);
    MulReduced(g, k);
  }

  lemma MulOne<P(!new)>(g: Group<P>)
    requires Laws(g)
    ensures Mul(g, 1, g.gen) == g.gen
  {
    assert CommAt(g, g.gen, g.zero) && UnitAt(g, g.gen);
    assert Mul(g, 1, g.gen) == g.add(g.gen, Mul(g, 0, g.gen));
  }

  lemma NoAnnihilator<P(!new)>(g: Group<P>, v: nat, k: nat)
    requires Laws(g) && Cong(v * k, 1, g.order)
    ensures Mul(g, k, g.gen) != g.zero
  {
    MulMul(g, v, k, g.gen);
    MulZero(g, v);
    MulCong(g, v * k, 1);
    MulOne(g);
  }

  /** The generator has order exactly `g.order`. */
  lemma MulIsZero<P(!new)>(g: Group<P>, k: nat)
    requires Laws(g)
    ensures Mul(g, k, g.gen) == g.zero <==> k % g.order == 0
  {
    MulReduced(g, k);
    if k % g.order != 0 && Mul(g, k, g.gen) == g.zero {
      InverseCorrect(k, g.order);
      NoAnnihilator(g, Inverse(k, g.order), k);
      assert false;
    }
  }

  /** The scalars `k` and `order - k` reach opposite points, which share their x-coordinate. */
  lemma MulOpposite<P(!new)>(g: Group<P>, k: nat)
    requires Laws(g) && k <= g.order
    ensures Mul(g, g.order - k, g.gen) == g.neg(Mul(g, k, g.gen))
    ensures g.affineX(Mul(g, g.order - k, g.gen)) == g.affineX(Mul(g, k, g.gen))
  {
    var a, b := Mul(g, k, g.gen), Mul(g, g.order - k, g.gen);
    MulAdd(g, k, g.order - k, g.gen);
    assert OppositeAt(g, a);
    calc {
      b;
      { assert UnitAt(g, b) && CommAt(g, b, g.zero); }
      g.add(b, g.add(a, g.neg(a)));
      { assert AssocAt(g, b, a, g.neg(a)) && CommAt(g, a, b); }
      g.add(g.zero, g.neg(a));
      { assert UnitAt(g, g.neg(a)); }
      g.neg(a);
    }
  }

  // ----- equal coordinates

  /** A coordinate is shared by a point and its opposite only, as on every curve in Weierstrass form. */
  ghost predicate SharedOnlyAt<P>(g: Group<P>, p: P, q: P) {
    g.affineX(p) == g.affineX(q) ==> p == q || p == g.neg(q)
  }

  ghost predicate SharedOnlyByOpposites<P(!new)>(g: Group<P>) {
    forall p, q :: SharedOnlyAt(g, p, q)
  }

  lemma LeftCancel<P(!new)>(g: Group<P>, p: P, q: P)
    requires Laws(g) && g.add(p, q) == p
    ensures q == g.zero
  {
    var o := g.neg(p);
    assert OppositeAt(g, p) && CommAt(g, o, p);
    assert AssocAt(g, o, p, q) && UnitAt(g, q);
  }

  lemma MulDistinct<P(!new)>(g: Group<P>, j: nat, k: nat)
    requires Laws(g) && j < k < g.order
    ensures Mul(g, j, g.gen) != Mul(g, k, g.gen)
  {
    if Mul(g, j, g.gen) == Mul(g, k, g.gen) {
      MulAdd(g, j, k - j, g.gen);
      LeftCancel(g, Mul(g, j, g.gen), Mul(g, k - j, g.gen));
      MulIsZero(g, k - j);
      CongSelf(k - j, g.order);
      assert false;
    }
  }

  /** Below the order, distinct scalars reach distinct points. */
  lemma MulInjective<P(!new)>(g: Group<P>, j: nat, k: nat)
    requires Laws(g) && j < g.order && k < g.order
    ensures Mul(g, j, g.gen) == Mul(g, k, g.gen) <==> j == k
  {
    if j < k {
      MulDistinct(g, j, k);
    } else if k < j {
      MulDistinct(g, k, j);
    }
  }

  /** Two nonces reach the same x-coordinate exactly when they are equal or opposite. */
  lemma EqualCoordinatesIff<P(!new)>(g: Group<P>, j: nat, k: nat)
    requires Laws(g) && SharedOnlyByOpposites(g) && 1 <= j < g.order && 1 <= k < g.order
    ensures g.affineX(Mul(g, j, g.gen)) == g.affineX(Mul(g, k, g.gen)) <==> j == k || j + k == g.order
  {
    MulOpposite(g, k);
    MulInjective(g, j, k);
    MulInjective(g, j, g.order - k);
    assert SharedOnlyAt(g, Mul(g, j, g.gen), Mul(g, k, g.gen));
  }
}
