/** The statistics of the timing engine over exact reals: the one-pass accumulator and Welch's t. */
module Statistics {
  import opened Tally

  // ----- sums

  function SumBy(f: real -> real, xs: seq<real>): real {
    if xs == [] then 0.0 else SumBy(f, xs[..|xs| - 1]) + f(xs[|xs| - 1])
  }

  lemma SumByAppend(f: real -> real, xs: seq<real>, x: real)
    ensures SumBy(f, xs + [x]) == SumBy(f, xs) + f(x)
  {
    assert (xs + [x])[..|xs|] == xs;
  }

  lemma {:induction false} SumByConcat(f: real -> real, xs: seq<real>, ys: seq<real>)
    ensures SumBy(f, xs + ys) == SumBy(f, xs) + SumBy(f, ys)
  {
    if ys == [] {
      assert xs + ys == xs;
    } else {
      var k := |ys| - 1;
      SumByConcat(f, xs, ys[..k]);
      assert xs + ys == (xs + ys[..k]) + [ys[k]];
      SumByAppend(f, xs + ys[..k], ys[k]);
    }
  }

  lemma SumByInserted(f: real -> real, xs: seq<real>, x: real, ys: seq<real>)
    ensures SumBy(f, xs + [x] + ys) == SumBy(f, xs + ys) + f(x)
  {
    SumByConcat(f, xs, ys);
    SumByConcat(f, xs + [x], ys);
    SumByAppend(f, xs, x);
  }

  lemma {:induction false} SumByPermuted(f: real -> real, xs: seq<real>, ys: seq<real>)
    requires multiset(xs) == multiset(ys)
    ensures SumBy(f, xs) == SumBy(f, ys)
    decreases |xs|
  {
    if xs == [] {
      assert |ys| == |multiset(ys)| == 0;
    } else {
      var k := |xs| - 1;
      var j := TakeOut(xs, ys);
      SumByPermuted(f, xs[..k], ys[..j] + ys[j + 1..]);
      SumByInserted(f, ys[..j], xs[k], ys[j + 1..]);
    }
  }

  function Self(x: real): real { x }
  function Square(x: real): real { x * x }

  function Sum(xs: seq<real>): real { SumBy(Self, xs) }

  function Mean(xs: seq<real>): real {
    if xs == [] then 0.0 else Sum(xs) / (|xs| as real)
  }

  function DeviationFrom(c: real): real -> real {
    (x: real) => (x - c) * (x - c)
  }

  /** The sum of squared deviations from `c`. */
  function Deviations(xs: seq<real>, c: real): real { SumBy(DeviationFrom(c), xs) }

  /** The sum of squared deviations from the mean. */
  function Spread(xs: seq<real>): real { Deviations(xs, Mean(xs)) }

  // ----- algebra on single numbers
  //
  // The relations between the sums are named, so that the proofs about sequences pass them on
  // without multiplying them out.

  ghost predicate IsMean(n: real, s: real, m: real) { n * m == s }
  ghost predicate Expanded(d: real, q: real, s: real, n: real, c: real) { d == q - 2.0 * c * s + n * c * c }
  ghost predicate IsSpread(d: real, q: real, s: real, m: real) { d == q - s * m }

  lemma Cancel(n: real, a: real, b: real)
    requires n != 0.0 && n * a == n * b
    ensures a == b
  {
    assert n * (a - b) == 0.0;
  }

  lemma ExpandNone(c: real)
    ensures Expanded(0.0, 0.0, 0.0, 0.0, c)
  {
  }

  lemma ExpandStep(d: real, q: real, s: real, n: real, c: real, x: real, d': real, q': real, s': real, n': real)
    requires Expanded(d, q, s, n, c)
    requires d' == d + (x - c) * (x - c) && q' == q + x * x && s' == s + x && n' == n + 1.0
    ensures Expanded(d', q', s', n', c)
  {
    assert c * s' == c * s + c * x;
    assert n' * c * c == n * c * c + c * c;
  }

  lemma ExpandAtMean(d: real, q: real, s: real, n: real, m: real)
    requires Expanded(d, q, s, n, m) && IsMean(n, s, m)
    ensures IsSpread(d, q, s, m)
  {
    assert n * m * m == s * m;
  }

  lemma MeanStep(n: real, s: real, m: real, m': real, x: real)
    requires n >= 0.0 && IsMean(n, s, m) && IsMean(n + 1.0, s + x, m')
    ensures m' == m + (x - m) / (n + 1.0)
  {
    assert (n + 1.0) * (m + (x - m) / (n + 1.0)) == (n + 1.0) * m + (x - m);
    Cancel(n + 1.0, m', m + (x - m) / (n + 1.0));
  }

  lemma CrossTerms(n: real, s: real, m: real, m': real, x: real)
    requires IsMean(n, s, m) && IsMean(n + 1.0, s + x, m')
    ensures s * m' + m * m' == s * m + m * x
  {
    assert (n * m) * m' == s * m';
    assert m * ((n + 1.0) * m') == (n * m) * m' + m * m';
    assert m * ((n + 1.0) * m') == m * (s + x);
  }

  lemma SpreadStep(n: real, s: real, m: real, q: real, d: real, m': real, d': real, x: real)
    requires IsMean(n, s, m) && IsMean(n + 1.0, s + x, m')
    requires IsSpread(d, q, s, m) && IsSpread(d', q + x * x, s + x, m')
    ensures d' == d + (x - m) * (x - m')
  {
    CrossTerms(n, s, m, m', x);
    assert (s + x) * m' == s * m' + x * m';
    assert (x - m) * (x - m') == x * x - x * m' - m * x + m * m';
  }

  // ----- means and deviations

  lemma MeanTimes(xs: seq<real>)
    ensures IsMean(|xs| as real, Sum(xs), Mean(xs))
  {
  }

  lemma LastSample(xs: seq<real>, c: real)
    requires xs != []
    ensures var front, x := xs[..|xs| - 1], xs[|xs| - 1];
            && Deviations(xs, c) == Deviations(front, c) + (x - c) * (x - c)
            && SumBy(Square, xs) == SumBy(Square, front) + x * x
            && Sum(xs) == Sum(front) + x
            && |xs| as real == |front| as real + 1.0
  {
  }

  lemma {:induction false} DeviationsExpand(xs: seq<real>, c: real)
    ensures Expanded(Deviations(xs, c), SumBy(Square, xs), Sum(xs), |xs| as real, c)
  {
    if xs == [] {
      ExpandNone(c);
    } else {
      var front, x := xs[..|xs| - 1], xs[|xs| - 1];
      LastSample(xs, c);
      DeviationsExpand(front, c);
      ExpandStep(Deviations(front, c), SumBy(Square, front), Sum(front), |front| as real, c, x,
                 Deviations(xs, c), SumBy(Square, xs), Sum(xs), |xs| as real);
    }
  }

  lemma SquareNonnegative(x: real)
    ensures x * x >= 0.0
  {
  }

  lemma {:induction false} DeviationsNonnegative(xs: seq<real>, c: real)
    ensures Deviations(xs, c) >= 0.0
  {
    if xs != [] {
      DeviationsNonnegative(xs[..|xs| - 1], c);
      SquareNonnegative(xs[|xs| - 1] - c);
    }
  }

  lemma SpreadExpand(xs: seq<real>)
    ensures IsSpread(Spread(xs), SumBy(Square, xs), Sum(xs), Mean(xs))
  {
    DeviationsExpand(xs, Mean(xs));
    MeanTimes(xs);
    ExpandAtMean(Spread(xs), SumBy(Square, xs), Sum(xs), |xs| as real, Mean(xs));
  }

  // ----- the accumulator

  datatype Stat = Stat(n: real, mean: real, m2: real)

  function StatOf(xs: seq<real>): Stat { Stat(|xs| as real, Mean(xs), Spread(xs)) }

  lemma SumsNext(xs: seq<real>, x: real)
    ensures Sum(xs + [x]) == Sum(xs) + x
    ensures SumBy(Square, xs + [x]) == SumBy(Square, xs) + x * x
    ensures |xs + [x]| as real == |xs| as real + 1.0
  {
    SumByAppend(Self, xs, x);
    SumByAppend(Square, xs, x);
  }

  /** The deviation from the mean before, times that from the mean after. */
  function Excess(x: real, before: real, after: real): real { (x - before) * (x - after) }

  /** One step of the accumulator. */
  function Pushed(s: Stat, x: real): Stat
    requires s.n >= 0.0
  {
    var mean := s.mean + (x - s.mean) / (s.n + 1.0);
    Stat(s.n + 1.0, mean, s.m2 + Excess(x, s.mean, mean))
  }

  lemma MeanAfter(xs: seq<real>, x: real)
    ensures IsMean(|xs| as real + 1.0, Sum(xs) + x, Mean(xs + [x]))
  {
    SumsNext(xs, x);
    MeanTimes(xs + [x]);
  }

  lemma SpreadAfter(xs: seq<real>, x: real)
    ensures IsSpread(Spread(xs + [x]), SumBy(Square, xs) + x * x, Sum(xs) + x, Mean(xs + [x]))
  {
    SumsNext(xs, x);
    SpreadExpand(xs + [x]);
  }

  lemma NextMean(xs: seq<real>, x: real)
    ensures Mean(xs + [x]) == Mean(xs) + (x - Mean(xs)) / (|xs| as real + 1.0)
  {
    MeanTimes(xs);
    MeanAfter(xs, x);
    MeanStep(|xs| as real, Sum(xs), Mean(xs), Mean(xs + [x]), x);
  }

  lemma NextSpread(xs: seq<real>, x: real)
    ensures Spread(xs + [x]) == Spread(xs) + Excess(x, Mean(xs), Mean(xs + [x]))
  {
    MeanTimes(xs);
    MeanAfter(xs, x);
    SpreadExpand(xs);
    SpreadAfter(xs, x);
    SpreadStep(|xs| as real, Sum(xs), Mean(xs), SumBy(Square, xs), Spread(xs),
               Mean(xs + [x]), Spread(xs + [x]), x);
  }

  /** The step gives, from the statistics of any samples, those of one sample more. */
  lemma NextStat(xs: seq<real>, x: real)
    ensures StatOf(xs + [x]) == Pushed(StatOf(xs), x)
  {
    NextMean(xs, x);
    NextSpread(xs, x);
  }

  /** tstat_t.  The ghost field records the samples pushed so far. */
  class TStat {
    var n: real
    var mean: real
    var m2: real
    ghost var samples: seq<real>

    function Value(): Stat
      reads this
    {
      Stat(n, mean, m2)
    }

    /** Count, mean and sum of squared deviations are those of the samples. */
    ghost predicate Valid()
      reads this
    {
      n >= 0.0 && Value() == StatOf(samples)
    }

    /** The zeroed accumulator. */
    constructor ()
      ensures Valid() && samples == []
    {
      n, mean, m2 := 0.0, 0.0, 0.0;
      samples := [];
    }

    /** The three assignments of t_push. */
    method Update(x: real)
      requires n >= 0.0
      modifies this
      ensures Value() == Pushed(old(Value()), x) && samples == old(samples)
    {
      n := n + 1.0;
      var d := x - mean;
      mean := mean + d / n;
      m2 := m2 + d * (x - mean);
    }

    /** t_push */
    method Push(x: real)
      requires Valid()
      modifies this
      ensures Valid() && samples == old(samples) + [x]
    {
      NextStat(samples, x);
      Update(x);
      samples := samples + [x];
    }
  }

  /** The accumulated values do not depend on the order of the samples, and m2 is never negative. */
  lemma StatOrderIrrelevant(xs: seq<real>, ys: seq<real>)
    requires multiset(xs) == multiset(ys)
    ensures StatOf(xs) == StatOf(ys)
    ensures StatOf(xs).m2 >= 0.0
  {
    assert |xs| == |multiset(xs)| == |multiset(ys)| == |ys|;
    SumByPermuted(Self, xs, ys);
    var c := Mean(xs);
    SumByPermuted(DeviationFrom(c), xs, ys);
    DeviationsNonnegative(xs, c);
  }

  // ----- Welch's t

  /** What the code computes under the square root. */
  function Variance(a: Stat, b: Stat): real
    requires a.n >= 2.0 && b.n >= 2.0
  {
    a.m2 / (a.n - 1.0) / a.n + b.m2 / (b.n - 1.0) / b.n
  }

  /** welch_t, over the square root function of the C library. */
  function WelchT(sqrt: real -> real, a: Stat, b: Stat): real {
    if a.n < 2.0 || b.n < 2.0 then 0.0
    else
      var denom := sqrt(Variance(a, b));
      if denom == 0.0 then 0.0 else (a.mean - b.mean) / denom
  }

  /** Exchanging the classes changes the sign. */
  lemma WelchAntisymmetric(sqrt: real -> real, a: Stat, b: Stat)
    ensures WelchT(sqrt, b, a) == -WelchT(sqrt, a, b)
  {
    if a.n >= 2.0 && b.n >= 2.0 {
      assert Variance(a, b) == Variance(b, a);
      var denom := sqrt(Variance(a, b));
      if denom != 0.0 {
        assert (b.mean - a.mean) / denom == -((a.mean - b.mean) / denom);
      }
    }
  }

  function AffineAt(scale: real, shift: real, x: real): real { scale * x + shift }

  /** The samples after `x -> scale * x + shift`. */
  function Affine(scale: real, shift: real, xs: seq<real>): seq<real> {
    seq(|xs|, i requires 0 <= i < |xs| => AffineAt(scale, shift, xs[i]))
  }

  lemma AffineFront(scale: real, shift: real, xs: seq<real>, k: nat)
    requires k <= |xs|
    ensures Affine(scale, shift, xs)[..k] == Affine(scale, shift, xs[..k])
  {
  }

  lemma {:induction false} AffineSum(scale: real, shift: real, xs: seq<real>)
    ensures Sum(Affine(scale, shift, xs)) == scale * Sum(xs) + shift * (|xs| as real)
  {
    if xs != [] {
      var k := |xs| - 1;
      AffineFront(scale, shift, xs, k);
      AffineSum(scale, shift, xs[..k]);
      assert scale * Sum(xs) == scale * Sum(xs[..k]) + scale * xs[k];
      assert shift * (|xs| as real) == shift * (k as real) + shift;
    }
  }

  lemma AffineStep(scale: real, shift: real, x: real, c: real, d: real)
    ensures scale * scale * d + (scale * x + shift - (scale * c + shift)) * (scale * x + shift - (scale * c + shift))
            == scale * scale * (d + (x - c) * (x - c))
  {
    var e := x - c;
    assert scale * x + shift - (scale * c + shift) == scale * e;
    assert (scale * e) * (scale * e) == scale * scale * (e * e);
  }

  lemma {:induction false} AffineDeviations(scale: real, shift: real, xs: seq<real>, c: real)
    ensures Deviations(Affine(scale, shift, xs), AffineAt(scale, shift, c)) == scale * scale * Deviations(xs, c)
  {
    if xs != [] {
      var k := |xs| - 1;
      AffineFront(scale, shift, xs, k);
      AffineDeviations(scale, shift, xs[..k], c);
      AffineStep(scale, shift, xs[k], c, Deviations(xs[..k], c));
    }
  }

  lemma AffineMean(n: real, m: real, m': real, s: real, scale: real, shift: real)
    requires n != 0.0 && n * m == s && n * m' == scale * s + shift * n
    ensures m' == scale * m + shift
  {
    assert n * (scale * m + shift) == scale * (n * m) + shift * n;
    Cancel(n, m', scale * m + shift);
  }

  lemma AffineMeanOf(scale: real, shift: real, xs: seq<real>)
    requires xs != []
    ensures Mean(Affine(scale, shift, xs)) == AffineAt(scale, shift, Mean(xs))
  {
    AffineSum(scale, shift, xs);
    MeanTimes(xs);
    MeanTimes(Affine(scale, shift, xs));
    AffineMean(|xs| as real, Mean(xs), Mean(Affine(scale, shift, xs)), Sum(xs), scale, shift);
  }

  lemma AffineStat(scale: real, shift: real, xs: seq<real>)
    requires xs != []
    ensures var s := StatOf(xs);
            StatOf(Affine(scale, shift, xs)) == Stat(s.n, AffineAt(scale, shift, s.mean), scale * scale * s.m2)
  {
    AffineMeanOf(scale, shift, xs);
    AffineDeviations(scale, shift, xs, Mean(xs));
  }

  ghost predicate IsSqrt(sqrt: real -> real) {
    forall v: real :: v >= 0.0 ==> sqrt(v) >= 0.0 && sqrt(v) * sqrt(v) == v
  }

  lemma RootUnique(a: real, b: real)
    requires a >= 0.0 && b >= 0.0 && a * a == b * b
    ensures a == b
  {
    assert (a + b) * (a - b) == 0.0;
    if a + b != 0.0 {
      Cancel(a + b, a - b, 0.0);
    }
  }

  lemma QuotientNonnegative(x: real, y: real)
    requires x >= 0.0 && y > 0.0
    ensures x / y >= 0.0
  {
    assert (x / y) * y == x;
  }

  ghost predicate ScaledTwice(w: real, scale: real, v: real) { w == scale * scale * v }

  lemma ScaledSquare(w: real, scale: real, v: real, r: real)
    requires ScaledTwice(w, scale, v) && r * r == v && scale >= 0.0 && r >= 0.0
    ensures (scale * r) * (scale * r) == w && scale * r >= 0.0 && w >= 0.0
  {
    SquareNonnegative(scale * r);
    assert (scale * r) * (scale * r) == scale * scale * (r * r);
  }

  lemma ScaledRoot(sqrt: real -> real, w: real, scale: real, v: real)
    requires IsSqrt(sqrt) && scale >= 0.0 && v >= 0.0 && ScaledTwice(w, scale, v)
    ensures sqrt(w) == scale * sqrt(v)
  {
    ScaledSquare(w, scale, v, sqrt(v));
    RootUnique(sqrt(w), scale * sqrt(v));
  }

  lemma ScaledVariance(scale: real, a: Stat, b: Stat, a': Stat, b': Stat)
    requires a.n >= 2.0 && b.n >= 2.0 && a'.n == a.n && b'.n == b.n
    requires a'.m2 == scale * scale * a.m2 && b'.m2 == scale * scale * b.m2
    ensures ScaledTwice(Variance(a', b'), scale, Variance(a, b))
  {
    var p, q := a.m2 / (a.n - 1.0) / a.n, b.m2 / (b.n - 1.0) / b.n;
    assert scale * scale * a.m2 / (a.n - 1.0) / a.n == scale * scale * p;
    assert scale * scale * b.m2 / (b.n - 1.0) / b.n == scale * scale * q;
  }

  lemma VarianceNonnegative(a: Stat, b: Stat)
    requires a.n >= 2.0 && b.n >= 2.0 && a.m2 >= 0.0 && b.m2 >= 0.0
    ensures Variance(a, b) >= 0.0
  {
    QuotientNonnegative(a.m2, a.n - 1.0);
    QuotientNonnegative(a.m2 / (a.n - 1.0), a.n);
    QuotientNonnegative(b.m2, b.n - 1.0);
    QuotientNonnegative(b.m2 / (b.n - 1.0), b.n);
  }

  lemma ScaledQuotient(scale: real, d: real, r: real)
    requires scale > 0.0
    ensures scale * r == 0.0 <==> r == 0.0
    ensures r != 0.0 ==> (scale * d) / (scale * r) == d / r
  {
    if r != 0.0 {
      assert (scale * r) * (d / r) == scale * d;
      Cancel(scale * r, (scale * d) / (scale * r), d / r);
    }
  }

  /** What an affine map of both classes, by factor `scale`, does to their statistics. */
  ghost predicate Scaled(scale: real, a: Stat, b: Stat, a': Stat, b': Stat) {
    && a.n >= 2.0 && b.n >= 2.0 && a'.n == a.n && b'.n == b.n && a.m2 >= 0.0 && b.m2 >= 0.0
    && a'.m2 == scale * scale * a.m2 && b'.m2 == scale * scale * b.m2
    && a'.mean - b'.mean == scale * (a.mean - b.mean)
  }

  lemma AffinePair(scale: real, shift: real, xs: seq<real>, ys: seq<real>)
    requires 2 <= |xs| && 2 <= |ys|
    ensures Scaled(scale, StatOf(xs), StatOf(ys),
                   StatOf(Affine(scale, shift, xs)), StatOf(Affine(scale, shift, ys)))
  {
    AffineStat(scale, shift, xs);
    AffineStat(scale, shift, ys);
    DeviationsNonnegative(xs, Mean(xs));
    DeviationsNonnegative(ys, Mean(ys));
  }

  lemma RootScales(sqrt: real -> real, scale: real, a: Stat, b: Stat, a': Stat, b': Stat)
    requires IsSqrt(sqrt) && scale > 0.0 && Scaled(scale, a, b, a', b')
    ensures sqrt(Variance(a', b')) == scale * sqrt(Variance(a, b))
  {
    VarianceNonnegative(a, b);
    ScaledVariance(scale, a, b, a', b');
    ScaledRoot(sqrt, Variance(a', b'), scale, Variance(a, b));
  }

  lemma WelchScales(sqrt: real -> real, scale: real, a: Stat, b: Stat, a': Stat, b': Stat)
    requires IsSqrt(sqrt) && scale > 0.0 && Scaled(scale, a, b, a', b')
    ensures WelchT(sqrt, a', b') == WelchT(sqrt, a, b)
  {
    RootScales(sqrt, scale, a, b, a', b');
    ScaledQuotient(scale, a.mean - b.mean, sqrt(Variance(a, b)));
  }

  lemma TooFew(sqrt: real -> real, xs: seq<real>, ys: seq<real>)
    requires |xs| < 2 || |ys| < 2
    ensures WelchT(sqrt, StatOf(xs), StatOf(ys)) == 0.0
  {
  }

  /** Measuring both classes on another clock, shifted and scaled, leaves t unchanged. */
  lemma WelchInvariant(sqrt: real -> real, scale: real, shift: real, xs: seq<real>, ys: seq<real>)
    requires IsSqrt(sqrt) && scale > 0.0
    ensures WelchT(sqrt, StatOf(Affine(scale, shift, xs)), StatOf(Affine(scale, shift, ys))) ==
            WelchT(sqrt, StatOf(xs), StatOf(ys))
  {
    var xs', ys' := Affine(scale, shift, xs), Affine(scale, shift, ys);
    if 2 <= |xs| && 2 <= |ys| {
      AffinePair(scale, shift, xs, ys);
      WelchScales(sqrt, scale, StatOf(xs), StatOf(ys), StatOf(xs'), StatOf(ys'));
    } else {
      TooFew(sqrt, xs, ys);
      TooFew(sqrt, xs', ys');
    }
  }

  lemma QuotientZero(x: real, y: real)
    requires y > 0.0
    ensures x / y == 0.0 <==> x == 0.0
  {
    assert (x / y) * y == x;
  }

  lemma VarianceZero(a: Stat, b: Stat)
    requires a.n >= 2.0 && b.n >= 2.0 && a.m2 >= 0.0 && b.m2 >= 0.0
    ensures Variance(a, b) == 0.0 <==> a.m2 == 0.0 && b.m2 == 0.0
  {
    QuotientZero(a.m2, a.n - 1.0);
    QuotientZero(a.m2 / (a.n - 1.0), a.n);
    QuotientZero(b.m2, b.n - 1.0);
    QuotientZero(b.m2 / (b.n - 1.0), b.n);
    QuotientNonnegative(a.m2, a.n - 1.0);
    QuotientNonnegative(a.m2 / (a.n - 1.0), a.n);
    QuotientNonnegative(b.m2, b.n - 1.0);
    QuotientNonnegative(b.m2 / (b.n - 1.0), b.n);
  }

  lemma RootZero(sqrt: real -> real, v: real)
    requires IsSqrt(sqrt) && v >= 0.0
    ensures sqrt(v) == 0.0 <==> v == 0.0
  {
    var r := sqrt(v);
    assert r * r == v;
    if r * r == 0.0 {
      RootUnique(r, 0.0);
    }
  }

  lemma DifferenceZero(d: real, r: real)
    requires r != 0.0
    ensures d / r == 0.0 <==> d == 0.0
  {
    assert (d / r) * r == d;
  }

  /** t is zero exactly when a class has fewer than two samples, when the means agree, or when neither
      class varies at all: two constant classes give zero however far apart they are. */
  lemma WelchZeroIff(sqrt: real -> real, xs: seq<real>, ys: seq<real>)
    requires IsSqrt(sqrt)
    ensures WelchT(sqrt, StatOf(xs), StatOf(ys)) == 0.0 <==>
            || |xs| < 2 || |ys| < 2 || Mean(xs) == Mean(ys)
            || (Spread(xs) == 0.0 && Spread(ys) == 0.0)
  {
    if 2 <= |xs| && 2 <= |ys| {
      var a, b := StatOf(xs), StatOf(ys);
      DeviationsNonnegative(xs, a.mean);
      DeviationsNonnegative(ys, b.mean);
      VarianceNonnegative(a, b);
      VarianceZero(a, b);
      RootZero(sqrt, Variance(a, b));
      if sqrt(Variance(a, b)) != 0.0 {
        DifferenceZero(a.mean - b.mean, sqrt(Variance(a, b)));
      }
    }
  }

  // ----- Welch's t from the samples

  lemma DivideTwice(a: real, x: real, y: real)
    requires x > 0.0 && y > 0.0
    ensures a / x / y == a / (y * x)
  {
    var q := a / x / y;
    assert q * y == a / x;
    assert (q * y) * x == a;
    assert q * (y * x) == (q * y) * x;
    Cancel(y * x, q, a / (y * x));
  }

  /** The estimated variance of a mean. */
  function MeanVariance(xs: seq<real>): real
    requires 2 <= |xs|
  {
    Spread(xs) / ((|xs| as real) * (|xs| as real - 1.0))
  }

  /** What the code divides in two steps. */
  function DividedTwice(m2: real, n: real): real
    requires n >= 2.0
  {
    m2 / (n - 1.0) / n
  }

  lemma MeanVarianceTwice(xs: seq<real>)
    requires 2 <= |xs|
    ensures MeanVariance(xs) == DividedTwice(Spread(xs), |xs| as real)
  {
    DivideTwice(Spread(xs), |xs| as real - 1.0, |xs| as real);
  }

  lemma VarianceDivided(a: Stat, b: Stat)
    requires a.n >= 2.0 && b.n >= 2.0
    ensures Variance(a, b) == DividedTwice(a.m2, a.n) + DividedTwice(b.m2, b.n)
  {
  }

  lemma VarianceOfMeans(xs: seq<real>, ys: seq<real>)
    requires 2 <= |xs| && 2 <= |ys|
    ensures Variance(StatOf(xs), StatOf(ys)) == MeanVariance(xs) + MeanVariance(ys)
  {
    MeanVarianceTwice(xs);
    MeanVarianceTwice(ys);
    VarianceDivided(StatOf(xs), StatOf(ys));
  }

  lemma SquaredQuotient(t: real, d: real, r: real, v: real)
    requires r > 0.0 && r * r == v && t == d / r
    ensures t * t * v == d * d
    ensures (t > 0.0 <==> d > 0.0) && (t < 0.0 <==> d < 0.0)
  {
    assert t * r == d;
    assert t * t * (r * r) == (t * r) * (t * r);
  }

  lemma PositiveRoot(sqrt: real -> real, xs: seq<real>, ys: seq<real>)
    requires IsSqrt(sqrt) && 2 <= |xs| && 2 <= |ys| && !(Spread(xs) == 0.0 && Spread(ys) == 0.0)
    ensures var v := Variance(StatOf(xs), StatOf(ys));
            sqrt(v) > 0.0 && sqrt(v) * sqrt(v) == v
  {
    var a, b := StatOf(xs), StatOf(ys);
    DeviationsNonnegative(xs, a.mean);
    DeviationsNonnegative(ys, b.mean);
    VarianceNonnegative(a, b);
    VarianceZero(a, b);
    RootZero(sqrt, Variance(a, b));
  }

  /** Welch's law: unless no class varies, t has the sign of the difference of the means, and t squared
      is the squared difference over the summed variances of the two means. */
  lemma WelchLaw(sqrt: real -> real, xs: seq<real>, ys: seq<real>)
    requires IsSqrt(sqrt) && 2 <= |xs| && 2 <= |ys| && !(Spread(xs) == 0.0 && Spread(ys) == 0.0)
    ensures var t, d := WelchT(sqrt, StatOf(xs), StatOf(ys)), Mean(xs) - Mean(ys);
            && t * t * (MeanVariance(xs) + MeanVariance(ys)) == d * d
            && (t > 0.0 <==> d > 0.0) && (t < 0.0 <==> d < 0.0)
  {
    var a, b := StatOf(xs), StatOf(ys);
    var v := Variance(a, b);
    PositiveRoot(sqrt, xs, ys);
    VarianceOfMeans(xs, ys);
    SquaredQuotient(WelchT(sqrt, a, b), a.mean - b.mean, sqrt(v), v);
  }

  /** The sum of squared deviations, times the count, against the sums. */
  ghost predicate SpreadBySums(n: real, s: real, q: real, d: real) { n * d == n * q - s * s }

  lemma SumsOnly(n: real, s: real, m: real, q: real, d: real)
    requires IsMean(n, s, m) && IsSpread(d, q, s, m)
    ensures SpreadBySums(n, s, q, d)
  {
    assert n * (s * m) == s * (n * m);
  }

  /** The accumulated values against the two sums of the samples. */
  lemma StatFromSums(xs: seq<real>)
    ensures IsMean(|xs| as real, Sum(xs), StatOf(xs).mean)
    ensures SpreadBySums(|xs| as real, Sum(xs), SumBy(Square, xs), StatOf(xs).m2)
  {
    SpreadExpand(xs);
    MeanTimes(xs);
    SumsOnly(|xs| as real, Sum(xs), Mean(xs), SumBy(Square, xs), Spread(xs));
  }
}
