/** The decision of the timing engine: Welch's t on the measurements below each of 101 percentile
    cuts, and the verdict from the largest of them. */
module Cropping {
  import opened Statistics
  import opened Tally

  const PERCENTILES: nat := 100
  const THRESHOLD: real := 4.5
  const UINT64_MAX: nat := 0xFFFF_FFFF_FFFF_FFFF

  /** A measurement campaign: cycle counts, class labels, and the sorted copy that qsort leaves. */
  datatype Campaign = Campaign(cyc: seq<nat>, cls: seq<bool>, sorted: seq<nat>)

  ghost predicate Ascending(s: seq<nat>) {
    forall i, j | 0 <= i <= j < |s| :: s[i] <= s[j]
  }

  ghost predicate Measured(c: Campaign) {
    && c.cyc != [] && |c.cls| == |c.cyc|
    && Ascending(c.sorted) && multiset(c.sorted) == multiset(c.cyc)
    && forall i | 0 <= i < |c.cyc| :: c.cyc[i] <= UINT64_MAX
  }

  /** `pw(p)` stands for pow(0.5, 10.0 * (p + 1) / 100): it lies between 0 and 1 and decreases. */
  ghost predicate Halving(pw: nat -> real) {
    && (forall p: nat :: 0.0 < pw(p) < 1.0)
    && (forall p: nat, q: nat :: p < q ==> pw(q) < pw(p))
  }

  function Power(x: real, n: nat): real {
    if n == 0 then 1.0 else x * Power(x, n - 1)
  }

  ghost predicate HalfPowerAt(pw: nat -> real, p: nat) {
    pw(p) > 0.0 && Power(pw(p), 10) * Power(2.0, p + 1) == 1.0
  }

  /** What the exact powers are: `pw(p)` is positive, and its tenth power is one over 2^(p + 1). */
  ghost predicate HalfPowers(pw: nat -> real) {
    forall p: nat :: HalfPowerAt(pw, p)
  }

  lemma ProductMonotone(x: real, y: real, a: real, b: real)
    requires 0.0 <= x <= y && 0.0 <= a <= b
    ensures 0.0 <= x * a <= y * b
  {
    assert x * a <= y * a <= y * b;
  }

  lemma {:induction false} PowerMonotone(x: real, y: real, n: nat)
    requires 0.0 <= x <= y
    ensures 0.0 <= Power(x, n) <= Power(y, n)
  {
    if n != 0 {
      PowerMonotone(x, y, n - 1);
      ProductMonotone(x, y, Power(x, n - 1), Power(y, n - 1));
    }
  }

  lemma {:induction false} PowerOfOne(n: nat)
    ensures Power(1.0, n) == 1.0
  {
    if n != 0 {
      PowerOfOne(n - 1);
    }
  }

  lemma {:induction false} PowersOfTwoGrow(p: nat, q: nat)
    requires p < q
    ensures 1.0 <= Power(2.0, p) < Power(2.0, q)
    decreases q
  {
    if p < q - 1 {
      PowersOfTwoGrow(p, q - 1);
    } else {
      PowerOfOne(p);
      PowerMonotone(1.0, 2.0, p);
    }
  }

  lemma Reciprocals(a: real, u: real, b: real, v: real)
    requires a * u == 1.0 && b * v == 1.0 && 1.0 <= u < v
    ensures 0.0 < b < a
  {
    assert b <= 0.0 ==> b * v <= 0.0;
    assert b > 0.0 ==> b * u < b * v;
    assert a <= b ==> a * u <= b * u;
  }

  lemma HalfPowerDecreases(pw: nat -> real, p: nat, q: nat)
    requires HalfPowerAt(pw, p) && HalfPowerAt(pw, q) && p < q
    ensures pw(q) < pw(p)
  {
    PowersOfTwoGrow(p + 1, q + 1);
    Reciprocals(Power(pw(p), 10), Power(2.0, p + 1), Power(pw(q), 10), Power(2.0, q + 1));
    if pw(p) <= pw(q) {
      PowerMonotone(pw(p), pw(q), 10);
    }
  }

  lemma HalfPowerBelowOne(pw: nat -> real, p: nat)
    requires HalfPowerAt(pw, p)
    ensures pw(p) < 1.0
  {
    PowersOfTwoGrow(0, p + 1);
    Reciprocals(1.0, 1.0, Power(pw(p), 10), Power(2.0, p + 1));
    if 1.0 <= pw(p) {
      PowerOfOne(10);
      PowerMonotone(1.0, pw(p), 10);
    }
  }

  /** The exact powers of one half lie between 0 and 1 and decrease. */
  lemma HalfPowersHalve(pw: nat -> real)
    requires HalfPowers(pw)
    ensures Halving(pw)
  {
    forall p: nat
      ensures 0.0 < pw(p) < 1.0
    {
      assert HalfPowerAt(pw, p);
      HalfPowerBelowOne(pw, p);
    }
    forall p: nat, q: nat | p < q
      ensures pw(q) < pw(p)
    {
      assert HalfPowerAt(pw, p) && HalfPowerAt(pw, q);
      HalfPowerDecreases(pw, p, q);
    }
  }

  function Index(pw: nat -> real, n: nat, p: nat): int {
    ((1.0 - pw(p)) * (n as real)).Floor
  }

  lemma ScaleBetween(x: real, n: real)
    requires 0.0 < x < 1.0 && 0.0 < n
    ensures 0.0 < x * n < n
  {
  }

  lemma ScaleMonotone(x: real, y: real, n: real)
    requires x <= y && 0.0 < n
    ensures x * n <= y * n
  {
  }

  /** Every percentile selects an element of the sorted copy, and later percentiles no earlier one. */
  lemma IndexInRange(pw: nat -> real, n: nat, p: nat)
    requires Halving(pw) && 0 < n
    ensures 0 <= Index(pw, n, p) < n
    ensures forall q: nat :: p <= q ==> Index(pw, n, p) <= Index(pw, n, q)
  {
    ScaleBetween(1.0 - pw(p), n as real);
    forall q: nat | p <= q
      ensures Index(pw, n, p) <= Index(pw, n, q)
    {
      ScaleMonotone(1.0 - pw(p), 1.0 - pw(q), n as real);
    }
  }

  lemma SameLength(c: Campaign)
    requires Measured(c)
    ensures |c.sorted| == |c.cyc|
    ensures forall i | 0 <= i < |c.sorted| :: c.sorted[i] <= UINT64_MAX
  {
    assert |multiset(c.sorted)| == |multiset(c.cyc)|;
    forall i | 0 <= i < |c.sorted|
      ensures c.sorted[i] <= UINT64_MAX
    {
      assert c.sorted[i] in multiset(c.sorted);
      assert c.sorted[i] in c.cyc;
    }
  }

  /** The cut of pass `p`; the last pass has none. */
  function Cut(c: Campaign, pw: nat -> real, p: nat): nat
    requires Measured(c) && Halving(pw)
  {
    SameLength(c);
    IndexInRange(pw, |c.sorted|, p);
    if p == PERCENTILES then UINT64_MAX else c.sorted[Index(pw, |c.sorted|, p)]
  }

  /** The measurements of one class, among the first `n`, that a cut keeps. */
  function Kept(c: Campaign, cut: nat, cl: bool, n: nat): seq<real>
    requires n <= |c.cyc| && n <= |c.cls|
  {
    if n == 0 then []
    else if c.cyc[n - 1] <= cut && c.cls[n - 1] == cl
    then Kept(c, cut, cl, n - 1) + [c.cyc[n - 1] as real]
    else Kept(c, cut, cl, n - 1)
  }

  ghost function AtMost(cut: nat): nat -> bool { (x: nat) => x <= cut }

  // ----- what the cuts keep

  /** Later cuts are no smaller, so what one pass keeps the later passes keep too. */
  lemma CutsNested(c: Campaign, pw: nat -> real, p: nat, q: nat)
    requires Measured(c) && Halving(pw) && p <= q <= PERCENTILES
    ensures Cut(c, pw, p) <= Cut(c, pw, q)
    ensures forall i | 0 <= i < |c.cyc| :: c.cyc[i] <= Cut(c, pw, p) ==> c.cyc[i] <= Cut(c, pw, q)
  {
    SameLength(c);
    IndexInRange(pw, |c.sorted|, p);
    IndexInRange(pw, |c.sorted|, q);
  }

  lemma PrefixKept(s: seq<nat>, i: nat, cut: nat)
    requires i < |s| && Ascending(s) && s[i] <= cut
    ensures CountWhere(AtMost(cut), s) >= i + 1
  {
    CountWhereBound(AtMost(cut), s[..i + 1]);
    CountWhereSplit(AtMost(cut), s, i + 1);
  }

  /** The cut at sorted index `i` keeps at least `i + 1` measurements, and the last pass all. */
  lemma CutKeeps(c: Campaign, pw: nat -> real, p: nat)
    requires Measured(c) && Halving(pw) && p <= PERCENTILES
    ensures p < PERCENTILES ==> CountWhere(AtMost(Cut(c, pw, p)), c.cyc) >= Index(pw, |c.sorted|, p) + 1
    ensures p == PERCENTILES ==> CountWhere(AtMost(Cut(c, pw, p)), c.cyc) == |c.cyc|
  {
    var cut := Cut(c, pw, p);
    SameLength(c);
    IndexInRange(pw, |c.sorted|, p);
    if p < PERCENTILES {
      PrefixKept(c.sorted, Index(pw, |c.sorted|, p), cut);
      CountWherePermuted(AtMost(cut), c.sorted, c.cyc);
    } else {
      CountWhereBound(AtMost(cut), c.cyc);
    }
  }

  ghost function Below(cut: nat): nat -> bool { (x: nat) => x < cut }

  lemma NoneBelow(s: seq<nat>, v: nat)
    requires forall k | 0 <= k < |s| :: v <= s[k]
    ensures CountWhere(Below(v), s) == 0
  {
    CountWhereBound(Below(v), s);
  }

  lemma PrefixBelow(s: seq<nat>, i: nat)
    requires i < |s| && Ascending(s)
    ensures CountWhere(Below(s[i]), s) <= i
  {
    var v, rest := s[i], s[i..];
    forall k | 0 <= k < |rest|
      ensures v <= rest[k]
    {
      assert rest[k] == s[i + k];
    }
    CountWhereBound(Below(v), s[..i]);
    NoneBelow(rest, v);
    CountWhereSplit(Below(v), s, i);
  }

  lemma FloorBetween(v: real, i: int, a: nat, b: nat)
    requires i == v.Floor && b <= i < a
    ensures b as real <= v < a as real
  {
  }

  lemma CutCounts(c: Campaign, pw: nat -> real, p: nat)
    requires Measured(c) && Halving(pw) && p < PERCENTILES
    ensures var i, cut := Index(pw, |c.sorted|, p), Cut(c, pw, p);
            CountWhere(Below(cut), c.cyc) <= i < CountWhere(AtMost(cut), c.cyc) && cut in c.cyc
  {
    var i, cut := Index(pw, |c.sorted|, p), Cut(c, pw, p);
    SameLength(c);
    IndexInRange(pw, |c.sorted|, p);
    CutKeeps(c, pw, p);
    PrefixBelow(c.sorted, i);
    CountWherePermuted(Below(cut), c.sorted, c.cyc);
    assert c.sorted[i] in multiset(c.sorted);
    assert cut in multiset(c.cyc);
  }

  /** The cut of a pass is the quantile of its percentile: more than the fraction `1 - pw(p)` of all
      measurements lie at or below it, and at most that fraction strictly below. */
  lemma CutIsQuantile(c: Campaign, pw: nat -> real, p: nat)
    requires Measured(c) && Halving(pw) && p < 100
    ensures CountWhere(AtMost(Cut(c, pw, p)), c.cyc) as real > (1.0 - pw(p)) * (|c.cyc| as real)
    ensures CountWhere(Below(Cut(c, pw, p)), c.cyc) as real <= (1.0 - pw(p)) * (|c.cyc| as real)
    ensures Cut(c, pw, p) in c.cyc
  {
    var i, cut := Index(pw, |c.sorted|, p), Cut(c, pw, p);
    SameLength(c);
    CutCounts(c, pw, p);
    FloorBetween((1.0 - pw(p)) * (|c.cyc| as real), i,
                 CountWhere(AtMost(cut), c.cyc), CountWhere(Below(cut), c.cyc));
  }

  /** The two classes partition what a cut keeps. */
  lemma {:induction false} ClassesPartition(c: Campaign, cut: nat, n: nat)
    requires n <= |c.cyc| && n <= |c.cls|
    ensures |Kept(c, cut, false, n)| + |Kept(c, cut, true, n)| == CountWhere(AtMost(cut), c.cyc[..n])
  {
    if n == 0 {
      assert c.cyc[..0] == [];
    } else {
      assert c.cyc[..n][..n - 1] == c.cyc[..n - 1];
      ClassesPartition(c, cut, n - 1);
    }
  }

  /** Whether measurement `i` is one of value `v` that the class keeps. */
  function KeptAs(c: Campaign, cut: nat, cl: bool, v: real): nat -> nat {
    (i: nat) =>
      if i < |c.cyc| && i < |c.cls| && c.cyc[i] <= cut && c.cls[i] == cl && c.cyc[i] as real == v then 1 else 0
  }

  lemma OneMoreOf(s: seq<real>, x: real, v: real)
    ensures multiset(s + [x])[v] == multiset(s)[v] + (if x == v then 1 else 0)
  {
  }

  /** What a class keeps: its measurements up to the cut, each as often as it was measured. */
  lemma {:induction false} KeptExactly(c: Campaign, cut: nat, cl: bool, n: nat, v: real)
    requires n <= |c.cyc| && n <= |c.cls|
    ensures multiset(Kept(c, cut, cl, n))[v] == SumTo(KeptAs(c, cut, cl, v), n)
  {
    if n != 0 {
      KeptExactly(c, cut, cl, n - 1, v);
      OneMoreOf(Kept(c, cut, cl, n - 1), c.cyc[n - 1] as real, v);
    }
  }

  // ----- the passes

  function Abs(x: real): real { if x < 0.0 then -x else x }

  /** The t statistic of pass `p`. */
  function PassT(c: Campaign, pw: nat -> real, sqrt: real -> real, p: nat): real
    requires Measured(c) && Halving(pw)
  {
    var cut, n := Cut(c, pw, p), |c.cyc|;
    WelchT(sqrt, StatOf(Kept(c, cut, false, n)), StatOf(Kept(c, cut, true, n)))
  }

  /** The accumulator holds what the class keeps of the first `n` measurements. */
  ghost predicate Holds(t: TStat, c: Campaign, cut: nat, cl: bool, n: nat)
    requires n <= |c.cyc| && n <= |c.cls|
    reads t
  {
    t.Valid() && t.samples == Kept(c, cut, cl, n)
  }

  /** One turn of the inner loop. */
  method Accumulate(c: Campaign, cut: nat, i: nat, zero: TStat, one: TStat)
    requires i < |c.cyc| == |c.cls| && zero != one
    requires Holds(zero, c, cut, false, i) && Holds(one, c, cut, true, i)
    modifies zero, one
    ensures Holds(zero, c, cut, false, i + 1) && Holds(one, c, cut, true, i + 1)
  {
    if c.cyc[i] <= cut {
      if c.cls[i] {
        one.Push(c.cyc[i] as real);
      } else {
        zero.Push(c.cyc[i] as real);
      }
    }
  }

  /** The inner loop: one pass over the measurements with a fixed cut, into two fresh accumulators. */
  method RunPass(c: Campaign, cut: nat) returns (a: Stat, b: Stat)
    requires |c.cls| == |c.cyc|
    ensures a == StatOf(Kept(c, cut, false, |c.cyc|)) && b == StatOf(Kept(c, cut, true, |c.cyc|))
  {
    var zero := new TStat();
    var one := new TStat();
    for i := 0 to |c.cyc|
      invariant zero != one && fresh(zero) && fresh(one)
      invariant Holds(zero, c, cut, false, i) && Holds(one, c, cut, true, i)
    {
      Accumulate(c, cut, i, zero, one);
    }
    a, b := zero.Value(), one.Value();
  }

  /** Pass `p` is the first whose |t| is `m`, all before it being smaller, and its cut is `cut`. */
  ghost predicate FirstWith(c: Campaign, pw: nat -> real, sqrt: real -> real, p: nat, m: real, cut: nat)
    requires Measured(c) && Halving(pw)
  {
    && Abs(PassT(c, pw, sqrt, p)) == m && cut == Cut(c, pw, p)
    && forall q: nat | q < p :: Abs(PassT(c, pw, sqrt, q)) < m
  }

  /** The outer loop: the largest |t| over all passes, and the cut of the first pass that has it. */
  method LargestT(c: Campaign, pw: nat -> real, sqrt: real -> real) returns (maxAbsT: real, bestCut: nat)
    requires Measured(c) && Halving(pw)
    ensures forall p | 0 <= p <= PERCENTILES :: Abs(PassT(c, pw, sqrt, p)) <= maxAbsT
    ensures maxAbsT == 0.0 ==> bestCut == 0
    ensures maxAbsT != 0.0 ==> exists p: nat :: p <= PERCENTILES && FirstWith(c, pw, sqrt, p, maxAbsT, bestCut)
  {
    maxAbsT, bestCut := 0.0, 0;
    ghost var first: nat := 0;
    for p := 0 to PERCENTILES + 1
      invariant maxAbsT >= 0.0
      invariant forall q | 0 <= q < p :: Abs(PassT(c, pw, sqrt, q)) <= maxAbsT
      invariant maxAbsT == 0.0 ==> bestCut == 0
      invariant maxAbsT != 0.0 ==> first < p && FirstWith(c, pw, sqrt, first, maxAbsT, bestCut)
    {
      var cut := Cut(c, pw, p);
      var a, b := RunPass(c, cut);
      var t := WelchT(sqrt, a, b);
      assert t == PassT(c, pw, sqrt, p);
      if Abs(t) > maxAbsT {
        maxAbsT, bestCut, first := Abs(t), cut, p;
        assert FirstWith(c, pw, sqrt, p, maxAbsT, bestCut);
      }
    }
  }

  // ----- the verdict

  /** strstr */
  predicate Contains(s: string, t: string) {
    t <= s || (s != "" && Contains(s[1..], t))
  }

  ghost predicate StandsAt(s: string, t: string, i: nat) {
    i + |t| <= |s| && s[i..i + |t|] == t
  }

  lemma StandsLater(s: string, t: string, i: nat)
    requires s != ""
    ensures StandsAt(s, t, i + 1) <==> StandsAt(s[1..], t, i)
  {
    if i + 1 + |t| <= |s| {
      assert s[i + 1..i + 1 + |t|] == s[1..][i..i + |t|];
    }
  }

  lemma StandsFirst(s: string, t: string)
    ensures StandsAt(s, t, 0) <==> t <= s
  {
  }

  /** strstr finds the second text exactly where it stands as a whole inside the first. */
  lemma {:induction false} ContainsIff(s: string, t: string)
    ensures Contains(s, t) <==> exists i: nat :: StandsAt(s, t, i)
  {
    StandsFirst(s, t);
    if s != "" {
      ContainsIff(s[1..], t);
      if i: nat :| StandsAt(s[1..], t, i) {
        StandsLater(s, t, i);
      }
      if i: nat :| StandsAt(s, t, i) {
        if 0 < i {
          StandsLater(s, t, i - 1);
        }
      }
    }
  }

  /** expect_constant_time: decapsulation always, signing unless the scheme samples by design. */
  predicate ExpectConstantTime(kem: bool, alg: string) {
    kem || !(Contains(alg, "ML-DSA") || Contains(alg, "Dilithium") || Contains(alg, "Falcon"))
  }

  datatype Verdict = Ok | Finding | ExpectedVartime | OkUnexpectedlyCt

  /** Some pass exceeds the threshold. */
  ghost predicate Leaks(c: Campaign, pw: nat -> real, sqrt: real -> real)
    requires Measured(c) && Halving(pw)
  {
    exists p :: 0 <= p <= 100 && Abs(PassT(c, pw, sqrt, p)) > 4.5
  }

  /** The verdict of a campaign: a leak is reported exactly when some pass exceeds the threshold, as
      a finding exactly when the operation is expected to run in constant time. */
  method Judge(c: Campaign, pw: nat -> real, sqrt: real -> real, kem: bool, alg: string) returns (v: Verdict)
    requires Measured(c) && Halving(pw)
    ensures v == Finding || v == ExpectedVartime <==> Leaks(c, pw, sqrt)
    ensures v == Finding || v == Ok <==> ExpectConstantTime(kem, alg)
  {
    var maxAbsT, bestCut := LargestT(c, pw, sqrt);
    var leaked := maxAbsT > THRESHOLD;
    var ect := ExpectConstantTime(kem, alg);
    v := if ect then (if leaked then Finding else Ok)
         else (if leaked then ExpectedVartime else OkUnexpectedlyCt);
  }

  /** Exchanging the two classes changes the sign of every t, hence no verdict. */
  lemma {:induction false} KeptExchanged(c: Campaign, c': Campaign, cut: nat, cl: bool, n: nat)
    requires n <= |c.cyc| == |c.cls| && c'.cyc == c.cyc && |c'.cls| == |c.cls|
    requires forall i | 0 <= i < |c.cls| :: c'.cls[i] == !c.cls[i]
    ensures Kept(c', cut, cl, n) == Kept(c, cut, !cl, n)
  {
    if n != 0 {
      KeptExchanged(c, c', cut, cl, n - 1);
    }
  }

  lemma ClassesExchangeable(c: Campaign, c': Campaign, pw: nat -> real, sqrt: real -> real)
    requires Measured(c) && Halving(pw)
    requires c'.cyc == c.cyc && c'.sorted == c.sorted && |c'.cls| == |c.cls|
    requires forall i | 0 <= i < |c.cls| :: c'.cls[i] == !c.cls[i]
    ensures Measured(c') && (Leaks(c', pw, sqrt) <==> Leaks(c, pw, sqrt))
  {
    forall p | 0 <= p <= PERCENTILES
      ensures Abs(PassT(c', pw, sqrt, p)) == Abs(PassT(c, pw, sqrt, p))
    {
      var cut, n := Cut(c, pw, p), |c.cyc|;
      KeptExchanged(c, c', cut, true, n);
      KeptExchanged(c, c', cut, false, n);
      WelchAntisymmetric(sqrt, StatOf(Kept(c, cut, false, n)), StatOf(Kept(c, cut, true, n)));
    }
  }
}
