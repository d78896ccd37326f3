/** The SplitMix64 generator that feeds keys and test vectors, and the FNV-1a fold that seeds it. */
module Generator {
  import opened Iteration
  import opened Words

  // ----- the mixing function

  function XorShift30(z: bv64): bv64 { z ^ (z >> 30) }
  function XorShift27(z: bv64): bv64 { z ^ (z >> 27) }
  function XorShift31(z: bv64): bv64 { z ^ (z >> 31) }
  function Times1(z: bv64): bv64 { z * 0xBF58476D1CE4E5B9 }
  function Times2(z: bv64): bv64 { z * 0x94D049BB133111EB }

  /** The finalizer: two xor-shift-multiply rounds and a last xor-shift. */
  function Mix(s: bv64): bv64 {
    XorShift31(Times2(XorShift27(Times1(XorShift30(s)))))
  }

  function UnXorShift30(z: bv64): bv64 { z ^ (z >> 30) ^ (z >> 60) }
  function UnXorShift27(z: bv64): bv64 { z ^ (z >> 27) ^ (z >> 54) }
  function UnXorShift31(z: bv64): bv64 { z ^ (z >> 31) ^ (z >> 62) }
  function Untimes1(z: bv64): bv64 { z * 0x96DE1B173F119089 }
  function Untimes2(z: bv64): bv64 { z * 0x319642B2D24D8EC3 }

  /** The rounds undone, last first. */
  function Unmix(r: bv64): bv64 {
    UnXorShift30(Untimes1(UnXorShift27(Untimes2(UnXorShift31(r)))))
  }

  lemma XorShift30Bijective(z: bv64)
    ensures UnXorShift30(XorShift30(z)) == z && XorShift30(UnXorShift30(z)) == z
  {
    assert UnXorShift30(z ^ (z >> 30)) == z;
    assert XorShift30(z ^ (z >> 30) ^ (z >> 60)) == z;
  }

  lemma XorShift27Bijective(z: bv64)
    ensures UnXorShift27(XorShift27(z)) == z && XorShift27(UnXorShift27(z)) == z
  {
    assert UnXorShift27(z ^ (z >> 27)) == z;
    assert XorShift27(z ^ (z >> 27) ^ (z >> 54)) == z;
  }

  lemma XorShift31Bijective(z: bv64)
    ensures UnXorShift31(XorShift31(z)) == z && XorShift31(UnXorShift31(z)) == z
  {
    assert UnXorShift31(z ^ (z >> 31)) == z;
    assert XorShift31(z ^ (z >> 31) ^ (z >> 62)) == z;
  }

  lemma Times1Bijective(z: bv64)
    ensures Untimes1(Times1(z)) == z && Times1(Untimes1(z)) == z
  {
    assert Untimes1(z * 0xBF58476D1CE4E5B9) == z;
    assert Times1(z * 0x96DE1B173F119089) == z;
  }

  lemma Times2Bijective(z: bv64)
    ensures Untimes2(Times2(z)) == z && Times2(Untimes2(z)) == z
  {
    assert Untimes2(z * 0x94D049BB133111EB) == z;
    assert Times2(z * 0x319642B2D24D8EC3) == z;
  }

  /** The finalizer is a bijection on 64-bit words. */
  lemma MixBijective(z: bv64)
    ensures Unmix(Mix(z)) == z
    ensures Mix(Unmix(z)) == z
  {
    XorShift30Bijective(z);
    Times1Bijective(XorShift30(z));
    XorShift27Bijective(Times1(XorShift30(z)));
    Times2Bijective(XorShift27(Times1(XorShift30(z))));
    XorShift31Bijective(Times2(XorShift27(Times1(XorShift30(z)))));
    XorShift31Bijective(z);
    Times2Bijective(UnXorShift31(z));
    XorShift27Bijective(Untimes2(UnXorShift31(z)));
    Times1Bijective(UnXorShift27(Untimes2(UnXorShift31(z))));
    XorShift30Bijective(Untimes1(UnXorShift27(Untimes2(UnXorShift31(z)))));
  }

  // ----- the sequence of states and outputs

  function Advance(s: bv64): bv64 { s + 0x9E3779B97F4A7C15 }

  function StateAfter(s: bv64, n: nat): bv64 {
    Iterate(Advance, s, n)
  }

  /** The `i`-th word produced from state `s`. */
  function Output(s: bv64, i: nat): bv64 {
    Mix(StateAfter(s, i + 1))
  }

  /** The state `c` steps after `s`, in closed form, and the number of steps from `s` to `t`. */
  function StateAt(s: bv64, c: bv64): bv64 { s + c * 0x9E3779B97F4A7C15 }
  function StepsTo(s: bv64, t: bv64): bv64 { (t - s) * 0xF1DE83E19937733D }

  lemma StateAtBijective(s: bv64, c: bv64)
    ensures StepsTo(s, StateAt(s, c)) == c && StateAt(s, StepsTo(s, c)) == c
  {
    assert StepsTo(s, s + c * 0x9E3779B97F4A7C15) == c;
    assert StateAt(s, (c - s) * 0xF1DE83E19937733D) == c;
  }

  lemma StateAtNext(s: bv64, c: bv64)
    ensures StateAt(s, PlusOne(c)) == Advance(StateAt(s, c)) && StateAt(s, 0) == s
  {
    assert StateAt(s, c + 1) == s + c * 0x9E3779B97F4A7C15 + 0x9E3779B97F4A7C15;
    assert Advance(s + c * 0x9E3779B97F4A7C15) == s + c * 0x9E3779B97F4A7C15 + 0x9E3779B97F4A7C15;
  }

  /** Stepping by the odd constant is counting, seen through `StateAt`. */
  lemma StateCounts(s: bv64)
    ensures Maps(PlusOne, Advance, c => StateAt(s, c))
    ensures forall c: bv64 :: StepsTo(s, StateAt(s, c)) == c
    ensures StateAt(s, 0) == s
  {
    forall c: bv64
      ensures StateAt(s, PlusOne(c)) == Advance(StateAt(s, c)) && StepsTo(s, StateAt(s, c)) == c
    {
      StateAtNext(s, c);
      StateAtBijective(s, c);
    }
    StateAtNext(s, 0);
  }

  /** The state returns exactly after each 2^64 steps. */
  lemma StatePeriod(s: bv64, m: nat, n: nat)
    ensures StateAfter(s, m) == StateAfter(s, n) <==> m % WORDS == n % WORDS
  {
    WordLawful();
    StateCounts(s);
    CountPeriod(Word64(), Advance, c => StateAt(s, c), t => StepsTo(s, t), m, n);
  }

  lemma StateReaches(s: bv64, t: bv64) returns (n: nat)
    ensures n < WORDS && StateAfter(s, n) == t
  {
    n := Value(Word64(), StepsTo(s, t));
    WordLawful();
    StateCounts(s);
    StateAtBijective(s, t);
    CountReaches(Word64(), Advance, c => StateAt(s, c), StepsTo(s, t));
  }

  lemma OutputsFromStates(s: bv64, i: nat, j: nat)
    ensures Output(s, i) == Output(s, j) <==> StateAfter(s, i + 1) == StateAfter(s, j + 1)
  {
    MixBijective(StateAfter(s, i + 1));
    MixBijective(StateAfter(s, j + 1));
  }

  /** Outputs `i` and `j` agree exactly when `i` and `j` do modulo 2^64, so 2^64 consecutive
      outputs are pairwise distinct. */
  lemma OutputPeriod(s: bv64, i: nat, j: nat)
    ensures Output(s, i) == Output(s, j) <==> i % WORDS == j % WORDS
  {
    OutputsFromStates(s, i, j);
    StatePeriod(s, i + 1, j + 1);
  }

  lemma OutputIs(s: bv64, i: nat, r: bv64)
    requires StateAfter(s, i + 1) == Unmix(r)
    ensures Output(s, i) == r
  {
    MixBijective(r);
  }

  /** The generator has full period: every 64-bit word is among the first 2^64 outputs. */
  lemma OutputReaches(s: bv64, r: bv64) returns (i: nat)
    ensures i < WORDS && Output(s, i) == r
  {
    var n := StateReaches(s, Unmix(r));
    if n == 0 {
      i := WORDS - 1;
      StatePeriod(s, 0, WORDS);
    } else {
      i := n - 1;
    }
    OutputIs(s, i, r);
  }

  lemma MixedWords()
    ensures Mix(0x9E3779B97F4A7C15) == 0xE220A8397B1DCDAF
    ensures Mix(0x3C6EF372FE94F82A) == 0x6E789E6AA1B965F4
  {
  }

  lemma SteppedTwice()
    ensures Advance(0) == 0x9E3779B97F4A7C15 && Advance(0x9E3779B97F4A7C15) == 0x3C6EF372FE94F82A
  {
  }

  /** The first two words from state zero, as every SplitMix64 gives them. */
  lemma KnownOutputs()
    ensures Output(0, 0) == 0xE220A8397B1DCDAF && Output(0, 1) == 0x6E789E6AA1B965F4
  {
    SteppedTwice();
    MixedWords();
    IterateLast(Advance, 0, 0);
    IterateLast(Advance, 0, 1);
  }

  // ----- the byte stream

  /** Byte `j` of a request: byte `j % 8`, in little-endian order, of word `j / 8`. */
  function StreamByte(s: bv64, j: nat): bv8 {
    ByteAt(Output(s, j / 8), j % 8)
  }

  function Stream(s: bv64, n: nat): seq<bv8> {
    seq(n, j requires 0 <= j => StreamByte(s, j))
  }

  /** The number of words that a request of `n` bytes draws. */
  function WordsFor(n: nat): nat { (n + 7) / 8 }

  lemma OutputShift(s: bv64, m: nat, i: nat)
    ensures Output(StateAfter(s, m), i) == Output(s, m + i)
  {
    IterateAppend(Advance, s, m, i + 1);
    assert m + i + 1 == m + (i + 1);
  }

  lemma StreamSplitByte(s: bv64, a: nat, j: nat)
    requires a % 8 == 0
    ensures StreamByte(StateAfter(s, WordsFor(a)), j) == StreamByte(s, a + j)
  {
    OutputShift(s, a / 8, j / 8);
    assert WordsFor(a) == a / 8;
    assert (a + j) / 8 == a / 8 + j / 8 && (a + j) % 8 == j % 8;
  }

  lemma ChunkBytes(s: bv64, i: nat)
    requires i % 8 == 0
    ensures forall k: nat | i <= k < i + 8 :: StreamByte(s, k) == ByteAt(Output(s, i / 8), k - i)
  {
  }

  lemma WordCount(i: nat, n: nat)
    requires i < n && i % 8 == 0
    ensures WordsFor(i) == i / 8
    ensures WordsFor(i + if n - i < 8 then n - i else 8) == i / 8 + 1
  {
  }

  lemma NextState(s: bv64, m: nat)
    ensures StateAfter(StateAfter(s, m), 1) == StateAfter(s, m + 1)
  {
    IterateAppend(Advance, s, m, 1);
  }

  lemma NextWord(s: bv64, m: nat)
    ensures Output(StateAfter(s, m), 0) == Output(s, m)
    ensures StateAfter(StateAfter(s, m), 1) == StateAfter(s, m + 1)
  {
    OutputShift(s, m, 0);
    NextState(s, m);
  }

  /** The word that bytes denote, the first being the least significant. */
  function FromBytes(b: seq<bv8>): bv64 {
    if b == [] then 0 else Join(b[0], FromBytes(b[1..]))
  }

  lemma {:induction false} FromLowBytes(w: bv64, b: seq<bv8>)
    requires forall i | 0 <= i < |b| :: b[i] == ByteAt(w, i)
    requires Iterate(Shift8, w, |b|) == 0
    ensures FromBytes(b) == w
  {
    if b != [] {
      forall i | 0 <= i < |b| - 1
        ensures b[1..][i] == ByteAt(Shift8(w), i)
      {
        assert b[1..][i] == b[i + 1];
      }
      FromLowBytes(Shift8(w), b[1..]);
      assert b[0] == ByteAt(w, 0) == LowByte(w);
      JoinsWord(w);
    }
  }

  /** Eight bytes of the stream from a word boundary are a word, least significant byte first. */
  lemma StreamWord(s: bv64, k: nat, n: nat)
    requires 8 * k + 8 <= n
    ensures FromBytes(Stream(s, n)[8 * k..8 * k + 8]) == Output(s, k)
  {
    var b := Stream(s, n)[8 * k..8 * k + 8];
    ChunkBytes(s, 8 * k);
    forall i | 0 <= i < 8
      ensures b[i] == ByteAt(Output(s, k), i)
    {
      assert b[i] == StreamByte(s, 8 * k + i);
    }
    ShiftedOut(Output(s, k));
    FromLowBytes(Output(s, k), b);
  }

  /** Both ways of asking for `a + b` bytes. */
  ghost predicate Splits(s: bv64, a: nat, b: nat) {
    Stream(s, a + b) == Stream(s, a) + Stream(StateAfter(s, WordsFor(a)), b)
  }

  lemma Joined(whole: seq<bv8>, left: seq<bv8>, right: seq<bv8>)
    requires |whole| == |left| + |right|
    requires forall k | 0 <= k < |left| :: whole[k] == left[k]
    requires forall k | 0 <= k < |right| :: whole[|left| + k] == right[k]
    ensures whole == left + right
  {
    forall k | |left| <= k < |whole|
      ensures whole[k] == right[k - |left|]
    {
      assert whole[|left| + (k - |left|)] == right[k - |left|];
    }
  }

  lemma AlignedSplits(s: bv64, a: nat, b: nat)
    requires a % 8 == 0 || b == 0
    ensures Splits(s, a, b)
  {
    var left, right := Stream(s, a), Stream(StateAfter(s, WordsFor(a)), b);
    forall k | 0 <= k < b
      ensures Stream(s, a + b)[a + k] == right[k]
    {
      StreamSplitByte(s, a, k);
    }
    Joined(Stream(s, a + b), left, right);
  }

  lemma Undo(t: bv64)
    ensures (0 - t) + t == 0
  {
  }

  lemma PlusAdvance(s: bv64, t: bv64)
    ensures Plus(s, Advance(t)) == Advance(Plus(s, t))
    ensures Plus(s, 0) == s
  {
    assert Plus(s, t + 0x9E3779B97F4A7C15) == s + t + 0x9E3779B97F4A7C15;
    assert Advance(s + t) == s + t + 0x9E3779B97F4A7C15;
  }

  /** Some state is at zero after `n` steps. */
  lemma StateBeforeZero(n: nat) returns (s: bv64)
    ensures StateAfter(s, n) == 0
  {
    var t := StateAfter(0, n);
    s := 0 - t;
    forall x: bv64
      ensures Plus(s, Advance(x)) == Advance(Plus(s, x))
    {
      PlusAdvance(s, x);
    }
    IterateMapped(Advance, Advance, x => Plus(s, x), 0, n);
    PlusAdvance(s, 0);
    Undo(t);
  }

  lemma MixZero()
    ensures Mix(0) == 0
    ensures LowByte(Mix(Advance(0))) == 0xAF
  {
  }

  lemma ZeroBytes(i: nat)
    ensures ByteAt(0, i) == 0
  {
    if i != 0 {
      ZeroBytes(i - 1);
      assert Shift8(0) == 0;
    }
  }

  /** From the state before zero the last word drawn for `a` bytes is all zero, and the next word is
      not: a split inside that word shows. */
  lemma MisalignedDoesNotSplit(a: nat, b: nat) returns (s: bv64)
    requires a % 8 != 0 && b != 0
    ensures !Splits(s, a, b)
  {
    var w := WordsFor(a);
    s := StateBeforeZero(w);
    assert a / 8 == w - 1;
    MixZero();
    ZeroBytes(a % 8);
    assert Stream(s, a + b)[a] == StreamByte(s, a) == 0;
    var t := Stream(StateAfter(s, w), b);
    assert Iterate(Advance, 0, 1) == Iterate(Advance, Advance(0), 0);
    assert t[0] == StreamByte(0, 0) == LowByte(Mix(Advance(0)));
    assert (Stream(s, a) + t)[a] == t[0];
  }

  /** A request of `a + b` bytes equals a request of `a` followed by one of `b`, from every state,
      exactly when the first ends on a word boundary (or the second is empty). */
  lemma SplitIffAligned(a: nat, b: nat)
    ensures (forall s :: Splits(s, a, b)) <==> a % 8 == 0 || b == 0
  {
    if a % 8 == 0 || b == 0 {
      forall s {
        AlignedSplits(s, a, b);
      }
    } else {
      var s := MisalignedDoesNotSplit(a, b);
    }
  }

  // ----- seeding

  const FNV_OFFSET: bv64 := 0xcbf29ce484222325
  const FALLBACK: bv64 := 0x1234567890abcdef

  function XorByte(s: bv64, b: bv8): bv64 { s ^ (b as bv64) }
  function TimesPrime(s: bv64): bv64 { s * 0x100000001b3 }
  function FnvStep(s: bv64, b: bv8): bv64 { TimesPrime(XorByte(s, b)) }

  /** The XOR-then-multiply loop over `buf`, from `s`. */
  function Fold(s: bv64, buf: seq<bv8>): bv64 {
    if buf == [] then s else FnvStep(Fold(s, buf[..|buf| - 1]), buf[|buf| - 1])
  }

  /** The state that is stored: never zero. */
  function Stored(s: bv64): bv64 {
    if s != 0 then s else FALLBACK
  }

  function OverPrime(t: bv64): bv64 { t * 0xce965057aff6957b }

  lemma TimesPrimeUndone(s: bv64)
    ensures OverPrime(TimesPrime(s)) == s
  {
    assert OverPrime(s * 0x100000001b3) == s;
  }

  lemma XorByteUndone(s: bv64, b: bv8)
    ensures XorByte(XorByte(s, b), b) == s
  {
    assert XorByte(s ^ (b as bv64), b) == s;
  }

  function XorWord(s: bv64, t: bv64): bv8 { ((s ^ t) & 0xFF) as bv8 }

  lemma XoredByte(s: bv64, b: bv8)
    ensures XorWord(s, XorByte(s, b)) == b
  {
    assert XorWord(s, s ^ (b as bv64)) == b;
  }

  lemma OverPrimeExact(t: bv64)
    ensures TimesPrime(OverPrime(t)) == t
  {
    assert TimesPrime(t * 0xce965057aff6957b) == t;
  }

  /** The last step is undone by dividing by the prime and then XORing the byte away: the byte goes in
      before the multiplication. */
  lemma FoldUndone(s: bv64, buf: seq<bv8>, b: bv8)
    ensures Fold(s, []) == s
    ensures XorByte(OverPrime(Fold(s, buf + [b])), b) == Fold(s, buf)
  {
    assert (buf + [b])[..|buf|] == buf;
    TimesPrimeUndone(XorByte(Fold(s, buf), b));
    XorByteUndone(Fold(s, buf), b);
  }

  lemma FoldStep(s: bv64, b: bv8)
    ensures Fold(s, [b]) == TimesPrime(XorByte(s, b))
  {
    assert [b][..0] == [];
  }

  lemma StepOfA()
    ensures TimesPrime(XorByte(0xcbf29ce484222325, 0x61)) == 0xaf63dc4c8601ec8c
  {
  }

  /** The fold of the single byte "a", and the values that are stored for no bytes and for zero. */
  lemma FoldOfA()
    ensures Fold(FNV_OFFSET, [0x61]) == 0xaf63dc4c8601ec8c
    ensures Stored(Fold(FNV_OFFSET, [])) == 0xcbf29ce484222325 && Stored(0) == 0x1234567890abcdef
  {
    FoldStep(FNV_OFFSET, 0x61);
    StepOfA();
  }

  /** The step is injective in the state, and in the byte. */
  lemma FnvStepInjective(s: bv64, t: bv64, a: bv8, b: bv8)
    ensures FnvStep(s, a) == FnvStep(t, a) ==> s == t
    ensures FnvStep(s, a) == FnvStep(s, b) ==> a == b
  {
    TimesPrimeUndone(XorByte(s, a));
    TimesPrimeUndone(XorByte(t, a));
    TimesPrimeUndone(XorByte(s, b));
    XorByteUndone(s, a);
    XorByteUndone(t, a);
    XoredByte(s, a);
    XoredByte(s, b);
  }

  ghost predicate OneByteApart(a: seq<bv8>, b: seq<bv8>, i: nat) {
    i < |a| == |b| && a[i] != b[i] && forall j | 0 <= j < |a| && j != i :: a[j] == b[j]
  }

  /** Buffers that differ in one byte never fold to the same value. */
  lemma {:induction false} FoldSeparates(s: bv64, a: seq<bv8>, b: seq<bv8>, i: nat)
    requires OneByteApart(a, b, i)
    ensures Fold(s, a) != Fold(s, b)
  {
    var n := |a| - 1;
    FnvStepInjective(Fold(s, a[..n]), Fold(s, b[..n]), a[n], b[n]);
    if i == n {
      assert a[..n] == b[..n];
    } else {
      FoldSeparates(s, a[..n], b[..n], i);
    }
  }

  lemma StoredEqual(x: bv64, y: bv64)
    requires x != y
    ensures Stored(x) != 0 && (Stored(x) == Stored(y) <==> {x, y} == {0, FALLBACK})
  {
    assert x in {x, y} && y in {x, y};
  }

  /** The stored states coincide only when one fold is zero and the other is the fallback value. */
  lemma StoredSeparates(a: seq<bv8>, b: seq<bv8>, i: nat)
    requires OneByteApart(a, b, i)
    ensures Stored(Fold(FNV_OFFSET, a)) != 0
    ensures Stored(Fold(FNV_OFFSET, a)) == Stored(Fold(FNV_OFFSET, b)) <==>
            {Fold(FNV_OFFSET, a), Fold(FNV_OFFSET, b)} == {0, FALLBACK}
  {
    FoldSeparates(FNV_OFFSET, a, b, i);
    StoredEqual(Fold(FNV_OFFSET, a), Fold(FNV_OFFSET, b));
  }

  // ----- the code

  /** The engine's generator. */
  class Prng {
    var state: bv64

    /** cmf_splitmix64. */
    method Next() returns (r: bv64)
      modifies this
      ensures state == StateAfter(old(state), 1)
      ensures r == Output(old(state), 0)
    {
      state := Advance(state);
      r := Mix(state);
    }

    /** cmf_prng_seed. */
    method Seed(buf: seq<bv8>)
      modifies this
      ensures state == Stored(Fold(FNV_OFFSET, buf)) && state != 0
    {
      var s := FNV_OFFSET;
      for i := 0 to |buf|
        invariant s == Fold(FNV_OFFSET, buf[..i])
      {
        assert buf[..i + 1][..i] == buf[..i];
        s := FnvStep(s, buf[i]);
      }
      assert buf[..|buf|] == buf;
      state := if s != 0 then s else FALLBACK;
    }

    /** cmf_randombytes, filling the whole of `out`. */
    method RandomBytes(out: array<bv8>)
      modifies this, out
      ensures out[..] == Stream(old(state), out.Length)
      ensures state == StateAfter(old(state), WordsFor(out.Length))
    {
      var n, i := out.Length, 0;
      ghost var s := state;
      while i < n
        invariant 0 <= i <= n && (i % 8 == 0 || i == n)
        invariant state == StateAfter(s, WordsFor(i))
        invariant forall k :: 0 <= k < i ==> out[k] == StreamByte(s, k)
      {
        var r := Next();
        NextWord(s, i / 8);
        WordCount(i, n);
        var chunk := if n - i < 8 then n - i else 8;
        forall k | 0 <= k < chunk {
          out[i + k] := ByteAt(r, k);
        }
        ChunkBytes(s, i);
        assert forall k :: i <= k < i + chunk ==> out[k] == out[i + (k - i)] == StreamByte(s, k);
        i := i + chunk;
      }
    }
  }

  /** The differential runner's own generator. */
  class VectorSource {
    var state: bv64

    /** rnd: the same words from the same state. */
    method Rnd() returns (z: bv64)
      modifies this
      ensures state == StateAfter(old(state), 1)
      ensures z == Output(old(state), 0)
    {
      state := Advance(state);
      z := XorShift30(state);
      z := Times1(z);
      z := XorShift27(z);
      z := Times2(z);
      z := XorShift31(z);
    }

    /** rnd_bytes: one word for each byte. */
    method RndBytes(b: array<bv8>, from: nat, n: nat)
      requires from + n <= b.Length
      modifies this, b
      ensures state == StateAfter(old(state), n)
      ensures forall k :: 0 <= k < n ==> b[from + k] == LowByte(Output(old(state), k))
      ensures forall k :: 0 <= k < b.Length && !(from <= k < from + n) ==> b[k] == old(b[k])
    {
      ghost var s := state;
      for i := 0 to n
        invariant state == StateAfter(s, i)
        invariant forall k :: 0 <= k < i ==> b[from + k] == LowByte(Output(s, k))
        invariant forall k :: 0 <= k < b.Length && !(from <= k < from + i) ==> b[k] == old(b[k])
      {
        NextWord(s, i);
        var w := Rnd();
        b[from + i] := LowByte(w);
      }
    }
  }
}
