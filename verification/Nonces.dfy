/** The 12-byte AEAD nonces: the TLS 1.3 record nonce (section 5.3 of RFC 8446) and the counter
    nonce source of the AEAD sequence harness. */
module Nonces {
  import opened Bytes
  import opened Iteration
  import opened Words

  const NONCE_LEN: nat := 12

  /** The low `k` bytes of `w`, most significant first. */
  function BigEndian(w: bv64, k: nat): seq<bv8> {
    seq(k, i requires 0 <= i < k => ByteAt(w, k - 1 - i))
  }

  /** The word that big-endian bytes denote. */
  function ReadWord(b: seq<bv8>): bv64 {
    if b == [] then 0 else Join(b[|b| - 1], ReadWord(b[..|b| - 1]))
  }

  lemma ByteAtShift(w: bv64, i: nat)
    ensures ByteAt(w, i + 1) == ByteAt(Shift8(w), i)
  {
  }

  lemma {:induction false} ReadBigEndian(w: bv64, k: nat)
    requires Iterate(Shift8, w, k) == 0
    ensures ReadWord(BigEndian(w, k)) == w
  {
    if k != 0 {
      var b := BigEndian(w, k);
      forall i | 0 <= i < k - 1
        ensures b[i] == BigEndian(Shift8(w), k - 1)[i]
      {
        ByteAtShift(w, k - 2 - i);
      }
      assert b[..k - 1] == BigEndian(Shift8(w), k - 1);
      assert b[k - 1] == ByteAt(w, 0) == LowByte(w);
      ReadBigEndian(Shift8(w), k - 1);
      JoinsWord(w);
    }
  }

  /** The 64-bit number left-padded to the length of the nonce. */
  function Padded(w: bv64): (b: seq<bv8>)
    ensures |b| == NONCE_LEN
  {
    [0, 0, 0, 0] + BigEndian(w, WORD_BYTES)
  }

  /** The number is read back from the last eight bytes of the padded form. */
  lemma ReadPadded(w: bv64)
    ensures ReadWord(Padded(w)[4..]) == w
  {
    ShiftedOut(w);
    ReadBigEndian(w, WORD_BYTES);
    assert Padded(w)[4..] == BigEndian(w, WORD_BYTES);
  }

  /** The padded form byte by byte: four zeros, then the bytes of the word, most significant first. */
  lemma PaddedBytes(w: bv64)
    ensures var b := Padded(w);
            && b[0] == b[1] == b[2] == b[3] == 0
            && b[4] == ((w >> 56) & 0xFF) as bv8 && b[5] == ((w >> 48) & 0xFF) as bv8
            && b[6] == ((w >> 40) & 0xFF) as bv8 && b[7] == ((w >> 32) & 0xFF) as bv8
            && b[8] == ((w >> 24) & 0xFF) as bv8 && b[9] == ((w >> 16) & 0xFF) as bv8
            && b[10] == ((w >> 8) & 0xFF) as bv8 && b[11] == (w & 0xFF) as bv8
  {
    RawBytes(w);
  }

  // ----- the record nonce

  function RecordNonce(staticIv: seq<bv8>, sq: bv64): seq<bv8>
    requires |staticIv| == NONCE_LEN
  {
    Xor(staticIv, Padded(sq))
  }

  /** Under one static IV the nonce determines the sequence number, which can be read back from it;
      the first four bytes are those of the IV. */
  lemma RecordNonceInjective(staticIv: seq<bv8>, sq: bv64, sq': bv64)
    requires |staticIv| == NONCE_LEN
    ensures ReadWord(Xor(staticIv, RecordNonce(staticIv, sq))[4..]) == sq
    ensures RecordNonce(staticIv, sq) == RecordNonce(staticIv, sq') <==> sq == sq'
    ensures RecordNonce(staticIv, sq)[..4] == staticIv[..4]
  {
    XorCancels(staticIv, Padded(sq));
    XorCancels(staticIv, Padded(sq'));
    ReadPadded(sq);
    ReadPadded(sq');
    forall i | 0 <= i < 4
      ensures RecordNonce(staticIv, sq)[i] == staticIv[i]
    {
      XorByteCancels(staticIv[i], 0);
    }
  }

  function Flip(sq: bv64): bv64 { sq ^ 1 }

  lemma FlipBytes(sq: bv64)
    ensures Flip(sq) != sq
    ensures LowByte(Flip(sq)) == LowByte(sq) ^ 1 && Shift8(Flip(sq)) == Shift8(sq)
  {
    assert LowByte(sq ^ 1) == LowByte(sq) ^ 1;
    assert Shift8(sq ^ 1) == Shift8(sq);
  }

  lemma XorUpdate(a: seq<bv8>, b: seq<bv8>, i: nat, v: bv8)
    requires i < |a| == |b|
    ensures Xor(a, b[i := v]) == Xor(a, b)[i := a[i] ^ v]
  {
  }

  lemma ReplacedDiffers(x: seq<bv8>, i: nat, v: bv8)
    requires i < |x| && x[i] != v
    ensures x[i := v] != x
  {
    assert x[i := v][i] == v;
  }

  lemma FlippedByte(a: bv8, b: bv8)
    ensures a ^ (b ^ 1) == (a ^ b) ^ 1 != a ^ b
  {
  }

  /** XOR passes on a flipped bit. */
  lemma BitFlipped(a: seq<bv8>, b: seq<bv8>, i: nat)
    requires i < |a| == |b|
    ensures var x, x' := Xor(a, b), Xor(a, b[i := b[i] ^ 1]);
            x' == x[i := x[i] ^ 1] && x' != x
  {
    FlippedByte(a[i], b[i]);
    XorUpdate(a, b, i, b[i] ^ 1);
    XorAt(a, b, i);
    ReplacedDiffers(Xor(a, b), i, a[i] ^ (b[i] ^ 1));
  }

  lemma PaddedFlip(sq: bv64)
    ensures Padded(Flip(sq)) == Padded(sq)[11 := LowByte(sq) ^ 1] && Padded(sq)[11] == LowByte(sq)
  {
    FlipBytes(sq);
    forall j | 1 <= j < 8
      ensures ByteAt(Flip(sq), j) == ByteAt(sq, j)
    {
      ByteAtShift(sq, j - 1);
      ByteAtShift(Flip(sq), j - 1);
    }
    assert ByteAt(sq, 0) == LowByte(sq) && ByteAt(Flip(sq), 0) == LowByte(Flip(sq));
    assert forall j | 0 <= j < 7 :: BigEndian(Flip(sq), 8)[j] == ByteAt(Flip(sq), 7 - j);
  }

  /** The sequence number that the harness replays under always has another nonce: exactly the lowest bit
      of the last byte differs. */
  lemma FlippedSequence(staticIv: seq<bv8>, sq: bv64)
    requires |staticIv| == NONCE_LEN
    ensures RecordNonce(staticIv, Flip(sq)) != RecordNonce(staticIv, sq)
    ensures var n := RecordNonce(staticIv, sq);
            |n| == 12 && RecordNonce(staticIv, Flip(sq)) == n[11 := n[11] ^ 1]
  {
    PaddedFlip(sq);
    BitFlipped(staticIv, Padded(sq), 11);
  }

  /** rec_nonce: XOR the sequence number into the last eight bytes, low byte last. */
  method RecNonce(staticIv: seq<bv8>, sq: bv64, nonce: array<bv8>)
    requires |staticIv| == NONCE_LEN && nonce.Length == NONCE_LEN
    modifies nonce
    ensures nonce[..] == RecordNonce(staticIv, sq)
  {
    forall i | 0 <= i < NONCE_LEN {
      nonce[i] := staticIv[i];
    }
    for i := 0 to WORD_BYTES
      invariant forall k :: 0 <= k < NONCE_LEN - i ==> nonce[k] == staticIv[k]
      invariant forall k :: NONCE_LEN - i <= k < NONCE_LEN ==> nonce[k] == staticIv[k] ^ ByteAt(sq, 11 - k)
    {
      nonce[11 - i] := nonce[11 - i] ^ ByteAt(sq, i);
    }
    forall k | 0 <= k < 4
      ensures nonce[k] == staticIv[k] ^ 0
    {
      XorByteCancels(staticIv[k], 0);
    }
    assert forall k :: 4 <= k < NONCE_LEN ==> Padded(sq)[k] == ByteAt(sq, 11 - k);
  }

  // ----- the counter nonce source

  function CounterAfter(c: bv64, n: nat): bv64 {
    Iterate(PlusOne, c, n)
  }

  /** The nonce that call `i` of a run from counter `c` emits. */
  function RunNonce(c: bv64, i: nat): seq<bv8> {
    Padded(CounterAfter(c, i))
  }

  function Minus(c: bv64, x: bv64): bv64 { x - c }

  lemma PlusCounts(c: bv64, x: bv64)
    ensures Plus(c, PlusOne(x)) == PlusOne(Plus(c, x))
    ensures Minus(c, Plus(c, x)) == x && Plus(c, 0) == c
  {
    assert Plus(c, x + 1) == c + x + 1;
    assert PlusOne(c + x) == c + x + 1;
    assert Minus(c, c + x) == x;
  }

  lemma CounterPeriod(c: bv64, m: nat, n: nat)
    ensures CounterAfter(c, m) == CounterAfter(c, n) <==> m % WORDS == n % WORDS
  {
    WordLawful();
    forall x: bv64
      ensures Plus(c, PlusOne(x)) == PlusOne(Plus(c, x)) && Minus(c, Plus(c, x)) == x
    {
      PlusCounts(c, x);
    }
    PlusCounts(c, 0);
    CountPeriod(Word64(), PlusOne, x => Plus(c, x), x => Minus(c, x), m, n);
  }

  /** Two calls emit the same nonce exactly when a multiple of 2^64 calls lies between them. */
  lemma RunNonceRepeats(c: bv64, i: nat, j: nat)
    ensures RunNonce(c, i) == RunNonce(c, j) <==> i % WORDS == j % WORDS
  {
    ReadPadded(CounterAfter(c, i));
    ReadPadded(CounterAfter(c, j));
    CounterPeriod(c, i, j);
  }

  ghost predicate AllDistinct(c: bv64, m: nat) {
    forall i: nat, j: nat :: i < j < m ==> RunNonce(c, i) != RunNonce(c, j)
  }

  /** A run of `m` calls never repeats a nonce exactly when it makes at most 2^64 calls. */
  lemma RunDistinctIff(c: bv64, m: nat)
    ensures AllDistinct(c, m) <==> m <= WORDS
  {
    if m <= WORDS {
      forall i: nat, j: nat | i < j < m
        ensures RunNonce(c, i) != RunNonce(c, j)
      {
        RunNonceRepeats(c, i, j);
      }
    } else {
      RunNonceRepeats(c, 0, WORDS);
    }
  }

  lemma FirstCall(c: bv64)
    ensures RunNonce(c, 0) == Padded(c)
    ensures CounterAfter(c, 1) == PlusOne(c)
  {
    assert CounterAfter(c, 1) == Iterate(PlusOne, PlusOne(c), 0);
  }

  /** The source, with the counter it is handed. */
  class NonceSource {
    var ctr: bv64

    /** nonce_source: emit the counter, then increment it. */
    method Next(nonce: array<bv8>)
      requires nonce.Length == NONCE_LEN
      modifies this, nonce
      ensures nonce[..] == RunNonce(old(ctr), 0)
      ensures ctr == CounterAfter(old(ctr), 1)
    {
      forall i | 0 <= i < NONCE_LEN {
        nonce[i] := 0;
      }
      for i := 0 to WORD_BYTES
        invariant ctr == old(ctr)
        invariant forall k :: 0 <= k < NONCE_LEN - i ==> nonce[k] == 0
        invariant forall k :: NONCE_LEN - i <= k < NONCE_LEN ==> nonce[k] == ByteAt(ctr, 11 - k)
      {
        nonce[11 - i] := ByteAt(ctr, i);
      }
      assert forall k :: 4 <= k < NONCE_LEN ==> Padded(ctr)[k] == ByteAt(ctr, 11 - k);
      assert nonce[..] == Padded(ctr);
      FirstCall(ctr);
      ctr := PlusOne(ctr);
    }
  }
}
