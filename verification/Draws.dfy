/** The runner's draws: what the calls of its generator give, and where they leave it. */
module Draws {
  import opened Bytes
  import opened Generator
  import opened Iteration
  import opened Words

  /** What successive draws give: the state before each, the whole word, for `rnd() % m`, and its low
      byte, for rnd_bytes. */
  datatype Tape = Tape(state: nat -> bv64, word: nat -> nat, low: nat -> byte)

  ghost predicate LinkedAt(t: Tape, i: nat) {
    var w := Output(t.state(i), 0);
    t.state(i + 1) == StateAfter(t.state(i), 1) && t.word(i) == Value(Word64(), w) && t.low(i) == LowByte(w) as int
  }

  /** Every entry of the tape is the generator's. */
  ghost predicate Linked(t: Tape) {
    forall i: nat :: LinkedAt(t, i)
  }

  function TapeOf(s: bv64): Tape {
    Tape((i: nat) => StateAfter(s, i), (i: nat) => Value(Word64(), Output(s, i)),
         (i: nat) => LowByte(Output(s, i)) as int)
  }

  lemma TapeState(s: bv64, n: nat)
    ensures TapeOf(s).state(n) == StateAfter(s, n)
  {
  }

  lemma TapeEntries(s: bv64, i: nat)
    ensures TapeOf(s).word(i) == Value(Word64(), Output(s, i))
    ensures TapeOf(s).low(i) == LowByte(Output(s, i)) as int
  {
  }

  lemma TapeLinkedAt(s: bv64, i: nat)
    ensures LinkedAt(TapeOf(s), i)
  {
    TapeState(s, i);
    TapeState(s, i + 1);
    TapeEntries(s, i);
    NextWord(s, i);
  }

  /** From any state, the generator's own tape is such a tape. */
  lemma TapeLinked(s: bv64)
    ensures Linked(TapeOf(s)) && TapeOf(s).state(0) == s
  {
    forall i: nat
      ensures LinkedAt(TapeOf(s), i)
    {
      TapeLinkedAt(s, i);
    }
    TapeState(s, 0);
  }

  lemma {:induction false} LinkedStates(t: Tape, i: nat, k: nat)
    requires Linked(t)
    ensures t.state(i + k) == StateAfter(t.state(i), k)
  {
    if 0 < k {
      LinkedStates(t, i, k - 1);
      assert LinkedAt(t, i + (k - 1));
      NextState(t.state(i), k - 1);
    }
  }

  lemma LinkedByte(t: Tape, i: nat, k: nat)
    requires Linked(t)
    ensures LowByte(Output(t.state(i), k)) as int == t.low(i + k)
  {
    LinkedStates(t, i, k);
    OutputShift(t.state(i), k, 0);
    assert LinkedAt(t, i + k);
  }

  function Number(t: Tape, i: nat, m: nat): (n: nat)
    requires 0 < m
    ensures n < m
  {
    t.word(i) % m
  }

  /** The bytes of `n` draws, beginning with draw number `i`. */
  function Drawn(t: Tape, i: nat, n: nat): (d: seq<byte>)
    ensures |d| == n
  {
    seq<byte>(n, k requires 0 <= k => t.low(i + k))
  }

  method Draw(src: VectorSource, m: nat, ghost t: Tape, ghost i: nat) returns (n: nat)
    requires 0 < m && Linked(t) && src.state == t.state(i)
    modifies src
    ensures n == Number(t, i, m) && src.state == t.state(i + 1)
  {
    assert LinkedAt(t, i);
    var w := src.Rnd();
    n := Value(Word64(), w) % m;
  }

  /** rnd_bytes into the blob. */
  method DrawBytes(src: VectorSource, blob: array<byte>, from: nat, n: nat, ghost t: Tape, ghost i: nat)
    requires from + n <= blob.Length && Linked(t) && src.state == t.state(i)
    modifies src, blob
    ensures src.state == t.state(i + n)
    ensures blob[..] == old(blob[..from]) + Drawn(t, i, n) + old(blob[from + n..])
  {
    LinkedStates(t, i, n);
    var raw := new bv8[n];
    src.RndBytes(raw, 0, n);
    forall k | 0 <= k < n
      ensures raw[0 + k] as int == Drawn(t, i, n)[k]
    {
      LinkedByte(t, i, k);
    }
    forall k | 0 <= k < n {
      blob[from + k] := raw[0 + k] as int;
    }
  }
}
