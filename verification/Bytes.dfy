/** Bytes, their exclusive or, and the conversions between bytes and numbers. */
module Bytes {

  /** A byte where it is only a number: the wire codec adds and divides, and never looks at bits. */
  type byte = x: int | 0 <= x < 256

  function Xor(a: seq<bv8>, b: seq<bv8>): (x: seq<bv8>)
    requires |a| == |b|
  {
    seq(|a|, i requires 0 <= i < |a| => a[i] ^ b[i])
  }

  lemma XorAt(a: seq<bv8>, b: seq<bv8>, i: nat)
    requires i < |a| == |b|
    ensures |Xor(a, b)| == |a| && Xor(a, b)[i] == a[i] ^ b[i]
  {
  }

  lemma XorByteCancels(a: bv8, b: bv8)
    ensures a ^ (a ^ b) == b && a ^ 0 == a
  {
  }

  lemma XorCancels(a: seq<bv8>, b: seq<bv8>)
    requires |a| == |b|
    ensures Xor(a, Xor(a, b)) == b
  {
    forall i | 0 <= i < |a|
      ensures Xor(a, Xor(a, b))[i] == b[i]
    {
      XorByteCancels(a[i], b[i]);
    }
  }

  lemma ByteIncrement(b: bv8)
    requires b != 255
    ensures (b + 1) as int == b as int + 1
  {
  }

  /** The byte with value `n`: the cast of a number below 256.  It is counted up to, which spares the
      verifier the bits of `n`. */
  function ToByte(n: nat): (b: bv8)
    requires n < 256
    ensures b as int == n
  {
    if n == 0 then 0 else
      ByteIncrement(ToByte(n - 1));
      ToByte(n - 1) + 1
  }

  /** A byte is determined by its value. */
  lemma ByteDetermined(a: bv8, b: bv8)
    requires a as int == b as int
    ensures a == b
  {
    assert (a as int) as bv8 == (b as int) as bv8;
  }

  /** Taking a concatenation of three apart again. */
  lemma Slices(a: seq<bv8>, b: seq<bv8>, c: seq<bv8>)
    ensures var x, n := a + b + c, |a| + |b|;
            x[..|a|] == a && x[|a|..n] == b && x[..n] == a + b && x[n..] == c
  {
  }
}
