/** The byte reader that the harnesses take their choices from. */
module Reader {
  import opened Bytes
  import opened Iteration

  const U32_SIZE: nat := 0x1_0000_0000

  /** The number that big-endian bytes denote. */
  function NumberOf(b: seq<byte>): nat {
    if b == [] then 0 else NumberOf(b[..|b| - 1]) * 256 + b[|b| - 1]
  }

  lemma {:induction false} NumberBelow(b: seq<byte>)
    ensures NumberOf(b) < Pow256(|b|)
  {
    if b != [] {
      NumberBelow(b[..|b| - 1]);
    }
  }

  lemma LastDigit(m: nat, n: nat, x: byte, y: byte)
    requires m * 256 + x == n * 256 + y
    ensures m == n && x == y
  {
    assert 256 * (m - n) == y - x;
  }

  /** Bytes of equal length are determined by their number, so a 32-bit read loses nothing. */
  lemma {:induction false} NumberDetermines(a: seq<byte>, b: seq<byte>)
    requires |a| == |b|
    ensures NumberOf(a) == NumberOf(b) <==> a == b
  {
    if a != [] && NumberOf(a) == NumberOf(b) {
      var n := |a| - 1;
      LastDigit(NumberOf(a[..n]), NumberOf(b[..n]), a[n], b[n]);
      NumberDetermines(a[..n], b[..n]);
      assert a == a[..n] + [a[n]] && b == b[..n] + [b[n]];
    }
  }

  /** `n` bytes of `data` from `pos`, continued with zeros past the end. */
  function Window(data: seq<byte>, pos: nat, n: nat): (w: seq<byte>)
    ensures |w| == n
  {
    seq(n, i requires 0 <= i => if pos + i < |data| then data[pos + i] else 0)
  }

  /** The position after reading `n` bytes. */
  function After(data: seq<byte>, pos: nat, n: nat): nat {
    if pos + n < |data| then pos + n else |data|
  }

  /** Reading on after `m` bytes, of which the end of the data may cut some off, continues the
      window: successive reads are one read. */
  lemma WindowSplits(data: seq<byte>, pos: nat, m: nat, n: nat)
    requires pos <= |data|
    ensures Window(data, pos, m) + Window(data, After(data, pos, m), n) == Window(data, pos, m + n)
  {
  }

  lemma WindowNext(data: seq<byte>, pos: nat, i: nat)
    requires pos <= |data|
    ensures NumberOf(Window(data, pos, i + 1)) ==
            NumberOf(Window(data, pos, i)) * 256 + Window(data, After(data, pos, i), 1)[0]
    ensures After(data, After(data, pos, i), 1) == After(data, pos, i + 1)
  {
    assert Window(data, pos, i + 1)[..i] == Window(data, pos, i);
    assert Window(data, pos, i + 1)[i] == Window(data, After(data, pos, i), 1)[0];
  }

  /** Four bytes by their places, the first being the most significant. */
  lemma FourBytes(b: seq<byte>)
    requires |b| == 4
    ensures NumberOf(b) == b[0] as int * 0x100_0000 + b[1] as int * 0x1_0000 + b[2] as int * 0x100 + b[3] as int
  {
    assert b[..3][..2] == b[..2] && b[..2][..1] == b[..1] && b[..1][..0] == [];
    assert NumberOf(b[..1]) == b[0];
    assert NumberOf(b[..2]) == b[0] as int * 256 + b[1] as int;
    assert NumberOf(b[..3]) == (b[0] as int * 256 + b[1] as int) * 256 + b[2] as int;
  }

  /** Four bytes fit a 32-bit word. */
  lemma NoOverflow(w: seq<byte>)
    requires |w| < 4
    ensures NumberOf(w) * 256 + 255 < U32_SIZE
  {
    NumberBelow(w);
    assert Pow256(3) == 256 * Pow256(2) == 0x100_0000;
  }

  /** cmf_reader_t */
  class Cursor {
    const data: seq<byte>
    var pos: nat

    ghost predicate Valid()
      reads this
    {
      pos <= |data|
    }

    /** cmf_reader_init */
    constructor (d: seq<byte>)
      ensures Valid() && data == d && pos == 0
    {
      data, pos := d, 0;
    }

    /** cmf_u8 */
    method U8() returns (b: byte)
      requires Valid()
      modifies this
      ensures Valid() && pos == After(data, old(pos), 1)
      ensures b == Window(data, old(pos), 1)[0] == if old(pos) < |data| then data[old(pos)] else 0
    {
      if pos < |data| {
        b := data[pos];
        pos := pos + 1;
      } else {
        b := 0;
      }
    }

    /** cmf_u32: the next four bytes, most significant first. */
    method U32() returns (v: nat)
      requires Valid()
      modifies this
      ensures Valid() && pos == After(data, old(pos), 4)
      ensures v == NumberOf(Window(data, old(pos), 4)) < U32_SIZE
    {
      v := 0;
      for i := 0 to 4
        invariant Valid() && pos == After(data, old(pos), i)
        invariant v == NumberOf(Window(data, old(pos), i)) < U32_SIZE
      {
        NoOverflow(Window(data, old(pos), i));
        WindowNext(data, old(pos), i);
        var b := U8();
        v := v * 256 % U32_SIZE + b;
      }
    }

    /** cmf_rest: everything that has not been read. */
    method Rest() returns (p: seq<byte>)
      requires Valid()
      modifies this
      ensures Valid() && pos == |data|
      ensures data == data[..old(pos)] + p
    {
      p := data[pos..];
      pos := |data|;
    }
  }
}
