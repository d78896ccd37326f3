/** 64-bit words: their bytes, and counters that wrap around at 2^64. */
module Words {
  import opened Bytes
  import opened Iteration

  /** The number of 64-bit words, 2^64. */
  const WORDS: nat := 0x1_0000_0000_0000_0000
  const WORD_BYTES: nat := 8
  const LAST_WORD: bv64 := 0xFFFF_FFFF_FFFF_FFFF

  function LowByte(w: bv64): bv8 { (w & 0xFF) as bv8 }
  function Shift8(w: bv64): bv64 { w >> 8 }
  function PlusOne(w: bv64): bv64 { w + 1 }
  function Plus(w: bv64, v: bv64): bv64 { w + v }
  function Join(b: bv8, w: bv64): bv64 { (w << 8) | (b as bv64) }

  /** Byte `i` of `w`, the low byte after `i` shifts by 8; byte 0 is the least significant. */
  function ByteAt(w: bv64, i: nat): bv8 {
    LowByte(Iterate(Shift8, w, i))
  }

  /** The words as a type to count with. */
  function Word64(): Counting<bv64> {
    Counting(LowByte, Shift8, Join, PlusOne, 0, LAST_WORD, WORD_BYTES)
  }

  lemma Shift16(w: bv64)
    ensures Iterate(Shift8, w, 2) == w >> 16
  {
    assert Shift8(Shift8(w)) == w >> 16;
  }

  lemma Shift64(w: bv64)
    ensures (((w >> 16) >> 16) >> 16) >> 16 == 0
  {
  }

  lemma ShiftedOut(w: bv64)
    ensures Iterate(Shift8, w, WORD_BYTES) == 0
  {
    var w2 := w >> 16;
    var w4 := w2 >> 16;
    var w6 := w4 >> 16;
    Shift16(w);
    Shift16(w2);
    Shift16(w4);
    Shift16(w6);
    IterateAppend(Shift8, w, 2, 6);
    IterateAppend(Shift8, w2, 2, 4);
    IterateAppend(Shift8, w4, 2, 2);
    Shift64(w);
  }

  lemma ShiftsAgain(w: bv64)
    ensures Shift8(w) == w >> 8 && Shift8(w >> 8) == w >> 16 && Shift8(w >> 16) == w >> 24
    ensures Shift8(w >> 24) == w >> 32 && Shift8(w >> 32) == w >> 40
    ensures Shift8(w >> 40) == w >> 48 && Shift8(w >> 48) == w >> 56
  {
  }

  lemma ByteAtNext(w: bv64, v: bv64, i: nat)
    requires Iterate(Shift8, w, i) == v
    ensures Iterate(Shift8, w, i + 1) == Shift8(v)
  {
    IterateLast(Shift8, w, i);
  }

  /** Byte `i` is what a shift by 8 * i leaves in the low byte. */
  lemma RawBytes(w: bv64)
    ensures ByteAt(w, 0) == LowByte(w) && ByteAt(w, 1) == LowByte(w >> 8) && ByteAt(w, 2) == LowByte(w >> 16)
    ensures ByteAt(w, 3) == LowByte(w >> 24) && ByteAt(w, 4) == LowByte(w >> 32)
    ensures ByteAt(w, 5) == LowByte(w >> 40) && ByteAt(w, 6) == LowByte(w >> 48) && ByteAt(w, 7) == LowByte(w >> 56)
  {
    ShiftsAgain(w);
    ByteAtNext(w, w, 0);
    ByteAtNext(w, w >> 8, 1);
    ByteAtNext(w, w >> 16, 2);
    ByteAtNext(w, w >> 24, 3);
    ByteAtNext(w, w >> 32, 4);
    ByteAtNext(w, w >> 40, 5);
    ByteAtNext(w, w >> 48, 6);
  }

  lemma WordEmpties()
    ensures Empties(Shift8, 0, WORD_BYTES)
  {
    forall w {
      ShiftedOut(w);
    }
  }

  lemma JoinsWord(w: bv64)
    ensures Join(LowByte(w), Shift8(w)) == w
  {
  }

  lemma WordJoins()
    ensures Joins(LowByte, Shift8, Join)
  {
    forall w {
      JoinsWord(w);
    }
  }

  lemma LowByteIncrement(w: bv64)
    ensures LowByte(PlusOne(w)) == LowByte(w) + 1
    ensures LowByte(w) != 255 ==> Shift8(PlusOne(w)) == Shift8(w)
    ensures LowByte(w) == 255 && w != LAST_WORD ==> Shift8(PlusOne(w)) == PlusOne(Shift8(w))
    ensures Shift8(w) != LAST_WORD
  {
  }

  lemma WordCarries()
    ensures Carries(LowByte, Shift8, PlusOne, LAST_WORD)
  {
    forall w
      ensures Shift8(w) != LAST_WORD && (w != LAST_WORD ==> CarriesAt(LowByte, Shift8, PlusOne, w))
    {
      LowByteIncrement(w);
      if LowByte(w) != 255 {
        ByteIncrement(LowByte(w));
      }
    }
  }

  lemma Pow256Eight()
    ensures Pow256(WORD_BYTES) == WORDS
  {
    assert Pow256(4) == 0x1_0000_0000;
  }

  lemma EndValues()
    ensures Value(Word64(), LAST_WORD) == WORDS - 1 && Value(Word64(), 0) == 0
  {
    assert Digits(LowByte, Shift8, 0xFFFF_FFFF, 4) == 0xFFFF_FFFF;
    assert Digits(LowByte, Shift8, 0, 4) == 0;
  }

  lemma WordLawful()
    ensures Lawful(Word64()) && Pow256(Word64().size) == WORDS
  {
    WordJoins();
    WordCarries();
    WordEmpties();
    EndValues();
    Pow256Eight();
  }
}
