/** Hexadecimal text: the encoders of the runner and the decoder of the compute CLIs. */
module HexCodec {
  import opened Bytes
  import opened Options

  const DIGITS: string := "0123456789abcdef"

  /** cmf_hexval: the value of a hex digit of either case, or -1. */
  function HexVal(c: char): int {
    if '0' <= c <= '9' then c as int - '0' as int
    else if 'a' <= c <= 'f' then c as int - 'a' as int + 10
    else if 'A' <= c <= 'F' then c as int - 'A' as int + 10
    else -1
  }

  /** The lower-case form of an upper-case hex digit; other characters stay. */
  function LowerHex(c: char): char {
    if 'A' <= c <= 'F' then (c as int + 32) as char else c
  }

  /** A character reads as `v` exactly when its lower-case form is the digit written for `v`. */
  lemma DigitIff(c: char, v: nat)
    requires v < 16
    ensures HexVal(c) == v <==> LowerHex(c) == DIGITS[v]
  {
    assert DIGITS[v] as int == if v < 10 then '0' as int + v else 'a' as int + v - 10;
  }

  function High(b: byte): nat { b / 16 }
  function Low(b: byte): nat { b % 16 }

  /** Two digits for each byte, the high half first. */
  function HexEncode(b: seq<byte>): (s: string)
    ensures |s| == 2 * |b|
  {
    if b == [] then "" else HexEncode(b[..|b| - 1]) + [DIGITS[High(b[|b| - 1])], DIGITS[Low(b[|b| - 1])]]
  }

  lemma Halves(hi: nat, lo: nat, v: nat)
    requires hi < 16 && lo < 16 && v < 256
    ensures hi * 16 + lo == v <==> hi == v / 16 && lo == v % 16
  {
  }

  /** The byte that two characters denote, if both are hex digits. */
  function ReadPair(x: char, y: char): Option<byte> {
    var hi, lo := HexVal(x), HexVal(y);
    if hi < 0 || lo < 0 then None else Some(hi * 16 + lo)
  }

  lemma ReadDigitsIff(x: char, y: char, v: nat)
    requires v < 256
    ensures HexVal(x) >= 0 && HexVal(y) >= 0 && HexVal(x) * 16 + HexVal(y) == v <==>
            LowerHex(x) == DIGITS[v / 16] && LowerHex(y) == DIGITS[v % 16]
  {
    DigitIff(x, v / 16);
    DigitIff(y, v % 16);
    if HexVal(x) >= 0 && HexVal(y) >= 0 {
      Halves(HexVal(x), HexVal(y), v);
    }
  }

  /** Two characters denote `b` exactly when in lower case they are the digits written for `b`. */
  lemma ReadPairIff(x: char, y: char, b: byte)
    ensures ReadPair(x, y) == Some(b) <==> LowerHex(x) == DIGITS[High(b)] && LowerHex(y) == DIGITS[Low(b)]
  {
    ReadDigitsIff(x, y, b);
  }

  predicate IsTail(c: char) { c == '\n' || c == '\r' || c == ' ' }

  /** The longest beginning of `s` that does not end in a line end, a carriage return or a blank. */
  function Trim(s: string): (t: string)
    ensures |t| <= |s| && t == s[..|t|]
    ensures t != "" ==> t[|t| - 1] !in "\n\r "
    ensures forall i | |t| <= i < |s| :: s[i] in "\n\r "
  {
    if s != "" && IsTail(s[|s| - 1]) then Trim(s[..|s| - 1]) else s
  }

  /** The bytes of the first `n` pairs. */
  function ReadPairs(t: string, n: nat): Option<seq<byte>>
    requires 2 * n <= |t|
  {
    if n == 0 then Some([])
    else
      match (ReadPairs(t, n - 1), ReadPair(t[2 * n - 2], t[2 * n - 1]))
      case (Some(b), Some(x)) => Some(b + [x])
      case _ => None
  }

  /** The value of cmf_hexdecode: trailing blanks dropped, an odd last digit ignored, anything else
      that is not a hex digit refused. */
  function HexDecode(s: string): Option<seq<byte>> {
    ReadPairs(Trim(s), |Trim(s)| / 2)
  }

  ghost predicate LowerCaseOf(s: string, t: string) {
    |s| == |t| && forall j | 0 <= j < |s| :: s[j] == LowerHex(t[j])
  }

  lemma LowerCaseSplit(s: string, t: string, s0: char, s1: char, t0: char, t1: char)
    ensures LowerCaseOf(s + [s0, s1], t + [t0, t1]) <==>
            LowerCaseOf(s, t) && s0 == LowerHex(t0) && s1 == LowerHex(t1)
  {
    if LowerCaseOf(s + [s0, s1], t + [t0, t1]) {
      var n := |s|;
      assert (s + [s0, s1])[n] == LowerHex((t + [t0, t1])[n]);
      assert (s + [s0, s1])[n + 1] == LowerHex((t + [t0, t1])[n + 1]);
      forall j | 0 <= j < n
        ensures s[j] == LowerHex(t[j])
      {
        assert (s + [s0, s1])[j] == LowerHex((t + [t0, t1])[j]);
      }
    }
  }

  /** The first `n` pairs of `t` spell `b`, in either case. */
  ghost predicate Spells(t: string, n: nat, b: seq<byte>)
    requires 2 * n <= |t|
  {
    |b| == n && LowerCaseOf(HexEncode(b), t[..2 * n])
  }

  lemma SpellsNext(t: string, n: nat, b: seq<byte>, z: byte)
    requires 2 * n + 2 <= |t|
    ensures Spells(t, n + 1, b + [z]) <==> Spells(t, n, b) && ReadPair(t[2 * n], t[2 * n + 1]) == Some(z)
  {
    var x, y := t[2 * n], t[2 * n + 1];
    assert (b + [z])[..|b|] == b;
    assert t[..2 * n + 2] == t[..2 * n] + [x, y];
    ReadPairIff(x, y, z);
    LowerCaseSplit(HexEncode(b), t[..2 * n], DIGITS[High(z)], DIGITS[Low(z)], x, y);
  }

  lemma AppendSame(b: seq<byte>, x: byte, c: seq<byte>, y: byte)
    ensures b + [x] == c + [y] <==> b == c && x == y
  {
    if b + [x] == c + [y] {
      assert (b + [x])[..|b|] == b && (c + [y])[..|c|] == c;
      assert (b + [x])[|b|] == x && (c + [y])[|c|] == y;
    }
  }

  lemma ReadsNext(t: string, n: nat, b: seq<byte>, z: byte)
    requires 2 * n + 2 <= |t|
    ensures ReadPairs(t, n + 1) == Some(b + [z]) <==>
            ReadPairs(t, n) == Some(b) && ReadPair(t[2 * n], t[2 * n + 1]) == Some(z)
  {
    match (ReadPairs(t, n), ReadPair(t[2 * n], t[2 * n + 1]))
    case (Some(c), Some(v)) => assert c + [v] == b + [z] <==> c == b && v == z by { AppendSame(c, v, b, z); }
    case _ =>
  }

  lemma {:induction false} ReadPairsIff(t: string, n: nat, b: seq<byte>)
    requires 2 * n <= |t|
    ensures ReadPairs(t, n) == Some(b) <==> Spells(t, n, b)
  {
    if n != 0 && b != [] {
      var front, z := b[..|b| - 1], b[|b| - 1];
      assert b == front + [z];
      ReadPairsIff(t, n - 1, front);
      SpellsNext(t, n - 1, front, z);
      ReadsNext(t, n - 1, front, z);
    }
  }

  /** Decoding is exactly the inverse of encoding: a string decodes to `b` when its trimmed form,
      less an odd last digit, is the encoding of `b` up to the case of its digits. */
  lemma DecodesIff(s: string, b: seq<byte>)
    ensures HexDecode(s) == Some(b) <==>
            |b| == |Trim(s)| / 2 && LowerCaseOf(HexEncode(b), Trim(s)[..2 * (|Trim(s)| / 2)])
  {
    ReadPairsIff(Trim(s), |Trim(s)| / 2, b);
  }

  lemma DigitReads(v: nat)
    requires v < 16
    ensures HexVal(DIGITS[v]) == v && LowerHex(DIGITS[v]) == DIGITS[v] && !IsTail(DIGITS[v])
  {
    assert DIGITS[v] as int == if v < 10 then '0' as int + v else 'a' as int + v - 10;
  }

  lemma {:induction false} EncodingIsLowerCase(b: seq<byte>)
    ensures LowerCaseOf(HexEncode(b), HexEncode(b))
    ensures Trim(HexEncode(b)) == HexEncode(b)
  {
    if b != [] {
      var k := |b| - 1;
      EncodingIsLowerCase(b[..k]);
      DigitReads(High(b[k]));
      DigitReads(Low(b[k]));
    }
  }

  /** In particular, what the runner writes decodes to itself, with or without the line end. */
  lemma DecodeEncode(b: seq<byte>)
    ensures HexDecode(HexEncode(b)) == Some(b)
    ensures HexDecode(HexEncode(b) + "\n") == Some(b)
  {
    var s := HexEncode(b);
    EncodingIsLowerCase(b);
    assert (s + "\n")[..|s|] == s;
    assert Trim(s + "\n") == Trim(s);
    assert s[..2 * |b|] == s;
    DecodesIff(s, b);
    DecodesIff(s + "\n", b);
  }

  lemma DigitsOf(b: byte)
    ensures HexEncode([b]) == [DIGITS[b / 16], DIGITS[b % 16]]
  {
    var none: seq<byte> := [];
    assert [b][..0] == none;
  }

  /** Lower case, the high half of a byte first. */
  lemma KnownEncoding()
    ensures HexEncode([0x1e]) == ['1', 'e'] && HexEncode([0xf0]) == ['f', '0']
    ensures HexVal('7') == 7 && HexVal('b') == HexVal('B') == 11 && HexVal('g') == -1
  {
    DigitsOf(0x1e);
    DigitsOf(0xf0);
  }

  // ----- the code

  /** tohex, and cmf_hexprint without its line end. */
  method ToHex(b: seq<byte>) returns (out: string)
    ensures out == HexEncode(b)
  {
    out := "";
    for i := 0 to |b|
      invariant out == HexEncode(b[..i])
    {
      assert b[..i + 1][..i] == b[..i];
      out := out + [DIGITS[High(b[i])], DIGITS[Low(b[i])]];
    }
    assert b[..|b|] == b;
  }

  lemma {:induction false} BadPair(t: string, i: nat, n: nat)
    requires i < n && 2 * n <= |t| && ReadPair(t[2 * i], t[2 * i + 1]) == None
    ensures ReadPairs(t, n) == None
    decreases n
  {
    if i + 1 < n {
      BadPair(t, i, n - 1);
    }
  }

  lemma NextPair(t: string, i: nat, b: seq<byte>, x: byte)
    requires 2 * i + 1 < |t| && ReadPairs(t, i) == Some(b) && ReadPair(t[2 * i], t[2 * i + 1]) == Some(x)
    ensures ReadPairs(t, i + 1) == Some(b + [x])
  {
  }

  /** The loop of cmf_hexdecode that steps back over trailing blanks. */
  method TrimmedLength(hex: string) returns (hl: nat)
    ensures hl <= |hex| && Trim(hex) == hex[..hl]
  {
    hl := |hex|;
    assert hex[..hl] == hex;
    while hl != 0 && IsTail(hex[hl - 1])
      invariant 0 <= hl <= |hex| && Trim(hex[..hl]) == Trim(hex)
    {
      assert hex[..hl][..hl - 1] == hex[..hl - 1];
      hl := hl - 1;
    }
  }

  /** cmf_hexdecode; None stands for the null pointer. */
  method CmfHexDecode(hex: string) returns (r: Option<seq<byte>>)
    ensures r == HexDecode(hex)
  {
    var hl := TrimmedLength(hex);
    ghost var t := hex[..hl];
    var n := hl / 2;
    var b := new byte[n];
    for i := 0 to n
      invariant ReadPairs(t, i) == Some(b[..i])
    {
      var x, y := hex[2 * i], hex[2 * i + 1];
      assert x == t[2 * i] && y == t[2 * i + 1];
      var hi, lo := HexVal(x), HexVal(y);
      if hi < 0 || lo < 0 {
        BadPair(t, i, n);
        return None;
      }
      ghost var done := b[..i];
      b[i] := hi * 16 + lo;
      NextPair(t, i, done, b[i]);
      assert b[..i + 1] == done + [b[i]];
    }
    assert b[..n] == b[..];
    r := Some(b[..]);
  }
}
