/** How the Java backend reads the hex text of a request line, beside how the C parser does. */
module JavaHex {
  import opened Bytes
  import opened HexCodec
  import opened Options
  import opened WireCodec

  // ----- pairs of digits

  /** Character.digit in base 16: the hex digits of ASCII, and any digits beyond ASCII. */
  ghost predicate DigitsOfJava(digit: char -> int) {
    forall c :: -1 <= digit(c) < 16 && (c as int < 128 ==> digit(c) == HexVal(c))
  }

  predicate IsSign(c: char) { c == '+' || c == '-' }

  /** Integer.parseInt of a two-character string in base 16: a sign may stand first. */
  function ParseInt16(digit: char -> int, x: char, y: char): Option<int> {
    if digit(y) < 0 then None
    else if x == '+' then Some(digit(y))
    else if x == '-' then Some(-digit(y))
    else if digit(x) < 0 then None
    else Some(digit(x) * 16 + digit(y))
  }

  /** The value of hexdec on the first `n` pairs; the cast to byte wraps a negative number around. */
  function JavaPairs(digit: char -> int, s: string, n: nat): Option<seq<byte>>
    requires 2 * n <= |s|
  {
    if n == 0 then Some([])
    else
      match (JavaPairs(digit, s, n - 1), ParseInt16(digit, s[2 * n - 2], s[2 * n - 1]))
      case (Some(b), Some(v)) => Some(b + [v % 256])
      case _ => None
  }

  /** Pair `i` is a digit after a digit or a sign. */
  predicate JavaReadable(digit: char -> int, s: string, i: nat)
    requires 2 * i + 1 < |s|
  {
    digit(s[2 * i + 1]) >= 0 && (digit(s[2 * i]) >= 0 || IsSign(s[2 * i]))
  }

  /** Pair `i` begins with a sign or holds a character beyond ASCII. */
  predicate Foreign(s: string, i: nat)
    requires 2 * i + 1 < |s|
  {
    IsSign(s[2 * i]) || s[2 * i] as int >= 128 || s[2 * i + 1] as int >= 128
  }

  lemma {:induction false} JavaReadsIff(digit: char -> int, s: string, n: nat)
    requires DigitsOfJava(digit) && 2 * n <= |s|
    ensures JavaPairs(digit, s, n).Some? <==> forall i: nat | i < n :: JavaReadable(digit, s, i)
  {
    if n != 0 {
      JavaReadsIff(digit, s, n - 1);
      assert ParseInt16(digit, s[2 * n - 2], s[2 * n - 1]).Some? <==> JavaReadable(digit, s, n - 1);
    }
  }

  /** Pair `i` holds two hex digits of ASCII. */
  predicate HexPair(s: string, i: nat)
    requires 2 * i + 1 < |s|
  {
    HexVal(s[2 * i]) >= 0 && HexVal(s[2 * i + 1]) >= 0
  }

  lemma PairsCompared(digit: char -> int, s: string, i: nat)
    requires DigitsOfJava(digit) && 2 * i + 1 < |s|
    ensures var j, c := ParseInt16(digit, s[2 * i], s[2 * i + 1]), ReadPair(s[2 * i], s[2 * i + 1]);
            && (HexPair(s, i) <==> JavaReadable(digit, s, i) && !Foreign(s, i))
            && (HexPair(s, i) ==> c.Some? && j == Some(c.value as int))
  {
  }

  lemma JavaNextPair(digit: char -> int, s: string, n: nat, b: seq<byte>, x: byte)
    requires 2 * n + 2 <= |s| && JavaPairs(digit, s, n) == Some(b)
    requires ParseInt16(digit, s[2 * n], s[2 * n + 1]) == Some(x as int)
    ensures JavaPairs(digit, s, n + 1) == Some(b + [x])
  {
  }

  lemma NextPairSame(digit: char -> int, s: string, n: nat)
    requires DigitsOfJava(digit) && 2 * n + 2 <= |s|
    requires JavaPairs(digit, s, n) == ReadPairs(s, n) && ReadPairs(s, n).Some?
    requires HexPair(s, n)
    ensures JavaPairs(digit, s, n + 1) == ReadPairs(s, n + 1) && ReadPairs(s, n + 1).Some?
  {
    PairsCompared(digit, s, n);
    var b, x := ReadPairs(s, n).value, ReadPair(s[2 * n], s[2 * n + 1]).value;
    NextPair(s, n, b, x);
    JavaNextPair(digit, s, n, b, x);
  }

  lemma {:induction false} JavaReadsSame(digit: char -> int, s: string, n: nat)
    requires DigitsOfJava(digit) && 2 * n <= |s|
    requires forall i: nat | i < n :: HexPair(s, i)
    ensures JavaPairs(digit, s, n) == ReadPairs(s, n) && ReadPairs(s, n).Some?
  {
    if n != 0 {
      JavaReadsSame(digit, s, n - 1);
      NextPairSame(digit, s, n - 1);
    }
  }

  lemma {:induction false} JavaBadPair(digit: char -> int, s: string, i: nat, n: nat)
    requires i < n && 2 * n <= |s| && ParseInt16(digit, s[2 * i], s[2 * i + 1]) == None
    ensures JavaPairs(digit, s, n) == None
    decreases n
  {
    if i + 1 < n {
      JavaBadPair(digit, s, i, n - 1);
    }
  }

  /** hexdec (Java); None stands for the NumberFormatException. */
  method JavaHexDec(digit: char -> int, s: string) returns (r: Option<seq<byte>>)
    ensures r == JavaPairs(digit, s, |s| / 2)
  {
    var n := |s| / 2;
    var b := new byte[n];
    for i := 0 to n
      invariant JavaPairs(digit, s, i) == Some(b[..i])
    {
      var v := ParseInt16(digit, s[2 * i], s[2 * i + 1]);
      if v == None {
        JavaBadPair(digit, s, i, n);
        return None;
      }
      b[i] := v.value % 256;
      assert b[..i + 1] == b[..i] + [b[i]];
    }
    assert b[..n] == b[..];
    r := Some(b[..]);
  }

  /** hexenc (Java): the same text as the C encoders. */
  method JavaHexEnc(b: seq<byte>) returns (s: string)
    ensures s == HexEncode(b)
  {
    s := "";
    for i := 0 to |b|
      invariant s == HexEncode(b[..i])
    {
      assert b[..i + 1][..i] == b[..i];
      var hi, lo := b[i] / 16 % 16, b[i] % 16;
      assert hi == High(b[i]) && lo == Low(b[i]);
      ghost var done := s;
      s := s + [DIGITS[hi]];
      s := s + [DIGITS[lo]];
      assert s == done + [DIGITS[hi], DIGITS[lo]];
    }
    assert b[..|b|] == b;
  }

  // ----- one line, seen by both

  predicate AllBeyond(s: string) { s != "" && forall i | 0 <= i < |s| :: s[i] as int >= 128 }

  datatype Glyph = Ascii(c: char) | Beyond(units: string, bytes: string)

  predicate IsSymbol(x: Glyph) {
    match x
    case Ascii(c) => c as int < 128
    case Beyond(units, bytes) => AllBeyond(units) && AllBeyond(bytes) && |units| <= |bytes|
  }

  /** A character of a line as Java decodes it and as C reads it: the same in ASCII, and beyond it one or
      more code units for Java and at least as many bytes for C, whatever the encoding. */
  type Symbol = x: Glyph | IsSymbol(x) witness Ascii(' ')

  function Units(x: Symbol): (u: string)
    ensures u != ""
  {
    if x.Ascii? then [x.c] else x.units
  }

  function RawBytes(x: Symbol): (u: string)
    ensures u != ""
  {
    if x.Ascii? then [x.c] else x.bytes
  }

  /** The symbols of a text as `f` shows them, one after the other. */
  function Flat(f: Symbol -> string, s: seq<Symbol>): string {
    if s == [] then "" else Flat(f, s[..|s| - 1]) + f(s[|s| - 1])
  }

  function JavaText(s: seq<Symbol>): string { Flat(Units, s) }
  function CText(s: seq<Symbol>): string { Flat(RawBytes, s) }

  predicate IsControl(c: char) { c <= ' ' }

  /** String.trim at either end: every character up to the blank. */
  function TrimEnd(s: string): (t: string)
    ensures |t| <= |s| && t == s[..|t|] && (t != "" ==> !IsControl(t[|t| - 1]))
  {
    if s != "" && IsControl(s[|s| - 1]) then TrimEnd(s[..|s| - 1]) else s
  }

  function TrimStart(s: string): string {
    if s != "" && IsControl(s[0]) then TrimStart(s[1..]) else s
  }

  /** The blob that the main loop hands to the request parser; None stands for an exception.  What
      follows the first blank of the trimmed line is decoded. */
  function JavaBlob(digit: char -> int, line: string): Option<seq<byte>> {
    var t := TrimStart(TrimEnd(line));
    var sp := FirstBlank(t);
    if sp == |t| then None else JavaPairs(digit, t[sp + 1..], |t[sp + 1..]| / 2)
  }

  // ----- the two texts

  lemma FlatAppend(f: Symbol -> string, s: seq<Symbol>, x: Symbol)
    ensures Flat(f, s + [x]) == Flat(f, s) + f(x)
  {
    assert (s + [x])[..|s|] == s;
  }

  lemma Regroup(x: string, y: string, z: string)
    ensures (x + y) + z == x + (y + z)
  {
  }

  lemma {:induction false} FlatConcat(f: Symbol -> string, s: seq<Symbol>, t: seq<Symbol>)
    ensures Flat(f, s + t) == Flat(f, s) + Flat(f, t)
  {
    if t == [] {
      assert s + t == s;
    } else {
      var front, x := t[..|t| - 1], t[|t| - 1];
      FlatConcat(f, s, front);
      assert s + t == (s + front) + [x];
      FlatAppend(f, s + front, x);
      Regroup(Flat(f, s), Flat(f, front), f(x));
    }
  }

  lemma FlatParts(f: Symbol -> string, s: seq<Symbol>, x: seq<Symbol>, y: seq<Symbol>)
    requires s == x + y
    ensures Flat(f, s) == Flat(f, x) + Flat(f, y)
  {
    FlatConcat(f, x, y);
  }

  lemma Halves(s: seq<Symbol>, k: nat)
    requires k <= |s|
    ensures s == s[..k] + s[k..]
  {
  }

  lemma FlatSplit(f: Symbol -> string, s: seq<Symbol>, k: nat)
    requires k <= |s|
    ensures Flat(f, s) == Flat(f, s[..k]) + Flat(f, s[k..])
  {
    Halves(s, k);
    FlatParts(f, s, s[..k], s[k..]);
  }

  lemma {:induction false} FlatFirst(f: Symbol -> string, s: seq<Symbol>)
    requires s != [] && f(s[0]) != ""
    ensures Flat(f, s) != "" && Flat(f, s)[0] == f(s[0])[0]
  {
    if |s| == 1 {
      assert s[..0] == [];
    } else {
      FlatFirst(f, s[..|s| - 1]);
    }
  }

  ghost predicate AllAscii(s: seq<Symbol>) { forall i | 0 <= i < |s| :: s[i].Ascii? }

  lemma {:induction false} AsciiText(s: seq<Symbol>)
    requires AllAscii(s)
    ensures JavaText(s) == CText(s) && |CText(s)| == |s|
    ensures forall i | 0 <= i < |s| :: CText(s)[i] == s[i].c
  {
    if s != [] {
      AsciiText(s[..|s| - 1]);
    }
  }

  /** What both see of a text whose first `k` symbols are ASCII, up to and at symbol `k`. */
  lemma TextsAt(s: seq<Symbol>, k: nat)
    requires k <= |s| && AllAscii(s[..k])
    ensures k <= |JavaText(s)| && k <= |CText(s)| && JavaText(s)[..k] == CText(s)[..k]
    ensures k == |s| ==> |JavaText(s)| == |CText(s)| == k
    ensures k < |s| ==> k < |JavaText(s)| && JavaText(s)[k] == Units(s[k])[0]
    ensures k < |s| ==> k < |CText(s)| && CText(s)[k] == RawBytes(s[k])[0]
  {
    FlatSplit(Units, s, k);
    FlatSplit(RawBytes, s, k);
    AsciiText(s[..k]);
    if k < |s| {
      FlatFirst(Units, s[k..]);
      FlatFirst(RawBytes, s[k..]);
    }
  }

  lemma NoDigitBeyond(x: Symbol)
    ensures HexVal(Units(x)[0]) < 0 <==> HexVal(RawBytes(x)[0]) < 0
    ensures HexVal(Units(x)[0]) >= 0 ==> x.Ascii?
  {
  }

  /** A run of hex digits at the start of Java's text comes from as many ASCII symbols. */
  lemma {:induction false} HexPrefix(s: seq<Symbol>, k: nat)
    requires k <= |JavaText(s)| && forall i | 0 <= i < k :: HexVal(JavaText(s)[i]) >= 0
    ensures k <= |s| && AllAscii(s[..k])
  {
    if k != 0 {
      HexPrefix(s, k - 1);
      TextsAt(s, k - 1);
      if k - 1 < |s| {
        NoDigitBeyond(s[k - 1]);
        assert s[..k] == s[..k - 1] + [s[k - 1]];
      }
    }
  }

  lemma LastOf(s: seq<Symbol>)
    requires s != []
    ensures var j, c, x := JavaText(s), CText(s), s[|s| - 1];
            && j != "" && c != ""
            && (x.Ascii? ==> j[|j| - 1] == c[|c| - 1] == x.c && j[..|j| - 1] == JavaText(s[..|s| - 1]))
            && (!x.Ascii? ==> j[|j| - 1] as int >= 128 && c[|c| - 1] as int >= 128)
  {
  }

  predicate Trailing(x: Symbol) { x.Ascii? && IsControl(x.c) }

  lemma TrimOne(s: seq<Symbol>)
    requires s != []
    ensures var j := JavaText(s);
            TrimEnd(j) == if Trailing(s[|s| - 1]) then TrimEnd(JavaText(s[..|s| - 1])) else j
    ensures !Trailing(s[|s| - 1]) ==> CText(s) != "" && !IsTail(CText(s)[|CText(s)| - 1])
  {
    LastOf(s);
  }

  /** Trimming leaves the text of the first `k` symbols and drops control characters. */
  ghost predicate TrimsTo(s: seq<Symbol>, k: nat) {
    && k <= |s| && JavaText(s[..k]) == TrimEnd(JavaText(s))
    && (forall i | k <= i < |s| :: Trailing(s[i]))
    && (CText(s[..k]) != "" ==> !IsTail(CText(s[..k])[|CText(s[..k])| - 1]))
  }

  lemma TrimsOne(s: seq<Symbol>, k: nat)
    requires s != [] && Trailing(s[|s| - 1]) && TrimsTo(s[..|s| - 1], k)
    ensures TrimsTo(s, k)
  {
    TrimOne(s);
    var front := s[..|s| - 1];
    assert front[..k] == s[..k];
    forall i | k <= i < |s|
      ensures Trailing(s[i])
    {
      assert i < |front| ==> front[i] == s[i];
    }
  }

  lemma {:induction false} TrimSplit(s: seq<Symbol>) returns (k: nat)
    ensures TrimsTo(s, k)
  {
    if s != [] && Trailing(s[|s| - 1]) {
      k := TrimSplit(s[..|s| - 1]);
      TrimsOne(s, k);
    } else {
      k := |s|;
      assert s[..k] == s;
      if s != [] {
        TrimOne(s);
      }
    }
  }

  lemma {:induction false} MoreBytes(s: seq<Symbol>)
    ensures |JavaText(s)| <= |CText(s)|
  {
    if s != [] {
      MoreBytes(s[..|s| - 1]);
    }
  }

  lemma LastOfConcat(x: string, y: string)
    requires y != ""
    ensures var s := x + y; s[..|s| - 1] == x + y[..|y| - 1] && s[|s| - 1] == y[|y| - 1]
  {
  }

  lemma {:induction false} TrimAfter(x: string, y: string)
    requires x != "" ==> !IsTail(x[|x| - 1])
    ensures Trim(x + y) == x + Trim(y)
  {
    if y == "" {
      assert x + y == x;
    } else {
      TrimAfter(x, y[..|y| - 1]);
      LastOfConcat(x, y);
    }
  }

  lemma {:induction false} TrimEndAfter(x: string, y: string)
    ensures TrimEnd(x + y) == if TrimEnd(y) == "" then TrimEnd(x) else x + TrimEnd(y)
  {
    if y == "" {
      assert x + y == x;
    } else {
      TrimEndAfter(x, y[..|y| - 1]);
      LastOfConcat(x, y);
    }
  }

  // ----- the two decoders on the two texts

  ghost predicate Controls(v: string) { forall i | 0 <= i < |v| :: IsControl(v[i]) }

  /** What C reads at a pair that Java does not see as two hex digits, all before it being hex digits, is
      no hex pair either. */
  lemma BadAt(a: seq<Symbol>, v: string, j: nat)
    requires Controls(v) && 2 * j <= |JavaText(a)| && 2 * j + 1 < |CText(a) + v|
    requires forall i | 0 <= i < 2 * j :: HexVal(JavaText(a)[i]) >= 0
    requires 2 * j + 1 < |JavaText(a)| ==> !HexPair(JavaText(a), j)
    ensures var t := CText(a) + v; ReadPair(t[2 * j], t[2 * j + 1]) == None
  {
    var q := 2 * j;
    HexPrefix(a, q);
    TextsAt(a, q);
    if q < |a| {
      NoDigitBeyond(a[q]);
      if HexVal(RawBytes(a[q])[0]) >= 0 {
        assert a[..q + 1] == a[..q] + [a[q]];
        TextsAt(a, q + 1);
        if q + 1 < |a| {
          NoDigitBeyond(a[q + 1]);
        }
      }
    }
  }

  lemma {:induction false} SamePairs(s: string, t: string, n: nat)
    requires 2 * n <= |s| && 2 * n <= |t| && s[..2 * n] == t[..2 * n]
    ensures ReadPairs(s, n) == ReadPairs(t, n)
  {
    if n != 0 {
      assert s[..2 * n - 2] == s[..2 * n][..2 * n - 2] == t[..2 * n - 2];
      assert s[2 * n - 2] == s[..2 * n][2 * n - 2] && s[2 * n - 1] == s[..2 * n][2 * n - 1];
      assert t[2 * n - 2] == t[..2 * n][2 * n - 2] && t[2 * n - 1] == t[..2 * n][2 * n - 1];
      SamePairs(s, t, n - 1);
    }
  }

  lemma HexPairsAreDigits(u: string, m: nat)
    requires 2 * m <= |u| && forall i: nat | i < m :: HexPair(u, i)
    ensures forall i | 0 <= i < 2 * m :: HexVal(u[i]) >= 0
  {
    forall i | 0 <= i < 2 * m
      ensures HexVal(u[i]) >= 0
    {
      assert HexPair(u, i / 2);
      assert i == 2 * (i / 2) || i == 2 * (i / 2) + 1;
    }
  }

  lemma {:induction false} FirstBad(u: string, i: nat) returns (j: nat)
    requires 2 * i + 1 < |u| && !HexPair(u, i)
    ensures j <= i && !HexPair(u, j) && forall k: nat | k < j :: HexPair(u, k)
    decreases i
  {
    j := i;
    if k: nat :| k < i && !HexPair(u, k) {
      j := FirstBad(u, k);
    }
  }

  /** Every pair that Java sees is a hex pair. */
  lemma AllHexPairs(digit: char -> int, a: seq<Symbol>, v: string)
    requires DigitsOfJava(digit) && Controls(v)
    requires forall i: nat | i < |JavaText(a)| / 2 :: HexPair(JavaText(a), i)
    ensures var u, t := JavaText(a), CText(a) + v;
            var m, n := |u| / 2, |t| / 2;
            m <= n && JavaPairs(digit, u, m).Some? && ReadPairs(t, n) == if m == n then JavaPairs(digit, u, m) else None
  {
    var u, t := JavaText(a), CText(a) + v;
    var m, n := |u| / 2, |t| / 2;
    MoreBytes(a);
    JavaReadsSame(digit, u, m);
    HexPairsAreDigits(u, m);
    HexPrefix(a, 2 * m);
    TextsAt(a, 2 * m);
    if m < n {
      BadAt(a, v, m);
      BadPair(t, m, n);
    } else {
      assert t[..2 * m] == u[..2 * m];
      SamePairs(u, t, m);
    }
  }

  lemma SomeBadPair(a: seq<Symbol>, v: string, i: nat)
    requires Controls(v) && 2 * i + 1 < |JavaText(a)| && !HexPair(JavaText(a), i)
    ensures ReadPairs(CText(a) + v, |CText(a) + v| / 2) == None
  {
    var u, t := JavaText(a), CText(a) + v;
    MoreBytes(a);
    var j := FirstBad(u, i);
    HexPairsAreDigits(u, j);
    BadAt(a, v, j);
    BadPair(t, j, |t| / 2);
  }

  /** Every pair of the text, or some pair, as Java divides it. */
  ghost predicate AllReadable(digit: char -> int, u: string) {
    forall i: nat | i < |u| / 2 :: JavaReadable(digit, u, i)
  }

  ghost predicate SomeForeign(u: string) {
    exists i: nat :: i < |u| / 2 && Foreign(u, i)
  }

  /** The decoders differ exactly when Java can read every pair and C sees more pairs, or a pair begins with
      a sign or goes beyond ASCII.  Java then yields bytes and C refuses. */
  lemma TextsDifferIff(digit: char -> int, a: seq<Symbol>, v: string)
    requires DigitsOfJava(digit) && Controls(v)
    ensures var u, t := JavaText(a), CText(a) + v;
            var m, n := |u| / 2, |t| / 2;
            && (JavaPairs(digit, u, m) != ReadPairs(t, n) <==>
                AllReadable(digit, u) && (m < n || SomeForeign(u)))
            && (ReadPairs(t, n).Some? ==> JavaPairs(digit, u, m) == ReadPairs(t, n))
  {
    var u := JavaText(a);
    var m := |u| / 2;
    forall i: nat | i < m
      ensures HexPair(u, i) <==> JavaReadable(digit, u, i) && !Foreign(u, i)
    {
      PairsCompared(digit, u, i);
    }
    JavaReadsIff(digit, u, m);
    if i: nat :| i < m && !HexPair(u, i) {
      SomeBadPair(a, v, i);
    } else {
      AllHexPairs(digit, a, v);
    }
  }

  lemma ControlText(w: seq<Symbol>)
    requires forall i | 0 <= i < |w| :: Trailing(w[i])
    ensures Controls(CText(w)) && Controls(Trim(CText(w)))
  {
    AsciiText(w);
  }

  /** Both trimmed texts, by the symbols that Java keeps and the control characters that C keeps beside. */
  lemma TrimmedTexts(s: seq<Symbol>) returns (a: seq<Symbol>, v: string)
    ensures TrimEnd(JavaText(s)) == JavaText(a) && Trim(CText(s)) == CText(a) + v && Controls(v)
  {
    var k := TrimSplit(s);
    a := s[..k];
    FlatSplit(RawBytes, s, k);
    ControlText(s[k..]);
    v := Trim(CText(s[k..]));
    TrimAfter(CText(a), CText(s[k..]));
  }

  /** What both decoders make of the text that follows the op: Java of the trimmed text, C of its own. */
  lemma HexTextsDifferIff(digit: char -> int, s: seq<Symbol>)
    requires DigitsOfJava(digit)
    ensures var u, t := TrimEnd(JavaText(s)), Trim(CText(s));
            var m, n := |u| / 2, |t| / 2;
            && (JavaPairs(digit, u, m) != HexDecode(CText(s)) <==>
                AllReadable(digit, u) && (m < n || SomeForeign(u)))
            && (HexDecode(CText(s)).Some? ==> JavaPairs(digit, u, m) == HexDecode(CText(s)))
  {
    var a, v := TrimmedTexts(s);
    TextsDifferIff(digit, a, v);
  }

  // ----- the whole line

  lemma NoBlankInOp(op: nat)
    ensures var d := Decimal(op); d != "" && !IsControl(d[0]) && !IsControl(d[|d| - 1]) && FirstBlank(d) == |d|
  {
    var d := Decimal(op);
    DecimalReads(op);
    forall j | 0 <= j < |d|
      ensures !IsControl(d[j])
    {
      assert IsDigit(d[j]);
    }
  }

  lemma TrimmedLine(op: nat, text: string)
    ensures var d, u := Decimal(op), TrimEnd(text);
            TrimStart(TrimEnd(d + " " + text)) == if u == "" then d else d + " " + u
  {
    var d, u := Decimal(op), TrimEnd(text);
    NoBlankInOp(op);
    TrimEndAfter(d + " ", text);
    TrimEndAfter(d, " ");
    assert TrimEnd(" ") == "" by { assert " "[..0] == ""; }
    assert u != "" ==> (d + " " + u)[0] == d[0];
  }

  lemma JavaBlobOf(digit: char -> int, op: nat, text: string)
    ensures var u := TrimEnd(text);
            JavaBlob(digit, Decimal(op) + " " + text) == if u == "" then None else JavaPairs(digit, u, |u| / 2)
  {
    var d, u := Decimal(op), TrimEnd(text);
    NoBlankInOp(op);
    TrimmedLine(op, text);
    if u != "" {
      LineSplits(op, u);
      assert (d + " " + u)[|d| + 1..] == u;
    }
  }

  /** On a line that begins with an op, whatever follows.  A text without visible characters is refused by
      Java, and decoded by C, as no bytes, unless two control characters are left that C does not trim.
      On any other text Java decodes whatever C decodes, to the same bytes, and the two differ exactly
      when every pair that Java sees is a digit after a digit or a sign, and C sees more pairs, or some
      pair begins with a sign or goes beyond ASCII. */
  lemma LinesDifferIff(digit: char -> int, op: nat, s: seq<Symbol>)
    requires DigitsOfJava(digit)
    ensures var d := Decimal(op) + " ";
            var java, c := JavaBlob(digit, d + JavaText(s)), BlobOf(d + CText(s));
            var u := TrimEnd(JavaText(s));
            var m, n := |u| / 2, |Trim(CText(s))| / 2;
            && (java != c <==>
                if u == "" then n == 0
                else AllReadable(digit, u) && (m < n || SomeForeign(u)))
            && (c.Some? && u != "" ==> java == c)
            && (u == "" ==> java == None)
  {
    JavaBlobOf(digit, op, JavaText(s));
    CBlobOf(op, CText(s));
    HexTextsDifferIff(digit, s);
  }

  // ----- texts on which the two differ

  lemma OnePair(digit: char -> int, t: string, v: int)
    requires 2 <= |t| && ParseInt16(digit, t[0], t[1]) == Some(v)
    ensures JavaPairs(digit, t, 1) == Some([v % 256])
  {
    var none: seq<byte> := [];
    assert JavaPairs(digit, t, 0) == Some(none);
    assert JavaPairs(digit, t, 1) == Some(none + [v % 256]);
    assert none + [v % 256] == [v % 256];
  }

  /** A sign and a hex digit: C refuses, Java reads the signed digit. */
  lemma SignedPairRead(digit: char -> int, op: nat, sign: char, y: char)
    requires DigitsOfJava(digit) && IsSign(sign) && HexVal(y) >= 0
    ensures JavaBlob(digit, Decimal(op) + " " + [sign, y]) ==
            Some([(if sign == '+' then HexVal(y) else -HexVal(y)) % 256])
    ensures BlobOf(Decimal(op) + " " + [sign, y]) == None
  {
    var s := [sign, y];
    assert y as int < 128 && digit(y) == HexVal(y);
    assert TrimEnd(s) == s && Trim(s) == s;
    OnePair(digit, s, if sign == '+' then HexVal(y) else -HexVal(y));
    JavaBlobOf(digit, op, s);
    CBlobOf(op, s);
    assert ReadPair(s[0], s[1]) == None;
    BadPair(s, 0, 1);
  }

  function PairValue(x: char, y: char): int { HexVal(x) * 16 + HexVal(y) }

  lemma SecondPairRefused(op: nat, t: string)
    requires 4 <= |t| && Trim(t) == t && HexVal(t[2]) < 0
    ensures BlobOf(Decimal(op) + " " + t) == None
  {
    CBlobOf(op, t);
    assert ReadPair(t[2], t[3]) == None;
    BadPair(t, 1, |t| / 2);
  }

  lemma FirstPairRead(digit: char -> int, op: nat, text: string, t: string)
    requires DigitsOfJava(digit) && TrimEnd(text) == t && 2 <= |t| <= 3
    requires HexVal(t[0]) >= 0 && HexVal(t[1]) >= 0
    ensures JavaBlob(digit, Decimal(op) + " " + text) == Some([PairValue(t[0], t[1]) % 256])
  {
    assert t[0] as int < 128 && t[1] as int < 128;
    assert ParseInt16(digit, t[0], t[1]) == Some(PairValue(t[0], t[1]));
    OnePair(digit, t, PairValue(t[0], t[1]));
    assert |t| / 2 == 1;
    JavaBlobOf(digit, op, text);
  }

  lemma {:induction false} AllTrimmed(v: string)
    requires Controls(v)
    ensures TrimEnd(v) == ""
  {
    if v != "" {
      AllTrimmed(v[..|v| - 1]);
    }
  }

  lemma PairTrimmed(x: char, y: char, v: string)
    requires HexVal(y) >= 0 && Controls(v)
    ensures TrimEnd([x, y] + v) == [x, y]
  {
    AllTrimmed(v);
    TrimEndAfter([x, y], v);
    assert TrimEnd([x, y]) == [x, y];
  }

  /** Two or more control characters after a pair, the last being none that C trims, such as two tabs. */
  lemma ControlsRefused(digit: char -> int, op: nat, x: char, y: char, v: string)
    requires DigitsOfJava(digit) && HexVal(x) >= 0 && HexVal(y) >= 0
    requires Controls(v) && 2 <= |v| && !IsTail(v[|v| - 1])
    ensures JavaBlob(digit, Decimal(op) + " " + ([x, y] + v)) == Some([PairValue(x, y) % 256])
    ensures BlobOf(Decimal(op) + " " + ([x, y] + v)) == None
  {
    var t := [x, y] + v;
    PairTrimmed(x, y, v);
    FirstPairRead(digit, op, t, [x, y]);
    LastOfConcat([x, y], v);
    assert t[2] == v[0];
    SecondPairRefused(op, t);
  }

  /** A character of two or more bytes after a pair, which for Java is the odd one out. */
  lemma WideCharacterRefused(digit: char -> int, op: nat, x: char, y: char, z: Symbol)
    requires DigitsOfJava(digit) && HexVal(x) >= 0 && HexVal(y) >= 0
    requires z.Beyond? && |z.units| == 1 && 2 <= |z.bytes|
    ensures JavaBlob(digit, Decimal(op) + " " + ([x, y] + z.units)) == Some([PairValue(x, y) % 256])
    ensures BlobOf(Decimal(op) + " " + ([x, y] + z.bytes)) == None
  {
    var j, c := [x, y] + z.units, [x, y] + z.bytes;
    assert AllBeyond(z.units) && AllBeyond(z.bytes);
    assert j[2] == z.units[0] && c[2] == z.bytes[0] && c[|c| - 1] == z.bytes[|z.bytes| - 1];
    assert TrimEnd(j) == j && Trim(c) == c;
    FirstPairRead(digit, op, j, j);
    SecondPairRefused(op, c);
  }

  /** Nothing after the op: C decodes no bytes, Java finds no blank in the trimmed line. */
  lemma EmptyTextRefused(digit: char -> int, op: nat)
    ensures JavaBlob(digit, Decimal(op) + " ") == None && BlobOf(Decimal(op) + " ") == Some([])
  {
    JavaBlobOf(digit, op, "");
    CBlobOf(op, "");
    assert Decimal(op) + " " + "" == Decimal(op) + " ";
  }

  /** The main loop up to the request parser. */
  method JavaReadLine(digit: char -> int, line: string) returns (blob: Option<seq<byte>>)
    ensures blob == JavaBlob(digit, line)
  {
    var t := TrimStart(TrimEnd(line));
    var sp := FirstBlank(t);
    if sp == |t| {
      return None;
    }
    blob := JavaHexDec(digit, t[sp + 1..]);
  }
}
