/** The wire protocol between the differential runner and its compute CLIs: request lines, the blob
    they carry, and the verify payload packed inside its message. */
module WireCodec {
  import opened Bytes
  import opened HexCodec
  import opened Options

  const KEY_LEN: nat := 32
  const NONCE_LEN: nat := 12
  const HEADER: nat := 46  // key, nonce and the two length bytes

  // ----- 16-bit big-endian lengths

  /** The two length bytes; each is a cast of the length, so only its low 16 bits are kept. */
  function LengthBytes(n: nat): (b: seq<byte>)
    ensures |b| == 2
  {
    [n / 256 % 256, n % 256]
  }

  function LengthAt(b: seq<byte>, at: nat): nat
    requires at + 1 < |b|
  {
    b[at] as int * 256 + b[at + 1] as int
  }

  lemma SixteenBits(n: nat)
    ensures n / 256 % 256 * 256 + n % 256 == n % 65536
  {
  }

  lemma LengthReads(n: nat, b: seq<byte>, at: nat)
    requires at + 2 <= |b| && b[at..at + 2] == LengthBytes(n)
    ensures LengthAt(b, at) == n % 65536
  {
    assert b[at] == b[at..at + 2][0] && b[at + 1] == b[at..at + 2][1];
    SixteenBits(n);
  }

  lemma LengthDetermines(b: seq<byte>, at: nat)
    requires at + 2 <= |b|
    ensures LengthAt(b, at) < 65536
    ensures LengthBytes(LengthAt(b, at)) == b[at..at + 2]
  {
    assert b[at..at + 2] == [b[at], b[at + 1]];
  }

  /** The five parts of a concatenation. */
  lemma FiveParts(a: seq<byte>, b: seq<byte>, c: seq<byte>, d: seq<byte>, e: seq<byte>)
    ensures var x := a + b + c + d + e;
            var i, j := |a| + |b|, |a| + |b| + |c|;
            && x[0..|a|] == a && x[|a|..i] == b && x[i..j] == c
            && x[j..j + |d|] == d && x[j + |d|..] == e
  {
  }

  // ----- the verify payload

  datatype Payload = Payload(pub: seq<byte>, sig: seq<byte>, msg: seq<byte>)

  /** What ecdsa_make_payload and rsa_make_payload emit. */
  function Pack(t: Payload): seq<byte> {
    LengthBytes(|t.pub|) + t.pub + LengthBytes(|t.sig|) + t.sig + t.msg
  }

  /** The value of cmf_verify_parse. */
  function Unpack(p: seq<byte>): Option<Payload> {
    if |p| < 2 then None else
      var pl := LengthAt(p, 0);
      if 2 + pl + 2 > |p| then None else
        var sl := LengthAt(p, 2 + pl);
        if 4 + pl + sl > |p| then None
        else Some(Payload(p[2..2 + pl], p[4 + pl..4 + pl + sl], p[4 + pl + sl..]))
  }

  /** Where the parts of a packed payload stand: each length is sent high byte first, before its part. */
  lemma PackLayout(t: Payload)
    requires |t.pub| < 65536 && |t.sig| < 65536
    ensures var p, i, j := Pack(t), 2 + |t.pub|, 4 + |t.pub| + |t.sig|;
            && |p| == j + |t.msg|
            && p[0] as int * 256 + p[1] as int == |t.pub| && p[2..i] == t.pub
            && p[i] as int * 256 + p[i + 1] as int == |t.sig| && p[i + 2..j] == t.sig && p[j..] == t.msg
  {
    FiveParts(LengthBytes(|t.pub|), t.pub, LengthBytes(|t.sig|), t.sig, t.msg);
    LengthReads(|t.pub|, Pack(t), 0);
    LengthReads(|t.sig|, Pack(t), 2 + |t.pub|);
  }

  lemma UnpackParts(p: seq<byte>, t: Payload)
    requires |p| == 4 + |t.pub| + |t.sig| + |t.msg|
    requires LengthAt(p, 0) == |t.pub| && LengthAt(p, 2 + |t.pub|) == |t.sig|
    requires var i, j := 2 + |t.pub|, 4 + |t.pub|;
             p[2..i] == t.pub && p[j..j + |t.sig|] == t.sig && p[j + |t.sig|..] == t.msg
    ensures Unpack(p) == Some(t)
  {
  }

  lemma UnpackPack(t: Payload)
    requires |t.pub| < 65536 && |t.sig| < 65536
    ensures Unpack(Pack(t)) == Some(t)
  {
    var p := Pack(t);
    FiveParts(LengthBytes(|t.pub|), t.pub, LengthBytes(|t.sig|), t.sig, t.msg);
    LengthReads(|t.pub|, p, 0);
    LengthReads(|t.sig|, p, 2 + |t.pub|);
    UnpackParts(p, t);
  }

  lemma Reassemble(p: seq<byte>, i: nat, j: nat, k: nat)
    requires 2 <= i <= j <= k <= |p|
    ensures p == p[0..2] + p[2..i] + p[i..j] + p[j..k] + p[k..]
  {
  }

  lemma PackUnpack(p: seq<byte>, t: Payload)
    requires Unpack(p) == Some(t)
    ensures p == Pack(t) && |t.pub| < 65536 && |t.sig| < 65536
  {
    var pl := LengthAt(p, 0);
    var sl := LengthAt(p, 2 + pl);
    LengthDetermines(p, 0);
    LengthDetermines(p, 2 + pl);
    Reassemble(p, 2 + pl, 4 + pl, 4 + pl + sl);
  }

  /** Packing and parsing are inverse to each other: a payload parses to `t` exactly when it is the
      packing of `t` and both lengths fit their fields.  The three views partition the payload. */
  lemma UnpacksIff(p: seq<byte>, t: Payload)
    ensures Unpack(p) == Some(t) <==> p == Pack(t) && |t.pub| < 65536 && |t.sig| < 65536
  {
    if |t.pub| < 65536 && |t.sig| < 65536 {
      UnpackPack(t);
    }
    if Unpack(p) == Some(t) {
      PackUnpack(p, t);
    }
  }

  // ----- the request blob

  datatype Request = Request(op: int, key: seq<byte>, nonce: seq<byte>, aad: seq<byte>, msg: seq<byte>)

  function Zeros(n: nat): seq<byte> { seq(n, _ => 0 as byte) }

  /** key || nonce || aadlen || aad || msg */
  function Blob(key: seq<byte>, nonce: seq<byte>, aad: seq<byte>, msg: seq<byte>): seq<byte> {
    key + nonce + LengthBytes(|aad|) + aad + msg
  }

  /** The fields that cmf_vec_parse finds in a decoded blob: a short blob is all message, and a
      declared length that exceeds what remains is cut to what remains. */
  function ParseBlob(op: int, blob: seq<byte>): Request {
    if |blob| < HEADER then Request(op, Zeros(KEY_LEN), Zeros(NONCE_LEN), [], blob)
    else
      var rest := |blob| - HEADER;
      var declared := LengthAt(blob, KEY_LEN + NONCE_LEN);
      var n := if declared > rest then rest else declared;
      Request(op, blob[..KEY_LEN], blob[KEY_LEN..KEY_LEN + NONCE_LEN], blob[HEADER..HEADER + n], blob[HEADER + n..])
  }

  /** Where the fields of a blob stand, the length of the associated data being sent high byte first. */
  lemma BlobLayout(key: seq<byte>, nonce: seq<byte>, aad: seq<byte>, msg: seq<byte>)
    requires |key| == KEY_LEN && |nonce| == NONCE_LEN && |aad| < 65536
    ensures var b := Blob(key, nonce, aad, msg);
            && |b| == 46 + |aad| + |msg| && b[..32] == key && b[32..44] == nonce
            && b[44] as int * 256 + b[45] as int == |aad|
            && b[46..46 + |aad|] == aad && b[46 + |aad|..] == msg
  {
    FiveParts(key, nonce, LengthBytes(|aad|), aad, msg);
    LengthReads(|aad|, Blob(key, nonce, aad, msg), 44);
  }

  /** A short blob is all message, and nothing else is set; a declared length that overruns takes all that
      follows the header. */
  lemma ParseBlobEdges(op: int, blob: seq<byte>)
    ensures |blob| < 46 ==>
              var v := ParseBlob(op, blob);
              && v.msg == blob && v.aad == []
              && |v.key| == 32 && (forall i | 0 <= i < 32 :: v.key[i] == 0)
              && |v.nonce| == 12 && (forall i | 0 <= i < 12 :: v.nonce[i] == 0)
    ensures 46 <= |blob| ==>
              var v, declared := ParseBlob(op, blob), blob[44] as int * 256 + blob[45] as int;
              && |v.aad| == (if declared <= |blob| - 46 then declared else |blob| - 46)
              && v.aad + v.msg == blob[46..]
  {
  }

  /** A blob parses back to the fields it was built from exactly when the associated data fits the
      16-bit length. */
  lemma ParseBlobIff(op: int, key: seq<byte>, nonce: seq<byte>, aad: seq<byte>, msg: seq<byte>)
    requires |key| == KEY_LEN && |nonce| == NONCE_LEN
    ensures ParseBlob(op, Blob(key, nonce, aad, msg)) == Request(op, key, nonce, aad, msg) <==> |aad| < 65536
  {
    var b := Blob(key, nonce, aad, msg);
    assert b[..KEY_LEN] == b[0..KEY_LEN];
    FiveParts(key, nonce, LengthBytes(|aad|), aad, msg);
    LengthReads(|aad|, Blob(key, nonce, aad, msg), 44);
  }

  /** Every blob with a full header is its key, nonce and length bytes followed by the two parts, so
      no byte is lost; it is the blob of the fields it parses to exactly when the declared length
      does not exceed what follows. */
  lemma ParsedBlobRebuilds(op: int, blob: seq<byte>)
    requires HEADER <= |blob|
    ensures var v := ParseBlob(op, blob);
            blob == v.key + v.nonce + blob[44..46] + v.aad + v.msg
    ensures var v := ParseBlob(op, blob);
            blob == Blob(v.key, v.nonce, v.aad, v.msg) <==> LengthAt(blob, 44) <= |blob| - HEADER
  {
    var v := ParseBlob(op, blob);
    assert blob == v.key + v.nonce + blob[44..46] + v.aad + v.msg;
    LengthDetermines(blob, 44);
    FiveParts(v.key, v.nonce, LengthBytes(|v.aad|), v.aad, v.msg);
    LengthReads(|v.aad|, Blob(v.key, v.nonce, v.aad, v.msg), 44);
  }

  // ----- the request line

  function Decimal(n: nat): string {
    if n < 10 then [DIGITS[n]] else Decimal(n / 10) + [DIGITS[n % 10]]
  }

  predicate IsDigit(c: char) { '0' <= c <= '9' }
  predicate IsSpace(c: char) { c == ' ' || 9 <= c as int <= 13 }

  function SkipSpace(s: string): string {
    if s != "" && IsSpace(s[0]) then SkipSpace(s[1..]) else s
  }

  function LeadingDigits(s: string, acc: nat): nat {
    if s != "" && IsDigit(s[0]) then LeadingDigits(s[1..], acc * 10 + HexVal(s[0])) else acc
  }

  function Atoi(s: string): (v: int) {
    var t := SkipSpace(s);
    if t != "" && t[0] == '-' then 0 - LeadingDigits(t[1..], 0)
    else if t != "" && t[0] == '+' then LeadingDigits(t[1..], 0)
    else LeadingDigits(t, 0)
  }

  lemma {:induction false} LeadingDigitsAppend(s: string, c: char, acc: nat)
    requires IsDigit(c) && forall i | 0 <= i < |s| :: IsDigit(s[i])
    ensures LeadingDigits(s + [c], acc) == LeadingDigits(s, acc) * 10 + HexVal(c)
  {
    if s == "" {
      assert [c][1..] == "";
    } else {
      assert (s + [c])[1..] == s[1..] + [c];
      LeadingDigitsAppend(s[1..], c, acc * 10 + HexVal(s[0]));
    }
  }

  lemma DecimalDigit(n: nat)
    requires n < 10
    ensures IsDigit(DIGITS[n]) && HexVal(DIGITS[n]) == n
  {
    DigitReads(n);
  }

  lemma {:induction false} DecimalReads(n: nat)
    ensures Decimal(n) != "" && forall i | 0 <= i < |Decimal(n)| :: IsDigit(Decimal(n)[i])
    ensures LeadingDigits(Decimal(n), 0) == n
  {
    DecimalDigit(n % 10);
    if 10 <= n {
      DecimalReads(n / 10);
      LeadingDigitsAppend(Decimal(n / 10), DIGITS[n % 10], 0);
    } else {
      assert Decimal(n)[1..] == "";
    }
  }

  lemma AtoiDecimal(n: nat)
    ensures Atoi(Decimal(n)) == n
  {
    DecimalReads(n);
    assert IsDigit(Decimal(n)[0]);
  }

  lemma {:induction false} SpacesSkipped(w: string, s: string)
    requires (forall i | 0 <= i < |w| :: IsSpace(w[i])) && (s != "" ==> !IsSpace(s[0]))
    ensures SkipSpace(w + s) == s
  {
    if w == "" {
      assert w + s == s;
    } else {
      assert (w + s)[1..] == w[1..] + s;
      SpacesSkipped(w[1..], s);
    }
  }

  lemma {:induction false} DigitsStop(s: string, rest: string, acc: nat)
    requires (forall i | 0 <= i < |s| :: IsDigit(s[i])) && (rest != "" ==> !IsDigit(rest[0]))
    ensures LeadingDigits(s + rest, acc) == LeadingDigits(s, acc)
  {
    if s == "" {
      assert s + rest == rest;
    } else {
      assert (s + rest)[1..] == s[1..] + rest;
      DigitsStop(s[1..], rest, acc * 10 + HexVal(s[0]));
    }
  }

  lemma AfterSign(c: char, s: string)
    ensures ([c] + s)[1..] == s
  {
  }

  lemma SignRead(w: string, c: char, s: string)
    requires (forall i | 0 <= i < |w| :: IsSpace(w[i])) && (c == '+' || c == '-')
    ensures SkipSpace(w + ([c] + s)) == [c] + s && ([c] + s)[1..] == s
  {
    SpacesSkipped(w, [c] + s);
    AfterSign(c, s);
  }

  lemma AtoiUnsigned(w: string, s: string)
    requires (forall i | 0 <= i < |w| :: IsSpace(w[i])) && s != "" && IsDigit(s[0])
    ensures Atoi(w + s) == LeadingDigits(s, 0)
  {
    SpacesSkipped(w, s);
  }

  lemma AtoiSigned(w: string, c: char, s: string)
    requires (forall i | 0 <= i < |w| :: IsSpace(w[i])) && (c == '+' || c == '-')
    ensures Atoi(w + ([c] + s)) == if c == '-' then 0 - LeadingDigits(s, 0) else LeadingDigits(s, 0)
  {
    SignRead(w, c, s);
  }

  /** atoi skips white space, takes one sign, and stops at the first character that is no digit. */
  lemma AtoiReads(w: string, n: nat, rest: string)
    requires (forall i | 0 <= i < |w| :: IsSpace(w[i])) && (rest != "" ==> !IsDigit(rest[0]))
    ensures Atoi(w + (Decimal(n) + rest)) == Atoi(w + (['+'] + (Decimal(n) + rest))) == n
    ensures Atoi(w + (['-'] + (Decimal(n) + rest))) == 0 - n
  {
    var s := Decimal(n) + rest;
    DecimalReads(n);
    assert s[0] == Decimal(n)[0];
    DigitsStop(Decimal(n), rest, 0);
    AtoiUnsigned(w, s);
    AtoiSigned(w, '+', s);
    AtoiSigned(w, '-', s);
  }

  /** What strchr finds: the index of the first blank, or the length. */
  function FirstBlank(s: string): (i: nat)
    ensures i <= |s| && (i < |s| ==> s[i] == ' ')
    ensures forall j | 0 <= j < i :: s[j] != ' '
  {
    if s == "" || s[0] == ' ' then 0 else 1 + FirstBlank(s[1..])
  }

  /** The blob that follows the first blank of a request line. */
  function BlobOf(line: string): Option<seq<byte>> {
    var sp := FirstBlank(line);
    if sp == |line| then None else HexDecode(line[sp + 1..])
  }

  /** The value of cmf_vec_parse on a request line. */
  function ParseLine(line: string): Option<Request> {
    match BlobOf(line)
    case None => None
    case Some(blob) => Some(ParseBlob(Atoi(line[..FirstBlank(line)]), blob))
  }

  /** The request line that the runner writes. */
  function Line(op: nat, blob: seq<byte>): string {
    Decimal(op) + " " + HexEncode(blob) + "\n"
  }

  /** The first blank of a request line ends the op. */
  lemma LineSplits(op: nat, rest: string)
    ensures FirstBlank(Decimal(op) + " " + rest) == |Decimal(op)|
  {
    var d := Decimal(op);
    var s := d + " " + rest;
    DecimalReads(op);
    assert s[|d|] == ' ';
    forall j | 0 <= j < |d|
      ensures s[j] != ' '
    {
      assert s[j] == d[j] && IsDigit(d[j]);
    }
  }

  lemma AfterBlank(d: string, text: string)
    ensures var s := d + " " + text; s[..|d|] == d && s[|d| + 1..] == text && |s| > |d|
  {
  }

  /** On a line that begins with an op, C decodes what follows the blank. */
  lemma CBlobOf(op: nat, text: string)
    ensures BlobOf(Decimal(op) + " " + text) == HexDecode(text)
  {
    LineSplits(op, text);
    AfterBlank(Decimal(op), text);
  }

  lemma OpOf(op: nat, text: string)
    ensures var s := Decimal(op) + " " + text; Atoi(s[..FirstBlank(s)]) == op
  {
    LineSplits(op, text);
    AfterBlank(Decimal(op), text);
    AtoiDecimal(op);
  }

  lemma ParseRunnerLine(op: nat, blob: seq<byte>)
    ensures ParseLine(Line(op, blob)) == Some(ParseBlob(op, blob))
  {
    var text := HexEncode(blob) + "\n";
    assert Line(op, blob) == Decimal(op) + " " + text;
    CBlobOf(op, text);
    OpOf(op, text);
    DecodeEncode(blob);
  }

  /** End to end: the CLI parses out of the request line exactly the fields the runner put in, for
      every op, key, nonce, message and associated data, exactly when the latter fits its length
      field; and if the message is a packed payload, the CLI finds its three parts again. */
  lemma RequestRoundTrip(op: nat, key: seq<byte>, nonce: seq<byte>, aad: seq<byte>, msg: seq<byte>)
    requires |key| == KEY_LEN && |nonce| == NONCE_LEN
    ensures ParseLine(Line(op, Blob(key, nonce, aad, msg))) == Some(Request(op, key, nonce, aad, msg)) <==>
            |aad| < 65536
  {
    ParseRunnerLine(op, Blob(key, nonce, aad, msg));
    ParseBlobIff(op, key, nonce, aad, msg);
  }

  lemma VerifyRequestRoundTrip(op: nat, t: Payload)
    requires |t.pub| < 65536 && |t.sig| < 65536
    ensures var r := ParseLine(Line(op, Blob(Zeros(KEY_LEN), Zeros(NONCE_LEN), [], Pack(t))));
            r.Some? && r.value.op == op && Unpack(r.value.msg) == Some(t)
  {
    RequestRoundTrip(op, Zeros(KEY_LEN), Zeros(NONCE_LEN), [], Pack(t));
    UnpacksIff(Pack(t), t);
  }

  // ----- the code

  /** cmf_verify_parse, with the offset advanced field by field. */
  method CmfVerifyParse(p: seq<byte>) returns (r: Option<Payload>)
    ensures r == Unpack(p)
  {
    var off := 0;
    if |p| < 2 {
      return None;
    }
    var pl := LengthAt(p, 0);
    off := 2;
    if off + pl + 2 > |p| {
      return None;
    }
    var pub := p[off..off + pl];
    off := off + pl;
    var sl := LengthAt(p, off);
    off := off + 2;
    if off + sl > |p| {
      return None;
    }
    var sig := p[off..off + sl];
    off := off + sl;
    r := Some(Payload(pub, sig, p[off..]));
  }

  /** Append `b` to what is written, and advance the offset. */
  method Put(pl: array<byte>, off: nat, b: seq<byte>) returns (next: nat)
    requires off + |b| <= pl.Length
    modifies pl
    ensures next == off + |b| <= pl.Length && pl[..next] == old(pl[..off]) + b
  {
    forall i | 0 <= i < |b| {
      pl[off + i] := b[i];
    }
    next := off + |b|;
  }

  /** The packing steps of ecdsa_make_payload and rsa_make_payload, into the caller's buffer. */
  method EmitPayload(t: Payload, pl: array<byte>) returns (len: nat)
    requires |Pack(t)| <= pl.Length
    modifies pl
    ensures len <= pl.Length && pl[..len] == Pack(t)
  {
    var off := Put(pl, 0, LengthBytes(|t.pub|));
    off := Put(pl, off, t.pub);
    off := Put(pl, off, LengthBytes(|t.sig|));
    off := Put(pl, off, t.sig);
    len := Put(pl, off, t.msg);
  }

  /** cmf_vec_t, filled in by the parser. */
  class Vec {
    var op: int
    var key: seq<byte>
    var nonce: seq<byte>
    var aad: seq<byte>
    var msg: seq<byte>

    function Fields(): Request
      reads this
    {
      Request(op, key, nonce, aad, msg)
    }

    /** cmf_vec_parse: 0 and the parsed fields, or -1 and an empty request. */
    method Parse(line: string) returns (rc: int)
      modifies this
      ensures rc == if ParseLine(line).Some? then 0 else -1
      ensures rc == 0 ==> ParseLine(line) == Some(Fields())
      ensures op == if FirstBlank(line) == |line| then 0 else Atoi(line[..FirstBlank(line)])
      ensures rc != 0 ==> key == Zeros(KEY_LEN) && nonce == Zeros(NONCE_LEN) && aad == [] && msg == []
    {
      op, key, nonce, aad, msg := 0, Zeros(KEY_LEN), Zeros(NONCE_LEN), [], [];
      var sp := FirstBlank(line);
      if sp == |line| {
        return -1;
      }
      op := Atoi(line[..sp]);
      var decoded := CmfHexDecode(line[sp + 1..]);
      if decoded == None {
        return -1;
      }
      var blob := decoded.value;
      if |blob| < HEADER {
        msg := blob;
        return 0;
      }
      key := blob[..KEY_LEN];
      nonce := blob[KEY_LEN..KEY_LEN + NONCE_LEN];
      var aadlen := LengthAt(blob, KEY_LEN + NONCE_LEN);
      var rest := |blob| - HEADER;
      if aadlen > rest {
        aadlen := rest;
      }
      aad := blob[HEADER..HEADER + aadlen];
      msg := blob[HEADER + aadlen..];
      rc := 0;
    }
  }
}
