/** The requests of the verify ops: a drawn message, signed, sometimes tampered with, and packed.  The
    keys and the signature schemes are parameters. */
module Payloads {
  import opened Bytes
  import opened Draws
  import opened Generator
  import opened Options
  import opened Requests
  import opened WireCodec

  /** A key of the run: whether it was generated, its signatures and their verification, and its
      encoding. */
  datatype Signer = Signer(
    ready: bool, sign: seq<byte> -> Option<seq<byte>>, verify: (seq<byte>, seq<byte>) -> bool,
    pub: Option<seq<byte>>)

  const FIELD_MAX: nat := 512
  const PAYLOAD_ROOM: nat := 2048

  /** Keys and signatures fit the buffers that the library writes them to, and no signature is empty. */
  ghost predicate Fits(g: Signer) {
    && (g.pub.Some? ==> |g.pub.value| <= FIELD_MAX)
    && forall m :: g.sign(m).Some? ==> 0 < |g.sign(m).value| <= FIELD_MAX
  }

  // ----- one flipped bit

  /** Bit `j` of a number, bit 0 being the least significant. */
  function Bit(b: nat, j: nat): nat {
    if j == 0 then b % 2 else Bit(b / 2, j - 1)
  }

  function Pow2(n: nat): nat { if n == 0 then 1 else 2 * Pow2(n - 1) }

  lemma HalfBelow(b: nat, m: nat)
    requires b < 2 * m
    ensures b / 2 < m && (b % 2 == 0 ==> b + 1 < 2 * m)
    ensures forall h: nat :: h < m ==> 2 * h + b % 2 < 2 * m
  {
  }

  /** b ^ (1 << k), in a number of `n` bits. */
  function Flip(b: nat, k: nat, n: nat): (c: nat)
    requires k < n && b < Pow2(n)
    ensures c < Pow2(n)
  {
    HalfBelow(b, Pow2(n - 1));
    if k == 0 then (if b % 2 == 0 then b + 1 else b - 1) else 2 * Flip(b / 2, k - 1, n - 1) + b % 2
  }

  lemma FlipHalves(b: nat, k: nat, n: nat)
    requires k < n && b < Pow2(n)
    ensures b / 2 < Pow2(n - 1)
    ensures k == 0 ==> Flip(b, k, n) / 2 == b / 2 && Flip(b, k, n) % 2 != b % 2
    ensures k != 0 ==> Flip(b, k, n) / 2 == Flip(b / 2, k - 1, n - 1) && Flip(b, k, n) % 2 == b % 2
  {
    HalfBelow(b, Pow2(n - 1));
  }

  /** Exactly bit `k` changes. */
  lemma {:induction false} FlipsOnly(b: nat, k: nat, n: nat, j: nat)
    requires k < n && b < Pow2(n)
    ensures Bit(Flip(b, k, n), j) != Bit(b, j) <==> j == k
  {
    FlipHalves(b, k, n);
    if k != 0 && j != 0 {
      FlipsOnly(b / 2, k - 1, n - 1, j - 1);
    }
  }

  function FlipBit(b: byte, k: nat): (c: byte)
    requires k < 8
    ensures c != b
  {
    assert Pow2(8) == 256;
    FlipsOnly(b, k, 8, k);
    Flip(b, k, 8)
  }

  function FlipIn(x: seq<byte>, at: nat, k: nat): (y: seq<byte>)
    requires at < |x| && k < 8
    ensures y != x && |y| == |x|
  {
    assert x[at := FlipBit(x[at], k)][at] != x[at];
    x[at := FlipBit(x[at], k)]
  }

  /** Of all bits of `x`, exactly bit `k` of byte `at` is another in `y`. */
  ghost predicate FlippedAt(x: seq<byte>, y: seq<byte>, at: nat, k: nat) {
    && |x| == |y| && at < |x|
    && forall i: nat, j: nat | i < |x| :: Bit(x[i], j) != Bit(y[i], j) <==> i == at && j == k
  }

  lemma FlipInExactly(x: seq<byte>, at: nat, k: nat)
    requires at < |x| && k < 8
    ensures FlippedAt(x, FlipIn(x, at, k), at, k)
  {
    forall i: nat, j: nat | i < |x|
      ensures Bit(x[i], j) != Bit(FlipIn(x, at, k)[i], j) <==> i == at && j == k
    {
      assert Pow2(8) == 256;
      FlipsOnly(x[at], k, 8, j);
    }
  }

  ghost predicate OneBitApart(x: seq<byte>, y: seq<byte>) {
    exists at: nat, k: nat :: at < |x| && k < 8 && y == FlipIn(x, at, k)
  }

  // ----- what the draws decide

  /** C leaves open whether the index or the bit is drawn first. */
  function Tampered(t: Tape, i: nat, x: seq<byte>, indexFirst: bool): (y: seq<byte>)
    requires x != []
    ensures OneBitApart(x, y)
  {
    var at := Number(t, if indexFirst then i else i + 1, |x|);
    var k := Number(t, if indexFirst then i + 1 else i, 8);
    FlipIn(x, at, k)
  }

  function MessageLength(t: Tape, i: nat): nat { 1 + Number(t, i, 200) }

  function Message(t: Tape, i: nat): (m: seq<byte>)
    ensures 1 <= |m| <= 200
  {
    Drawn(t, i + 1, MessageLength(t, i))
  }

  /** Message and signature as they are sent, where draw number `i` decides whether to tamper. */
  function Sent(t: Tape, i: nat, m: seq<byte>, sig: seq<byte>, indexFirst: bool): (seq<byte>, seq<byte>)
    requires m != [] && sig != []
  {
    if Number(t, i, 2) == 0 then (m, sig)
    else if Number(t, i + 1, 2) == 0 then (m, Tampered(t, i + 2, sig, indexFirst))
    else (Tampered(t, i + 2, m, indexFirst), sig)
  }

  function SentEnd(t: Tape, i: nat): nat { if Number(t, i, 2) == 0 then i + 1 else i + 4 }

  /** The payload for a signed message, and its verdict, if the key can be encoded. */
  function PayloadFrom(
    t: Tape, i: nat, g: Signer, m: seq<byte>, sig: seq<byte>, indexFirst: bool): Option<(Payload, bool)>
    requires m != [] && sig != []
  {
    if g.pub == None || g.pub == Some([]) then None
    else
      var (m', sig') := Sent(t, i, m, sig, indexFirst);
      Some((Payload(g.pub.value, sig', m'), g.verify(m', sig')))
  }

  /** The payload and its verdict, if it can be made. */
  function PayloadOf(t: Tape, i: nat, g: Signer, indexFirst: bool): Option<(Payload, bool)>
    requires Fits(g)
  {
    var m := Message(t, i);
    if !g.ready || g.sign(m) == None then None
    else PayloadFrom(t, i + 1 + |m|, g, m, g.sign(m).value, indexFirst)
  }

  /** The number of the draw after the payload. */
  function PayloadEnd(t: Tape, i: nat, g: Signer): nat {
    var m := Message(t, i);
    if !g.ready then i
    else if g.sign(m) == None then i + 1 + |m|
    else SentEnd(t, i + 1 + |m|)
  }

  /** A payload carries the key and either the message with its signature, or one of the two with
      exactly one bit flipped.  The verdict is that of the signer on what is sent, and everything fits
      the buffer and the 16-bit lengths. */
  lemma SentFits(t: Tape, i: nat, g: Signer, m: seq<byte>, sig: seq<byte>, indexFirst: bool)
    requires 0 < |m| <= 200 && 0 < |sig| <= FIELD_MAX && (g.pub.Some? ==> |g.pub.value| <= FIELD_MAX)
    requires PayloadFrom(t, i, g, m, sig, indexFirst).Some?
    ensures var (p, verdict) := PayloadFrom(t, i, g, m, sig, indexFirst).value;
            && Some(p.pub) == g.pub && verdict == g.verify(p.msg, p.sig)
            && (|| (p.msg == m && p.sig == sig)
                || (OneBitApart(m, p.msg) && p.sig == sig)
                || (p.msg == m && OneBitApart(sig, p.sig)))
            && (p.msg == m && p.sig == sig <==> Number(t, i, 2) == 0)
    ensures var (p, verdict) := PayloadFrom(t, i, g, m, sig, indexFirst).value;
            |p.pub| < 65536 && |p.sig| < 65536 && |Pack(p)| <= PAYLOAD_ROOM
  {
  }

  /** Which draws give the message, and how many the payload takes: one for the length, one for each byte,
      and then, if the message could be signed, one or four for the tampering. */
  lemma PayloadByDraws(t: Tape, i: nat, g: Signer)
    ensures var m := Message(t, i);
            && |m| == 1 + t.word(i) % 200 && (forall k | 0 <= k < |m| :: m[k] == t.low(i + 1 + k))
            && (g.ready && g.sign(m).Some? ==>
                 PayloadEnd(t, i, g) == i + 1 + |m| + if t.word(i + 1 + |m|) % 2 == 1 then 4 else 1)
            && (g.ready && g.sign(m) == None ==> PayloadEnd(t, i, g) == i + 1 + |m|)
            && (!g.ready ==> PayloadEnd(t, i, g) == i)
  {
  }

  /** Which draws decide the tampering: an odd draw tampers, and then the next one, odd or even, chooses
      between the message and the signature.  Of the two after it one gives the byte and one the bit. */
  lemma SentByDraws(t: Tape, i: nat, m: seq<byte>, sig: seq<byte>, indexFirst: bool)
    requires m != [] && sig != []
    ensures var (m', sig') := Sent(t, i, m, sig, indexFirst);
            var at := if indexFirst then t.word(i + 2) else t.word(i + 3);
            var k := if indexFirst then t.word(i + 3) else t.word(i + 2);
            && (t.word(i) % 2 == 0 ==> m' == m && sig' == sig)
            && (t.word(i) % 2 == 1 && t.word(i + 1) % 2 == 1 ==> sig' == sig && FlippedAt(m, m', at % |m|, k % 8))
            && (t.word(i) % 2 == 1 && t.word(i + 1) % 2 == 0 ==> m' == m && FlippedAt(sig, sig', at % |sig|, k % 8))
            && SentEnd(t, i) == if t.word(i) % 2 == 1 then i + 4 else i + 1
  {
    var at := if indexFirst then t.word(i + 2) else t.word(i + 3);
    var k := if indexFirst then t.word(i + 3) else t.word(i + 2);
    FlipInExactly(m, at % |m|, k % 8);
    FlipInExactly(sig, at % |sig|, k % 8);
  }

  /** So it is for every payload of a run, with the drawn message. */
  lemma TamperedAtMostOnce(t: Tape, i: nat, g: Signer, indexFirst: bool)
    requires Fits(g) && PayloadOf(t, i, g, indexFirst).Some?
    ensures var (p, verdict) := PayloadOf(t, i, g, indexFirst).value;
            var m := Message(t, i);
            var sig := g.sign(m).value;
            && Some(p.pub) == g.pub && verdict == g.verify(p.msg, p.sig)
            && (|| (p.msg == m && p.sig == sig)
                || (OneBitApart(m, p.msg) && p.sig == sig)
                || (p.msg == m && OneBitApart(sig, p.sig)))
            && (p.msg == m && p.sig == sig <==> Number(t, i + 1 + |m|, 2) == 0)
    ensures var (p, verdict) := PayloadOf(t, i, g, indexFirst).value;
            |p.pub| < 65536 && |p.sig| < 65536 && |Pack(p)| <= PAYLOAD_ROOM
  {
    var m := Message(t, i);
    SentFits(t, i + 1 + |m|, g, m, g.sign(m).value, indexFirst);
  }

  // ----- the code

  /** Flip one drawn bit of the first `n` bytes. */
  method Tamper(src: VectorSource, x: array<byte>, n: nat, indexFirst: bool, ghost t: Tape, ghost i: nat)
    requires 0 < n <= x.Length && Linked(t) && src.state == t.state(i)
    modifies src, x
    ensures x[..n] == Tampered(t, i, old(x[..n]), indexFirst) && src.state == t.state(i + 2)
  {
    var at, k: nat;
    if indexFirst {
      at := Draw(src, n, t, i);
      k := Draw(src, 8, t, i + 1);
    } else {
      k := Draw(src, 8, t, i);
      at := Draw(src, n, t, i + 1);
    }
    ghost var was := x[..n];
    x[at] := FlipBit(x[at], k);
    assert x[..n] == FlipIn(was, at, k);
  }

  /** The two tampering draws of ecdsa_make_payload and rsa_make_payload, and what they do. */
  method MaybeTamper(
    src: VectorSource, msg: array<byte>, mlen: nat, sig: array<byte>, indexFirst: bool, ghost t: Tape, ghost i: nat)
    requires 0 < mlen <= msg.Length && 0 < sig.Length && msg != sig && Linked(t) && src.state == t.state(i)
    modifies src, msg, sig
    ensures (msg[..mlen], sig[..]) == Sent(t, i, old(msg[..mlen]), old(sig[..]), indexFirst)
    ensures src.state == t.state(SentEnd(t, i))
  {
    var tamper := Draw(src, 2, t, i);
    if tamper == 1 {
      var which := Draw(src, 2, t, i + 1);
      if which == 1 {
        Tamper(src, msg, mlen, indexFirst, t, i + 2);
      } else {
        assert sig[..sig.Length] == sig[..];
        Tamper(src, sig, sig.Length, indexFirst, t, i + 2);
        assert sig[..sig.Length] == sig[..];
      }
    }
  }

  /** The drawn message, in a buffer of 256 bytes. */
  method DrawMessage(src: VectorSource, ghost t: Tape, ghost i: nat) returns (msg: array<byte>, mlen: nat)
    requires Linked(t) && src.state == t.state(i)
    modifies src
    ensures fresh(msg) && mlen <= msg.Length && msg[..mlen] == Message(t, i)
    ensures src.state == t.state(i + 1 + mlen)
  {
    mlen := Draw(src, 200, t, i);
    mlen := 1 + mlen;
    msg := new byte[256](_ => 0);
    DrawBytes(src, msg, 0, mlen, t, i + 1);
  }

  method Buffer(b: seq<byte>) returns (a: array<byte>)
    ensures fresh(a) && a[..] == b
  {
    a := new byte[|b|](k requires 0 <= k < |b| => b[k]);
  }

  /** The outcome of a maker: whether there is a payload, its packed bytes and its verdict. */
  ghost predicate Made(pl: seq<byte>, ok: bool, len: nat, verdict: bool, p: Option<(Payload, bool)>) {
    && (ok <==> p.Some?)
    && (ok ==> len <= |pl| && pl[..len] == Pack(p.value.0) && verdict == p.value.1)
  }

  /** What ecdsa_make_payload and rsa_make_payload do with a signed message: tamper, verify, pack. */
  method SendPayload(
    src: VectorSource, g: Signer, msg: array<byte>, mlen: nat, s: seq<byte>, indexFirst: bool, pl: array<byte>,
    ghost t: Tape, ghost i: nat)
    returns (ok: bool, len: nat, verdict: bool)
    requires 0 < mlen <= 200 && mlen <= msg.Length && 0 < |s| <= FIELD_MAX
    requires g.pub.Some? ==> |g.pub.value| <= FIELD_MAX
    requires msg != pl && pl.Length == PAYLOAD_ROOM
    requires Linked(t) && src.state == t.state(i)
    modifies src, msg, pl
    ensures Made(pl[..], ok, len, verdict, PayloadFrom(t, i, g, old(msg[..mlen]), s, indexFirst))
    ensures src.state == t.state(SentEnd(t, i))
  {
    ghost var m := msg[..mlen];
    ok, len := false, 0;
    var sig := Buffer(s);
    MaybeTamper(src, msg, mlen, sig, indexFirst, t, i);
    var sent, signature := msg[..mlen], sig[..];
    verdict := g.verify(sent, signature);
    if g.pub == None || g.pub == Some([]) {
      return;
    }
    SentFits(t, i, g, m, s, indexFirst);
    len := EmitPayload(Payload(g.pub.value, signature, sent), pl);
    ok := true;
    assert pl[..][..len] == pl[..len];
  }

  lemma SignedFits(g: Signer, m: seq<byte>)
    requires Fits(g) && g.sign(m).Some?
    ensures 0 < |g.sign(m).value| <= FIELD_MAX
  {
  }

  lemma SignedOutcome(t: Tape, i: nat, g: Signer, m: seq<byte>, indexFirst: bool)
    requires Fits(g) && g.ready && m == Message(t, i) && g.sign(m).Some?
    ensures PayloadOf(t, i, g, indexFirst) == PayloadFrom(t, i + 1 + |m|, g, m, g.sign(m).value, indexFirst)
    ensures PayloadEnd(t, i, g) == SentEnd(t, i + 1 + |m|)
  {
  }

  /** What they do with the drawn message: sign it, or fail. */
  method SignPayload(
    src: VectorSource, g: Signer, msg: array<byte>, mlen: nat, indexFirst: bool, pl: array<byte>,
    ghost t: Tape, ghost i: nat)
    returns (ok: bool, len: nat, verdict: bool)
    requires Fits(g) && g.ready && pl.Length == PAYLOAD_ROOM && msg != pl
    requires mlen <= msg.Length && msg[..mlen] == Message(t, i)
    requires Linked(t) && src.state == t.state(i + 1 + mlen)
    modifies src, msg, pl
    ensures Made(pl[..], ok, len, verdict, PayloadOf(t, i, g, indexFirst))
    ensures src.state == t.state(PayloadEnd(t, i, g))
  {
    var drawn := msg[..mlen];
    var signed := g.sign(drawn);
    if signed == None {
      return false, 0, false;
    }
    SignedFits(g, drawn);
    SignedOutcome(t, i, g, drawn, indexFirst);
    ok, len, verdict := SendPayload(src, g, msg, mlen, signed.value, indexFirst, pl, t, i + 1 + mlen);
  }

  /** ecdsa_make_payload and rsa_make_payload: the payload is packed into the caller's buffer. */
  method MakePayload(src: VectorSource, g: Signer, indexFirst: bool, pl: array<byte>, ghost t: Tape, ghost i: nat)
    returns (ok: bool, len: nat, verdict: bool)
    requires Fits(g) && pl.Length == PAYLOAD_ROOM && Linked(t) && src.state == t.state(i)
    modifies src, pl
    ensures Made(pl[..], ok, len, verdict, PayloadOf(t, i, g, indexFirst))
    ensures src.state == t.state(PayloadEnd(t, i, g))
  {
    ok, len, verdict := false, 0, false;
    if !g.ready {
      return;
    }
    var msg, mlen := DrawMessage(src, t, i);
    ok, len, verdict := SignPayload(src, g, msg, mlen, indexFirst, pl, t, i);
  }

  /** What the lines of the verify ops carry: a CLI finds the payload in it, or, where none could be
      made, refuses an empty one. */
  ghost predicate Carries(line: string, op: nat, p: Option<(Payload, bool)>) {
    && ParseLine(line).Some? && ParseLine(line).value.op == op
    && Unpack(ParseLine(line).value.msg) == if p.Some? then Some(p.value.0) else None
  }

  lemma LineCarries(op: nat, packed: seq<byte>, p: Option<(Payload, bool)>)
    requires packed == if p.Some? then Pack(p.value.0) else []
    requires p.Some? ==> |p.value.0.pub| < 65536 && |p.value.0.sig| < 65536
    ensures Carries(Line(op, Zeros(HEADER) + packed), op, p)
  {
    var blob := Zeros(HEADER) + packed;
    assert LengthAt(blob, 44) == 0;
    ParseRunnerLine(op, blob);
    ParsesAs(op, blob, 0);
    assert blob[HEADER..] == packed;
    if p.Some? {
      UnpacksIff(packed, p.value.0);
    }
  }

  /** One request of a verify op, and the verdict that every backend must reproduce. */
  method BuildVerifyRequest(
    src: VectorSource, op: nat, g: Signer, indexFirst: bool, ghost t: Tape, ghost i: nat)
    returns (line: string, verdict: bool)
    requires Fits(g) && Linked(t) && src.state == t.state(i)
    modifies src
    ensures Carries(line, op, PayloadOf(t, i, g, indexFirst))
    ensures verdict == (PayloadOf(t, i, g, indexFirst).Some? && PayloadOf(t, i, g, indexFirst).value.1)
    ensures src.state == t.state(PayloadEnd(t, i, g))
  {
    var payload := new byte[PAYLOAD_ROOM](_ => 0);
    var ok, plen, accepted := MakePayload(src, g, indexFirst, payload, t, i);
    verdict := ok && accepted;
    if ok {
      TamperedAtMostOnce(t, i, g, indexFirst);
    } else {
      plen := 0;
    }
    assert ok ==> payload[..][..plen] == payload[..plen];
    LineCarries(op, payload[..plen], PayloadOf(t, i, g, indexFirst));
    line := EmitLine(op, Zeros(HEADER) + payload[..plen]);
  }
}
