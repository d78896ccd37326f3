/** The requests that the runner generates for the compute ops, and what a CLI reads out of them. */
module Requests {
  import opened Bytes
  import opened Draws
  import opened Generator
  import opened HexCodec
  import opened Iteration
  import opened Options
  import opened WireCodec

  const NUM_OPS: nat := 27

  predicate TakesAad(op: nat) { op == 3 || op == 4 || op == 9 || op == 23 || op == 24 }

  /** Block and limb edges for the message length. */
  const BOUNDARY_LEN: seq<nat> :=
    [0, 1, 15, 16, 17, 31, 32, 33, 55, 56, 63, 64, 65, 127, 128, 129, 255, 256]

  function Repeat(n: nat, b: byte): seq<byte> { seq(n, _ => b) }

  /** The little-endian field value p + d, for d between -1 and 1. */
  function NearPrime(low: byte): seq<byte> { [low] + Repeat(30, 0xff) + [0x7f] }

  /** Adversarial X25519 peer coordinates: low-order points, field boundaries, all ones. */
  function X25519Edge(): (e: seq<seq<byte>>)
    ensures |e| == 8 && forall i | 0 <= i < 8 :: |e[i]| == 32
  {
    [Repeat(32, 0), [1] + Repeat(31, 0),
    [0xe0, 0xeb, 0x7a, 0x7c, 0x3b, 0x41, 0xb8, 0xae, 0x16, 0x56, 0xe3, 0xfa, 0xf1, 0x9f, 0xc4, 0x6a,
     0xda, 0x09, 0x8d, 0xeb, 0x9c, 0x32, 0xb1, 0xfd, 0x86, 0x62, 0x05, 0x16, 0x5f, 0x49, 0xb8, 0x00],
    [0x5f, 0x9c, 0x95, 0xbc, 0xa3, 0x50, 0x8c, 0x24, 0xb1, 0xd0, 0xb1, 0x55, 0x9c, 0x83, 0xef, 0x5b,
     0x04, 0x44, 0x5c, 0xc4, 0x58, 0x1c, 0x8e, 0x86, 0xd8, 0x22, 0x4e, 0xdd, 0xd0, 0x9f, 0x11, 0x57],
     NearPrime(0xec), NearPrime(0xed), NearPrime(0xee), Repeat(32, 0xff)]
  }

  // ----- what the draws decide

  /** The lengths that the first draws decide, and the number of the draw after them. */
  datatype Lengths = Lengths(msg: nat, aad: nat, next: nat)

  /** The lengths for op `op`, where `i` is the number of the first draw. */
  function LengthsOf(t: Tape, i: nat, op: nat): Lengths {
    var pinned := op != 12 && Number(t, i + 1, 4) == 0;
    var next := if op == 12 then i + 1 else if pinned then i + 3 else i + 2;
    var msg := if op == 12 then 32
               else if pinned then BOUNDARY_LEN[Number(t, i + 2, 18)]
               else Number(t, i, 512);
    if TakesAad(op) then Lengths(msg, Number(t, next, 64), next + 1) else Lengths(msg, 0, next)
  }

  /** Bit 255 of a little-endian coordinate cleared. */
  function Canonical(u: seq<byte>): seq<byte>
    requires |u| == 32
  {
    u[31 := u[31] % 0x80]
  }

  /** The peer coordinate, where `i` is the number of its first draw. */
  function PeerOf(t: Tape, i: nat): seq<byte> {
    if Number(t, i + 32, 3) == 0 then Canonical(X25519Edge()[Number(t, i + 33, 8)])
    else Canonical(Drawn(t, i, 32))
  }

  /** The associated data stays below 64 bytes and is empty where the op takes none; the message
      stays below 512 bytes, and is 32 bytes for a peer coordinate. */
  lemma LengthsBounded(t: Tape, i: nat, op: nat)
    ensures var l := LengthsOf(t, i, op);
            && l.aad < 64 && (!TakesAad(op) ==> l.aad == 0) && l.msg < 512 && (op == 12 ==> l.msg == 32)
  {
  }

  /** A peer coordinate is below 2^255. */
  lemma PeerBounded(t: Tape, i: nat)
    ensures |PeerOf(t, i)| == 32 && PeerOf(t, i)[31] < 0x80
  {
  }

  /** Associated data and message: drawn bytes, but for a canonical peer coordinate. */
  function Tail(t: Tape, i: nat, op: nat): (b: seq<byte>)
    ensures |b| == LengthsOf(t, i, op).aad + LengthsOf(t, i, op).msg
  {
    var l := LengthsOf(t, i, op);
    LengthsBounded(t, i, op);
    PeerBounded(t, l.next + 44);
    if op == 12 then PeerOf(t, l.next + 44) else Drawn(t, l.next + 44, l.aad + l.msg)
  }

  /** The fields that a compute op draws. */
  function FieldsOf(t: Tape, i: nat, op: nat): Request {
    var l := LengthsOf(t, i, op);
    var head := Drawn(t, l.next, 44);
    Request(op, head[..KEY_LEN], head[KEY_LEN..], Tail(t, i, op)[..l.aad], Tail(t, i, op)[l.aad..])
  }

  /** The number of the draw after the request. */
  function EndOf(t: Tape, i: nat, op: nat): nat {
    var l := LengthsOf(t, i, op);
    var end := l.next + 44 + l.aad + l.msg;
    if op == 12 then end + (if Number(t, end, 3) == 0 then 2 else 1) else end
  }

  /** Which draw gives which length, where draw `i` is the first: for op 12 it is spent and the message is
      a peer coordinate; otherwise the next draw decides between the first one's remainder and an edge
      length from a third.  The draw after these gives the length of the associated data, if the op
      takes any. */
  lemma LengthsByDraws(t: Tape, i: nat, op: nat)
    ensures var l := LengthsOf(t, i, op);
            var j := if TakesAad(op) then l.next - 1 else l.next;
            && (op == 12 ==> l.msg == 32 && j == i + 1)
            && (op != 12 && t.word(i + 1) % 4 == 0 ==>
                 j == i + 3 && l.msg == BOUNDARY_LEN[t.word(i + 2) % |BOUNDARY_LEN|])
            && (op != 12 && t.word(i + 1) % 4 != 0 ==> j == i + 2 && l.msg == t.word(i) % 512)
            && l.aad == if op in {3, 4, 9, 23, 24} then t.word(j) % 64 else 0
  {
  }

  /** Which draw gives which byte: after the lengths, one draw for each byte of key, nonce, associated
      data and message, in this order; of a peer coordinate that is kept, bit 255 is dropped. */
  lemma FieldsByDraws(t: Tape, i: nat, op: nat)
    ensures var v, l := FieldsOf(t, i, op), LengthsOf(t, i, op);
            && v.op == op && |v.key| == 32 && |v.nonce| == 12 && |v.aad| == l.aad && |v.msg| == l.msg
            && (forall k | 0 <= k < 32 :: v.key[k] == t.low(l.next + k))
            && (forall k | 0 <= k < 12 :: v.nonce[k] == t.low(l.next + 32 + k))
            && (forall k | 0 <= k < l.aad :: v.aad[k] == t.low(l.next + 44 + k))
            && (op != 12 ==> forall k | 0 <= k < l.msg :: v.msg[k] == t.low(l.next + 44 + l.aad + k))
            && (op != 12 ==> EndOf(t, i, op) == l.next + 44 + l.aad + l.msg)
            && (op == 12 ==> v.msg == PeerOf(t, l.next + 44))
            && (op == 12 ==> EndOf(t, i, op) == l.next + 76 + if t.word(l.next + 76) % 3 == 0 then 2 else 1)
  {
    LengthsBounded(t, i, op);
  }

  /** The peer coordinate of op 12, where `i` is the number of its first draw: its own bytes, or an edge
      value if the draw after them is a multiple of three, with bit 255 dropped. */
  lemma PeerByDraws(t: Tape, i: nat)
    ensures var u := if t.word(i + 32) % 3 == 0 then X25519Edge()[t.word(i + 33) % 8] else Drawn(t, i, 32);
            && |u| == 32 && PeerOf(t, i)[..31] == u[..31]
            && PeerOf(t, i)[31] == if u[31] < 128 then u[31] else u[31] - 128
  {
  }

  /** The number that little-endian bytes denote. */
  function LittleEndian(b: seq<byte>): nat {
    if b == [] then 0 else b[0] + 256 * LittleEndian(b[1..])
  }

  lemma Regroup(a: nat, b: nat)
    ensures 256 * (a * b) == (256 * a) * b
  {
  }

  lemma {:induction false} FullBytesThen(n: nat, rest: seq<byte>)
    ensures LittleEndian(Repeat(n, 0xff) + rest) + 1 == Pow256(n) * (LittleEndian(rest) + 1)
  {
    if n == 0 {
      assert Repeat(0, 0xff) + rest == rest;
    } else {
      var b := Repeat(n, 0xff) + rest;
      assert b[1..] == Repeat(n - 1, 0xff) + rest;
      FullBytesThen(n - 1, rest);
      Regroup(Pow256(n - 1), LittleEndian(rest) + 1);
    }
  }

  lemma OneByteNumber(b: byte)
    ensures LittleEndian([b]) == b
  {
    assert [b][1..] == [];
  }

  /** The three edge values in the middle are the field prime 2^255 - 19 and its neighbours. */
  lemma NearPrimeValue(low: byte)
    ensures LittleEndian(NearPrime(low)) == 128 * Pow256(31) - 256 + low as int
    ensures |NearPrime(low)| == 32
  {
    var b := NearPrime(low);
    assert b[1..] == Repeat(30, 0xff) + [0x7f];
    FullBytesThen(30, [0x7f]);
    OneByteNumber(0x7f);
    assert Pow256(31) == 256 * Pow256(30);
  }

  lemma ParsesAs(op: int, b: seq<byte>, n: nat)
    requires HEADER + n <= |b| && LengthAt(b, 44) == n
    ensures ParseBlob(op, b) ==
            Request(op, b[..KEY_LEN], b[KEY_LEN..44], b[HEADER..HEADER + n], b[HEADER + n..])
  {
  }

  lemma PartsOf(head: seq<byte>, tail: seq<byte>, n: nat, op: int)
    requires |head| == 44 && n <= |tail| && n < 65536
    ensures ParseBlob(op, head + LengthBytes(n) + tail) ==
            Request(op, head[..KEY_LEN], head[KEY_LEN..], tail[..n], tail[n..])
  {
    var b := head + LengthBytes(n) + tail;
    LengthReads(n, b, 44);
    assert b[HEADER..] == tail;
    assert b[HEADER..HEADER + n] == tail[..n];
    assert b[..KEY_LEN] == head[..KEY_LEN];
    assert b[KEY_LEN..44] == head[KEY_LEN..];
    ParsesAs(op, b, n);
    assert b[HEADER + n..] == tail[n..];
  }

  /** A blob of the drawn fields parses to them, and so it does when sliced by the drawn lengths. */
  lemma BlobFields(t: Tape, i: nat, op: nat, b: seq<byte>)
    requires b == Drawn(t, LengthsOf(t, i, op).next, 44) + LengthBytes(LengthsOf(t, i, op).aad) + Tail(t, i, op)
    ensures var n := LengthsOf(t, i, op).aad;
            && ParseBlob(op, b) == FieldsOf(t, i, op)
            && Request(op, b[..KEY_LEN], b[KEY_LEN..44], b[HEADER..HEADER + n], b[HEADER + n..]) == FieldsOf(t, i, op)
  {
    var n := LengthsOf(t, i, op).aad;
    LengthsBounded(t, i, op);
    LengthReads(n, b, 44);
    PartsOf(Drawn(t, LengthsOf(t, i, op).next, 44), Tail(t, i, op), n, op);
    ParsesAs(op, b, n);
  }

  // ----- the code

  /** The lengths of message and associated data. */
  method DrawLengths(src: VectorSource, op: nat, ghost t: Tape, ghost i: nat) returns (msglen: nat, aadlen: nat)
    requires Linked(t) && src.state == t.state(i)
    modifies src
    ensures var l := LengthsOf(t, i, op);
            msglen == l.msg && aadlen == l.aad && src.state == t.state(l.next)
  {
    ghost var next := i + 1;
    msglen := Draw(src, 512, t, i);
    if op != 12 {
      next := i + 2;
      var pin := Draw(src, 4, t, i + 1);
      if pin == 0 {
        next := i + 3;
        var l := Draw(src, 18, t, i + 2);
        msglen := BOUNDARY_LEN[l];
      }
    }
    if op == 12 {
      msglen := 32;
    }
    aadlen := 0;
    if TakesAad(op) {
      aadlen := Draw(src, 64, t, next);
    }
  }

  /** The peer coordinate in the last 32 bytes: sometimes an edge value, always with bit 255 clear. */
  method CanonicalPeer(src: VectorSource, blob: array<byte>, ghost t: Tape, ghost i: nat)
    requires blob.Length == HEADER + 32 && Linked(t) && src.state == t.state(i + 32)
    requires blob[HEADER..] == Drawn(t, i, 32)
    modifies src, blob
    ensures blob[..] == old(blob[..HEADER]) + PeerOf(t, i)
    ensures src.state == t.state(i + 32 + if Number(t, i + 32, 3) == 0 then 2 else 1)
  {
    var replace := Draw(src, 3, t, i + 32);
    if replace == 0 {
      var e := Draw(src, 8, t, i + 33);
      var edge := X25519Edge()[e];
      forall k | 0 <= k < 32 {
        blob[HEADER + k] := edge[k];
      }
      assert blob[HEADER..] == edge;
    }
    ghost var u := blob[HEADER..];
    blob[HEADER + 31] := blob[HEADER + 31] % 0x80;
    assert blob[HEADER..] == Canonical(u);
    assert blob[..] == blob[..HEADER] + blob[HEADER..];
  }

  method EmitLine(op: nat, blob: seq<byte>) returns (line: string)
    ensures line == Line(op, blob)
  {
    var hex := ToHex(blob);
    line := Decimal(op) + " " + hex + "\n";
  }

  /** Key, nonce and length bytes. */
  method DrawHeader(src: VectorSource, blob: array<byte>, aadlen: nat, ghost t: Tape, ghost i: nat)
    requires HEADER <= blob.Length && aadlen < 65536 && Linked(t) && src.state == t.state(i)
    modifies src, blob
    ensures src.state == t.state(i + 44)
    ensures blob[..HEADER] == Drawn(t, i, 44) + LengthBytes(aadlen)
  {
    DrawBytes(src, blob, 0, KEY_LEN + NONCE_LEN, t, i);
    assert blob[..44] == Drawn(t, i, 44);
    blob[44] := aadlen / 256;
    blob[45] := aadlen % 256;
  }

  /** Associated data and message. */
  method DrawTail(src: VectorSource, blob: array<byte>, op: nat, n: nat, ghost t: Tape, ghost i: nat)
    requires blob.Length == HEADER + n && n == LengthsOf(t, i, op).aad + LengthsOf(t, i, op).msg
    requires Linked(t) && src.state == t.state(LengthsOf(t, i, op).next + 44)
    modifies src, blob
    ensures blob[..] == old(blob[..HEADER]) + Tail(t, i, op) && src.state == t.state(EndOf(t, i, op))
  {
    ghost var next := LengthsOf(t, i, op).next + 44;
    ghost var head := blob[..HEADER];
    LengthsBounded(t, i, op);
    DrawBytes(src, blob, HEADER, n, t, next);
    assert blob[..] == head + Drawn(t, next, n);
    if op == 12 {
      assert blob[HEADER..] == Drawn(t, next, 32);
      assert blob[..HEADER] == head;
      CanonicalPeer(src, blob, t, next);
    }
  }

  /** The blob of a compute op, and the length of its associated data. */
  method FillBlob(src: VectorSource, op: nat, ghost t: Tape, ghost i: nat) returns (b: seq<byte>, aadlen: nat)
    requires Linked(t) && src.state == t.state(i)
    modifies src
    ensures var l := LengthsOf(t, i, op);
            && aadlen == l.aad && |b| == HEADER + l.aad + l.msg
            && b == Drawn(t, l.next, 44) + LengthBytes(l.aad) + Tail(t, i, op)
    ensures src.state == t.state(EndOf(t, i, op))
  {
    var msglen: nat;
    msglen, aadlen := DrawLengths(src, op, t, i);
    LengthsBounded(t, i, op);
    var blob := new byte[HEADER + aadlen + msglen](_ => 0);
    DrawHeader(src, blob, aadlen, t, LengthsOf(t, i, op).next);
    DrawTail(src, blob, op, aadlen + msglen, t, i);
    b := blob[..];
  }

  /** One request of a compute op, with the generator anywhere on its tape: the line for the CLIs, and
      the fields that the reference computes on, sliced out of the blob by the drawn lengths. */
  method ComposeRequest(src: VectorSource, op: nat, ghost t: Tape, ghost i: nat) returns (line: string, v: Request)
    requires Linked(t) && src.state == t.state(i)
    modifies src
    ensures ParseLine(line) == Some(v) && v == FieldsOf(t, i, op)
    ensures src.state == t.state(EndOf(t, i, op))
  {
    var b, aadlen := FillBlob(src, op, t, i);
    line := EmitLine(op, b);
    v := Request(op, b[..KEY_LEN], b[KEY_LEN..KEY_LEN + NONCE_LEN],
                 b[HEADER..HEADER + aadlen], b[HEADER + aadlen..]);
    ParseRunnerLine(op, b);
    BlobFields(t, i, op, b);
  }

  /** From every generator state, a CLI parses out of the line exactly the fields that the reference
      computes on: the drawn bytes, of the drawn lengths, but for an X25519 peer coordinate, which is
      brought into canonical form. */
  method BuildRequest(src: VectorSource, op: nat) returns (line: string, v: Request)
    requires op < NUM_OPS && op != 13 && op != 14
    modifies src
    ensures ParseLine(line) == Some(v) && v == FieldsOf(TapeOf(old(src.state)), 0, op)
    ensures src.state == StateAfter(old(src.state), EndOf(TapeOf(old(src.state)), 0, op))
  {
    ghost var s, t := src.state, TapeOf(src.state);
    TapeLinked(s);
    line, v := ComposeRequest(src, op, t, 0);
    TapeState(s, EndOf(t, 0, op));
  }
}
