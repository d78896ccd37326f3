/** The Encrypt-then-MAC composition: AES-256-CBC with PKCS#7 padding under HMAC-SHA256.  The block
    cipher is an arbitrary keyed permutation of 16-byte blocks and the MAC an arbitrary function. */
module EncryptThenMac {
  import opened Bytes
  import opened Options

  const BLOCK: nat := 16
  const TAG: nat := 32

  datatype Primitives = Primitives(
    enc: (seq<bv8>, seq<bv8>) -> seq<bv8>, dec: (seq<bv8>, seq<bv8>) -> seq<bv8>,
    mac: (seq<bv8>, seq<bv8>) -> seq<bv8>)

  ghost predicate PermutesAt(p: Primitives, k: seq<bv8>, b: seq<bv8>) {
    |b| == BLOCK ==>
      && |p.enc(k, b)| == BLOCK && |p.dec(k, b)| == BLOCK
      && p.dec(k, p.enc(k, b)) == b && p.enc(k, p.dec(k, b)) == b
  }

  ghost predicate TagAt(p: Primitives, k: seq<bv8>, m: seq<bv8>) {
    |p.mac(k, m)| == TAG
  }

  ghost predicate Sound(p: Primitives) {
    (forall k, b :: PermutesAt(p, k, b)) && (forall k, m :: TagAt(p, k, m))
  }

  // ----- padding

  /** PKCS#7: one to sixteen bytes, each holding their number, fill up the last block. */
  function Pad(m: seq<bv8>): (r: seq<bv8>)
    ensures |r| == (|m| / BLOCK + 1) * BLOCK
  {
    var n := BLOCK - |m| % BLOCK;
    m + seq(n, _ => ToByte(n))
  }

  /** The check of EVP_DecryptFinal_ex on the last block. */
  function Unpad(r: seq<bv8>): Option<seq<bv8>>
    requires BLOCK <= |r|
  {
    var n := r[|r| - 1] as int;
    if 1 <= n <= BLOCK && forall i :: |r| - n <= i < |r| ==> r[i] == r[|r| - 1]
    then Some(r[..|r| - n])
    else None
  }

  /** The padding: after the message, one to sixteen bytes up to a block boundary, each their number. */
  lemma PadBytes(m: seq<bv8>)
    ensures var r := Pad(m);
            && r[..|m|] == m && 1 <= |r| - |m| <= 16 && |r| % 16 == 0
            && forall i | |m| <= i < |r| :: r[i] as int == |r| - |m|
  {
  }

  lemma UnpadPad(m: seq<bv8>)
    ensures Unpad(Pad(m)) == Some(m)
  {
    var n := BLOCK - |m| % BLOCK;
    assert Pad(m)[..|m|] == m;
  }

  lemma PadUnpad(r: seq<bv8>, m: seq<bv8>)
    requires BLOCK <= |r| && |r| % BLOCK == 0 && Unpad(r) == Some(m)
    ensures r == Pad(m)
  {
    var n := r[|r| - 1] as int;
    assert n == BLOCK - |m| % BLOCK;
    ByteDetermined(ToByte(n), r[|r| - 1]);
  }

  // ----- cipher block chaining

  function CbcEncrypt(p: Primitives, k: seq<bv8>, iv: seq<bv8>, m: seq<bv8>): (c: seq<bv8>)
    requires Sound(p) && |iv| == BLOCK && |m| % BLOCK == 0
    ensures |c| == |m|
    decreases |m|
  {
    if m == [] then []
    else
      assert PermutesAt(p, k, Xor(iv, m[..BLOCK]));
      var b := p.enc(k, Xor(iv, m[..BLOCK]));
      b + CbcEncrypt(p, k, b, m[BLOCK..])
  }

  function CbcDecrypt(p: Primitives, k: seq<bv8>, iv: seq<bv8>, c: seq<bv8>): (m: seq<bv8>)
    requires Sound(p) && |iv| == BLOCK && |c| % BLOCK == 0
    ensures |m| == |c|
    decreases |c|
  {
    if c == [] then []
    else
      assert PermutesAt(p, k, c[..BLOCK]);
      Xor(iv, p.dec(k, c[..BLOCK])) + CbcDecrypt(p, k, c[..BLOCK], c[BLOCK..])
  }

  lemma {:induction false} DecryptEncrypt(p: Primitives, k: seq<bv8>, iv: seq<bv8>, m: seq<bv8>)
    requires Sound(p) && |iv| == BLOCK && |m| % BLOCK == 0
    ensures CbcDecrypt(p, k, iv, CbcEncrypt(p, k, iv, m)) == m
    decreases |m|
  {
    if m != [] {
      var x := Xor(iv, m[..BLOCK]);
      assert PermutesAt(p, k, x);
      var b := p.enc(k, x);
      var c := CbcEncrypt(p, k, iv, m);
      assert c[..BLOCK] == b && c[BLOCK..] == CbcEncrypt(p, k, b, m[BLOCK..]);
      DecryptEncrypt(p, k, b, m[BLOCK..]);
      XorCancels(iv, m[..BLOCK]);
    }
  }

  lemma {:induction false} EncryptDecrypt(p: Primitives, k: seq<bv8>, iv: seq<bv8>, c: seq<bv8>)
    requires Sound(p) && |iv| == BLOCK && |c| % BLOCK == 0
    ensures CbcEncrypt(p, k, iv, CbcDecrypt(p, k, iv, c)) == c
    decreases |c|
  {
    if c != [] {
      var b := c[..BLOCK];
      assert PermutesAt(p, k, b);
      var m := CbcDecrypt(p, k, iv, c);
      assert m[..BLOCK] == Xor(iv, p.dec(k, b)) && m[BLOCK..] == CbcDecrypt(p, k, b, c[BLOCK..]);
      XorCancels(iv, p.dec(k, b));
      EncryptDecrypt(p, k, b, c[BLOCK..]);
    }
  }

  lemma SkipFirst(x: seq<bv8>, y: seq<bv8>, from: nat, to: nat)
    requires |x| <= from <= to <= |x + y|
    ensures (x + y)[from..to] == y[from - |x|..to - |x|]
  {
  }

  lemma SkipInSlice(m: seq<bv8>, k: nat, from: nat, to: nat)
    requires k <= from <= to <= |m|
    ensures m[from..to] == m[k..][from - k..to - k]
  {
  }

  /** Every block is chained: the cipher is applied to its XOR with the ciphertext block before it, the
      IV standing before the first. */
  lemma {:induction false} Chained(p: Primitives, k: seq<bv8>, iv: seq<bv8>, m: seq<bv8>, i: nat)
    requires Sound(p) && |iv| == BLOCK && |m| % BLOCK == 0 && (i + 1) * BLOCK <= |m|
    ensures var c := CbcEncrypt(p, k, iv, m);
            var from, to := i * BLOCK, (i + 1) * BLOCK;
            c[from..to] == p.enc(k, Xor((iv + c)[from..to], m[from..to]))
    decreases i
  {
    var x := Xor(iv, m[..BLOCK]);
    assert PermutesAt(p, k, x);
    var b, rest := p.enc(k, x), m[BLOCK..];
    var c, c' := CbcEncrypt(p, k, iv, m), CbcEncrypt(p, k, b, rest);
    assert c == b + c';
    if i == 0 {
      assert (iv + c)[..BLOCK] == iv && c[..BLOCK] == b;
    } else {
      Chained(p, k, b, rest, i - 1);
      SkipFirst(b, c', i * BLOCK, (i + 1) * BLOCK);
      SkipFirst(iv, c, i * BLOCK, (i + 1) * BLOCK);
      SkipInSlice(m, BLOCK, i * BLOCK, (i + 1) * BLOCK);
    }
  }

  // ----- seal and open

  function SealedLength(n: nat): nat {
    BLOCK + (n / BLOCK + 1) * BLOCK + TAG
  }

  /** iv || ciphertext || tag, the tag taken over iv || ciphertext. */
  function Seal(p: Primitives, k1: seq<bv8>, k2: seq<bv8>, iv: seq<bv8>, m: seq<bv8>): (x: seq<bv8>)
    requires Sound(p) && |iv| == BLOCK
    ensures |x| == SealedLength(|m|)
  {
    var body := iv + CbcEncrypt(p, k1, iv, Pad(m));
    assert TagAt(p, k2, body);
    body + p.mac(k2, body)
  }

  function Open(p: Primitives, k1: seq<bv8>, k2: seq<bv8>, x: seq<bv8>): Option<seq<bv8>>
    requires Sound(p)
  {
    var n := |x| - TAG;
    if n < BLOCK + BLOCK || n % BLOCK != 0 || p.mac(k2, x[..n]) != x[n..] then None
    else Unpad(CbcDecrypt(p, k1, x[..BLOCK], x[BLOCK..n]))
  }

  /** A sealed message: the IV, a ciphertext that decrypts to the padded message, and the tag of both. */
  lemma SealLayout(p: Primitives, k1: seq<bv8>, k2: seq<bv8>, iv: seq<bv8>, m: seq<bv8>)
    requires Sound(p) && |iv| == BLOCK
    ensures var x := Seal(p, k1, k2, iv, m);
            var n := |x| - TAG;
            && |x| == SealedLength(|m|) && x[..BLOCK] == iv && x[n..] == p.mac(k2, x[..n])
            && (n - BLOCK) % BLOCK == 0 && CbcDecrypt(p, k1, iv, x[BLOCK..n]) == Pad(m)
  {
    var ct := CbcEncrypt(p, k1, iv, Pad(m));
    assert TagAt(p, k2, iv + ct);
    Slices(iv, ct, p.mac(k2, iv + ct));
    DecryptEncrypt(p, k1, iv, Pad(m));
  }

  /** Block `i` after the IV of a sealed message is the cipher of the block before it, XORed with block
      `i` of the padded message. */
  lemma SealedBlock(p: Primitives, k1: seq<bv8>, k2: seq<bv8>, iv: seq<bv8>, m: seq<bv8>, i: nat)
    requires Sound(p) && |iv| == BLOCK && (i + 1) * BLOCK <= |Pad(m)|
    ensures var x := Seal(p, k1, k2, iv, m);
            var from, to := i * BLOCK, (i + 1) * BLOCK;
            && |x| == 16 + |Pad(m)| + 32
            && x[from + BLOCK..to + BLOCK] == p.enc(k1, Xor(x[from..to], Pad(m)[from..to]))
  {
    var c := CbcEncrypt(p, k1, iv, Pad(m));
    var from, to := i * BLOCK, (i + 1) * BLOCK;
    assert TagAt(p, k2, iv + c);
    var tag := p.mac(k2, iv + c);
    Chained(p, k1, iv, Pad(m), i);
    assert (iv + c + tag)[from..to] == (iv + c)[from..to];
    assert (iv + c + tag)[from + BLOCK..to + BLOCK] == c[from..to];
  }

  lemma SealOpen(p: Primitives, k1: seq<bv8>, k2: seq<bv8>, x: seq<bv8>, m: seq<bv8>)
    requires Sound(p) && Open(p, k1, k2, x) == Some(m)
    ensures BLOCK <= |x| && x == Seal(p, k1, k2, x[..BLOCK], m)
  {
    var n := |x| - TAG;
    var iv, ct := x[..BLOCK], x[BLOCK..n];
    PadUnpad(CbcDecrypt(p, k1, iv, ct), m);
    EncryptDecrypt(p, k1, iv, ct);
    assert iv + ct == x[..n];
    assert x[..n] + x[n..] == x;
  }

  /** Opening undoes this block by block. */
  lemma OpenedBlock(p: Primitives, k1: seq<bv8>, k2: seq<bv8>, x: seq<bv8>, m: seq<bv8>, i: nat)
    requires Sound(p) && Open(p, k1, k2, x) == Some(m) && (i + 1) * BLOCK <= |Pad(m)|
    ensures var from, to := i * BLOCK, (i + 1) * BLOCK;
            && |x| == 16 + |Pad(m)| + 32 && |p.dec(k1, x[from + BLOCK..to + BLOCK])| == BLOCK
            && Pad(m)[from..to] == Xor(x[from..to], p.dec(k1, x[from + BLOCK..to + BLOCK]))
  {
    var from, to := i * BLOCK, (i + 1) * BLOCK;
    SealOpen(p, k1, k2, x, m);
    SealedBlock(p, k1, k2, x[..BLOCK], m, i);
    assert PermutesAt(p, k1, Xor(x[from..to], Pad(m)[from..to]));
    XorCancels(x[from..to], Pad(m)[from..to]);
  }

  lemma OpenSeal(p: Primitives, k1: seq<bv8>, k2: seq<bv8>, iv: seq<bv8>, m: seq<bv8>)
    requires Sound(p) && |iv| == BLOCK
    ensures Open(p, k1, k2, Seal(p, k1, k2, iv, m)) == Some(m)
  {
    SealLayout(p, k1, k2, iv, m);
    UnpadPad(m);
  }

  /** Opening accepts exactly the sealed messages, and returns the message that was sealed. */
  lemma OpensExactlySealed(p: Primitives, k1: seq<bv8>, k2: seq<bv8>, x: seq<bv8>, m: seq<bv8>)
    requires Sound(p)
    ensures Open(p, k1, k2, x) == Some(m) <==>
            BLOCK <= |x| && x == Seal(p, k1, k2, x[..BLOCK], m)
  {
    if Open(p, k1, k2, x) == Some(m) {
      SealOpen(p, k1, k2, x, m);
    }
    if BLOCK <= |x| {
      OpenSeal(p, k1, k2, x[..BLOCK], m);
    }
  }

  /** Accepted input ends in exactly the tag of what precedes it; in particular another tag after
      the same iv and ciphertext is rejected. */
  lemma AcceptedTag(p: Primitives, k1: seq<bv8>, k2: seq<bv8>, x: seq<bv8>, y: seq<bv8>)
    requires Sound(p) && Open(p, k1, k2, x).Some?
    ensures x[|x| - TAG..] == p.mac(k2, x[..|x| - TAG])
    ensures |y| == |x| && y[..|x| - TAG] == x[..|x| - TAG] && y != x ==> Open(p, k1, k2, y) == None
  {
    var n := |x| - TAG;
    if |y| == |x| && y[..n] == x[..n] && y[n..] == x[n..] {
      assert y == y[..n] + y[n..] && x == x[..n] + x[n..];
    }
  }

  // ----- the code

  method Write(out: array<bv8>, at: nat, b: seq<bv8>)
    requires at + |b| <= out.Length
    modifies out
    ensures out[at..at + |b|] == b
    ensures forall i | 0 <= i < out.Length && !(at <= i < at + |b|) :: out[i] == old(out[i])
  {
    forall i | 0 <= i < |b| {
      out[at + i] := b[i];
    }
  }

  /** iv, full blocks, last block. */
  method WriteBody(out: array<bv8>, iv: seq<bv8>, full: seq<bv8>, last: seq<bv8>)
    requires |iv| + |full| + |last| <= out.Length
    modifies out
    ensures var n := |iv| + |full| + |last|;
            && out[..n] == iv + (full + last)
            && forall i | n <= i < out.Length :: out[i] == old(out[i])
  {
    Write(out, 0, iv);
    Write(out, |iv|, full);
    Write(out, |iv| + |full|, last);
  }

  /** etm_seal: EVP_EncryptUpdate emits the full blocks of the message, EVP_EncryptFinal_ex the
      padded last one. */
  method EtmSeal(p: Primitives, k1: seq<bv8>, k2: seq<bv8>, iv: seq<bv8>, m: seq<bv8>, out: array<bv8>)
    returns (len: nat)
    requires Sound(p) && |iv| == BLOCK && SealedLength(|m|) <= out.Length
    modifies out
    ensures len == SealedLength(|m|)
    ensures out[..len] == Seal(p, k1, k2, iv, m) && out[len..] == old(out[len..])
  {
    var ct := CbcEncrypt(p, k1, iv, Pad(m));
    var l := |m| / BLOCK * BLOCK;
    WriteBody(out, iv, ct[..l], ct[l..]);
    assert ct[..l] + ct[l..] == ct;
    var n := BLOCK + l + BLOCK;
    var body := out[..n];
    assert body == iv + ct;
    assert TagAt(p, k2, body);
    Write(out, n, p.mac(k2, body));
    len := n + TAG;
    assert out[..n] == body;
    assert out[..len] == out[..n] + out[n..len];
  }

  /** EVP_DecryptUpdate writes all blocks but the last, EVP_DecryptFinal_ex what the padding check
      leaves of the last. */
  method WritePlain(padded: seq<bv8>, out: array<bv8>) returns (pn: int)
    requires BLOCK <= |padded| <= out.Length
    modifies out
    ensures pn == match Unpad(padded) case Some(m) => |m| case None => -1
    ensures pn >= 0 ==> pn <= out.Length && Some(out[..pn]) == Unpad(padded)
  {
    var n := |padded| - BLOCK;
    Write(out, 0, padded[..n]);
    match Unpad(padded)
    case None => pn := -1;
    case Some(m) =>
      Write(out, n, m[n..]);
      pn := |m|;
      assert m == padded[..n] + m[n..];
      assert out[..pn] == m;
  }

  /** etm_open: the tag is checked before anything is decrypted. */
  method EtmOpen(p: Primitives, k1: seq<bv8>, k2: seq<bv8>, x: seq<bv8>, out: array<bv8>)
    returns (pn: int)
    requires Sound(p) && |x| - BLOCK - TAG <= out.Length
    modifies out
    ensures pn == match Open(p, k1, k2, x) case Some(m) => |m| case None => -1
    ensures pn >= 0 ==> pn <= out.Length && Some(out[..pn]) == Open(p, k1, k2, x)
    ensures |x| < TAG || p.mac(k2, x[..|x| - TAG]) != x[|x| - TAG..] ==> out[..] == old(out[..])
  {
    if |x| < BLOCK + BLOCK + TAG {
      return -1;
    }
    var ctn := |x| - BLOCK - TAG;
    if ctn % BLOCK != 0 {
      return -1;
    }
    if p.mac(k2, x[..BLOCK + ctn]) != x[BLOCK + ctn..] {
      assert |x| - TAG == BLOCK + ctn;
      return -1;
    }
    var padded := CbcDecrypt(p, k1, x[..BLOCK], x[BLOCK..BLOCK + ctn]);
    assert x[..BLOCK + ctn] == x[..|x| - TAG] && x[BLOCK + ctn..] == x[|x| - TAG..];
    pn := WritePlain(padded, out);
  }

  datatype Violation = NoViolation | RoundtripViolation | IntegrityViolation

  function FlipBit(x: seq<bv8>, i: nat): seq<bv8>
    requires i < |x|
  {
    x[i := x[i] ^ 1]
  }

  lemma FlipChanges(b: bv8)
    ensures b ^ 1 != b
  {
  }

  lemma FlipSlices(x: seq<bv8>, flip: nat, n: nat)
    requires flip < |x| && n <= |x|
    ensures n <= flip ==> FlipBit(x, flip)[..n] == x[..n]
    ensures flip < n ==> FlipBit(x, flip)[..n] == FlipBit(x[..n], flip) && FlipBit(x, flip)[n..] == x[n..]
  {
  }

  ghost predicate FlipUndetected(p: Primitives, k1: seq<bv8>, k2: seq<bv8>, x: seq<bv8>, flip: nat)
    requires Sound(p) && flip < |x|
  {
    var n, y := |x| - TAG, FlipBit(x, flip);
    && 2 * BLOCK <= n && n % BLOCK == 0
    && flip < n && p.mac(k2, FlipBit(x[..n], flip)) == p.mac(k2, x[..n])
    && Unpad(CbcDecrypt(p, k1, y[..BLOCK], y[BLOCK..n])).Some?
  }

  /** A sealed message with one bit flipped is accepted exactly when the bit lies before the tag, the
      MAC collides on the two prefixes, and the flipped ciphertext decrypts to a padded text. */
  lemma AcceptedFlip(p: Primitives, k1: seq<bv8>, k2: seq<bv8>, x: seq<bv8>, flip: nat)
    requires Sound(p) && Open(p, k1, k2, x).Some? && flip < |x|
    ensures Open(p, k1, k2, FlipBit(x, flip)).Some? <==> FlipUndetected(p, k1, k2, x, flip)
  {
    var n, y := |x| - TAG, FlipBit(x, flip);
    FlipSlices(x, flip, n);
    if flip < n {
      assert y[..n] == FlipBit(x[..n], flip) && y[n..] == x[n..];
    } else {
      FlipChanges(x[flip]);
      assert y[flip] != x[flip];
      AcceptedTag(p, k1, k2, x, y);
    }
  }

  /** Every block is unchained: it decrypts to the inverse cipher of it, XORed with the ciphertext block
      before it. */
  lemma {:induction false} Unchained(p: Primitives, k: seq<bv8>, iv: seq<bv8>, c: seq<bv8>, i: nat)
    requires Sound(p) && |iv| == BLOCK && |c| % BLOCK == 0 && (i + 1) * BLOCK <= |c|
    ensures var from, to := i * BLOCK, (i + 1) * BLOCK;
            && |p.dec(k, c[from..to])| == BLOCK
            && CbcDecrypt(p, k, iv, c)[from..to] == Xor((iv + c)[from..to], p.dec(k, c[from..to]))
    decreases i
  {
    var b, rest := c[..BLOCK], c[BLOCK..];
    var from, to := i * BLOCK, (i + 1) * BLOCK;
    assert PermutesAt(p, k, b);
    var first, later := Xor(iv, p.dec(k, b)), CbcDecrypt(p, k, b, rest);
    assert CbcDecrypt(p, k, iv, c) == first + later;
    assert c == b + rest;
    if i == 0 {
      assert (iv + c)[..BLOCK] == iv && (first + later)[..BLOCK] == first;
    } else {
      Unchained(p, k, b, rest, i - 1);
      SkipFirst(first, later, from, to);
      SkipFirst(b, rest, from, to);
      SkipFirst(iv, c, from, to);
    }
  }

  /** The last plaintext block depends on the last two ciphertext blocks only, the IV counting as the
      block before the first. */
  lemma LastBlock(p: Primitives, k: seq<bv8>, iv: seq<bv8>, c: seq<bv8>)
    requires Sound(p) && |iv| == BLOCK && c != [] && |c| % BLOCK == 0
    ensures var x, n := iv + c, |c|;
            && |p.dec(k, x[n..])| == BLOCK
            && CbcDecrypt(p, k, iv, c)[n - BLOCK..] == Xor(x[n - BLOCK..n], p.dec(k, x[n..]))
  {
    var n := |c|;
    Unchained(p, k, iv, c, n / BLOCK - 1);
    SkipFirst(iv, c, n, n + BLOCK);
    assert (iv + c)[n..] == (iv + c)[n..n + BLOCK] == c[n - BLOCK..n];
    assert CbcDecrypt(p, k, iv, c)[n - BLOCK..] == CbcDecrypt(p, k, iv, c)[n - BLOCK..n];
  }

  /** Whether a text is padded is decided by its last block. */
  lemma PaddedByLast(r: seq<bv8>, t: seq<bv8>)
    requires BLOCK <= |r| == |t| && r[|r| - BLOCK..] == t[|t| - BLOCK..]
    ensures Unpad(r).Some? <==> Unpad(t).Some?
  {
    var n := |r|;
    assert forall i | n - BLOCK <= i < n :: r[i] == r[n - BLOCK..][i - (n - BLOCK)] == t[i];
  }

  lemma XorFlipByte(a: bv8, b: bv8)
    ensures (a ^ 1) ^ b == (a ^ b) ^ 1
  {
  }

  lemma XorFlip(a: seq<bv8>, b: seq<bv8>, i: nat)
    requires |a| == |b| && i < |a|
    ensures Xor(FlipBit(a, i), b) == FlipBit(Xor(a, b), i)
  {
    XorFlipByte(a[i], b[i]);
  }

  lemma FlipOfOne(b: bv8)
    ensures b ^ 1 != b && (b ^ 1 == 1 <==> b == 0) && (b ^ 1 == 0 <==> b == 1)
  {
  }

  /** The last byte of a padding with its lowest bit flipped announces another padding, which is not there. */
  lemma LastPaddingByte(r: seq<bv8>, n: nat)
    requires 1 <= n <= BLOCK <= |r| && forall i | |r| - n <= i < |r| :: r[i] as int == n
    ensures Unpad(FlipBit(r, |r| - 1)) == None
  {
    var v := r[|r| - 1];
    var w := v ^ 1;
    var t := FlipBit(r, |r| - 1);
    assert t[|t| - 1] == w;
    FlipOfOne(v);
    if n == 1 {
      ByteDetermined(v, 1);
      assert w as int == 0;
    } else {
      assert t[|t| - 2] == r[|r| - 2];
      ByteDetermined(t[|t| - 2], v);
      if w as int == 1 {
        ByteDetermined(w, 1);
        assert false;
      }
    }
  }

  /** A padded text with one bit of its last block flipped is still padded exactly when the bit belongs to
      the message. */
  lemma PaddedAfterFlip(m: seq<bv8>, i: nat)
    requires |Pad(m)| - BLOCK <= i < |Pad(m)|
    ensures Unpad(FlipBit(Pad(m), i)).Some? <==> i < |m|
  {
    var r := Pad(m);
    var n := BLOCK - |m| % BLOCK;
    var t := FlipBit(r, i);
    FlipChanges(r[i]);
    if i == |r| - 1 {
      LastPaddingByte(r, n);
    } else {
      assert t[|t| - 1] == r[|r| - 1];
      if |m| <= i {
        assert t[i] != t[|t| - 1];
      }
    }
  }

  /** The last plaintext block of a body of IV and ciphertext. */
  lemma BodyLast(p: Primitives, k: seq<bv8>, x: seq<bv8>)
    requires Sound(p) && 2 * BLOCK <= |x| && |x| % BLOCK == 0
    ensures var n := |x|;
            && |p.dec(k, x[n - BLOCK..])| == BLOCK
            && CbcDecrypt(p, k, x[..BLOCK], x[BLOCK..])[n - 2 * BLOCK..] ==
               Xor(x[n - 2 * BLOCK..n - BLOCK], p.dec(k, x[n - BLOCK..]))
  {
    LastBlock(p, k, x[..BLOCK], x[BLOCK..]);
    assert x[..BLOCK] + x[BLOCK..] == x;
  }

  function DecryptBody(p: Primitives, k: seq<bv8>, x: seq<bv8>): (r: seq<bv8>)
    requires Sound(p) && 2 * BLOCK <= |x| && |x| % BLOCK == 0
    ensures |r| == |x| - BLOCK
  {
    CbcDecrypt(p, k, x[..BLOCK], x[BLOCK..])
  }

  /** A flip before the last two blocks does not reach the last plaintext block; one in the block before
      the last flips the same bit there. */
  lemma LastAfterFlip(p: Primitives, k: seq<bv8>, x: seq<bv8>, flip: nat)
    requires Sound(p) && 2 * BLOCK <= |x| && |x| % BLOCK == 0 && flip < |x| - BLOCK
    ensures var first := |x| - 2 * BLOCK;
            var last, last' := DecryptBody(p, k, x)[first..], DecryptBody(p, k, FlipBit(x, flip))[first..];
            last' == if flip < first then last else FlipBit(last, flip - first)
  {
    var n, y := |x|, FlipBit(x, flip);
    var first, last := n - 2 * BLOCK, n - BLOCK;
    BodyLast(p, k, x);
    BodyLast(p, k, y);
    assert y[last..] == x[last..];
    if flip < first {
      assert y[first..last] == x[first..last];
    } else {
      assert y[first..last] == FlipBit(x[first..last], flip - first);
      XorFlip(x[first..last], p.dec(k, x[last..]), flip - first);
    }
  }

  /** Flipping a bit before the last ciphertext block keeps the padding exactly when the bit's byte stands,
      in the body, before the length of the message. */
  lemma PaddedBodyAfterFlip(p: Primitives, k: seq<bv8>, x: seq<bv8>, m: seq<bv8>, flip: nat)
    requires Sound(p) && 2 * BLOCK <= |x| && |x| % BLOCK == 0 && flip < |x| - BLOCK
    requires DecryptBody(p, k, x) == Pad(m)
    ensures Unpad(DecryptBody(p, k, FlipBit(x, flip))).Some? <==> flip < |m|
  {
    var r := DecryptBody(p, k, FlipBit(x, flip));
    var first := |x| - 2 * BLOCK;
    LastAfterFlip(p, k, x, flip);
    if flip < first {
      PaddedByLast(Pad(m), r);
      UnpadPad(m);
    } else {
      var t := FlipBit(Pad(m), flip);
      assert t[first..] == FlipBit(Pad(m)[first..], flip - first);
      PaddedByLast(t, r);
      PaddedAfterFlip(m, flip);
    }
  }

  /** A bit flipped before the last ciphertext block goes undetected exactly when the MAC collides and the
      bit's number is below the length of the message.  So neither the block cipher nor the padding
      rejects anything earlier that the MAC lets through. */
  lemma EarlyFlip(p: Primitives, k1: seq<bv8>, k2: seq<bv8>, iv: seq<bv8>, m: seq<bv8>, flip: nat)
    requires Sound(p) && |iv| == BLOCK && flip < SealedLength(|m|) - TAG - BLOCK
    ensures var x := Seal(p, k1, k2, iv, m);
            var n := |x| - TAG;
            Open(p, k1, k2, FlipBit(x, flip)).Some? <==>
              flip < |m| && p.mac(k2, FlipBit(x[..n], flip)) == p.mac(k2, x[..n])
  {
    var x := Seal(p, k1, k2, iv, m);
    var n, y := |x| - TAG, FlipBit(x, flip);
    OpenSeal(p, k1, k2, iv, m);
    SealLayout(p, k1, k2, iv, m);
    AcceptedFlip(p, k1, k2, x, flip);
    FlipSlices(x, flip, n);
    assert x[..n][..BLOCK] == x[..BLOCK] && x[..n][BLOCK..] == x[BLOCK..n];
    assert y[..n][..BLOCK] == y[..BLOCK] && y[..n][BLOCK..] == y[BLOCK..n];
    PaddedBodyAfterFlip(p, k1, x[..n], m, flip);
  }

  /** test_etm: a round trip is never reported; a flipped bit is reported exactly when it goes
      undetected, which takes a collision of the MAC. */
  method TestEtm(p: Primitives, k1: seq<bv8>, k2: seq<bv8>, iv: seq<bv8>, input: seq<bv8>, draw: nat)
    returns (v: Violation)
    requires Sound(p) && |iv| == BLOCK
    ensures v != RoundtripViolation
    ensures var x := Seal(p, k1, k2, iv, if |input| > 1024 then input[..1024] else input);
            v == IntegrityViolation <==> FlipUndetected(p, k1, k2, x, draw % |x|)
  {
    var m := if |input| > 1024 then input[..1024] else input;
    var buf := new bv8[16 + 1024 + 16 + 32];
    var pt := new bv8[1024 + 32];
    var sl := EtmSeal(p, k1, k2, iv, m, buf);
    var sealed := buf[..sl];
    assert sealed == Seal(p, k1, k2, iv, m);
    OpenSeal(p, k1, k2, iv, m);
    var pn := EtmOpen(p, k1, k2, sealed, pt);
    if pn != |m| || pt[..pn] != m {
      return RoundtripViolation;
    }
    var flip := draw % sl;
    var bad := FlipBit(sealed, flip);
    AcceptedFlip(p, k1, k2, sealed, flip);
    var pn2 := EtmOpen(p, k1, k2, bad, pt);
    if pn2 >= 0 {
      return IntegrityViolation;
    }
    v := NoViolation;
  }
}
