/** The re-implementations of the wire parsers in the Rust, Go, Java and Python backends, and where
    they agree with the C parser. */
module Parsers {
  import opened Bytes
  import opened Options
  import opened WireCodec

  // ----- request blobs

  /** The fields that every backend keeps; Rust and Go take the nonce from a second parser. */
  datatype Fields = Fields(key: seq<byte>, aad: seq<byte>, msg: seq<byte>)
  datatype AeadFields = AeadFields(key: seq<byte>, nonce: seq<byte>, aad: seq<byte>, msg: seq<byte>)

  function Min(a: nat, b: nat): nat { if a < b then a else b }

  /** parse_vec (Rust) */
  function RustParse(blob: seq<byte>): Fields {
    if |blob| < HEADER then Fields([], [], blob)
    else
      var p := blob[KEY_LEN + NONCE_LEN..];
      var rest := blob[HEADER..];
      var aadlen := Min(LengthAt(p, 0), |rest|);
      Fields(blob[..KEY_LEN], rest[..aadlen], rest[aadlen..])
  }

  /** aead_from_blob (Rust), up to the cipher call; None is the reply "ERR". */
  function RustAead(blob: seq<byte>): Option<AeadFields> {
    if |blob| < HEADER then None
    else
      var p := blob[KEY_LEN + NONCE_LEN..];
      var aadlen := Min(LengthAt(p, 0), |blob| - HEADER);
      var rest := blob[HEADER..];
      Some(AeadFields(blob[..KEY_LEN], blob[KEY_LEN..KEY_LEN + NONCE_LEN], rest[..aadlen], rest[aadlen..]))
  }

  /** parseVec (Go); an absent key is the nil slice. */
  function GoParse(blob: seq<byte>): Fields {
    if |blob| < HEADER then Fields([], [], blob)
    else
      var p := blob[KEY_LEN + NONCE_LEN..];
      var rest := blob[HEADER..];
      var aadlen := if LengthAt(p, 0) > |rest| then |rest| else LengthAt(p, 0);
      Fields(blob[..KEY_LEN], rest[..aadlen], rest[aadlen..])
  }

  /** aeadFromBlob (Go), up to the cipher call. */
  function GoAead(blob: seq<byte>): Option<AeadFields> {
    if |blob| < HEADER then None
    else
      var f := GoParse(blob);
      Some(AeadFields(f.key, blob[KEY_LEN..KEY_LEN + NONCE_LEN], f.aad, f.msg))
  }

  /** slice (Java): a copy of `len` elements from `off`. */
  function Slice(a: seq<byte>, off: nat, len: nat): seq<byte>
    requires off + len <= |a|
  {
    a[off..off + len]
  }

  /** The value that parse (Java) fills in. */
  function JavaParse(blob: seq<byte>): AeadFields {
    if |blob| < HEADER then AeadFields(Zeros(KEY_LEN), Zeros(NONCE_LEN), [], blob)
    else
      var rest := |blob| - HEADER;
      var aadlen := if LengthAt(blob, 44) > rest then rest else LengthAt(blob, 44);
      AeadFields(Slice(blob, 0, KEY_LEN), Slice(blob, KEY_LEN, NONCE_LEN),
                 Slice(blob, HEADER, aadlen), Slice(blob, HEADER + aadlen, rest - aadlen))
  }

  /** parse (Python) */
  function PythonParse(blob: seq<byte>): AeadFields {
    if |blob| < HEADER then AeadFields([], [], [], blob)
    else
      var p := blob[KEY_LEN + NONCE_LEN..];
      var rest := p[2..];
      var aadlen := if LengthAt(p, 0) > |rest| then |rest| else LengthAt(p, 0);
      AeadFields(blob[..KEY_LEN], blob[KEY_LEN..KEY_LEN + NONCE_LEN], rest[..aadlen], rest[aadlen..])
  }

  /** What follows the header, and the declared length, seen through the two tail slices. */
  lemma TailSlices(blob: seq<byte>, n: nat)
    requires HEADER + n <= |blob|
    ensures var p, rest := blob[KEY_LEN + NONCE_LEN..], blob[HEADER..];
            && p[2..] == rest && LengthAt(p, 0) == LengthAt(blob, 44)
            && rest[..n] == blob[HEADER..HEADER + n] && rest[n..] == blob[HEADER + n..]
            && blob[HEADER + n..HEADER + n + (|rest| - n)] == blob[HEADER + n..]
  {
  }

  lemma FullHeader(op: int, blob: seq<byte>)
    requires HEADER <= |blob|
    ensures var c := ParseBlob(op, blob);
            var all := AeadFields(c.key, c.nonce, c.aad, c.msg);
            && RustParse(blob) == GoParse(blob) == Fields(c.key, c.aad, c.msg)
            && JavaParse(blob) == PythonParse(blob) == all
            && RustAead(blob) == GoAead(blob) == Some(all)
  {
    TailSlices(blob, |ParseBlob(op, blob).aad|);
  }

  /** All five parsers find the same message and associated data in every blob, the declared length
      being too large or not.  They find the same key and nonce exactly in a blob with a full header;
      only Java fills in zeros as C does when the header is short. */
  lemma RequestParsersAgree(op: int, blob: seq<byte>)
    ensures var c := ParseBlob(op, blob);
            && (RustParse(blob).msg == GoParse(blob).msg == JavaParse(blob).msg == PythonParse(blob).msg == c.msg)
            && (RustParse(blob).aad == GoParse(blob).aad == JavaParse(blob).aad == PythonParse(blob).aad == c.aad)
            && JavaParse(blob) == AeadFields(c.key, c.nonce, c.aad, c.msg)
    ensures var c := ParseBlob(op, blob);
            var all := AeadFields(c.key, c.nonce, c.aad, c.msg);
            && (RustParse(blob) == Fields(c.key, c.aad, c.msg) <==> HEADER <= |blob|)
            && (GoParse(blob) == Fields(c.key, c.aad, c.msg) <==> HEADER <= |blob|)
            && (PythonParse(blob) == all <==> HEADER <= |blob|)
            && (RustAead(blob) == Some(all) <==> HEADER <= |blob|)
            && (GoAead(blob) == Some(all) <==> HEADER <= |blob|)
  {
    if HEADER <= |blob| {
      FullHeader(op, blob);
    } else {
      assert |Zeros(KEY_LEN)| == KEY_LEN;
    }
  }

  // ----- verify payloads

  /** `a[off]` in Java and Python: None is the exception. */
  function ByteAtOr(a: seq<byte>, off: nat): Option<byte> {
    if off < |a| then Some(a[off]) else None
  }

  function LengthOr(a: seq<byte>, off: nat): Option<nat> {
    match (ByteAtOr(a, off), ByteAtOr(a, off + 1))
    case (Some(hi), Some(lo)) => Some(hi as int * 256 + lo as int)
    case _ => None
  }

  /** `slice` with its bounds exception. */
  function SliceOr(a: seq<byte>, off: nat, len: nat): Option<seq<byte>> {
    if off + len <= |a| then Some(Slice(a, off, len)) else None
  }

  /** The Python slices `a[off:off+len]` and `a[off:]`: bounds beyond the end are cut, not refused. */
  function Cut(a: seq<byte>, off: nat, len: nat): seq<byte> {
    a[Min(off, |a|)..Min(off + len, |a|)]
  }

  function CutFrom(a: seq<byte>, off: nat): seq<byte> {
    a[Min(off, |a|)..]
  }

  /** The value of parse_verify (Python): indexing raises, slicing does not. */
  function PythonPayload(p: seq<byte>): Option<Payload> {
    if |p| < 2 then None
    else
      var pl := LengthAt(p, 0);
      match LengthOr(p, 2 + pl)
      case None => None
      case Some(sl) => Some(Payload(Cut(p, 2, pl), Cut(p, 4 + pl, sl), CutFrom(p, 4 + pl + sl)))
  }

  /** The payload is complete up to its second length, which claims more than what follows. */
  predicate SignatureOverruns(p: seq<byte>) {
    && 2 <= |p| && 4 + LengthAt(p, 0) <= |p|
    && 4 + LengthAt(p, 0) + LengthAt(p, 2 + LengthAt(p, 0)) > |p|
  }

  /** The Python parser agrees with the C parser on every payload but those whose signature length
      overruns, which C refuses and Python accepts with a signature cut short. */
  lemma PythonPayloadAgreesIff(p: seq<byte>)
    ensures PythonPayload(p) == Unpack(p) <==> !SignatureOverruns(p)
    ensures SignatureOverruns(p) ==>
              var i := 2 + LengthAt(p, 0);
              Unpack(p) == None && PythonPayload(p) == Some(Payload(p[2..i], p[i + 2..], []))
  {
    if SignatureOverruns(p) {
      var i := 2 + LengthAt(p, 0);
      var sl := LengthAt(p, i);
      assert LengthOr(p, i) == Some(sl);
      assert Cut(p, i + 2, sl) == p[i + 2..|p|] == p[i + 2..];
      assert CutFrom(p, i + 2 + sl) == [];
    }
  }

  /** The shortest such payload: empty key, one signature byte announced, none present. */
  lemma PythonPayloadDisagrees()
    ensures Unpack([0, 0, 0, 1]) == None
    ensures PythonPayload([0, 0, 0, 1]) == Some(Payload([], [], []))
  {
    var p: seq<byte> := [0, 0, 0, 1];
    assert LengthAt(p, 0) == 0 && LengthAt(p, 2) == 1;
    PythonPayloadAgreesIff(p);
    assert LengthOr(p, 2) == Some(1);
    assert PythonPayload(p) == Some(Payload(p[2..2], p[4..4], p[4..]));
    assert p[2..2] == [] && p[4..4] == [] && p[4..] == [];
  }

  // ----- the code

  /** Vec (Java) */
  class JavaVec {
    var key: seq<byte>
    var nonce: seq<byte>
    var aad: seq<byte>
    var msg: seq<byte>

    function Fields(): AeadFields
      reads this
    {
      AeadFields(key, nonce, aad, msg)
    }

    /** parse (Java): every blob yields the fields that cmf_vec_parse finds. */
    method Parse(blob: seq<byte>)
      modifies this
      ensures Fields() == JavaParse(blob)
      ensures forall op :: ParseBlob(op, blob) == Request(op, key, nonce, aad, msg)
    {
      forall op: int
        ensures JavaParse(blob) == AeadFields(ParseBlob(op, blob).key, ParseBlob(op, blob).nonce,
                                              ParseBlob(op, blob).aad, ParseBlob(op, blob).msg)
      {
        RequestParsersAgree(op, blob);
      }
      var need := KEY_LEN + NONCE_LEN + 2;
      if |blob| < need {
        key, nonce, aad, msg := Zeros(KEY_LEN), Zeros(NONCE_LEN), [], blob;
        return;
      }
      key := Slice(blob, 0, KEY_LEN);
      nonce := Slice(blob, KEY_LEN, NONCE_LEN);
      var aadlen := LengthAt(blob, KEY_LEN + NONCE_LEN);
      var rest := |blob| - need;
      if aadlen > rest {
        aadlen := rest;
      }
      aad := Slice(blob, need, aadlen);
      msg := Slice(blob, need + aadlen, rest - aadlen);
    }
  }

  /** parse_verify_payload (Rust) and parseVerifyPayload (Go): the C parser's value on every payload. */
  method RustGoPayload(p: seq<byte>) returns (r: Option<Payload>)
    ensures r == Unpack(p)
  {
    if |p| < 2 {
      return None;
    }
    var pl := LengthAt(p, 0);
    var off := 2;
    if off + pl + 2 > |p| {
      return None;
    }
    var pub := p[off..off + pl];
    off := off + pl;
    var sl := LengthAt(p, off);
    off := off + 2;
    if off + sl > |p| {
      return None;
    }
    var sig := p[off..off + sl];
    off := off + sl;
    r := Some(Payload(pub, sig, p[off..]));
  }

  /** parseVerify (Java): it has no length test of its own, but throws exactly where the C parser
      refuses. */
  method JavaPayload(p: seq<byte>) returns (r: Option<Payload>)
    ensures r == Unpack(p)
  {
    var pl := LengthOr(p, 0);
    if pl == None {
      return None;
    }
    var off := 2;
    var pub := SliceOr(p, off, pl.value);
    if pub == None {
      return None;
    }
    off := off + pl.value;
    var sl := LengthOr(p, off);
    if sl == None {
      return None;
    }
    off := off + 2;
    var sig := SliceOr(p, off, sl.value);
    if sig == None {
      return None;
    }
    off := off + sl.value;
    assert Slice(p, off, |p| - off) == p[off..];
    r := Some(Payload(pub.value, sig.value, Slice(p, off, |p| - off)));
  }

  /** parse_verify (Python) */
  method PythonParseVerify(payload: seq<byte>) returns (r: Option<Payload>)
    ensures r == PythonPayload(payload)
  {
    if |payload| < 2 {
      return None;
    }
    var pl := LengthAt(payload, 0);
    var off := 2;
    var pub := Cut(payload, off, pl);
    off := off + pl;
    var sl := LengthOr(payload, off);
    if sl == None {
      return None;
    }
    off := off + 2;
    var sig := Cut(payload, off, sl.value);
    off := off + sl.value;
    r := Some(Payload(pub, sig, CutFrom(payload, off)));
  }
}
