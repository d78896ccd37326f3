/** All requests of a run, from one seed: every line the backends read, and what the reference side
    keeps beside it. */
module RequestRun {
  import Ballots
  import opened Draws
  import opened Generator
  import opened Options
  import opened Payloads
  import opened Requests
  import opened WireCodec

  /** What is not drawn: for each verify op and vector the key that signs, and for each vector the order
      of the two draws that C leaves open. */
  datatype Environment = Environment(signer: (nat, nat) -> Signer, indexFirst: nat -> bool)

  ghost predicate AllFit(e: Environment) {
    forall op: nat, n: nat :: Fits(e.signer(op, n))
  }

  /** A request line, and the fields the reference computes on, or the verdict that it expects. */
  datatype Vector =
    | Compute(op: nat, line: string, fields: Request)
    | Verify(op: nat, line: string, verdict: bool)

  /** The number of the draw with which the vector after `n` begins, if `n` begins with draw `i`. */
  function NextStart(t: Tape, e: Environment, n: nat, i: nat): nat {
    var op := Number(t, i, 27);
    if Ballots.IsVerify(op) then PayloadEnd(t, i + 1, e.signer(op, n)) else EndOf(t, i + 1, op)
  }

  /** The number of the draw with which vector `n` begins. */
  function Start(t: Tape, e: Environment, n: nat): nat {
    if n == 0 then 0 else NextStart(t, e, n - 1, Start(t, e, n - 1))
  }

  /** Vector `n`, beginning with draw `i`, says what was drawn: a CLI reads the drawn op, and the drawn
      fields or the payload, and the runner keeps the same. */
  ghost predicate Faithful(t: Tape, e: Environment, n: nat, i: nat, v: Vector)
    requires AllFit(e)
  {
    var op := Number(t, i, 27);
    var p := PayloadOf(t, i + 1, e.signer(op, n), e.indexFirst(n));
    && v.op == op
    && if Ballots.IsVerify(op)
       then v.Verify? && Carries(v.line, op, p) && v.verdict == (p.Some? && p.value.1)
       else v.Compute? && v.fields == FieldsOf(t, i + 1, op) && ParseLine(v.line) == Some(v.fields)
  }

  ghost predicate AllFaithful(t: Tape, e: Environment, vectors: seq<Vector>)
    requires AllFit(e)
  {
    forall n | 0 <= n < |vectors| :: Faithful(t, e, n, Start(t, e, n), vectors[n])
  }

  /** The vectors built so far, and where the generator then stands. */
  ghost predicate Built(state: bv64, t: Tape, e: Environment, vectors: seq<Vector>)
    requires AllFit(e)
  {
    AllFaithful(t, e, vectors) && state == t.state(Start(t, e, |vectors|))
  }

  lemma OneMore(t: Tape, e: Environment, vectors: seq<Vector>, v: Vector)
    requires AllFit(e) && AllFaithful(t, e, vectors)
    requires Faithful(t, e, |vectors|, Start(t, e, |vectors|), v)
    ensures AllFaithful(t, e, vectors + [v])
  {
    forall n | 0 <= n < |vectors| + 1
      ensures Faithful(t, e, n, Start(t, e, n), (vectors + [v])[n])
    {
      if n < |vectors| {
        assert Faithful(t, e, n, Start(t, e, n), vectors[n]);
      }
    }
  }

  /** One turn of the loop. */
  method BuildVector(src: VectorSource, e: Environment, n: nat, ghost t: Tape, ghost i: nat) returns (v: Vector)
    requires AllFit(e) && Linked(t) && src.state == t.state(i)
    modifies src
    ensures Faithful(t, e, n, i, v) && src.state == t.state(NextStart(t, e, n, i))
  {
    var op := Draw(src, NUM_OPS, t, i);
    if op == 13 || op == 14 {
      assert Fits(e.signer(op, n));
      var line, verdict := BuildVerifyRequest(src, op, e.signer(op, n), e.indexFirst(n), t, i + 1);
      v := Verify(op, line, verdict);
    } else {
      var line, fields := ComposeRequest(src, op, t, i + 1);
      v := Compute(op, line, fields);
    }
  }

  /** One turn of the loop, appended to what the turns before it gave. */
  method Turn(src: VectorSource, e: Environment, vectors: seq<Vector>, ghost t: Tape) returns (more: seq<Vector>)
    requires AllFit(e) && Linked(t) && Built(src.state, t, e, vectors)
    modifies src
    ensures |more| == |vectors| + 1 && Built(src.state, t, e, more)
  {
    var v := BuildVector(src, e, |vectors|, t, Start(t, e, |vectors|));
    OneMore(t, e, vectors, v);
    more := vectors + [v];
  }

  method BuildOnTape(src: VectorSource, e: Environment, count: nat, ghost t: Tape) returns (vectors: seq<Vector>)
    requires AllFit(e) && Linked(t) && src.state == t.state(0)
    modifies src
    ensures |vectors| == count && Built(src.state, t, e, vectors)
  {
    vectors := [];
    for n := 0 to count
      invariant |vectors| == n && Built(src.state, t, e, vectors)
    {
      vectors := Turn(src, e, vectors, t);
    }
  }

  /** The loop over the vectors.  Whatever the seed, all requests of a run say what was drawn: vector by
      vector a CLI reads exactly what the reference side keeps. */
  method BuildRun(src: VectorSource, e: Environment, count: nat) returns (vectors: seq<Vector>)
    requires AllFit(e)
    modifies src
    ensures |vectors| == count && AllFaithful(TapeOf(old(src.state)), e, vectors)
    ensures src.state == StateAfter(old(src.state), Start(TapeOf(old(src.state)), e, count))
  {
    ghost var s, t := src.state, TapeOf(src.state);
    TapeLinked(s);
    vectors := BuildOnTape(src, e, count, t);
    TapeState(s, Start(t, e, count));
  }

  /** A run from one seed is reproducible, and a shorter run is the beginning of a longer one. */
  lemma RunDetermined(t: Tape, e: Environment, a: seq<Vector>, b: seq<Vector>, n: nat)
    requires AllFit(e) && AllFaithful(t, e, a) && AllFaithful(t, e, b) && n < |a| && n < |b|
    ensures a[n].op == b[n].op
    ensures a[n].Compute? ==> b[n].Compute? && a[n].fields == b[n].fields
    ensures a[n].Verify? ==> b[n].Verify? && a[n].verdict == b[n].verdict
  {
    assert Faithful(t, e, n, Start(t, e, n), a[n]) && Faithful(t, e, n, Start(t, e, n), b[n]);
  }
}
