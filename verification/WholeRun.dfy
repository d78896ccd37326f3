/** From seed to exit status: the requests of a run, what backends make of them, and the verdict. */
module WholeRun {
  import Ballots
  import Draws
  import opened Generator
  import opened Options
  import opened Payloads
  import opened RequestRun
  import opened Runner
  import opened RunProperties
  import opened Voting
  import opened WireCodec


  function Result(f: Request -> RefOutput, line: string): RefOutput {
    match ParseLine(line)
    case None => Failed
    case Some(v) => f(v)
  }

  /** An output line gives the result of `f`, or abstains.  For the verify ops only the accept bit counts,
      and for op 12 the two degenerate outputs are one. */
  predicate Gives(op: nat, o: RefOutput, out: string) {
    var l := StripEol(out);
    || l == "NA"
    || (if Ballots.IsVerify(op) then Ballots.Accepts(l) == (o == Verdict(true))
        else (if op == 12 then FoldZero(l) else l) == RefHex(op, o))
  }

  function OpsOf(vectors: seq<Vector>): seq<nat> {
    seq(|vectors|, n requires 0 <= n < |vectors| => vectors[n].op)
  }

  function LinesOf(vectors: seq<Vector>): seq<string> {
    seq(|vectors|, n requires 0 <= n < |vectors| => vectors[n].line)
  }

  /** What the reference keeps: the result on the fields it built, or the verdict of the signer. */
  function Kept(f: Request -> RefOutput, v: Vector): RefOutput {
    match v
    case Compute(_, _, fields) => f(fields)
    case Verify(_, _, verdict) => Verdict(verdict)
  }

  function KeptAll(f: Request -> RefOutput, vectors: seq<Vector>): seq<RefOutput> {
    seq(|vectors|, n requires 0 <= n < |vectors| => Kept(f, vectors[n]))
  }

  ghost predicate VerifiesAt(f: Request -> RefOutput, e: Environment, r: Request, op: nat, n: nat) {
    Ballots.IsVerify(op) && r.op == op ==>
      match Unpack(r.msg)
      case None => f(r) == Verdict(false)
      case Some(p) =>
        Some(p.pub) == e.signer(op, n).pub ==> f(r) == Verdict(e.signer(op, n).verify(p.msg, p.sig))
  }

  /** On the verify ops `f` is the verification of the run's keys: it rejects what is no payload, and
      decides a payload with the key of the run as the signer does. */
  ghost predicate Verifies(f: Request -> RefOutput, e: Environment) {
    forall r: Request, op: nat, n: nat :: VerifiesAt(f, e, r, op, n)
  }

  /** Results fit the reply buffers. */
  ghost predicate ResultsFit(f: Request -> RefOutput) {
    forall r: Request, op: nat :: |RefHex(op, f(r))| < REPLY_MAX
  }

  // ----- the reference computes f

  /** What the reference keeps for a vector is what `f` yields on its line. */
  lemma ReferenceComputes(f: Request -> RefOutput, t: Draws.Tape, e: Environment, n: nat, i: nat, v: Vector)
    requires AllFit(e) && Verifies(f, e) && Faithful(t, e, n, i, v)
    ensures Kept(f, v) == Result(f, v.line) && (Ballots.IsVerify(v.op) <==> v.Verify?)
  {
    if v.Verify? {
      var r := ParseLine(v.line).value;
      assert VerifiesAt(f, e, r, v.op, n);
      var g := e.signer(v.op, n);
      assert Fits(g);
      if PayloadOf(t, i + 1, g, e.indexFirst(n)).Some? {
        TamperedAtMostOnce(t, i + 1, g, e.indexFirst(n));
      }
    }
  }

  // ----- one reply

  /** A stored reply counts as agreeing with the reference. */
  predicate Matches(op: nat, ref: string, reply: string) {
    if Ballots.IsVerify(op) then Ballots.Accepts(reply) == Ballots.Accepts(ref) else reply == ref
  }

  lemma CroppedIs(x: string, y: string)
    requires |y| < REPLY_MAX
    ensures Cropped(x) == y <==> x == y
  {
  }

  lemma VerdictText(accept: bool)
    ensures Ballots.Accepts(if accept then "01" else "00") == accept
  {
    assert "00"[1] != "01"[1];
  }

  /** An answer is stored as one that agrees with the reference exactly when it gives the same result. */
  lemma MatchesIff(op: nat, o: RefOutput, out: string)
    requires |RefHex(op, o)| < REPLY_MAX && (Ballots.IsVerify(op) ==> o.Verdict?)
    requires Reply(op, out) != "NA"
    ensures Matches(op, RefHex(op, o), Reply(op, out)) <==> Gives(op, o, out)
  {
    AbstainsIff(op, out);
    var l := StripEol(out);
    var x := if op == 12 then FoldZero(l) else l;
    if Ballots.IsVerify(op) {
      CroppedIs(l, "01");
      VerdictText(o.accept);
    } else {
      CroppedIs(x, RefHex(op, o));
    }
  }

  // ----- one vector

  lemma {:induction false} VotersAreHeard(bo: seq<seq<string>>, i: nat, n: nat)
    requires n <= |bo|
    ensures forall v <- VotesOf(bo, i, n) :: v.backend < n && Heard(bo, i, v.backend) && v.reply == bo[v.backend][i]
  {
    if n != 0 {
      VotersAreHeard(bo, i, n - 1);
    }
  }

  lemma {:induction false} HeardVotes(bo: seq<seq<string>>, i: nat, k: nat, n: nat)
    requires k < n <= |bo| && Heard(bo, i, k)
    ensures Ballots.Vote(k, bo[k][i]) in VotesOf(bo, i, n)
  {
    if k < n - 1 {
      HeardVotes(bo, i, k, n - 1);
    }
  }

  lemma AgreeIff(r: Run, i: nat)
    requires Complete(r) && i < |r.ops|
    ensures Ballots.Agree(BallotOf(r, i)) <==>
            forall k: nat | k < |r.bo| && Heard(r.bo, i, k) :: Matches(r.ops[i], r.ref[i], r.bo[k][i])
  {
    var votes := BallotOf(r, i).votes;
    VotersAreHeard(r.bo, i, |r.bo|);
    if Ballots.Agree(BallotOf(r, i)) {
      forall k: nat | k < |r.bo| && Heard(r.bo, i, k)
        ensures Matches(r.ops[i], r.ref[i], r.bo[k][i])
      {
        HeardVotes(r.bo, i, k, |r.bo|);
        var j :| 0 <= j < |votes| && votes[j] == Ballots.Vote(k, r.bo[k][i]);
      }
    } else {
      var j :| 0 <= j < |votes| && !Matches(r.ops[i], r.ref[i], votes[j].reply);
      assert votes[j] in votes;
    }
  }

  // ----- the whole run

  /** Backend `k` is heard on vector `i` of a run, which it answered with `outputs[k][i]`. */
  ghost predicate HeardOn(ops: seq<nat>, outs: seq<RefOutput>, outputs: seq<seq<string>>, i: nat, k: nat)
    requires |outs| == |ops|
    ensures HeardOn(ops, outs, outputs, i, k) ==> k < |outputs| && i < |outputs[k]|
  {
    Heard(RunOf(ops, outs, outputs).bo, i, k)
  }

  /** Every backend computes `f` wherever it is heard. */
  ghost predicate AllGive(ops: seq<nat>, outs: seq<RefOutput>, outputs: seq<seq<string>>)
    requires |outs| == |ops|
  {
    forall i: nat, k: nat | i < |ops| && HeardOn(ops, outs, outputs, i, k) :: Gives(ops[i], outs[i], outputs[k][i])
  }

  lemma AgreeGives(ops: seq<nat>, outs: seq<RefOutput>, outputs: seq<seq<string>>, i: nat)
    requires |outs| == |ops| && i < |ops|
    requires |RefHex(ops[i], outs[i])| < REPLY_MAX && (Ballots.IsVerify(ops[i]) ==> outs[i].Verdict?)
    ensures Ballots.Agree(BallotOf(RunOf(ops, outs, outputs), i)) <==>
            forall k: nat | HeardOn(ops, outs, outputs, i, k) :: Gives(ops[i], outs[i], outputs[k][i])
  {
    var r := RunOf(ops, outs, outputs);
    AgreeIff(r, i);
    forall k: nat | HeardOn(ops, outs, outputs, i, k)
      ensures Matches(r.ops[i], r.ref[i], r.bo[k][i]) <==> Gives(ops[i], outs[i], outputs[k][i])
    {
      MatchesIff(ops[i], outs[i], outputs[k][i]);
    }
  }

  lemma AllAgreeIff(ops: seq<nat>, outs: seq<RefOutput>, outputs: seq<seq<string>>)
    requires |outs| == |ops|
    requires forall i | 0 <= i < |ops| ::
               |RefHex(ops[i], outs[i])| < REPLY_MAX && (Ballots.IsVerify(ops[i]) ==> outs[i].Verdict?)
    ensures (forall i | 0 <= i < |ops| :: Ballots.Agree(BallotOf(RunOf(ops, outs, outputs), i))) <==>
            AllGive(ops, outs, outputs)
  {
    forall i: nat | i < |ops|
      ensures Ballots.Agree(BallotOf(RunOf(ops, outs, outputs), i)) <==>
              forall k: nat | HeardOn(ops, outs, outputs, i, k) :: Gives(ops[i], outs[i], outputs[k][i])
    {
      AgreeGives(ops, outs, outputs, i);
    }
  }

  /** What the run compares with: on vectors that say what was drawn, the results of `f` on the lines. */
  lemma KeptResults(f: Request -> RefOutput, t: Draws.Tape, e: Environment, vectors: seq<Vector>)
    requires AllFit(e) && Verifies(f, e) && ResultsFit(f) && AllFaithful(t, e, vectors)
    ensures forall i | 0 <= i < |vectors| ::
              var op, o := OpsOf(vectors)[i], KeptAll(f, vectors)[i];
              && o == Result(f, LinesOf(vectors)[i])
              && |RefHex(op, o)| < REPLY_MAX && (Ballots.IsVerify(op) ==> o.Verdict?)
  {
    forall i | 0 <= i < |vectors|
      ensures var v, o := vectors[i], Kept(f, vectors[i]);
              && o == Result(f, v.line)
              && |RefHex(v.op, o)| < REPLY_MAX && (Ballots.IsVerify(v.op) ==> o.Verdict?)
    {
      assert Faithful(t, e, i, Start(t, e, i), vectors[i]);
      ReferenceComputes(f, t, e, i, Start(t, e, i), vectors[i]);
      if vectors[i].Compute? {
        assert |RefHex(vectors[i].op, f(vectors[i].fields))| < REPLY_MAX;
      }
    }
  }

  /** Wherever a backend is heard, it gives what `f` yields on the line. */
  ghost predicate BackendsGive(f: Request -> RefOutput, vectors: seq<Vector>, outputs: seq<seq<string>>) {
    forall i: nat, k: nat | i < |vectors| && HeardOn(OpsOf(vectors), KeptAll(f, vectors), outputs, i, k) ::
      Gives(vectors[i].op, Result(f, vectors[i].line), outputs[k][i])
  }

  /** No vector of the run is reported. */
  ghost predicate Silent(f: Request -> RefOutput, vectors: seq<Vector>, outputs: seq<seq<string>>) {
    forall i | 0 <= i < |vectors| :: Ballots.Agree(BallotOf(RunOf(OpsOf(vectors), KeptAll(f, vectors), outputs), i))
  }

  lemma SilentIff(
    f: Request -> RefOutput, t: Draws.Tape, e: Environment, vectors: seq<Vector>, outputs: seq<seq<string>>)
    requires AllFit(e) && Verifies(f, e) && ResultsFit(f) && AllFaithful(t, e, vectors)
    ensures Silent(f, vectors, outputs) <==> BackendsGive(f, vectors, outputs)
  {
    KeptResults(f, t, e, vectors);
    AllAgreeIff(OpsOf(vectors), KeptAll(f, vectors), outputs);
  }

  method Judge(f: Request -> RefOutput, vectors: seq<Vector>, outputs: seq<seq<string>>) returns (exit: nat)
    ensures (exit == 0 || exit == 1) && (exit == 0 <==> Silent(f, vectors, outputs))
  {
    var oracle, summary;
    exit, oracle, summary := Differential(OpsOf(vectors), KeptAll(f, vectors), outputs);
  }

  /** From the seed to the exit status, for a reference that computes `f`.  If `f` verifies as the keys of
      the run do, the run ends with status 0 exactly when every backend, on every line where it is heard,
      gives what `f` yields on that line. */
  method RunAll(
    src: VectorSource, e: Environment, count: nat, f: Request -> RefOutput, clis: seq<seq<string> -> seq<string>>)
    returns (exit: nat, vectors: seq<Vector>, outputs: seq<seq<string>>)
    requires AllFit(e)
    modifies src
    ensures |vectors| == count && AllFaithful(Draws.TapeOf(old(src.state)), e, vectors)
    ensures |outputs| == |clis| && forall k | 0 <= k < |clis| :: outputs[k] == clis[k](LinesOf(vectors))
    ensures exit == 0 || exit == 1
    ensures Verifies(f, e) && ResultsFit(f) ==> (exit == 0 <==> BackendsGive(f, vectors, outputs))
  {
    ghost var t := Draws.TapeOf(src.state);
    vectors := BuildRun(src, e, count);
    var lines := LinesOf(vectors);
    outputs := seq(|clis|, k requires 0 <= k < |clis| => clis[k](lines));
    exit := Judge(f, vectors, outputs);
    if Verifies(f, e) && ResultsFit(f) {
      SilentIff(f, t, e, vectors, outputs);
    }
  }
}
