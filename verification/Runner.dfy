/** The differential runner around the oracle: normalising replies, collecting each backend's output,
    and the exit status of a run. */
module Runner {
  import opened Ballots
  import opened Bytes
  import opened HexCodec
  import opened RunProperties
  import opened Tally
  import opened Voting

  // ----- normalising replies

  const X25519_LEN: nat := 32
  const REPLY_MAX: nat := 8299  // a reply buffer holds 8300 characters with the terminator

  predicate AllZero(h: string) { forall i | 0 <= i < |h| :: h[i] == '0' }

  /** An all-zero shared secret, in hex. */
  predicate ZeroSecret(h: string) { |h| == 2 * X25519_LEN && AllZero(h) }

  /** x25519_normalize: an all-zero secret counts as the error a library may raise instead. */
  function FoldZero(h: string): string { if ZeroSecret(h) then "ERR" else h }

  method X25519Normalize(hex: string) returns (r: string)
    ensures r == FoldZero(hex)
  {
    if |hex| != 2 * X25519_LEN {
      return hex;
    }
    for j := 0 to |hex|
      invariant AllZero(hex[..j])
    {
      if hex[j] != '0' {
        return hex;
      }
    }
    r := "ERR";
  }

  predicate Degenerate(h: string) { h == "ERR" || ZeroSecret(h) }

  /** The one text that is folded: 64 zeros. */
  lemma FoldedText(h: string)
    ensures FoldZero(h) != h <==> h == seq(64, _ => '0')
    ensures FoldZero(h) != h ==> FoldZero(h) == "ERR"
  {
    assert |"ERR"| == 3;
  }

  /** Normalising identifies the two permitted degenerate outputs and nothing else, and applying it
      again changes nothing. */
  lemma FoldZeroIdentifies(x: string, y: string)
    ensures FoldZero(x) == FoldZero(y) <==> x == y || (Degenerate(x) && Degenerate(y))
    ensures FoldZero(FoldZero(x)) == FoldZero(x)
  {
    assert |"ERR"| == 3;
  }

  /** The longest beginning of `s` that does not end in a line end or a carriage return. */
  function StripEol(s: string): (t: string)
    ensures |t| <= |s| && t == s[..|t|]
    ensures t != "" ==> t[|t| - 1] !in "\n\r"
    ensures forall i | |t| <= i < |s| :: s[i] in "\n\r"
  {
    if s != "" && (s[|s| - 1] == '\n' || s[|s| - 1] == '\r') then StripEol(s[..|s| - 1]) else s
  }

  function Cropped(s: string): string { if |s| <= REPLY_MAX then s else s[..REPLY_MAX] }

  lemma CroppedText(s: string)
    ensures Cropped(s) <= s && |Cropped(s)| == if |s| < 8300 then |s| else 8299
  {
  }

  /** What is stored for an output line that answers a vector with this op. */
  function Reply(op: nat, line: string): string {
    var l := StripEol(line);
    if l == "NA" then "NA" else Cropped(if op == 12 then FoldZero(l) else l)
  }

  /** Only a line that says NA becomes an abstention. */
  lemma AbstainsIff(op: nat, line: string)
    ensures Reply(op, line) == "NA" <==> StripEol(line) == "NA"
  {
    assert |"NA"| == 2 && |"ERR"| == 3;
  }

  function RepliesOf(ops: seq<nat>, lines: seq<string>): seq<string> {
    var n := if |lines| < |ops| then |lines| else |ops|;
    seq(n, i requires 0 <= i < n => Reply(ops[i], lines[i]))
  }

  method Strip(line: string) returns (l: string)
    ensures l == StripEol(line)
  {
    var ll := |line|;
    assert line[..ll] == line;
    while ll != 0 && (line[ll - 1] == '\n' || line[ll - 1] == '\r')
      invariant 0 <= ll <= |line| && StripEol(line[..ll]) == StripEol(line)
    {
      assert line[..ll][..ll - 1] == line[..ll - 1];
      ll := ll - 1;
    }
    l := line[..ll];
  }

  /** What the reading loop makes of one line, and whether it counts as an abstention. */
  method ReadReply(op: nat, line: string) returns (reply: string, na: bool)
    ensures reply == Reply(op, line)
    ensures na <==> reply == "NA"
  {
    AbstainsIff(op, line);
    var l := Strip(line);
    na := l == "NA";
    if na {
      return "NA", true;
    }
    if op == 12 {
      l := X25519Normalize(l);
    }
    reply := Cropped(l);
  }

  /** The first `i` replies of a backend. */
  function RepliesUpTo(ops: seq<nat>, lines: seq<string>, i: nat): seq<string>
    requires i <= |ops| && i <= |lines|
  {
    RepliesOf(ops, lines)[..i]
  }

  lemma NextReply(ops: seq<nat>, lines: seq<string>, i: nat)
    requires i < |ops| && i < |lines|
    ensures var r, bo := Reply(ops[i], lines[i]), RepliesUpTo(ops, lines, i);
            && RepliesUpTo(ops, lines, i + 1) == bo + [r]
            && CountWhere(SaysNA(), bo + [r]) == CountWhere(SaysNA(), bo) + (if r == "NA" then 1 else 0)
  {
    CountWhereAppend(SaysNA(), RepliesUpTo(ops, lines, i), Reply(ops[i], lines[i]));
  }

  lemma AllReplies(ops: seq<nat>, lines: seq<string>, i: nat)
    requires i == if |lines| < |ops| then |lines| else |ops|
    ensures RepliesUpTo(ops, lines, i) == RepliesOf(ops, lines)
  {
  }

  /** The reading loop for one backend: at most one reply for each vector, and the abstentions. */
  method CollectReplies(ops: seq<nat>, lines: seq<string>) returns (bo: seq<string>, na: nat)
    ensures bo == RepliesOf(ops, lines)
    ensures na == CountWhere(SaysNA(), bo)
  {
    bo, na := [], 0;
    var i := 0;
    while i < |ops| && i < |lines|
      invariant i <= |ops| && i <= |lines| && bo == RepliesUpTo(ops, lines, i)
      invariant na == CountWhere(SaysNA(), bo)
    {
      var reply, abstains := ReadReply(ops[i], lines[i]);
      NextReply(ops, lines, i);
      bo := bo + [reply];
      if abstains {
        na := na + 1;
      }
      i := i + 1;
    }
    AllReplies(ops, lines, i);
  }

  // ----- the run

  /** What the in-process reference yields for a vector. */
  datatype RefOutput = Verdict(accept: bool) | Output(bytes: seq<byte>) | Failed

  function RefHex(op: nat, o: RefOutput): string {
    match o
    case Verdict(accept) => if accept then "01" else "00"
    case Output(bytes) => if op == 12 then FoldZero(HexEncode(bytes)) else HexEncode(bytes)
    case Failed => "ERR"
  }

  ghost function RunOf(ops: seq<nat>, outs: seq<RefOutput>, outputs: seq<seq<string>>): (r: Run)
    requires |outs| == |ops|
    ensures Complete(r)
  {
    Run(ops, seq(|ops|, i requires 0 <= i < |ops| => RefHex(ops[i], outs[i])),
        seq(|outputs|, b requires 0 <= b < |outputs| => RepliesOf(ops, outputs[b])))
  }

  /** What the summary says of one backend: lines produced, abstentions and divergences, and whether
      it is warned of as short or as abstaining throughout. */
  datatype Summary = Summary(answered: nat, na: nat, diverged: nat, short: bool, allNa: bool)

  ghost function SummaryOf(r: Run, k: nat): Summary
    requires Complete(r) && k < |r.bo|
  {
    var n, na := |r.bo[k]|, CountWhere(SaysNA(), r.bo[k]);
    Summary(n, na, SumOf(DivergencesOf(k), BallotsOf(r)), n < |r.ops|, na == |r.ops|)
  }

  /** The outputs of all backends. */
  method CollectAll(ops: seq<nat>, outputs: seq<seq<string>>) returns (bo: seq<seq<string>>, bna: seq<nat>)
    ensures bo == seq(|outputs|, b requires 0 <= b < |outputs| => RepliesOf(ops, outputs[b]))
    ensures |bna| == |bo| && forall k | 0 <= k < |bo| :: bna[k] == CountWhere(SaysNA(), bo[k])
  {
    bo, bna := [], [];
    for b := 0 to |outputs|
      invariant |bo| == |bna| == b && forall k | 0 <= k < b :: bo[k] == RepliesOf(ops, outputs[k])
      invariant forall k | 0 <= k < b :: bna[k] == CountWhere(SaysNA(), bo[k])
    {
      var replies, na := CollectReplies(ops, outputs[b]);
      bo, bna := bo + [replies], bna + [na];
    }
  }

  /** The loop that writes the summary. */
  method Summarise(r: Run, bna: seq<nat>, bdiv: array<nat>) returns (summary: seq<Summary>)
    requires Complete(r) && |bna| == bdiv.Length == |r.bo|
    requires forall k | 0 <= k < |r.bo| :: bna[k] == CountWhere(SaysNA(), r.bo[k])
    requires forall k | 0 <= k < |r.bo| :: bdiv[k] == SumOf(DivergencesOf(k), BallotsOf(r))
    ensures |summary| == |r.bo| && forall k | 0 <= k < |r.bo| :: summary[k] == SummaryOf(r, k)
  {
    summary := [];
    for k := 0 to |r.bo|
      invariant |summary| == k && forall j | 0 <= j < k :: summary[j] == SummaryOf(r, j)
    {
      var n := |r.bo[k]|;
      summary := summary + [Summary(n, bna[k], bdiv[k], n < |r.ops|, bna[k] == |r.ops|)];
    }
  }

  /** A whole run: exit status 0 exactly when on every vector all voters agree, the charges of the
      reference and the failures, and the summary of every backend. */
  method Differential(ops: seq<nat>, outs: seq<RefOutput>, outputs: seq<seq<string>>)
    returns (exit: nat, oracle: Oracle, summary: seq<Summary>)
    requires |outs| == |ops|
    ensures fresh(oracle) && fresh(oracle.bdiv) && |summary| == |outputs|
    ensures exit == 0 || exit == 1
    ensures exit == 0 <==> forall i | 0 <= i < |ops| :: Agree(BallotOf(RunOf(ops, outs, outputs), i))
    ensures forall k | 0 <= k < |outputs| :: summary[k] == SummaryOf(RunOf(ops, outs, outputs), k)
    ensures oracle.refOutlier == SumOf(RefOutlier, BallotsOf(RunOf(ops, outs, outputs)))
    ensures oracle.failures == SumOf(Failures, BallotsOf(RunOf(ops, outs, outputs)))
  {
    var refhex := [];
    for i := 0 to |ops|
      invariant |refhex| == i && forall k | 0 <= k < i :: refhex[k] == RefHex(ops[k], outs[k])
    {
      refhex := refhex + [RefHex(ops[i], outs[i])];
    }
    var bo, bna := CollectAll(ops, outputs);
    var r := Run(ops, refhex, bo);
    assert r == RunOf(ops, outs, outputs);
    oracle := new Oracle(|outputs|);
    oracle.JudgeRun(r);
    RunSilentIff(r);
    summary := Summarise(r, bna, oracle.bdiv);
    exit := if oracle.failures != 0 then 1 else 0;
  }

  /** The summary accounts for every vector: when on each at most fifteen backends answer, what a
      backend answered without abstaining is what it voted on, so one that abstains throughout votes
      on nothing, and it diverges no more often than it votes. */
  lemma SummaryAccounts(ops: seq<nat>, outs: seq<RefOutput>, outputs: seq<seq<string>>, k: nat)
    requires |outs| == |ops| && k < |outputs|
    requires var r := RunOf(ops, outs, outputs);
             forall i | 0 <= i < |ops| :: EveryoneHeard(r.bo, i)
    ensures var r := RunOf(ops, outs, outputs);
            var m := SummaryOf(r, k);
            && m.na + SumTo(HeardAt(r.bo, k), |ops|) == m.answered <= |ops|
            && m.diverged <= SumTo(HeardAt(r.bo, k), |ops|)
            && (m.allNa ==> SumTo(HeardAt(r.bo, k), |ops|) == 0 == m.diverged)
  {
    var r := RunOf(ops, outs, outputs);
    Coverage(r, k);
  }
}
