/** The per-vector oracle of the differential runner: collecting the voters, finding the value
    backed by the most of them, and charging the divergences. */
module Voting {
  import opened Ballots
  import opened Tally

  const MAX_VOTERS: nat := 16

  /** A run: the op and reference output of each vector, and the replies each backend produced. */
  datatype Run = Run(ops: seq<nat>, ref: seq<string>, bo: seq<seq<string>>)

  ghost predicate Complete(r: Run) { |r.ref| == |r.ops| }

  /** A backend answers vector `i` when its output reaches it and is not an abstention. */
  predicate Answers(replies: seq<string>, i: nat) {
    i < |replies| && replies[i] != "NA"
  }

  ghost function SaysNA(): string -> bool { (s: string) => s == "NA" }

  /** The votes taken from the first `n` backends: those that answer, while there is room beside the
      reference. */
  function VotesOf(bo: seq<seq<string>>, i: nat, n: nat): seq<Vote>
    requires n <= |bo|
  {
    if n == 0 then []
    else
      var v := VotesOf(bo, i, n - 1);
      if 1 + |v| < MAX_VOTERS && Answers(bo[n - 1], i) then v + [Vote(n - 1, bo[n - 1][i])] else v
  }

  function BallotOf(r: Run, i: nat): Ballot
    requires i < |r.ops| && i < |r.ref|
  {
    Ballot(r.ops[i], r.ref[i], VotesOf(r.bo, i, |r.bo|))
  }

  ghost function BallotsOf(r: Run): (s: seq<Ballot>)
    requires Complete(r)
    ensures |s| == |r.ops| && forall i | 0 <= i < |s| :: s[i] == BallotOf(r, i)
  {
    seq(|r.ops|, i requires 0 <= i < |r.ops| => BallotOf(r, i))
  }

  lemma {:induction false} VotesBelow(bo: seq<seq<string>>, i: nat, n: nat)
    requires n <= |bo|
    ensures forall j | 0 <= j < |VotesOf(bo, i, n)| :: VotesOf(bo, i, n)[j].backend < n
  {
    if n != 0 {
      VotesBelow(bo, i, n - 1);
    }
  }

  // ----- the two arrays of the code

  /** The values voted for; the reference is first. */
  function Values(ref: string, votes: seq<Vote>): seq<string> {
    [ref] + seq(|votes|, j requires 0 <= j < |votes| => votes[j].reply)
  }

  /** Whose they are; the reference is -1. */
  function Owners(votes: seq<Vote>): seq<int> {
    [-1] + seq(|votes|, j requires 0 <= j < |votes| => votes[j].backend)
  }

  ghost function Equals(x: string): string -> bool { (y: string) => y == x }

  lemma {:induction false} SupportCounts(b: Ballot, votes: seq<Vote>, x: string)
    ensures CountWhere(Equals(x), Values(b.ref, votes)) ==
            (if b.ref == x then 1 else 0) + CountWhere(Says(x), votes)
  {
    var v := Values(b.ref, votes);
    if votes == [] {
      assert v[..0] == [];
      assert CountWhere(Equals(x), v[..0]) == 0;
    } else {
      assert v[..|v| - 1] == Values(b.ref, votes[..|votes| - 1]);
      SupportCounts(b, votes[..|votes| - 1], x);
    }
  }

  /** The inner counting loop: how many voters back the value at index `j`. */
  method CountBackers(vv: seq<string>, j: nat) returns (c: nat)
    requires j < |vv|
    ensures c == CountWhere(Equals(vv[j]), vv)
  {
    c := 0;
    for k := 0 to |vv|
      invariant c == CountWhere(Equals(vv[j]), vv[..k])
    {
      assert vv[..k + 1] == vv[..k] + [vv[k]];
      CountWhereAppend(Equals(vv[j]), vv[..k], vv[k]);
      if vv[j] == vv[k] {
        c := c + 1;
      }
    }
    assert vv[..|vv|] == vv;
  }

  lemma BacksItself(vv: seq<string>, j: nat)
    requires j < |vv|
    ensures 0 < CountWhere(Equals(vv[j]), vv)
  {
    CountWhereBound(Equals(vv[j]), vv);
    assert Equals(vv[j])(vv[j]);
  }

  lemma BestOfAll(vv: seq<string>, best: nat)
    requires forall l | 0 <= l < |vv| :: CountWhere(Equals(vv[l]), vv) <= best
    ensures forall x :: CountWhere(Equals(x), vv) <= best
  {
    forall x
      ensures CountWhere(Equals(x), vv) <= best
    {
      CountWhereBound(Equals(x), vv);
      if l :| 0 <= l < |vv| && Equals(x)(vv[l]) {
        assert vv[l] == x;
      }
    }
  }

  /** The outer loop: the value at the returned index is backed by `bestcount` voters, and no value
      by more. */
  method FindBest(vv: seq<string>) returns (bestcount: nat, bestj: nat)
    requires vv != []
    ensures bestj < |vv| && bestcount == CountWhere(Equals(vv[bestj]), vv)
    ensures forall x :: CountWhere(Equals(x), vv) <= bestcount
  {
    bestcount, bestj := 0, 0;
    for j := 0 to |vv|
      invariant bestj < |vv|
      invariant bestcount == if j == 0 then 0 else CountWhere(Equals(vv[bestj]), vv)
      invariant forall l | 0 <= l < j :: CountWhere(Equals(vv[l]), vv) <= bestcount
    {
      var c := CountBackers(vv, j);
      BacksItself(vv, j);
      if c > bestcount {
        bestcount, bestj := c, j;
      }
    }
    BestOfAll(vv, bestcount);
  }

  /** What the best count decides: a strict majority exists exactly when it exceeds half of the
      voters, and the value at the best index is then the only one. */
  lemma BestDecides(b: Ballot, bestcount: nat, best: string)
    requires bestcount == Support(b, best) && forall x :: Support(b, x) <= bestcount
    ensures (exists x :: StrictMajority(b, x)) <==> bestcount * 2 > Voters(b)
    ensures bestcount * 2 > Voters(b) ==> forall x :: StrictMajority(b, x) <==> x == best
    ensures bestcount == Voters(b) ==> Agree(b)
  {
    if bestcount * 2 > Voters(b) {
      assert StrictMajority(b, best);
      forall x | StrictMajority(b, x)
        ensures x == best
      {
        MajorityUnique(b, x, best);
      }
    }
    if bestcount == Voters(b) {
      CountWhereBound(Says(best), b.votes);
      assert forall k | 0 <= k < |b.votes| :: Says(best)(b.votes[k]);
    }
  }

  ghost function DivergencesOf(k: nat): Ballot -> nat { (b: Ballot) => Divergences(b, k) }

  /** The counts of reports after one more vote. */
  lemma NextVote(b: Ballot, m: nat)
    requires m < |b.votes|
    ensures var v := b.votes[m];
            && CountWhere(Flagged(b), b.votes[..m + 1]) ==
               CountWhere(Flagged(b), b.votes[..m]) + (if Flags(b, v.reply) then 1 else 0)
            && forall k: nat :: CountWhere(FlaggedOf(b, k), b.votes[..m + 1]) ==
                 CountWhere(FlaggedOf(b, k), b.votes[..m]) + (if v.backend == k && Flags(b, v.reply) then 1 else 0)
  {
    assert b.votes[..m + 1][..m] == b.votes[..m];
  }

  lemma OneVote(b: Ballot)
    requires |b.votes| == 1
    ensures CountWhere(Flagged(b), b.votes) == if Flags(b, b.votes[0].reply) then 1 else 0
    ensures forall k: nat :: Divergences(b, k) ==
              if b.votes[0].backend == k && Flags(b, b.votes[0].reply) then 1 else 0
  {
    NextVote(b, 0);
    assert b.votes[..1] == b.votes && b.votes[..0] == [];
  }

  /** Voters that agree are not charged. */
  lemma AllAgree(b: Ballot)
    requires Agree(b)
    ensures Failures(b) == 0 && forall k: nat :: Divergences(b, k) == 0
  {
    AgreeingBallot(b);
    NoFailureIffAgree(b);
    forall k: nat
      ensures Divergences(b, k) == 0
    {
      CountWhereBound(FlaggedOf(b, k), b.votes);
    }
  }

  /** Once the room is taken, further backends are not heard. */
  lemma {:induction false} FullStays(bo: seq<seq<string>>, i: nat, n: nat)
    requires n <= |bo| && (n == |bo| || MAX_VOTERS <= 1 + |VotesOf(bo, i, n)|)
    ensures VotesOf(bo, i, n) == VotesOf(bo, i, |bo|)
    decreases |bo| - n
  {
    if n < |bo| {
      FullStays(bo, i, n + 1);
    }
  }

  class Oracle {
    const bdiv: array<nat>
    var refOutlier: nat
    var failures: nat

    constructor (nb: nat)
      ensures bdiv.Length == nb && fresh(bdiv) && failures == 0 && refOutlier == 0
      ensures forall k | 0 <= k < nb :: bdiv[k] == 0
    {
      bdiv := new nat[nb](_ => 0);
      refOutlier, failures := 0, 0;
    }

    /** Charge one divergence to its owner. */
    method Charge(owner: int)
      requires owner < bdiv.Length
      modifies this, bdiv
      ensures forall k | 0 <= k < bdiv.Length :: bdiv[k] == old(bdiv[k]) + (if k == owner then 1 else 0)
      ensures refOutlier == old(refOutlier) + (if owner < 0 then 1 else 0)
      ensures failures == old(failures) + 1
    {
      if owner >= 0 {
        bdiv[owner] := bdiv[owner] + 1;
      } else {
        refOutlier := refOutlier + 1;
      }
      failures := failures + 1;
    }

    /** The voters of vector `i`, as parallel sequences of values and owners. */
    method CollectVoters(r: Run, i: nat) returns (vv: seq<string>, vb: seq<int>)
      requires i < |r.ops| && i < |r.ref|
      ensures vv == Values(r.ref[i], BallotOf(r, i).votes) && vb == Owners(BallotOf(r, i).votes)
    {
      vv, vb := [r.ref[i]], [-1];
      var b, nb := 0, |r.bo|;
      while b < nb && |vv| < MAX_VOTERS
        invariant 0 <= b <= nb
        invariant vv == Values(r.ref[i], VotesOf(r.bo, i, b)) && vb == Owners(VotesOf(r.bo, i, b))
      {
        if Answers(r.bo[b], i) {
          vv, vb := vv + [r.bo[b][i]], vb + [b];
        }
        b := b + 1;
      }
      FullStays(r.bo, i, b);
    }

    /** The verify ops: charge each backend whose accept bit is not the reference's. */
    method ChargeVerify(ghost b: Ballot, vv: seq<string>, vb: seq<int>)
      requires IsVerify(b.op) && BackendsBelow(b, bdiv.Length)
      requires vv == Values(b.ref, b.votes) && vb == Owners(b.votes)
      modifies this, bdiv
      ensures forall k | 0 <= k < bdiv.Length :: bdiv[k] == old(bdiv[k]) + Divergences(b, k)
      ensures refOutlier == old(refOutlier)
      ensures failures == old(failures) + CountWhere(Flagged(b), b.votes)
    {
      var refAcc := Accepts(vv[0]);
      for j := 1 to |vv|
        invariant forall k | 0 <= k < bdiv.Length ::
                    bdiv[k] == old(bdiv[k]) + CountWhere(FlaggedOf(b, k), b.votes[..j - 1])
        invariant refOutlier == old(refOutlier)
        invariant failures == old(failures) + CountWhere(Flagged(b), b.votes[..j - 1])
      {
        NextVote(b, j - 1);
        var acc := Accepts(vv[j]);
        if acc != refAcc {
          Charge(vb[j]);
        }
      }
      assert b.votes[..|b.votes|] == b.votes;
    }

    /** A strict majority: charge every voter that is not with it. */
    method ChargeMinority(ghost b: Ballot, vv: seq<string>, vb: seq<int>, maj: string)
      requires !IsVerify(b.op) && StrictMajority(b, maj) && BackendsBelow(b, bdiv.Length)
      requires vv == Values(b.ref, b.votes) && vb == Owners(b.votes)
      modifies this, bdiv
      ensures forall k | 0 <= k < bdiv.Length :: bdiv[k] == old(bdiv[k]) + Divergences(b, k)
      ensures refOutlier == old(refOutlier) + RefOutlier(b)
      ensures failures == old(failures) + Failures(b)
    {
      FlagsWithMajority(b, maj, b.ref);
      for j := 0 to |vv|
        invariant forall k | 0 <= k < bdiv.Length ::
                    bdiv[k] == old(bdiv[k]) + CountWhere(FlaggedOf(b, k), b.votes[..if j == 0 then 0 else j - 1])
        invariant refOutlier == old(refOutlier) + (if j == 0 then 0 else RefOutlier(b))
        invariant failures == old(failures) + (if j == 0 then 0 else RefOutlier(b)) +
                              CountWhere(Flagged(b), b.votes[..if j == 0 then 0 else j - 1])
      {
        if 0 < j {
          NextVote(b, j - 1);
          FlagsWithMajority(b, maj, vv[j]);
        }
        if vv[j] != maj {
          Charge(vb[j]);
        }
      }
      assert b.votes[..|b.votes|] == b.votes;
    }

    /** The oracle on one vector. */
    method JudgeVector(r: Run, i: nat)
      requires Complete(r) && i < |r.ops| && bdiv.Length == |r.bo|
      modifies this, bdiv
      ensures forall k | 0 <= k < bdiv.Length :: bdiv[k] == old(bdiv[k]) + Divergences(BallotOf(r, i), k)
      ensures refOutlier == old(refOutlier) + RefOutlier(BallotOf(r, i))
      ensures failures == old(failures) + Failures(BallotOf(r, i))
    {
      ghost var b := BallotOf(r, i);
      VotesBelow(r.bo, i, |r.bo|);
      var vv, vb := CollectVoters(r, i);
      var nv := |vv|;
      if nv <= 1 {
        return;
      }
      if r.ops[i] == 13 || r.ops[i] == 14 {
        ChargeVerify(b, vv, vb);
        return;
      }
      if nv == 2 {
        OneVote(b);
        if vv[1] != vv[0] {
          Charge(vb[1]);
        }
        return;
      }
      var bestcount, bestj := FindBest(vv);
      forall x
        ensures CountWhere(Equals(x), vv) == Support(b, x)
      {
        SupportCounts(b, b.votes, x);
      }
      BestDecides(b, bestcount, vv[bestj]);
      if bestcount == nv {
        AllAgree(b);
        return;
      }
      if bestcount * 2 <= nv {
        NothingCharged(b);
        failures := failures + 1;
        return;
      }
      ChargeMinority(b, vv, vb, vv[bestj]);
    }

    /** The oracle on the whole run. */
    method JudgeRun(r: Run)
      requires Complete(r) && bdiv.Length == |r.bo|
      modifies this, bdiv
      ensures forall k | 0 <= k < bdiv.Length ::
                bdiv[k] == old(bdiv[k]) + SumOf(DivergencesOf(k), BallotsOf(r))
      ensures refOutlier == old(refOutlier) + SumOf(RefOutlier, BallotsOf(r))
      ensures failures == old(failures) + SumOf(Failures, BallotsOf(r))
    {
      ghost var s := BallotsOf(r);
      for i := 0 to |r.ops|
        invariant forall k | 0 <= k < bdiv.Length :: bdiv[k] == old(bdiv[k]) + SumOf(DivergencesOf(k), s[..i])
        invariant refOutlier == old(refOutlier) + SumOf(RefOutlier, s[..i])
        invariant failures == old(failures) + SumOf(Failures, s[..i])
      {
        assert s[..i + 1][..i] == s[..i];
        JudgeVector(r, i);
      }
      assert s[..|s|] == s;
    }
  }
}
