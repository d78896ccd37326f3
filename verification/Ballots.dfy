/** The votes on one test vector, and what the voting oracle reports about them.  The definitions
    here say what is reported; module Voting holds the code that finds it. */
module Ballots {
  import opened Tally

  /** The reply of one backend that takes part in the vote. */
  datatype Vote = Vote(backend: nat, reply: string)

  /** The reference always votes; `votes` are the backends in their order. */
  datatype Ballot = Ballot(op: nat, ref: string, votes: seq<Vote>)

  predicate IsVerify(op: nat) { op == 13 || op == 14 }

  predicate Accepts(reply: string) { reply == "01" }

  function Voters(b: Ballot): nat { 1 + |b.votes| }

  ghost function Says(x: string): Vote -> bool { (v: Vote) => v.reply == x }

  /** How many voters, the reference included, replied `x`. */
  ghost function Support(b: Ballot, x: string): nat {
    (if b.ref == x then 1 else 0) + CountWhere(Says(x), b.votes)
  }

  ghost predicate StrictMajority(b: Ballot, x: string) {
    2 * Support(b, x) > Voters(b)
  }

  /** Whether a voter with this reply is reported.  The verify ops and a vote of two follow the
      reference, a larger vote follows its strict majority. */
  ghost predicate Flags(b: Ballot, reply: string) {
    if IsVerify(b.op) then Accepts(reply) != Accepts(b.ref)
    else if Voters(b) <= 2 then reply != b.ref
    else exists x :: StrictMajority(b, x) && reply != x
  }

  /** A compute op with three or more voters and no strict majority. */
  ghost predicate NoConsensus(b: Ballot) {
    !IsVerify(b.op) && 3 <= Voters(b) && forall x :: !StrictMajority(b, x)
  }

  ghost function Flagged(b: Ballot): Vote -> bool { (v: Vote) => Flags(b, v.reply) }

  ghost function FlaggedOf(b: Ballot, k: nat): Vote -> bool {
    (v: Vote) => v.backend == k && Flags(b, v.reply)
  }

  ghost function Unresolved(b: Ballot): nat { if NoConsensus(b) then 1 else 0 }
  ghost function RefOutlier(b: Ballot): nat { if Flags(b, b.ref) then 1 else 0 }
  ghost function Divergences(b: Ballot, k: nat): nat { CountWhere(FlaggedOf(b, k), b.votes) }
  ghost function Failures(b: Ballot): nat {
    Unresolved(b) + RefOutlier(b) + CountWhere(Flagged(b), b.votes)
  }

  // ----- majorities

  /** Two replies cannot both have a strict majority. */
  lemma MajorityUnique(b: Ballot, x: string, y: string)
    requires StrictMajority(b, x) && StrictMajority(b, y)
    ensures x == y
  {
    if x != y {
      CountWhereDisjoint(Says(x), Says(y), b.votes);
    }
  }

  /** With a strict majority `x`, exactly the other replies are reported. */
  lemma FlagsWithMajority(b: Ballot, x: string, reply: string)
    requires !IsVerify(b.op) && StrictMajority(b, x)
    ensures Flags(b, reply) <==> reply != x
    ensures !NoConsensus(b)
  {
    if Voters(b) <= 2 {
      CountWhereBound(Says(x), b.votes);
      assert Says(x)(if |b.votes| == 1 then b.votes[0] else Vote(0, x));
    } else if Flags(b, reply) {
      var y :| StrictMajority(b, y) && reply != y;
      MajorityUnique(b, x, y);
    }
  }

  /** Without a strict majority nobody is reported, but for the one backend that contradicts the
      reference in a vote of two. */
  lemma FlagsWithoutMajority(b: Ballot, reply: string)
    requires !IsVerify(b.op) && forall x :: !StrictMajority(b, x)
    ensures Flags(b, reply) <==> |b.votes| == 1 && reply != b.ref
    ensures |b.votes| == 1 ==> b.votes[0].reply != b.ref
  {
    CountWhereBound(Says(b.ref), b.votes);
    assert !StrictMajority(b, b.ref);
  }

  /** The reference is charged exactly when a strict majority of a compute op says something else. */
  lemma ReferenceCharged(b: Ballot)
    ensures RefOutlier(b) == 1 <==> !IsVerify(b.op) && exists x :: StrictMajority(b, x) && x != b.ref
  {
    if !IsVerify(b.op) {
      if x :| StrictMajority(b, x) {
        FlagsWithMajority(b, x, b.ref);
        if y :| StrictMajority(b, y) && y != b.ref {
          MajorityUnique(b, x, y);
        }
      } else {
        FlagsWithoutMajority(b, b.ref);
      }
    }
  }

  /** A vote of two that disagrees on a compute op is charged to its backend, and to nothing else. */
  lemma PairCharged(b: Ballot, k: nat)
    requires !IsVerify(b.op) && |b.votes| == 1 && b.votes[0].reply != b.ref
    ensures Divergences(b, k) == if k == b.votes[0].backend then 1 else 0
    ensures RefOutlier(b) == 0 && Unresolved(b) == 0 && Failures(b) == 1
  {
    var v := b.votes[0];
    assert b.votes == [] + [v];
    CountWhereAppend(FlaggedOf(b, k), [], v);
    CountWhereAppend(Flagged(b), [], v);
  }

  /** A verify op charges a backend exactly when its accept bit is not the reference's, and the reference
      never; nothing is left unresolved. */
  lemma VerifyCharged(b: Ballot, v: Vote)
    requires IsVerify(b.op)
    ensures Flags(b, v.reply) <==> ((v.reply == "01") != (b.ref == "01"))
    ensures RefOutlier(b) == 0 && Unresolved(b) == 0
  {
  }

  ghost function Denies(x: string): Vote -> bool { (v: Vote) => v.reply != x }

  lemma {:induction false} SaysOrDenies(x: string, votes: seq<Vote>)
    ensures CountWhere(Says(x), votes) + CountWhere(Denies(x), votes) == |votes|
  {
    if votes != [] {
      SaysOrDenies(x, votes[..|votes| - 1]);
    }
  }

  /** A strict majority outnumbers the voters that reply anything else, the reference being one voter. */
  lemma MajorityOutnumbers(b: Ballot, x: string)
    ensures StrictMajority(b, x) <==>
            CountWhere(Says(x), b.votes) + (if b.ref == x then 1 else 0) >
            CountWhere(Denies(x), b.votes) + (if b.ref == x then 0 else 1)
  {
    SaysOrDenies(x, b.votes);
  }

  /** Three or more voters on a compute op without a strict majority count one failure, and nobody is
      charged. */
  lemma NothingCharged(b: Ballot)
    requires !IsVerify(b.op) && 2 <= |b.votes| && forall x :: !StrictMajority(b, x)
    ensures Failures(b) == Unresolved(b) == 1 && RefOutlier(b) == 0 && forall k: nat :: Divergences(b, k) == 0
  {
    CountWhereBound(Flagged(b), b.votes);
    forall k: nat
      ensures Divergences(b, k) == 0
    {
      CountWhereBound(FlaggedOf(b, k), b.votes);
    }
  }

  // ----- what one ballot reports

  ghost predicate Agree(b: Ballot) {
    forall j | 0 <= j < |b.votes| ::
      if IsVerify(b.op) then Accepts(b.votes[j].reply) == Accepts(b.ref) else b.votes[j].reply == b.ref
  }

  lemma AgreeingBallot(b: Ballot)
    requires Agree(b)
    ensures !NoConsensus(b) && !Flags(b, b.ref) && forall j | 0 <= j < |b.votes| :: !Flags(b, b.votes[j].reply)
  {
    if !IsVerify(b.op) {
      CountWhereBound(Says(b.ref), b.votes);
      FlagsWithMajority(b, b.ref, b.ref);
    }
  }

  lemma SilentBallot(b: Ballot)
    requires !NoConsensus(b) && !Flags(b, b.ref) && forall j | 0 <= j < |b.votes| :: !Flagged(b)(b.votes[j])
    ensures Agree(b)
  {
    forall j | 0 <= j < |b.votes|
      ensures if IsVerify(b.op) then Accepts(b.votes[j].reply) == Accepts(b.ref) else b.votes[j].reply == b.ref
    {
      assert !Flagged(b)(b.votes[j]);
      if !IsVerify(b.op) && 3 <= Voters(b) {
        var x :| StrictMajority(b, x);
        FlagsWithMajority(b, x, b.ref);
        FlagsWithMajority(b, x, b.votes[j].reply);
      }
    }
  }

  /** Nothing is reported exactly when all voters agree: on the whole reply for the compute ops, on
      the accept bit for the verify ops. */
  lemma NoFailureIffAgree(b: Ballot)
    ensures Failures(b) == 0 <==> Agree(b)
  {
    CountWhereBound(Flagged(b), b.votes);
    if Agree(b) {
      AgreeingBallot(b);
    }
    if Failures(b) == 0 {
      SilentBallot(b);
    }
  }

  ghost predicate BackendsBelow(b: Ballot, n: nat) {
    forall j | 0 <= j < |b.votes| :: b.votes[j].backend < n
  }

  ghost function ChargedTo(b: Ballot, votes: seq<Vote>): nat -> nat {
    (k: nat) => CountWhere(FlaggedOf(b, k), votes)
  }

  /** Each report against a backend is charged to that backend. */
  lemma {:induction false} ChargedOnce(b: Ballot, votes: seq<Vote>, n: nat)
    requires forall j | 0 <= j < |votes| :: votes[j].backend < n
    ensures SumTo(ChargedTo(b, votes), n) == CountWhere(Flagged(b), votes)
  {
    var f := ChargedTo(b, votes);
    if votes == [] {
      SumToZero(n);
      SumToSame(f, (k: nat) => 0, n);
    } else {
      var last := votes[|votes| - 1];
      var front := votes[..|votes| - 1];
      var flag := Flags(b, last.reply);
      var g := ChargedTo(b, front);
      var h := (k: nat) => if k == last.backend && flag then 1 else 0;
      ChargedOnce(b, front, n);
      SumToIndicator(last.backend, flag, n);
      SumToAdd(g, h, n);
      SumToSame(f, (k: nat) => g(k) + h(k), n);
    }
  }

  lemma Conservation(b: Ballot, n: nat)
    requires BackendsBelow(b, n)
    ensures Failures(b) == SumTo(k => Divergences(b, k), n) + RefOutlier(b) + Unresolved(b)
  {
    ChargedOnce(b, b.votes, n);
    SumToSame(k => Divergences(b, k), ChargedTo(b, b.votes), n);
  }
}
