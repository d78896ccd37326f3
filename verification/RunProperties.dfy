/** What the counters of a whole run say about the backends. */
module RunProperties {
  import opened Ballots
  import opened Tally
  import opened Voting

  // ----- conservation

  ghost function DivergenceTotals(s: seq<Ballot>): nat -> nat {
    (k: nat) => SumOf(DivergencesOf(k), s)
  }

  ghost function DivergencesIn(b: Ballot): nat -> nat { (k: nat) => Divergences(b, k) }

  lemma {:induction false} SumsConserved(s: seq<Ballot>, n: nat)
    requires forall j | 0 <= j < |s| :: BackendsBelow(s[j], n)
    ensures SumOf(Failures, s) == SumTo(DivergenceTotals(s), n) + SumOf(RefOutlier, s) + SumOf(Unresolved, s)
  {
    if s == [] {
      SumToZero(n);
      SumToSame(DivergenceTotals(s), (k: nat) => 0, n);
    } else {
      var front, last := s[..|s| - 1], s[|s| - 1];
      var f, g := DivergenceTotals(front), DivergencesIn(last);
      SumsConserved(front, n);
      Conservation(last, n);
      SumToSame(k => Divergences(last, k), g, n);
      SumToAdd(f, g, n);
      SumToSame(DivergenceTotals(s), (k: nat) => f(k) + g(k), n);
    }
  }

  /** Always: failures == sum of the backends' divergences + outvoted reference + unresolved. */
  lemma RunConservation(r: Run)
    requires Complete(r)
    ensures SumOf(Failures, BallotsOf(r)) ==
            SumTo(DivergenceTotals(BallotsOf(r)), |r.bo|)
            + SumOf(RefOutlier, BallotsOf(r)) + SumOf(Unresolved, BallotsOf(r))
  {
    forall j | 0 <= j < |r.ops|
      ensures BackendsBelow(BallotsOf(r)[j], |r.bo|)
    {
      VotesBelow(r.bo, j, |r.bo|);
    }
    SumsConserved(BallotsOf(r), |r.bo|);
  }

  /** The run ends without failures exactly when on every vector all voters agree. */
  lemma RunSilentIff(r: Run)
    requires Complete(r)
    ensures SumOf(Failures, BallotsOf(r)) == 0 <==>
            forall i | 0 <= i < |r.ops| :: Agree(BallotOf(r, i))
  {
    var s := BallotsOf(r);
    SumOfZero(Failures, s);
    forall i | 0 <= i < |r.ops|
      ensures Failures(s[i]) == 0 <==> Agree(BallotOf(r, i))
    {
      NoFailureIffAgree(s[i]);
    }
  }

  // ----- who is heard

  ghost function AnswersAt(i: nat): seq<string> -> bool {
    (l: seq<string>) => Answers(l, i)
  }

  /** Backend `k` takes part in the vote on vector `i`. */
  ghost predicate Heard(bo: seq<seq<string>>, i: nat, k: nat) {
    k < |bo| && Answers(bo[k], i) && 1 + |VotesOf(bo, i, k)| < MAX_VOTERS
  }

  lemma {:induction false} VotesTaken(bo: seq<seq<string>>, i: nat, n: nat)
    requires n <= |bo|
    ensures var a := CountWhere(AnswersAt(i), bo[..n]);
            |VotesOf(bo, i, n)| == if a < MAX_VOTERS then a else MAX_VOTERS - 1
  {
    if n == 0 {
      assert bo[..0] == [];
    } else {
      assert bo[..n][..n - 1] == bo[..n - 1];
      VotesTaken(bo, i, n - 1);
    }
  }

  /** A backend that answers is heard exactly when fewer than 15 backends before it answered. */
  lemma HeardIff(bo: seq<seq<string>>, i: nat, k: nat)
    requires k < |bo|
    ensures Heard(bo, i, k) <==> Answers(bo[k], i) && CountWhere(AnswersAt(i), bo[..k]) < 15
  {
    VotesTaken(bo, i, k);
  }

  lemma {:induction false} AnsweringPrefix(bo: seq<seq<string>>, i: nat, c: nat)
    requires c < CountWhere(AnswersAt(i), bo)
    ensures exists k :: 0 <= k < |bo| && Answers(bo[k], i) && CountWhere(AnswersAt(i), bo[..k]) == c
  {
    var n := |bo| - 1;
    if CountWhere(AnswersAt(i), bo[..n]) == c {
      assert Answers(bo[n], i);
    } else {
      AnsweringPrefix(bo[..n], i, c);
      var k :| 0 <= k < n && Answers(bo[..n][k], i) && CountWhere(AnswersAt(i), bo[..n][..k]) == c;
      assert bo[..n][..k] == bo[..k];
      assert Answers(bo[k], i) && CountWhere(AnswersAt(i), bo[..k]) == c;
    }
  }

  lemma {:induction false} PrefixCount<T>(p: T -> bool, s: seq<T>, k: nat)
    requires k <= |s|
    ensures CountWhere(p, s[..k]) <= CountWhere(p, s)
  {
    CountWhereConcat(p, s[..k], s[k..]);
    assert s == s[..k] + s[k..];
  }

  ghost predicate EveryoneHeard(bo: seq<seq<string>>, i: nat) {
    forall k | 0 <= k < |bo| :: Answers(bo[k], i) ==> Heard(bo, i, k)
  }

  /** Every backend that answers is heard exactly when at most 15 answer. */
  lemma EveryoneHeardIff(bo: seq<seq<string>>, i: nat)
    ensures EveryoneHeard(bo, i) <==> CountWhere(AnswersAt(i), bo) <= 15
  {
    if CountWhere(AnswersAt(i), bo) > MAX_VOTERS - 1 {
      AnsweringPrefix(bo, i, MAX_VOTERS - 1);
      var k :| 0 <= k < |bo| && Answers(bo[k], i) && CountWhere(AnswersAt(i), bo[..k]) == MAX_VOTERS - 1;
      HeardIff(bo, i, k);
    } else {
      forall k | 0 <= k < |bo| && Answers(bo[k], i)
        ensures Heard(bo, i, k)
      {
        HeardIff(bo, i, k);
        PrefixCount(AnswersAt(i), bo, k + 1);
        assert bo[..k + 1] == bo[..k] + [bo[k]];
        CountWhereAppend(AnswersAt(i), bo[..k], bo[k]);
      }
    }
  }

  // ----- attribution

  lemma {:induction false} VotesOfBackend(b: Ballot, bo: seq<seq<string>>, i: nat, n: nat, k: nat)
    requires n <= |bo|
    ensures CountWhere(FlaggedOf(b, k), VotesOf(bo, i, n)) ==
            if k < n && Heard(bo, i, k) && Flags(b, bo[k][i]) then 1 else 0
  {
    if n != 0 {
      VotesOfBackend(b, bo, i, n - 1, k);
      if 1 + |VotesOf(bo, i, n - 1)| < MAX_VOTERS && Answers(bo[n - 1], i) {
        CountWhereAppend(FlaggedOf(b, k), VotesOf(bo, i, n - 1), Vote(n - 1, bo[n - 1][i]));
      }
    }
  }

  /** Backend `k` is charged on vector `i` exactly when it is heard and its reply is reported. */
  lemma ChargedIff(r: Run, i: nat, k: nat)
    requires Complete(r) && i < |r.ops|
    ensures Divergences(BallotOf(r, i), k) ==
            if Heard(r.bo, i, k) && Flags(BallotOf(r, i), r.bo[k][i]) then 1 else 0
  {
    VotesOfBackend(BallotOf(r, i), r.bo, i, |r.bo|, k);
  }

  ghost function HeardAt(bo: seq<seq<string>>, k: nat): nat -> nat {
    (i: nat) => if Heard(bo, i, k) then 1 else 0
  }

  lemma {:induction false} HeardCount(bo: seq<seq<string>>, k: nat, n: nat)
    requires k < |bo| && forall i: nat | i < n :: EveryoneHeard(bo, i)
    ensures var m := if n < |bo[k]| then n else |bo[k]|;
            SumTo(HeardAt(bo, k), n) + CountWhere(SaysNA(), bo[k][..m]) == m
  {
    if n == 0 {
      assert bo[k][..0] == [];
    } else {
      HeardCount(bo, k, n - 1);
      assert EveryoneHeard(bo, n - 1);
      if n <= |bo[k]| {
        assert bo[k][..n] == bo[k][..n - 1] + [bo[k][n - 1]];
        CountWhereAppend(SaysNA(), bo[k][..n - 1], bo[k][n - 1]);
      }
    }
  }

  lemma {:induction false} ChargesHeard(r: Run, k: nat, n: nat)
    requires Complete(r) && n <= |r.ops|
    ensures SumOf(DivergencesOf(k), BallotsOf(r)[..n]) <= SumTo(HeardAt(r.bo, k), n)
  {
    if n != 0 {
      ChargesHeard(r, k, n - 1);
      assert BallotsOf(r)[..n][..n - 1] == BallotsOf(r)[..n - 1];
      ChargedIff(r, n - 1, k);
    }
  }

  /** When every backend that answers is heard, a backend votes on exactly the vectors it answered
      without abstaining, and is charged no more often than it votes. */
  lemma Coverage(r: Run, k: nat)
    requires Complete(r) && k < |r.bo| && |r.bo[k]| <= |r.ops|
    requires forall i | 0 <= i < |r.ops| :: EveryoneHeard(r.bo, i)
    ensures SumTo(HeardAt(r.bo, k), |r.ops|) + CountWhere(SaysNA(), r.bo[k]) == |r.bo[k]|
    ensures SumOf(DivergencesOf(k), BallotsOf(r)) <= SumTo(HeardAt(r.bo, k), |r.ops|)
  {
    HeardCount(r.bo, k, |r.ops|);
    assert r.bo[k][..|r.bo[k]|] == r.bo[k];
    ChargesHeard(r, k, |r.ops|);
    assert BallotsOf(r)[..|r.ops|] == BallotsOf(r);
  }

  /** On every compute vector more than half of the voters return the true value. */
  ghost predicate MostlyTrue(r: Run, truth: seq<string>) {
    && |truth| == |r.ops| == |r.ref|
    && forall i | 0 <= i < |r.ops| :: !IsVerify(r.ops[i]) ==> StrictMajority(BallotOf(r, i), truth[i])
  }

  /** A reply is wrong when it is not the true value or, on a verify op, when its accept bit is not
      the one of the signer. */
  ghost predicate Wrong(r: Run, truth: seq<string>, i: nat, reply: string)
    requires MostlyTrue(r, truth) && i < |r.ops|
  {
    if IsVerify(r.ops[i]) then Accepts(reply) != Accepts(r.ref[i]) else reply != truth[i]
  }

  ghost function WrongHeard(r: Run, truth: seq<string>, k: nat): nat -> nat
    requires MostlyTrue(r, truth)
  {
    (i: nat) => if i < |r.ops| && Heard(r.bo, i, k) && Wrong(r, truth, i, r.bo[k][i]) then 1 else 0
  }

  ghost function WrongRef(r: Run, truth: seq<string>): nat -> nat
    requires MostlyTrue(r, truth)
  {
    (i: nat) => if i < |r.ops| && Wrong(r, truth, i, r.ref[i]) then 1 else 0
  }

  lemma FlagsIffWrong(r: Run, truth: seq<string>, i: nat, reply: string)
    requires MostlyTrue(r, truth) && i < |r.ops|
    ensures Flags(BallotOf(r, i), reply) <==> Wrong(r, truth, i, reply)
    ensures !NoConsensus(BallotOf(r, i))
  {
    if !IsVerify(r.ops[i]) {
      FlagsWithMajority(BallotOf(r, i), truth[i], reply);
    }
  }

  lemma {:induction false} SumOfAsSumTo<T>(f: T -> nat, s: seq<T>, g: nat -> nat)
    requires forall i: nat | i < |s| :: f(s[i]) == g(i)
    ensures SumOf(f, s) == SumTo(g, |s|)
  {
    if s != [] {
      SumOfAsSumTo(f, s[..|s| - 1], g);
    }
  }

  /** Whole-run attribution: when most voters are right on every compute vector, each backend is
      charged with exactly its wrong replies, the reference with exactly its own, no correct voter
      is ever charged, and nothing stays unresolved. */
  lemma Attribution(r: Run, truth: seq<string>, k: nat)
    requires MostlyTrue(r, truth)
    ensures SumOf(DivergencesOf(k), BallotsOf(r)) == SumTo(WrongHeard(r, truth, k), |r.ops|)
    ensures SumOf(RefOutlier, BallotsOf(r)) == SumTo(WrongRef(r, truth), |r.ops|)
    ensures SumOf(Unresolved, BallotsOf(r)) == 0
    ensures forall i | 0 <= i < |r.ops| :: Heard(r.bo, i, k) && !Wrong(r, truth, i, r.bo[k][i])
              ==> Divergences(BallotOf(r, i), k) == 0
  {
    var s := BallotsOf(r);
    forall i: nat | i < |r.ops|
      ensures Divergences(s[i], k) == WrongHeard(r, truth, k)(i)
      ensures RefOutlier(s[i]) == WrongRef(r, truth)(i)
      ensures Unresolved(s[i]) == 0
    {
      ChargedIff(r, i, k);
      FlagsIffWrong(r, truth, i, r.ref[i]);
      if Heard(r.bo, i, k) {
        FlagsIffWrong(r, truth, i, r.bo[k][i]);
      }
    }
    SumOfAsSumTo(DivergencesOf(k), s, WrongHeard(r, truth, k));
    SumOfAsSumTo(RefOutlier, s, WrongRef(r, truth));
    SumOfZero(Unresolved, s);
  }

  // ----- the order of the backends

  ghost function RepliesWith(i: nat, q: string -> bool): seq<string> -> bool {
    (l: seq<string>) => Answers(l, i) && q(l[i])
  }

  ghost function VoteWith(q: string -> bool): Vote -> bool { (v: Vote) => q(v.reply) }

  lemma {:induction false} VotesWith(bo: seq<seq<string>>, i: nat, n: nat, q: string -> bool)
    requires n <= |bo| && EveryoneHeard(bo, i)
    ensures CountWhere(VoteWith(q), VotesOf(bo, i, n)) == CountWhere(RepliesWith(i, q), bo[..n])
  {
    if n == 0 {
      assert bo[..0] == [];
    } else {
      VotesWith(bo, i, n - 1, q);
      assert bo[..n][..n - 1] == bo[..n - 1];
      assert Answers(bo[n - 1], i) ==> Heard(bo, i, n - 1);
      if Answers(bo[n - 1], i) {
        CountWhereAppend(VoteWith(q), VotesOf(bo, i, n - 1), Vote(n - 1, bo[n - 1][i]));
      }
    }
  }

  ghost predicate Reordered(r: Run, r': Run) {
    && Complete(r) && r.ops == r'.ops && r.ref == r'.ref && multiset(r.bo) == multiset(r'.bo)
    && forall i | 0 <= i < |r.ops| :: CountWhere(AnswersAt(i), r.bo) <= 15
  }

  lemma VotesWithReordered(r: Run, r': Run, i: nat, q: string -> bool)
    requires Reordered(r, r') && i < |r.ops|
    ensures CountWhere(VoteWith(q), BallotOf(r, i).votes) == CountWhere(VoteWith(q), BallotOf(r', i).votes)
  {
    CountWherePermuted(AnswersAt(i), r.bo, r'.bo);
    EveryoneHeardIff(r.bo, i);
    EveryoneHeardIff(r'.bo, i);
    VotesWith(r.bo, i, |r.bo|, q);
    VotesWith(r'.bo, i, |r'.bo|, q);
    assert r.bo[..|r.bo|] == r.bo && r'.bo[..|r'.bo|] == r'.bo;
    CountWherePermuted(RepliesWith(i, q), r.bo, r'.bo);
  }

  /** Ballots with the same op, reference, size and support report the same replies. */
  lemma SameFlags(b: Ballot, b': Ballot, reply: string)
    requires b.op == b'.op && b.ref == b'.ref && Voters(b) == Voters(b')
    requires forall x :: Support(b, x) == Support(b', x)
    ensures Flags(b, reply) == Flags(b', reply) && NoConsensus(b) == NoConsensus(b')
  {
    assert forall x :: StrictMajority(b, x) == StrictMajority(b', x);
  }

  lemma BallotReordered(r: Run, r': Run, i: nat)
    requires Reordered(r, r') && i < |r.ops|
    ensures var b, b' := BallotOf(r, i), BallotOf(r', i);
            && (forall x :: Flags(b, x) == Flags(b', x))
            && Failures(b) == Failures(b') && RefOutlier(b) == RefOutlier(b') && Unresolved(b) == Unresolved(b')
  {
    var b, b' := BallotOf(r, i), BallotOf(r', i);
    VotesWithReordered(r, r', i, (x: string) => true);
    CountWhereBound(VoteWith((x: string) => true), b.votes);
    CountWhereBound(VoteWith((x: string) => true), b'.votes);
    forall x
      ensures Support(b, x) == Support(b', x)
    {
      var q := (y: string) => y == x;
      VotesWithReordered(r, r', i, q);
      CountWhereSame(VoteWith(q), Says(x), b.votes);
      CountWhereSame(VoteWith(q), Says(x), b'.votes);
    }
    forall x
      ensures Flags(b, x) == Flags(b', x)
    {
      SameFlags(b, b', x);
    }
    SameFlags(b, b', b.ref);
    var q := (y: string) => Flags(b, y);
    VotesWithReordered(r, r', i, q);
    CountWhereSame(VoteWith(q), Flagged(b), b.votes);
    CountWhereSame(VoteWith(q), Flagged(b'), b'.votes);
  }

  /** Listing the backends in another order, at most 15 answering each vector, changes neither the
      failures nor the charges of the reference, and moves each backend's charges with it. */
  lemma OrderIrrelevant(r: Run, r': Run, k: nat, k': nat)
    requires Reordered(r, r')
    requires k < |r.bo| && k' < |r'.bo| && r.bo[k] == r'.bo[k']
    ensures SumOf(Failures, BallotsOf(r)) == SumOf(Failures, BallotsOf(r'))
    ensures SumOf(RefOutlier, BallotsOf(r)) == SumOf(RefOutlier, BallotsOf(r'))
    ensures SumOf(Unresolved, BallotsOf(r)) == SumOf(Unresolved, BallotsOf(r'))
    ensures SumOf(DivergencesOf(k), BallotsOf(r)) == SumOf(DivergencesOf(k'), BallotsOf(r'))
  {
    var s, s' := BallotsOf(r), BallotsOf(r');
    forall i | 0 <= i < |s|
      ensures Failures(s[i]) == Failures(s'[i]) && RefOutlier(s[i]) == RefOutlier(s'[i])
      ensures Unresolved(s[i]) == Unresolved(s'[i]) && DivergencesOf(k)(s[i]) == DivergencesOf(k')(s'[i])
    {
      BallotReordered(r, r', i);
      CountWherePermuted(AnswersAt(i), r.bo, r'.bo);
      EveryoneHeardIff(r.bo, i);
      EveryoneHeardIff(r'.bo, i);
      ChargedIff(r, i, k);
      ChargedIff(r', i, k');
    }
    SumOfSame(Failures, Failures, s, s');
    SumOfSame(RefOutlier, RefOutlier, s, s');
    SumOfSame(Unresolved, Unresolved, s, s');
    SumOfSame(DivergencesOf(k), DivergencesOf(k'), s, s');
  }

  // ----- sixteen backends

  lemma {:induction false} SameReplies(bo: seq<seq<string>>, ref: string, n: nat)
    requires n <= |bo| && forall k | 0 <= k < n :: bo[k] == [ref]
    ensures forall j | 0 <= j < |VotesOf(bo, 0, n)| :: VotesOf(bo, 0, n)[j].reply == ref
  {
    if n != 0 {
      SameReplies(bo, ref, n - 1);
    }
  }

  lemma {:induction false} VotesGrow(bo: seq<seq<string>>, i: nat, m: nat, n: nat)
    requires m <= n <= |bo|
    ensures VotesOf(bo, i, m) <= VotesOf(bo, i, n)
  {
    if m < n {
      VotesGrow(bo, i, m, n - 1);
    }
  }

  lemma LastUnheard(r: Run, ref: string, n: nat)
    requires r.ops == [0] && r.ref == [ref] && |r.bo| == n + 1 && n == 15
    requires ref != "NA" && forall k | 0 <= k < n :: r.bo[k] == [ref]
    ensures SumOf(Failures, BallotsOf(r)) == 0
  {
    CountWhereBound(AnswersAt(0), r.bo[..n]);
    VotesTaken(r.bo, 0, n);
    SameReplies(r.bo, ref, n);
    RunSilentIff(r);
  }

  lemma FirstHeard(r: Run, ref: string, odd: string)
    requires r.ops == [0] && r.ref == [ref] && r.bo != [] && r.bo[0] == [odd]
    requires odd != "NA" && odd != ref
    ensures SumOf(Failures, BallotsOf(r)) != 0
  {
    var one := VotesOf(r.bo, 0, 1);
    assert VotesOf(r.bo, 0, 0) == [];
    assert one == [Vote(0, odd)];
    VotesGrow(r.bo, 0, 1, |r.bo|);
    assert BallotOf(r, 0).votes[0] == Vote(0, odd);
    assert !Agree(BallotOf(r, 0));
    RunSilentIff(r);
  }

  /** With sixteen answering backends the order does matter: beside fifteen that agree with the
      reference, a deviating reply is reported from the first place and goes unheard from the last. */
  lemma SixteenthUnheard(ref: string, odd: string, agreeing: seq<seq<string>>)
    requires ref != "NA" && odd != "NA" && odd != ref
    requires |agreeing| == 15 && forall k | 0 <= k < |agreeing| :: agreeing[k] == [ref]
    ensures multiset(agreeing + [[odd]]) == multiset([[odd]] + agreeing)
    ensures SumOf(Failures, BallotsOf(Run([0], [ref], agreeing + [[odd]]))) == 0
    ensures SumOf(Failures, BallotsOf(Run([0], [ref], [[odd]] + agreeing))) != 0
  {
    LastUnheard(Run([0], [ref], agreeing + [[odd]]), ref, |agreeing|);
    FirstHeard(Run([0], [ref], [[odd]] + agreeing), ref, odd);
  }
}
