/** Counting and summing over sequences, and what reordering leaves unchanged. */
module Tally {

  /** How many elements of `s` satisfy `p`. */
  ghost function CountWhere<T>(p: T -> bool, s: seq<T>): nat {
    if s == [] then 0 else CountWhere(p, s[..|s| - 1]) + (if p(s[|s| - 1]) then 1 else 0)
  }

  ghost function SumOf<T>(f: T -> nat, s: seq<T>): nat {
    if s == [] then 0 else SumOf(f, s[..|s| - 1]) + f(s[|s| - 1])
  }

  /** f(0) + ... + f(n - 1) */
  ghost function SumTo(f: nat -> nat, n: nat): nat {
    if n == 0 then 0 else SumTo(f, n - 1) + f(n - 1)
  }

  lemma CountWhereAppend<T>(p: T -> bool, s: seq<T>, x: T)
    ensures CountWhere(p, s + [x]) == CountWhere(p, s) + (if p(x) then 1 else 0)
  {
    assert (s + [x])[..|s|] == s;
  }

  lemma {:induction false} CountWhereConcat<T>(p: T -> bool, s: seq<T>, t: seq<T>)
    ensures CountWhere(p, s + t) == CountWhere(p, s) + CountWhere(p, t)
  {
    if t == [] {
      assert s + t == s;
    } else {
      var k := |t| - 1;
      CountWhereConcat(p, s, t[..k]);
      assert s + t == (s + t[..k]) + [t[k]];
      CountWhereAppend(p, s + t[..k], t[k]);
    }
  }

  lemma CountWhereSplit<T>(p: T -> bool, s: seq<T>, i: nat)
    requires i <= |s|
    ensures CountWhere(p, s) == CountWhere(p, s[..i]) + CountWhere(p, s[i..])
  {
    CountWhereConcat(p, s[..i], s[i..]);
    assert s == s[..i] + s[i..];
  }

  lemma {:induction false} CountWhereBound<T>(p: T -> bool, s: seq<T>)
    ensures CountWhere(p, s) <= |s|
    ensures CountWhere(p, s) == 0 <==> forall k | 0 <= k < |s| :: !p(s[k])
    ensures CountWhere(p, s) == |s| <==> forall k | 0 <= k < |s| :: p(s[k])
  {
    if s != [] {
      CountWhereBound(p, s[..|s| - 1]);
    }
  }

  lemma {:induction false} CountWhereSame<T>(p: T -> bool, q: T -> bool, s: seq<T>)
    requires forall k | 0 <= k < |s| :: p(s[k]) == q(s[k])
    ensures CountWhere(p, s) == CountWhere(q, s)
  {
    if s != [] {
      CountWhereSame(p, q, s[..|s| - 1]);
    }
  }

  /** Disjoint conditions count at most all elements together. */
  lemma {:induction false} CountWhereDisjoint<T>(p: T -> bool, q: T -> bool, s: seq<T>)
    requires forall k | 0 <= k < |s| :: !(p(s[k]) && q(s[k]))
    ensures CountWhere(p, s) + CountWhere(q, s) <= |s|
  {
    if s != [] {
      CountWhereDisjoint(p, q, s[..|s| - 1]);
    }
  }

  lemma WithoutOne<T>(s: seq<T>, j: nat)
    requires j < |s|
    ensures s == s[..j] + [s[j]] + s[j + 1..]
    ensures multiset(s[..j] + s[j + 1..]) == multiset(s) - multiset{s[j]}
  {
    assert s == s[..j] + [s[j]] + s[j + 1..];
  }

  /** Where the last element of `s` stands in a reordering of `s`, and what remains without it. */
  lemma TakeOut<T>(s: seq<T>, t: seq<T>) returns (j: nat)
    requires s != [] && multiset(s) == multiset(t)
    ensures j < |t| && t == t[..j] + [s[|s| - 1]] + t[j + 1..]
    ensures multiset(s[..|s| - 1]) == multiset(t[..j] + t[j + 1..])
  {
    var k := |s| - 1;
    assert s[k] in multiset(s);
    assert s[k] in t;
    j :| 0 <= j < |t| && t[j] == s[k];
    WithoutOne(s, k);
    WithoutOne(t, j);
    assert s[..k] + s[k + 1..] == s[..k];
  }

  lemma CountWhereInserted<T>(p: T -> bool, s: seq<T>, x: T, t: seq<T>)
    ensures CountWhere(p, s + [x] + t) == CountWhere(p, s + t) + (if p(x) then 1 else 0)
  {
    CountWhereConcat(p, s, t);
    CountWhereConcat(p, s + [x], t);
    CountWhereAppend(p, s, x);
  }

  /** Counting does not depend on the order. */
  lemma {:induction false} CountWherePermuted<T>(p: T -> bool, s: seq<T>, t: seq<T>)
    requires multiset(s) == multiset(t)
    ensures CountWhere(p, s) == CountWhere(p, t)
    decreases |s|
  {
    if s == [] {
      assert |t| == |multiset(t)| == 0;
    } else {
      var k := |s| - 1;
      var j := TakeOut(s, t);
      CountWherePermuted(p, s[..k], t[..j] + t[j + 1..]);
      CountWhereInserted(p, t[..j], s[k], t[j + 1..]);
    }
  }

  lemma {:induction false} SumOfZero<T>(f: T -> nat, s: seq<T>)
    ensures SumOf(f, s) == 0 <==> forall k | 0 <= k < |s| :: f(s[k]) == 0
  {
    if s != [] {
      SumOfZero(f, s[..|s| - 1]);
    }
  }

  lemma {:induction false} SumOfSame<S, T>(f: S -> nat, g: T -> nat, s: seq<S>, t: seq<T>)
    requires |s| == |t| && forall k | 0 <= k < |s| :: f(s[k]) == g(t[k])
    ensures SumOf(f, s) == SumOf(g, t)
  {
    if s != [] {
      SumOfSame(f, g, s[..|s| - 1], t[..|s| - 1]);
    }
  }

  lemma {:induction false} SumToSame(f: nat -> nat, g: nat -> nat, n: nat)
    requires forall k: nat | k < n :: f(k) == g(k)
    ensures SumTo(f, n) == SumTo(g, n)
  {
    if n != 0 {
      SumToSame(f, g, n - 1);
    }
  }

  lemma {:induction false} SumToAdd(f: nat -> nat, g: nat -> nat, n: nat)
    ensures SumTo(k => f(k) + g(k), n) == SumTo(f, n) + SumTo(g, n)
  {
    if n != 0 {
      SumToAdd(f, g, n - 1);
    }
  }

  lemma {:induction false} SumToZero(n: nat)
    ensures SumTo(k => 0, n) == 0
  {
    if n != 0 {
      SumToZero(n - 1);
    }
  }

  lemma {:induction false} SumToIndicator(i: nat, b: bool, n: nat)
    ensures SumTo(k => if k == i && b then 1 else 0, n) == if i < n && b then 1 else 0
  {
    if n != 0 {
      SumToIndicator(i, b, n - 1);
    }
  }
}
