/** Repeated application of a function, and numbers read off byte by byte.  Both are stated over an
    arbitrary type, so that the proofs by induction never look inside a machine word. */
module Iteration {
  import opened Bytes
  import opened ModArith

  /** `f` applied `n` times to `x`. */
  function Iterate<T>(f: T -> T, x: T, n: nat): T {
    if n == 0 then x else Iterate(f, f(x), n - 1)
  }

  lemma {:induction false} IterateAppend<T>(f: T -> T, x: T, m: nat, n: nat)
    ensures Iterate(f, x, m + n) == Iterate(f, Iterate(f, x, m), n)
  {
    if m != 0 {
      IterateAppend(f, f(x), m - 1, n);
    }
  }

  lemma {:induction false} IterateLast<T>(f: T -> T, x: T, n: nat)
    ensures Iterate(f, x, n + 1) == f(Iterate(f, x, n))
  {
    if n != 0 {
      IterateLast(f, f(x), n - 1);
    }
  }

  /** `h` turns a step of `f` into a step of `g`. */
  ghost predicate Maps<T(!new), U>(f: T -> T, g: U -> U, h: T -> U) {
    forall y :: h(f(y)) == g(h(y))
  }

  lemma {:induction false} IterateMapped<T(!new), U>(f: T -> T, g: U -> U, h: T -> U, x: T, n: nat)
    requires Maps(f, g, h)
    ensures h(Iterate(f, x, n)) == Iterate(g, h(x), n)
  {
    if n != 0 {
      assert h(f(x)) == g(h(x));
      IterateMapped(f, g, h, f(x), n - 1);
    }
  }

  /** The number whose base-256 digits are the `low` of `x`, of `rest(x)`, and so on, `k` in all. */
  function Digits<T>(low: T -> bv8, rest: T -> T, x: T, k: nat): nat {
    if k == 0 then 0 else low(x) as int + 256 * Digits(low, rest, rest(x), k - 1)
  }

  function Pow256(k: nat): nat {
    if k == 0 then 1 else 256 * Pow256(k - 1)
  }

  lemma {:induction false} DigitsBound<T>(low: T -> bv8, rest: T -> T, x: T, k: nat)
    ensures Digits(low, rest, x, k) < Pow256(k)
  {
    if k != 0 {
      DigitsBound(low, rest, rest(x), k - 1);
    }
  }

  lemma DigitSplit(a: bv8, m: nat, b: bv8, n: nat)
    requires a as int + 256 * m == b as int + 256 * n
    ensures a == b && m == n
  {
    var i: nat, j: nat := a as int, b as int;
    assert i < 256 && j < 256;
    assert i - j == 256 * (n - m);
    ByteDetermined(a, b);
  }

  /** `x` is put together from its low byte and the rest. */
  ghost predicate Joins<T(!new)>(low: T -> bv8, rest: T -> T, join: (bv8, T) -> T) {
    forall x :: join(low(x), rest(x)) == x
  }

  lemma {:induction false} DigitsDetermine<T(!new)>(
    low: T -> bv8, rest: T -> T, join: (bv8, T) -> T, x: T, y: T, k: nat)
    requires Joins(low, rest, join)
    requires Digits(low, rest, x, k) == Digits(low, rest, y, k)
    requires Iterate(rest, x, k) == Iterate(rest, y, k)
    ensures x == y
  {
    if k != 0 {
      DigitSplit(low(x), Digits(low, rest, rest(x), k - 1), low(y), Digits(low, rest, rest(y), k - 1));
      DigitsDetermine(low, rest, join, rest(x), rest(y), k - 1);
      assert join(low(x), rest(x)) == x && join(low(y), rest(y)) == y;
    }
  }

  /** What `inc` does to the low byte and the rest of `x`: add one, with a carry after 255. */
  ghost predicate CarriesAt<T>(low: T -> bv8, rest: T -> T, inc: T -> T, x: T) {
    if low(x) != 255
    then low(inc(x)) as int == low(x) as int + 1 && rest(inc(x)) == rest(x)
    else low(inc(x)) == 0 && rest(inc(x)) == inc(rest(x))
  }

  /** `inc` carries everywhere but at `last`, which is not the rest of anything. */
  ghost predicate Carries<T(!new)>(low: T -> bv8, rest: T -> T, inc: T -> T, last: T) {
    forall x :: rest(x) != last && (x != last ==> CarriesAt(low, rest, inc, x))
  }

  /** Below 255, the low byte has room for one more without reaching the next multiple of 256. */
  lemma NoCarry(b: int, m: nat, p: nat)
    requires 0 <= b < 255
    ensures b + 256 * m + 1 != 256 * p
  {
    assert (b + 1) % 256 != 0;
  }

  lemma PlainStep<T>(low: T -> bv8, rest: T -> T, inc: T -> T, x: T, k: nat)
    requires CarriesAt(low, rest, inc, x) && low(x) != 255 && k != 0
    ensures Digits(low, rest, inc(x), k) == Digits(low, rest, x, k) + 1 != Pow256(k)
  {
    var b := low(x);
    if b as int == 255 {
      ByteDetermined(b, 255);
    }
    NoCarry(b as int, Digits(low, rest, rest(x), k - 1), Pow256(k - 1));
  }

  lemma CarryStep<T>(low: T -> bv8, rest: T -> T, inc: T -> T, x: T, k: nat)
    requires CarriesAt(low, rest, inc, x) && low(x) == 255 && k != 0
    requires var m := Digits(low, rest, rest(x), k - 1);
             Digits(low, rest, inc(rest(x)), k - 1) == if m + 1 == Pow256(k - 1) then 0 else m + 1
    ensures Digits(low, rest, inc(x), k) ==
            if Digits(low, rest, x, k) + 1 == Pow256(k) then 0 else Digits(low, rest, x, k) + 1
  {
    assert low(x) as int == 255 && low(inc(x)) as int == 0;
  }

  lemma CarriesHere<T(!new)>(low: T -> bv8, rest: T -> T, inc: T -> T, last: T, x: T)
    requires Carries(low, rest, inc, last) && x != last
    ensures CarriesAt(low, rest, inc, x) && rest(x) != last
  {
  }

  /** An increment that carries from byte to byte adds one to the number. */
  lemma {:induction false} DigitsIncrement<T(!new)>(
    low: T -> bv8, rest: T -> T, inc: T -> T, last: T, x: T, k: nat)
    requires Carries(low, rest, inc, last) && x != last
    ensures Digits(low, rest, inc(x), k) ==
            if Digits(low, rest, x, k) + 1 == Pow256(k) then 0 else Digits(low, rest, x, k) + 1
  {
    if k != 0 {
      CarriesHere(low, rest, inc, last, x);
      if low(x) == 255 {
        DigitsIncrement(low, rest, inc, last, rest(x), k - 1);
        CarryStep(low, rest, inc, x, k);
      } else {
        PlainStep(low, rest, inc, x, k);
      }
    }
  }

  // ----- counting

  /** A type whose elements are read off as `size` bytes, with a wrapping increment. */
  datatype Counting<!T> = Counting(
    low: T -> bv8, rest: T -> T, join: (bv8, T) -> T, inc: T -> T, zero: T, last: T, size: nat)

  ghost predicate Empties<T(!new)>(rest: T -> T, zero: T, size: nat) {
    forall x :: Iterate(rest, x, size) == zero
  }

  function Value<T>(c: Counting<T>, x: T): nat {
    Digits(c.low, c.rest, x, c.size)
  }

  ghost predicate Lawful<T(!new)>(c: Counting<T>) {
    && Joins(c.low, c.rest, c.join)
    && Carries(c.low, c.rest, c.inc, c.last)
    && Empties(c.rest, c.zero, c.size)
    && c.inc(c.last) == c.zero
    && Value(c, c.last) + 1 == Pow256(c.size)
    && Value(c, c.zero) == 0
  }

  lemma ValueInjective<T(!new)>(c: Counting<T>, x: T, y: T)
    requires Lawful(c) && Value(c, x) == Value(c, y)
    ensures x == y
  {
    assert Iterate(c.rest, x, c.size) == c.zero == Iterate(c.rest, y, c.size);
    DigitsDetermine(c.low, c.rest, c.join, x, y, c.size);
  }

  lemma ValueIncrement<T(!new)>(c: Counting<T>, x: T)
    requires Lawful(c)
    ensures Value(c, c.inc(x)) == if Value(c, x) + 1 == Pow256(c.size) then 0 else Value(c, x) + 1
  {
    if x != c.last {
      DigitsIncrement(c.low, c.rest, c.inc, c.last, x, c.size);
    }
  }

  lemma RemainderIncrement(n: nat, p: nat)
    requires 0 < p
    ensures (n + 1) % p == if n % p + 1 == p then 0 else n % p + 1
  {
    var q, r := n / p, n % p;
    assert n == q * p + r;
    if r + 1 == p {
      assert n + 1 == (q + 1) * p;
      RemainderUnique(n + 1, q + 1, 0, p);
    } else {
      RemainderUnique(n + 1, q, r + 1, p);
    }
  }

  /** Counting from zero yields, after `n` increments, the value `n` modulo the number of elements. */
  lemma {:induction false} CountValue<T(!new)>(c: Counting<T>, n: nat, p: nat)
    requires Lawful(c) && 0 < p == Pow256(c.size)
    ensures Value(c, Iterate(c.inc, c.zero, n)) == n % p
  {
    if n != 0 {
      CountValue(c, n - 1, p);
      IterateLast(c.inc, c.zero, n - 1);
      ValueIncrement(c, Iterate(c.inc, c.zero, n - 1));
      RemainderIncrement(n - 1, p);
    }
  }

  /** A stepping that is the counting from zero, seen through an invertible `h`, meets each of its
      states once before it repeats the first. */
  lemma CountPeriod<T(!new), U(!new)>(
    c: Counting<T>, step: U -> U, h: T -> U, unh: U -> T, m: nat, n: nat)
    requires Lawful(c) && 0 < Pow256(c.size)
    requires Maps(c.inc, step, h) && (forall x :: unh(h(x)) == x)
    ensures Iterate(step, h(c.zero), m) == Iterate(step, h(c.zero), n) <==>
            m % Pow256(c.size) == n % Pow256(c.size)
  {
    var a, b := Iterate(c.inc, c.zero, m), Iterate(c.inc, c.zero, n);
    IterateMapped(c.inc, step, h, c.zero, m);
    IterateMapped(c.inc, step, h, c.zero, n);
    CountValue(c, m, Pow256(c.size));
    CountValue(c, n, Pow256(c.size));
    assert unh(h(a)) == a && unh(h(b)) == b;
    if Value(c, a) == Value(c, b) {
      ValueInjective(c, a, b);
    }
  }

  /** Such a stepping reaches the image of every element in less than one period. */
  lemma CountReaches<T(!new), U(!new)>(c: Counting<T>, step: U -> U, h: T -> U, x: T)
    requires Lawful(c) && 0 < Pow256(c.size) && Maps(c.inc, step, h)
    ensures Value(c, x) < Pow256(c.size) && Iterate(step, h(c.zero), Value(c, x)) == h(x)
  {
    var n := Value(c, x);
    DigitsBound(c.low, c.rest, x, c.size);
    CountValue(c, n, Pow256(c.size));
    RemainderUnique(n, 0, n, Pow256(c.size));
    ValueInjective(c, Iterate(c.inc, c.zero, n), x);
    IterateMapped(c.inc, step, h, c.zero, n);
  }
}
