/** The infinite value sequences of task3/fun_value_sequences.hpp, built from
    the combinators of `TypeLists`. A `ValueTag<v>` is the value `v`; the
    integers are unbounded, and `Nats` carries `nat`s because no negative
    tag ever reaches `IsPrime`. */
module FunValueSequences {
  import opened Common
  import opened TypeLists

  // ---------------------------------------------------------------
  // Nats
  // ---------------------------------------------------------------

  /** `PlusOne<tag>`: the tag of `tag::Value + 1`. */
  function PlusOne(n: nat): (r: nat)
    ensures r > n
  {
    n + 1
  }

  /** `Nats = Iterate<PlusOne, ValueTag<0>>`. */
  function Nats(): Stream<nat> {
    Iterate(PlusOne, 0)
  }

  /** Element `i` of `Nats` is `i`. */
  lemma {:induction false} NatsAt(i: nat)
    ensures Nats()(i) == i
  {
    IteratePower(PlusOne, 0, i);
    if i > 0 {
      NatsAt(i - 1);
      IteratePower(PlusOne, 0, i - 1);
    }
  }

  // ---------------------------------------------------------------
  // Fib
  // ---------------------------------------------------------------

  /** `FibNext<(a, b)>` is `(a + b, a)`. */
  function FibNext(p: (int, int)): (int, int) {
    (p.0 + p.1, p.0)
  }

  /** `DropSecond<(a, b)>` is `a`. */
  function DropSecond(p: (int, int)): int {
    p.0
  }

  /** `Iterate<FibNext, ValueTag<(0, 1)>>`. */
  function FibPairs(): Stream<(int, int)> {
    Iterate(FibNext, (0, 1))
  }

  /** `Fib = Map<DropSecond, Iterate<FibNext, ValueTag<(0, 1)>>>`. */
  function Fib(): Stream<int> {
    MapStream(DropSecond, FibPairs())
  }

  /** The Fibonacci numbers by their textbook recurrence. */
  function Fibonacci(n: nat): nat {
    if n < 2 then n else Fibonacci(n - 1) + Fibonacci(n - 2)
  }

  /** The `n`-th pair is `(F(n), F(n - 1))`, with `F(-1) = 1`. */
  lemma {:induction false} FibPairsAt(n: nat)
    ensures FibPairs()(n) == (Fibonacci(n), if n == 0 then 1 else Fibonacci(n - 1))
  {
    if n > 0 {
      FibPairsAt(n - 1);
      IteratePower(FibNext, (0, 1), n - 1);
    }
  }

  /** Element `n` of `Fib` is the `n`-th Fibonacci number. */
  lemma FibIsFibonacci(n: nat)
    ensures Fib()(n) == Fibonacci(n)
  {
    FibPairsAt(n);
  }

  /** `Fib` starts 0, 1 and each element is the sum of the two before it. */
  lemma FibRecurrence(n: nat)
    ensures Fib()(0) == 0 && Fib()(1) == 1
    ensures Fib()(n + 2) == Fib()(n + 1) + Fib()(n)
  {
    FibIsFibonacci(0);
    FibIsFibonacci(1);
    FibIsFibonacci(n);
    FibIsFibonacci(n + 1);
    FibIsFibonacci(n + 2);
  }

  // ---------------------------------------------------------------
  // Primes
  // ---------------------------------------------------------------

  /** `IsPrimeHelper<N, D>`: false at the first divisor found counting `D`
      down, true on reaching 1 (the specialisation `IsPrimeHelper<N, 1>`). */
  function IsPrimeHelper(n: nat, d: nat): bool
    requires d >= 1
  {
    if d == 1 then true
    else if n % d == 0 then false
    else IsPrimeHelper(n, d - 1)
  }

  /** `IsPrime<tag>`: false for 0 and 1 (the two specialisations),
      otherwise `IsPrimeHelper<n, n - 1>`. */
  function IsPrime(n: nat): bool {
    if n == 0 || n == 1 then false else IsPrimeHelper(n, n - 1)
  }

  /** `IsPrimeHelper<N, D>` holds exactly when no `e` in [2, D] divides `N`. */
  lemma {:induction false} IsPrimeHelperMeaning(n: nat, d: nat)
    requires d >= 1
    ensures IsPrimeHelper(n, d) <==> forall e :: 2 <= e <= d ==> n % e != 0
  {
    if d > 1 {
      IsPrimeHelperMeaning(n, d - 1);
    }
  }

  /** `IsPrime` is primality: at least 2 and no divisor strictly between 1
      and itself. */
  lemma IsPrimeMeaning(n: nat)
    ensures IsPrime(n) <==> n >= 2 && forall e :: 2 <= e < n ==> n % e != 0
  {
    if n >= 2 {
      IsPrimeHelperMeaning(n, n - 1);
    }
  }

  /** Small cases: 2, 3, 5, 7 are prime; 4, 6, 9 are not. */
  lemma SmallPrimes()
    ensures IsPrime(2) && IsPrime(3) && IsPrime(5) && IsPrime(7)
    ensures !IsPrime(0) && !IsPrime(1) && !IsPrime(4) && !IsPrime(6) && !IsPrime(9)
  {
    IsPrimeMeaning(5);
    IsPrimeMeaning(7);
    assert 9 % 3 == 0;
  }

  /** Filtering keeps a strictly increasing list strictly increasing. */
  lemma {:induction false} FilterKeepsIncreasing(p: nat -> bool, l: List<nat>)
    requires Increasing(Elems(l))
    ensures Increasing(Elems(Filter(p, l)))
  {
    match l
    case Nil =>
    case Cons(h, t) =>
      assert Elems(t) == Elems(l)[1..];
      FilterKeepsIncreasing(p, t);
      var rest := Elems(Filter(p, t));
      forall x | x in rest ensures h < x {
        assert x in Elems(t);
        var i :| 0 <= i < |Elems(t)| && Elems(t)[i] == x;
        assert Elems(l)[0] == h && Elems(l)[i + 1] == x;
      }
      if p(h) {
        ConsIncreasing(h, rest);
      }
  }

  lemma ConsIncreasing(h: int, rest: seq<int>)
    requires Increasing(rest) && forall x :: x in rest ==> h < x
    ensures Increasing([h] + rest)
  {
    forall j | 0 <= j < |rest| ensures h < rest[j] {
      assert rest[j] in rest;
    }
  }

  /** The first `n` naturals are 0, 1, ..., n - 1. */
  lemma NatsPrefix(n: nat)
    ensures forall i :: 0 <= i < n ==> Elems(TakeStream(n, Nats()))[i] == i
  {
    forall i | 0 <= i < n {
      NatsAt(i);
    }
  }

  /** The prefix of `Primes = Filter<IsPrime, Nats>` drawn from the naturals
      below `n`: exactly the primes below `n`, in increasing order. */
  function PrimesBelow(n: nat): (r: List<nat>)
    ensures forall x: nat :: x in Elems(r) <==> x < n && IsPrime(x)
    ensures Increasing(Elems(r))
  {
    var nats: List<nat> := TakeStream<nat>(n, Nats());
    NatsPrefix(n);
    assert forall x: nat :: x in Elems(nats) <==> x < n by {
      forall x: nat | x < n ensures x in Elems(nats) {
        assert Elems(nats)[x] == x;
      }
    }
    FilterKeepsIncreasing(IsPrime, nats);
    Filter(IsPrime, nats)
  }

  /** Taking more naturals only extends the list of primes: the finite
      prefixes agree with each other, as those of the infinite `Primes` do. */
  lemma PrimesBelowPrefix(n: nat, m: nat)
    requires n <= m
    ensures Elems(PrimesBelow(n)) <= Elems(PrimesBelow(m))
  {
    var s: Stream<nat> := Nats();
    var head, tail := TakeStream(n, s), TakeStream(m - n, DropStream(n, s));
    TakeStreamSplit(s, n, m);
    FilterAppend(IsPrime, head, tail);
    assert PrimesBelow(m) == Append(PrimesBelow(n), Filter(IsPrime, tail));
  }
}
