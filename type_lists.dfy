/** The type-level list combinators of task3/type_lists.hpp, read at the
    value level: a finite type list (`Nil` / `Cons<Head, Tail>`) is the
    datatype `List`, a type tuple `TTuple<Ts...>` is a `seq`, and an infinite
    list (`Repeat`, `Iterate`, a non-empty `Cycle`) is a `Stream`, whose
    element `i` is the head after `i` steps along `Tail`. */
module TypeLists {
  import opened Common

  datatype List<A> = Nil | Cons(Head: A, Tail: List<A>)

  /** An infinite type list: element `i` is `Head` after `i` tails. */
  type Stream<A> = nat -> A

  /** The result of `Cycle`: `Nil` for an empty list, infinite otherwise. */
  datatype Lazy<A> = Finite(list: List<A>) | Infinite(stream: Stream<A>)

  /** The elements of a list, in order. */
  function Elems<A>(l: List<A>): seq<A> {
    match l
    case Nil => []
    case Cons(h, t) => [h] + Elems(t)
  }

  /** Concatenation (used to state the laws below; not a combinator of the source). */
  function Append<A>(a: List<A>, b: List<A>): (r: List<A>)
    ensures Elems(r) == Elems(a) + Elems(b)
  {
    match a
    case Nil => b
    case Cons(h, t) => Cons(h, Append(t, b))
  }

  function Min(a: int, b: int): int { if a < b then a else b }

  // ---------------------------------------------------------------
  // FromTuple / ToTuple
  // ---------------------------------------------------------------

  /** `FromTuple<TTuple<Ts...>>`: one `Cons` per tuple element. */
  function FromTuple<A>(tt: seq<A>): (l: List<A>)
    ensures Elems(l) == tt
  {
    if |tt| == 0 then Nil else Cons(tt[0], FromTuple(tt[1..]))
  }

  /** `ToTupleImpl<TL, Accumulated...>`: walks the list, appending each head
      to the accumulated pack. */
  function ToTupleImpl<A>(l: List<A>, acc: seq<A>): (tt: seq<A>)
    ensures tt == acc + Elems(l)
  {
    match l
    case Nil => acc
    case Cons(h, t) =>
      assert acc + Elems(l) == (acc + [h]) + Elems(t);
      ToTupleImpl(t, acc + [h])
  }

  /** `ToTuple<TL>`. */
  function ToTuple<A>(l: List<A>): (tt: seq<A>)
    ensures tt == Elems(l)
  {
    ToTupleImpl(l, [])
  }

  /** A list is determined by its elements. */
  lemma {:induction false} ElemsInjective<A>(a: List<A>, b: List<A>)
    requires Elems(a) == Elems(b)
    ensures a == b
  {
    match a
    case Nil =>
    case Cons(h, t) =>
      assert b != Nil;
      assert Elems(t) == Elems(a)[1..] == Elems(b)[1..] == Elems(b.Tail);
      ElemsInjective(t, b.Tail);
  }

  /** `ToTuple(FromTuple(tt)) == tt`, and the other way round. */
  lemma TupleRoundTrip<A>(tt: seq<A>, l: List<A>)
    ensures ToTuple(FromTuple(tt)) == tt
    ensures FromTuple(ToTuple(l)) == l
  {
    ElemsInjective(FromTuple(ToTuple(l)), l);
  }

  // ---------------------------------------------------------------
  // Repeat, Take, Drop, Replicate
  // ---------------------------------------------------------------

  /** `Repeat<T>`: `Head = T`, `Tail = Repeat<T>`. */
  function Repeat<A>(t: A): (s: Stream<A>)
    ensures forall i: nat :: s(i) == t
  {
    _ => t
  }

  /** The `Tail` of an infinite list. */
  function StreamTail<A>(s: Stream<A>): Stream<A> {
    (i: nat) => s(i + 1)
  }

  /** `Take<N, TL>`: `Nil` once `N` is 0 or the list is empty. */
  function Take<A>(n: nat, l: List<A>): (r: List<A>)
    ensures Elems(r) == Elems(l)[..Min(n, |Elems(l)|)]
  {
    if n == 0 then Nil
    else match l
      case Nil => Nil
      case Cons(h, t) => Cons(h, Take(n - 1, t))
  }

  /** `Take<N, TL>` on an infinite list: its first `N` elements. */
  function TakeStream<A>(n: nat, s: Stream<A>): (r: List<A>)
    ensures |Elems(r)| == n
    ensures forall i :: 0 <= i < n ==> Elems(r)[i] == s(i)
  {
    if n == 0 then Nil else Cons(s(0), TakeStream(n - 1, StreamTail(s)))
  }

  /** `Drop<N, TL>`: `N` tails, stopping at `Nil`. */
  function Drop<A>(n: nat, l: List<A>): (r: List<A>)
    ensures Elems(r) == Elems(l)[Min(n, |Elems(l)|)..]
  {
    if n == 0 then l
    else match l
      case Nil => Nil
      case Cons(_, t) => Drop(n - 1, t)
  }

  /** The first `m` elements are the first `n` followed by the next `m - n`. */
  lemma {:induction false} TakeStreamSplit<A>(s: Stream<A>, n: nat, m: nat)
    requires n <= m
    ensures TakeStream(m, s) == Append(TakeStream(n, s), TakeStream(m - n, DropStream(n, s)))
  {
    if n > 0 {
      TakeStreamSplit(StreamTail(s), n - 1, m - 1);
    }
  }

  /** `Drop<N, TL>` on an infinite list: `N` tails. */
  function DropStream<A>(n: nat, s: Stream<A>): Stream<A> {
    if n == 0 then s else DropStream(n - 1, StreamTail(s))
  }

  /** Element `i` of `Drop<N, S>` is element `i + N` of `S`. */
  lemma {:induction false} DropStreamAt<A>(n: nat, s: Stream<A>, i: nat)
    ensures DropStream(n, s)(i) == s(i + n)
  {
    if n > 0 {
      DropStreamAt(n - 1, StreamTail(s), i);
    }
  }

  /** `Take(n, L) ++ Drop(n, L) == L`. */
  lemma TakeDrop<A>(n: nat, l: List<A>)
    ensures Append(Take(n, l), Drop(n, l)) == l
  {
    var e := Elems(l);
    assert e[..Min(n, |e|)] + e[Min(n, |e|)..] == e;
    ElemsInjective(Append(Take(n, l), Drop(n, l)), l);
  }

  /** `Replicate<N, T>`: `N` copies of `T`. */
  function Replicate<A>(n: nat, t: A): (r: List<A>)
    ensures |Elems(r)| == n
    ensures forall i :: 0 <= i < n ==> Elems(r)[i] == t
  {
    if n == 0 then Nil else Cons(t, Replicate(n - 1, t))
  }

  /** `Take<N, Repeat<T>>` is `Replicate<N, T>`. */
  lemma TakeRepeat<A>(n: nat, t: A)
    ensures TakeStream(n, Repeat(t)) == Replicate(n, t)
  {
    ElemsInjective(TakeStream(n, Repeat(t)), Replicate(n, t));
  }

  // ---------------------------------------------------------------
  // Map, Filter
  // ---------------------------------------------------------------

  /** `Map<F, TL>`. */
  function Map<A, B>(f: A -> B, l: List<A>): (r: List<B>)
    ensures |Elems(r)| == |Elems(l)|
    ensures forall i :: 0 <= i < |Elems(l)| ==> Elems(r)[i] == f(Elems(l)[i])
  {
    match l
    case Nil => Nil
    case Cons(h, t) => Cons(f(h), Map(f, t))
  }

  /** `Map<F, TL>` on an infinite list. */
  function MapStream<A, B>(f: A -> B, s: Stream<A>): (r: Stream<B>)
    ensures forall i: nat :: r(i) == f(s(i))
  {
    (i: nat) => f(s(i))
  }

  /** `a` is obtained from `b` by deleting elements. */
  ghost predicate IsSubsequence<A>(a: seq<A>, b: seq<A>)
    decreases |b|
  {
    |a| == 0 || (|b| > 0 && ((a[0] == b[0] && IsSubsequence(a[1..], b[1..])) || IsSubsequence(a, b[1..])))
  }

  /** `Filter<P, TL>` (`FilterDispatcher`/`FilterImpl`): a head that
      satisfies `P` is kept, one that does not is skipped. The result holds
      exactly the satisfying elements, in their order in `TL`. */
  function Filter<A(!new)>(p: A -> bool, l: List<A>): (r: List<A>)
    ensures forall x :: x in Elems(r) <==> x in Elems(l) && p(x)
    ensures IsSubsequence(Elems(r), Elems(l))
  {
    match l
    case Nil => Nil
    case Cons(h, t) =>
      var rest := Filter(p, t);
      assert Elems(l)[1..] == Elems(t);
      if p(h) then
        assert Elems(Cons(h, rest))[1..] == Elems(rest);
        Cons(h, rest)
      else rest
  }

  datatype Option<T> = None | Some(value: T)

  /** `FilterImpl` as written, fully traversed: `FilterImpl<P, TL, false>`
      re-declares `Head` and `Tail` from its base `Filter<P, TL::Tail>`,
      which has neither when it is the empty `FilterImpl<P, Nil>`; that
      instantiation is ill-formed (`None`). */
  function FilterAsWritten<A(!new)>(p: A -> bool, l: List<A>): (r: Option<List<A>>)
    ensures r.Some? ==> r.value == Filter(p, l)
  {
    match l
    case Nil => Some(Nil)
    case Cons(h, t) =>
      match FilterAsWritten(p, t)
      case None => None
      case Some(rest) =>
        if p(h) then Some(Cons(h, rest))
        else if rest == Nil then None
        else Some(rest)
  }

  /** The as-written `Filter` fails exactly on a non-empty list whose last
      element is rejected. */
  lemma {:induction false} FilterAsWrittenFails<A(!new)>(p: A -> bool, l: List<A>)
    ensures FilterAsWritten(p, l).None? <==> l != Nil && !p(Elems(l)[|Elems(l)| - 1])
  {
    match l
    case Nil =>
    case Cons(h, t) =>
      FilterAsWrittenFails(p, t);
      if t != Nil {
        assert Elems(l)[|Elems(l)| - 1] == Elems(t)[|Elems(t)| - 1];
        var last := Elems(t)[|Elems(t)| - 1];
        if p(last) {
          assert last in Elems(Filter(p, t));
        }
      }
  }

  /** Filtering `[1]` by "is even": the as-written `Filter` does not
      instantiate, where the empty list is meant. */
  lemma FilterAsWrittenCounterexample()
    ensures FilterAsWritten((x: int) => x % 2 == 0, Cons(1, Nil)).None?
    ensures Filter((x: int) => x % 2 == 0, Cons(1, Nil)) == Nil
  {
  }

  /** Each satisfying element is kept as often as it occurs; the others not at all. */
  lemma {:induction false} FilterCounts<A(!new)>(p: A -> bool, l: List<A>, x: A)
    ensures multiset(Elems(Filter(p, l)))[x] == if p(x) then multiset(Elems(l))[x] else 0
  {
    match l
    case Nil =>
    case Cons(h, t) =>
      FilterCounts(p, t, x);
      assert multiset(Elems(l)) == multiset{h} + multiset(Elems(t));
      if p(h) {
        assert multiset(Elems(Filter(p, l))) == multiset{h} + multiset(Elems(Filter(p, t)));
      }
  }

  /** Filtering distributes over concatenation: together with the
      one-element case of the definition, this fixes the order. */
  lemma {:induction false} FilterAppend<A(!new)>(p: A -> bool, a: List<A>, b: List<A>)
    ensures Filter(p, Append(a, b)) == Append(Filter(p, a), Filter(p, b))
  {
    match a
    case Nil =>
    case Cons(h, t) => FilterAppend(p, t, b);
  }

  // ---------------------------------------------------------------
  // Iterate, Cycle
  // ---------------------------------------------------------------

  /** `F` applied `n` times. */
  function Power<A>(f: A -> A, n: nat, t: A): A {
    if n == 0 then t else f(Power(f, n - 1, t))
  }

  /** Element `n` of `IterateImpl<F, T>`: the head after `n` tails, each tail
      being `IterateImpl<F, F<T>>`. */
  function IterateAt<A>(f: A -> A, t: A, n: nat): A {
    if n == 0 then t else IterateAt(f, f(t), n - 1)
  }

  /** `Iterate<F, T>`. */
  function Iterate<A>(f: A -> A, t: A): (s: Stream<A>)
    ensures s(0) == t
    ensures forall n: nat :: s(n) == IterateAt(f, t, n)
  {
    (n: nat) => IterateAt(f, t, n)
  }

  /** Element `i` of `Iterate<F, T>` is `F^i(T)`, so each element is `F` of
      the one before. */
  lemma {:induction false} IteratePower<A>(f: A -> A, t: A, n: nat)
    ensures Iterate(f, t)(n) == Power(f, n, t)
    ensures Iterate(f, t)(n + 1) == f(Iterate(f, t)(n))
  {
    IterateAtPower(f, t, n);
    IterateAtPower(f, t, n + 1);
  }

  lemma {:induction false} IterateAtPower<A>(f: A -> A, t: A, n: nat)
    ensures IterateAt(f, t, n) == Power(f, n, t)
  {
    if n > 0 {
      IterateAtPower(f, f(t), n - 1);
      PowerShift(f, n - 1, t);
    }
  }

  lemma {:induction false} PowerShift<A>(f: A -> A, n: nat, t: A)
    ensures Power(f, n, f(t)) == Power(f, n + 1, t)
  {
    if n > 0 {
      PowerShift(f, n - 1, t);
    }
  }

  /** The pack state of `CycleImpl<TL, Ts...>`: the part of the list not yet
      visited, and the visited heads `Ts...`. */
  datatype CycleImpl<A> = CycleImpl(rest: List<A>, seen: seq<A>) {

    /** What is left to go round, starting at the current head. */
    function Ring(): seq<A> { Elems(rest) + seen }

    /** `Head`: the list's head while there is one, then the first of `Ts...`. */
    function Head(): A
      requires |Ring()| > 0
    {
      match rest
      case Cons(h, _) => h
      case Nil => seen[0]
    }

    /** `Tail`: moves the head to the back of the pack. */
    function Tail(): (c: CycleImpl<A>)
      requires |Ring()| > 0
    {
      match rest
      case Cons(h, t) => CycleImpl(t, seen + [h])
      case Nil => CycleImpl(Nil, seen[1..] + [seen[0]])
    }

    /** The head after `n` tails. */
    function At(n: nat): A
      requires |Ring()| > 0
      decreases n
    {
      RingRotates(this);
      if n == 0 then Head() else Tail().At(n - 1)
    }
  }

  /** Each `Tail` rotates the ring by one. */
  lemma RingRotates<A>(c: CycleImpl<A>)
    requires |c.Ring()| > 0
    ensures c.Head() == c.Ring()[0]
    ensures c.Tail().Ring() == c.Ring()[1..] + [c.Ring()[0]]
  {
    match c.rest
    case Nil =>
    case Cons(h, t) =>
      assert c.Ring() == [h] + (Elems(t) + c.seen);
  }

  /** Going round the ring: element `n` is `ring[n mod |ring|]`. */
  lemma {:induction false} CycleAtRing<A>(c: CycleImpl<A>, ring: seq<A>, n: nat)
    requires c.Ring() == ring && |ring| > 0
    ensures c.At(n) == ring[n % |ring|]
    decreases n
  {
    RingRotates(c);
    if n == 0 {
      assert c.At(0) == c.Head();
    } else {
      var rotated := ring[1..] + [ring[0]];
      AtTail(c, n);
      CycleAtRing(c.Tail(), rotated, n - 1);
      RotatedStep(ring, rotated, n - 1);
    }
  }

  /** Element `n > 0` is element `n - 1` of the tail. */
  lemma AtTail<A>(c: CycleImpl<A>, n: nat)
    requires |c.Ring()| > 0 && n > 0
    ensures |c.Tail().Ring()| > 0
    ensures c.At(n) == c.Tail().At(n - 1)
  {
    RingRotates(c);
  }

  lemma RotatedStep<A>(ring: seq<A>, rotated: seq<A>, m: nat)
    requires |ring| > 0 && rotated == ring[1..] + [ring[0]]
    ensures |rotated| == |ring|
    ensures rotated[m % |ring|] == ring[(m + 1) % |ring|]
  {
    ModSucc(m, |ring|);
    RotatedAt(ring, rotated, m % |ring|);
  }

  lemma RotatedAt<A>(ring: seq<A>, rotated: seq<A>, j: nat)
    requires j < |ring| && rotated == ring[1..] + [ring[0]]
    ensures rotated[j] == ring[(j + 1) % |ring|]
  {
    if j + 1 < |ring| {
      ModUnique(j + 1, |ring|, 0, j + 1);
      assert rotated[j] == ring[1..][j];
    } else {
      ModUnique(j + 1, |ring|, 1, 0);
      assert rotated[j] == [ring[0]][0];
    }
  }

  lemma ModSucc(m: nat, k: nat)
    requires k > 0
    ensures (m % k + 1) % k == (m + 1) % k
  {
    var q, r := m / k, m % k;
    assert m == q * k + r;
    if r + 1 < k {
      ModUnique(r + 1, k, 0, r + 1);
      ModUnique(m + 1, k, q, r + 1);
    } else {
      ModUnique(r + 1, k, 1, 0);
      assert (q + 1) * k == q * k + k;
      ModUnique(m + 1, k, q + 1, 0);
    }
  }

  /** `Cycle<TL>`: `Nil` for an empty list; otherwise an infinite list. A
      finite list goes round for ever; the walk over an infinite list never
      reaches its end, so it never wraps. */
  function Cycle<A>(l: Lazy<A>): (r: Lazy<A>)
    ensures l == Finite(Nil) <==> r == Finite(Nil)
    ensures l != Finite(Nil) ==> r.Infinite?
  {
    match l
    case Finite(list) =>
      if list == Nil then Finite(Nil)
      else
        var start := CycleImpl(list, []);
        assert |start.Ring()| > 0;
        Infinite((n: nat) => start.At(n))
    case Infinite(s) =>
      Infinite((n: nat) => StreamCycleAt(s, [], n))
  }

  /** The head after `n` tails of `CycleImpl<S, Ts...>` for an infinite
      `S`: each tail moves `S`'s head into `Ts...`. */
  function StreamCycleAt<A>(s: Stream<A>, seen: seq<A>, n: nat): A
    decreases n
  {
    if n == 0 then s(0) else StreamCycleAt(StreamTail(s), seen + [s(0)], n - 1)
  }

  /** Element `i` of `Cycle(L)` for a non-empty finite `L` is `L[i mod |L|]`. */
  lemma CycleAt<A>(l: List<A>, i: nat)
    requires l != Nil
    ensures Cycle(Finite(l)).Infinite?
    ensures Cycle(Finite(l)).stream(i) == Elems(l)[i % |Elems(l)|]
  {
    var start := CycleImpl(l, []);
    assert start.Ring() == Elems(l);
    CycleAtRing(start, Elems(l), i);
  }

  /** `Cycle` of an infinite list is that list, element by element. */
  lemma CycleOfInfinite<A>(s: Stream<A>, i: nat)
    ensures Cycle(Infinite(s)).Infinite?
    ensures Cycle(Infinite(s)).stream(i) == s(i)
  {
    StreamCycleAtElement(s, [], i);
  }

  lemma {:induction false} StreamCycleAtElement<A>(s: Stream<A>, seen: seq<A>, n: nat)
    ensures StreamCycleAt(s, seen, n) == s(n)
    decreases n
  {
    if n > 0 {
      StreamCycleAtElement(StreamTail(s), seen + [s(0)], n - 1);
    }
  }

  // ---------------------------------------------------------------
  // Inits, Tails
  // ---------------------------------------------------------------

  /** `Inits<TL, Ts...>`: `Head = FromTuple<Ts...>`; the tail moves the list's
      head into `Ts...`, and ends after the empty list. */
  function InitsImpl<A>(l: List<A>, acc: seq<A>): (r: List<List<A>>)
    ensures |Elems(r)| == |Elems(l)| + 1
    ensures forall i :: 0 <= i <= |Elems(l)| ==> Elems(r)[i] == FromTuple(acc + Elems(l)[..i])
  {
    match l
    case Nil =>
      assert acc + Elems(l)[..0] == acc;
      Cons(FromTuple(acc), Nil)
    case Cons(h, t) =>
      var rest := InitsImpl(t, acc + [h]);
      assert acc + Elems(l)[..0] == acc;
      PrefixShift(acc, h, Elems(t));
      assert forall i :: 1 <= i <= |Elems(l)| ==>
        Elems(Cons(FromTuple(acc), rest))[i] == Elems(rest)[i - 1];
      Cons(FromTuple(acc), rest)
  }

  /** A prefix of `[h] + t` after `acc` is a shorter prefix of `t` after `acc + [h]`. */
  lemma PrefixShift<A>(acc: seq<A>, h: A, t: seq<A>)
    ensures forall i :: 1 <= i <= |t| + 1 ==> acc + ([h] + t)[..i] == (acc + [h]) + t[..i - 1]
  {
    forall i | 1 <= i <= |t| + 1 ensures acc + ([h] + t)[..i] == (acc + [h]) + t[..i - 1] {
      assert ([h] + t)[..i] == [h] + t[..i - 1];
    }
  }

  /** `Inits<TL>`. */
  function Inits<A>(l: List<A>): (r: List<List<A>>)
    ensures |Elems(r)| == |Elems(l)| + 1
    ensures forall i :: 0 <= i <= |Elems(l)| ==> Elems(r)[i] == Take(i, l)
  {
    var r := InitsImpl(l, []);
    forall i | 0 <= i <= |Elems(l)| ensures Elems(r)[i] == Take(i, l) {
      assert [] + Elems(l)[..i] == Elems(l)[..i];
      ElemsInjective(Elems(r)[i], Take(i, l));
    }
    r
  }

  /** `Tails<TL>`: `Head = TL`, `Tail = Tails<TL::Tail>`, and for the empty
      list a single `Nil`. */
  function Tails<A>(l: List<A>): (r: List<List<A>>)
    ensures |Elems(r)| == |Elems(l)| + 1
    ensures forall i :: 0 <= i <= |Elems(l)| ==> Elems(r)[i] == Drop(i, l)
    ensures Elems(r)[|Elems(l)|] == Nil
  {
    match l
    case Nil => Cons(Nil, Nil)
    case Cons(h, t) =>
      var rest := Tails(t);
      assert forall i :: 1 <= i <= |Elems(l)| ==> Drop(i, l) == Drop(i - 1, t);
      Cons(l, rest)
  }

  // ---------------------------------------------------------------
  // Scanl, Foldl, Zip2
  // ---------------------------------------------------------------

  /** `Scanl<OP, T, TL>`: `T` followed by the scan from `OP<T, Head>`. */
  function Scanl<A, B>(op: (B, A) -> B, t: B, l: List<A>): (r: List<B>)
    ensures |Elems(r)| == |Elems(l)| + 1
    ensures Elems(r)[0] == t
    ensures forall i :: 0 <= i < |Elems(l)| ==> Elems(r)[i + 1] == op(Elems(r)[i], Elems(l)[i])
  {
    match l
    case Nil => Cons(t, Nil)
    case Cons(h, tl) =>
      var rest := Scanl(op, op(t, h), tl);
      assert Elems(Cons(t, rest))[1] == op(t, h);
      Cons(t, rest)
  }

  /** `Foldl<OP, T, TL>` as the source writes it:
      `OP<Foldl<OP, T, TL::Tail>, TL::Head>`, so the LAST element is folded
      first. */
  function Foldl<A, B>(op: (B, A) -> B, t: B, l: List<A>): B {
    match l
    case Nil => t
    case Cons(h, tl) => op(Foldl(op, t, tl), h)
  }

  /** The left fold a `Foldl` is evidently meant to be: `OP<T, Head>` first,
      then the tail. */
  function FoldLeft<A, B>(op: (B, A) -> B, t: B, l: List<A>): B {
    match l
    case Nil => t
    case Cons(h, tl) => FoldLeft(op, op(t, h), tl)
  }

  /** Reversal (used to state what the source's Foldl computes). */
  function Reverse<A>(l: List<A>): (r: List<A>)
    ensures |Elems(r)| == |Elems(l)|
  {
    match l
    case Nil => Nil
    case Cons(h, t) => Append(Reverse(t), Cons(h, Nil))
  }

  /** The defining law of a left fold: folding `a ++ b` folds `b` from the
      fold of `a`. */
  lemma {:induction false} FoldLeftAppend<A, B>(op: (B, A) -> B, t: B, a: List<A>, b: List<A>)
    ensures FoldLeft(op, t, Append(a, b)) == FoldLeft(op, FoldLeft(op, t, a), b)
  {
    match a
    case Nil =>
    case Cons(h, tl) => FoldLeftAppend(op, op(t, h), tl, b);
  }

  /** The last element of `Scanl` is the left fold. */
  lemma {:induction false} ScanlLastIsFoldLeft<A, B>(op: (B, A) -> B, t: B, l: List<A>)
    ensures Elems(Scanl(op, t, l))[|Elems(l)|] == FoldLeft(op, t, l)
  {
    match l
    case Nil =>
    case Cons(h, tl) =>
      ScanlLastIsFoldLeft(op, op(t, h), tl);
      assert Elems(Scanl(op, t, l)) == [t] + Elems(Scanl(op, op(t, h), tl));
  }

  /** What the source's Foldl computes: the left fold of the REVERSED list. */
  lemma {:induction false} FoldlIsFoldLeftOfReverse<A, B>(op: (B, A) -> B, t: B, l: List<A>)
    ensures Foldl(op, t, l) == FoldLeft(op, t, Reverse(l))
  {
    match l
    case Nil =>
    case Cons(h, tl) =>
      FoldlIsFoldLeftOfReverse(op, t, tl);
      FoldLeftAppend(op, t, Reverse(tl), Cons(h, Nil));
  }

  /** With `OP(x, y) = 10 * x + y`, folding [1, 2] from 0 gives 21 as written
      and 12 as a left fold (the last element of `Scanl`). */
  lemma FoldlCounterexample()
    ensures var op := (x: int, y: int) => 10 * x + y;
            var l := Cons(1, Cons(2, Nil));
            Foldl(op, 0, l) == 21 && FoldLeft(op, 0, l) == 12 &&
            Elems(Scanl(op, 0, l))[2] == 12
  {
    var op := (x: int, y: int) => 10 * x + y;
    var l := Cons(1, Cons(2, Nil));
    assert Foldl(op, 0, Cons(2, Nil)) == 2;
    assert Scanl(op, 0, l) == Cons(0, Cons(1, Cons(12, Nil)));
  }

  /** `Zip2<L, R>`: pairs of heads until either list ends. */
  function Zip2<A, B>(l: List<A>, r: List<B>): (z: List<(A, B)>)
    ensures |Elems(z)| == Min(|Elems(l)|, |Elems(r)|)
    ensures forall i :: 0 <= i < |Elems(z)| ==> Elems(z)[i] == (Elems(l)[i], Elems(r)[i])
  {
    match (l, r)
    case (Cons(a, lt), Cons(b, rt)) => Cons((a, b), Zip2(lt, rt))
    case _ => Nil
  }
}
