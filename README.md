# metaprogramming-exp in Dafny

This project models the C++ header-only library metaprogramming-exp in Dafny.
Six parts of the library are modelled (the rest are listed under
"## Left out"), each on values or on objects as the C++ code works on them.

- **Span** (`task1/Span.hpp`) is a contiguous, non-owning view of `T` with a
  static or a dynamic extent. It is modelled as the datatype `Spans.Span`:
  a buffer, a pointer into it (or null) and an extent holder.
- **Slice** (`task2/Slice.hpp`) is a strided view. Its extent and its stride
  each come from a static template argument or from a stored runtime value.
  - The holders are `Holders.Holder`.
  - The view is the datatype `Slices.Slice`, with all of its subviews, skips
    and conversions.
  - The random-access iterator is the class `SliceIterators.Iterator`. Its
    position is updated in place.
  - The free `operator==` is the method `SliceIterators.Equal`, which walks
    the two slices with iterators.
- **Type lists** (`task3/type_lists.hpp`) are compile-time, possibly
  infinite lists of types.
  - They are read at the value level. `Nil`/`Cons` is the datatype
    `TypeLists.List`, a `TTuple` is a `seq`, and an infinite list is a
    `Stream` (`nat -> A`).
  - Each combinator is a function. Its contract or a lemma says what it
    yields.
- **Value sequences** (`task3/fun_value_sequences.hpp`) define `Nats`, `Fib`
  and `Primes` with those combinators. A `ValueTag<v>` stands for the value
  `v`.
- **EnumeratorTraits** (`task6/EnumeratorTraits.hpp`) finds the named
  enumerators of an enum by probing every value in `[-L, L]`.
  - The compile-time folds that count, place and name the enumerators are
    methods with loops over arrays.
  - The traits object is the class `EnumeratorTraits.Traits`.
  - The compiler's spelling of each value, which the C++ code reads out of
    `__PRETTY_FUNCTION__`, is an input: the `text` function of an
    `EnumType`.
- **FixedString** (`task4/FixedString.hpp`) is a fixed-capacity character
  array built from a literal. It is the class `FixedStrings.FixedString`,
  with the `_cstr` literal operator.

Integers are unbounded. `std::dynamic_extent` is the 64-bit maximum
`0xFFFF_FFFF_FFFF_FFFF`, and `dynamic_stride` is `-1`, as in the code.
Iterator distance is C++ division, which truncates toward zero
(`SliceIterators.TruncDiv`).

## Model

| member | source | states |
|---|---|---|
| Holders.Make | task2/Slice.hpp:12-33 | A holder made from the dynamic marker is dynamic. Any other template argument gives a static holder that reports that argument. |
| Holders.ExtentHolder | task2/Slice.hpp:35-46 | `ExtentHolder<extent>` is well-formed and reports `extent` as its template argument. |
| Holders.StrideHolder | task2/Slice.hpp:48-59 | `StrideHolder<stride>` is well-formed and reports `stride` as its template argument. |
| Holders.DynamicReturnsArgument | task2/Slice.hpp:15-24 | A storing `ValueWrapper` returns the value it was constructed with. |
| Holders.StaticIgnoresArgument | task2/Slice.hpp:26-33 | A non-storing `ValueWrapper` ignores its constructor argument and always returns its template argument. |
| Holders.MakeValue | task2/Slice.hpp:12-59 | A holder reports the runtime value it was built with whenever that value agrees with the template argument or the holder is dynamic. |
| Holders.RemakeIdentity | task2/Slice.hpp:284-362 | Rebuilding a holder of the same instantiation from its own value gives the same holder. This is why every subview keeps `stride` unchanged. |
| Slices.Slice.Size | task2/Slice.hpp:266-268 | `Size()` is `GetExtent()`; `Elements` states that a view has that many elements. |
| Slices.Slice.Stride | task2/Slice.hpp:274-276 | `Stride()` is `GetStride()`; `Elements` states that consecutive elements lie a stride apart. |
| Slices.Slice.Data | task2/Slice.hpp:256-258 | `Data()` is `data_`; `Front` states that it addresses element 0. |
| Slices.Slice.At | task2/Slice.hpp:252-254 | `operator[](i)` reads `data_[i * stride]`; `AddrInBuffer` states that this lies inside the buffer. |
| Slices.Slice.Empty | task2/Slice.hpp:278-280 | `empty()` holds exactly when the size is 0. |
| Slices.Slice.Front | task2/Slice.hpp:244-246 | `Front()` is element 0. |
| Slices.Slice.Back | task2/Slice.hpp:248-250 | `Back()` is element `Size() - 1`, i.e. `data_[(extent - 1) * stride]`. |
| Slices.Slice.Elements | task2/Slice.hpp:252-254 | Has `Size()` elements, and element `i` is `operator[](i)` = `data_[i * stride]`. |
| Slices.Slice.First | task2/Slice.hpp:284-286 | `First(count)` is a valid view over the same data with size `count`, the same stride and a dynamic extent. Its elements are the first `count` elements. |
| Slices.Slice.FirstStatic | task2/Slice.hpp:288-291 | `First<count>()` is the same view with the static extent `count`. |
| Slices.Slice.Last | task2/Slice.hpp:293-295 | `Last(count)` starts at `data_ + (extent - count) * stride`. Its elements are the last `count` elements. |
| Slices.Slice.LastStatic | task2/Slice.hpp:297-300 | `Last<count>()` is the same view with the static extent `count`. |
| Slices.Slice.DropFirst | task2/Slice.hpp:302-304 | `DropFirst(count)` starts at `data_ + count * stride` with size `extent - count`. Its elements are all but the first `count`. |
| Slices.Slice.DropFirstStatic | task2/Slice.hpp:306-316 | `DropFirst<count>()` forwards to `DropFirst(count)` on a dynamic extent and keeps a static extent `extent - count` otherwise. The elements are the same. |
| Slices.Slice.DropLast | task2/Slice.hpp:318-320 | `DropLast(count)` keeps `data_` with size `extent - count`. Its elements are all but the last `count`. |
| Slices.Slice.DropLastStatic | task2/Slice.hpp:322-332 | `DropLast<count>()` is the same split, with the extent static when the source's is. |
| Slices.Slice.Skip | task2/Slice.hpp:336-338 | `Skip(k)` keeps `data_`, has stride `k * stride` and size ⌈extent / k⌉, and its element `i` is element `i * k` of the original. |
| Slices.Slice.SkipStatic | task2/Slice.hpp:340-362 | All four `Skip<k>()` variants give the same numbers and elements as `Skip(k)`, keeping each static axis static. |
| Slices.Slice.Retype | task2/Slice.hpp:208-240 | The value the conversion operators build: same data, size, stride and elements, with the new template arguments. |
| Slices.Slice.ToDynamicExtent | task2/Slice.hpp:208-211 | The conversion to a dynamic extent keeps data, size and stride, and keeps the stride holder. |
| Slices.Slice.ToDynamicStride | task2/Slice.hpp:213-216 | The conversion to a dynamic stride keeps data, size and stride, and keeps the extent holder. |
| Slices.Slice.ToDynamic | task2/Slice.hpp:218-221 | The conversion to both dynamic keeps data, size and stride. |
| Slices.Slice.ToReadOnly | task2/Slice.hpp:223-225 | The conversion to `const T` keeps both holders and marks the view read-only. |
| Slices.Slice.ToReadOnlyDynamicExtent | task2/Slice.hpp:227-230 | The conversion to `const T` with a dynamic extent, offered only for a non-const static-extent view. |
| Slices.Slice.ToReadOnlyDynamicStride | task2/Slice.hpp:232-235 | The conversion to `const T` with a dynamic stride, offered only for a non-const static-stride view. |
| Slices.Slice.ToReadOnlyDynamic | task2/Slice.hpp:237-240 | The conversion to `const T` with both axes dynamic, offered only when both are static. |
| Slices.FromPointer | task2/Slice.hpp:182-185 | `Slice(first, count, skip)` is a valid view of size `count` and stride `skip`, whose element `i` is `buf[first + i * skip]`. |
| Slices.FromContainer | task2/Slice.hpp:177-190 | `Slice(container)` and `Slice(std::array)` cover the whole container with stride 1. The elements are the container. |
| Slices.Cast | task2/Slice.hpp:201-206 | The cast constructor keeps data, size, stride and elements, and takes the new template arguments. |
| Slices.AddrInBuffer | task2/Slice.hpp:252-254 | Every index below `Size()` of a valid slice addresses the buffer, whatever the sign of the stride. |
| Slices.FirstDropFirstPartition | task2/Slice.hpp:284-304 | `First(k)` followed by `DropFirst(k)` is the whole view. |
| Slices.DropLastLastPartition | task2/Slice.hpp:293-320 | `DropLast(n)` followed by `Last(n)` is the whole view. |
| Slices.DropFirstFront | task2/Slice.hpp:244-246 | The front of `DropFirst(n)` is element `n`. |
| Slices.SkipSkip | task2/Slice.hpp:336-338 | `Skip(a).Skip(b)` equals `Skip(a * b)`, because the ceiling rule composes exactly. |
| Slices.TenElementSkip | task2/Slice.hpp:336-338 | Over any valid view holding 0..9, `Skip(3)` has size 4 and is [0, 3, 6, 9]. |
| Slices.TenElementLast | task2/Slice.hpp:293-295 | Over any valid view holding 0..9, `Last(2)` is [8, 9]. |
| Slices.TenElementDrops | task2/Slice.hpp:302-320 | Over any valid view holding 0..9, `DropFirst(2).DropLast(2)` is [2..7]. |
| Slices.TenElementScenario | task2/Slice.hpp:284-338 | The stride-1 dynamic view of the container 0..9 is valid and holds 0..9, so the three facts above apply to it. |
| SliceIterators.TruncDiv | task2/Slice.hpp:122-124 | C++ `/` on `ptrdiff_t`: the magnitude is `|a| / |b|` and the sign follows the operands' signs. |
| SliceIterators.TruncDivRemainder | task2/Slice.hpp:122-124 | The remainder `a - (a / b) * b` is smaller than `b` in magnitude and has the sign of `a` or is 0: division truncates toward zero. |
| SliceIterators.TruncDivExact | task2/Slice.hpp:122-124 | Dividing an exact multiple `k * stride` by `stride` gives `k`, for every sign. |
| SliceIterators.Iterator.Default | task2/Slice.hpp:86 | The default iterator has a null position and stride 0. |
| SliceIterators.Iterator.constructor | task2/Slice.hpp:88 | `IteratorImpl(data, stride)` stores both. |
| SliceIterators.Iterator.Increment | task2/Slice.hpp:90-94 | Prefix `++` moves the position by one stride and leaves the rest. |
| SliceIterators.Iterator.PostIncrement | task2/Slice.hpp:95-99 | Postfix `++` moves by one stride and returns a copy at the old position. |
| SliceIterators.Iterator.Decrement | task2/Slice.hpp:101-105 | Prefix `--` moves back by one stride. |
| SliceIterators.Iterator.PostDecrement | task2/Slice.hpp:106-110 | Postfix `--` moves back and returns a copy at the old position. |
| SliceIterators.Iterator.AddAssign | task2/Slice.hpp:112-115 | `+= n` moves by `n * stride`. |
| SliceIterators.Iterator.SubAssign | task2/Slice.hpp:117-120 | `-= n` moves back by `n * stride`. |
| SliceIterators.Iterator.Deref | task2/Slice.hpp:128-130 | `operator*` reads the current position; `Collect` states the values it reads. |
| SliceIterators.Iterator.Index | task2/Slice.hpp:132-134 | `operator[](n)` reads `n` strides ahead; `FromBegin` states that from `begin()` it reads element `n`. |
| SliceIterators.Iterator.Equals | task2/Slice.hpp:126 | The defaulted equality compares position and stride; `Equal` stops when it holds at `end()`. |
| SliceIterators.Iterator.Distance | task2/Slice.hpp:122-124 | `it1 - it2` is `k` whenever the positions are `k` strides apart. |
| SliceIterators.Iterator.Less | task2/Slice.hpp:126 | The defaulted `<=>` compares the position first. On one stride, `<` is position order. |
| SliceIterators.Plus | task2/Slice.hpp:417-422 | `it + n` is a fresh copy moved by `n * stride`. |
| SliceIterators.PlusLeft | task2/Slice.hpp:424-427 | `n + it` is `it + n`. |
| SliceIterators.Minus | task2/Slice.hpp:429-434 | `it - n` is a fresh copy moved back by `n * stride`. |
| SliceIterators.Begin | task2/Slice.hpp:366-372 | `begin()` is at `data_` with the slice's stride. |
| SliceIterators.End | task2/Slice.hpp:374-380 | `end()` is at `data_ + extent * stride` with the slice's stride. |
| SliceIterators.BeginEndDistance | task2/Slice.hpp:122-124 | `end() - begin()` is `Size()`. |
| SliceIterators.FromBegin | task2/Slice.hpp:90-134 | From `begin()`, `i` increments, `+= i` and `[i]` all reach `operator[](i)` (lines 128-134 are `*` and `[]`). |
| SliceIterators.Collect | task2/Slice.hpp:366-380 | A range-for from `begin()` to `end()` visits exactly the logical elements, in order. |
| SliceIterators.Equal | task2/Slice.hpp:406-415 | `operator==` is false on different sizes. Otherwise it holds exactly when every pair of corresponding elements is equal, whatever the two strides. |
| SliceIterators.StridedEqualityScenario | task2/Slice.hpp:406-415 | A stride-1 view of [1, 2, 3] equals a stride-2 view of [1, 9, 2, 9, 3]. |
| Spans.Pointer.Plus | task1/Span.hpp:164-166 | Pointer addition keeps null null (only `+ 0` is allowed on null) and adds to an offset. |
| Spans.MakeExtent | task1/Span.hpp:12-34 | A static holder needs `extent <= size` (the `assert`) and reports `extent`. The dynamic holder reports `size`. Either is at most `size`. |
| Spans.Span.SizeBytes | task1/Span.hpp:118-120 | `SizeBytes()` is `Size() * sizeof(T)`. For a non-zero element size it is 0 exactly when the span is empty. |
| Spans.Span.Empty | task1/Span.hpp:122-124 | `empty()` holds exactly when `Size()` is 0. |
| Spans.Span.End | task1/Span.hpp:164-166 | `end()` is null exactly when the data pointer is. |
| Spans.Span.Front | task1/Span.hpp:96-98 | `Front()` is element 0. |
| Spans.Span.Back | task1/Span.hpp:100-102 | `Back()`, `*(end() - 1)`, is element `Size() - 1`. |
| Spans.Span.Size | task1/Span.hpp:114-116 | `Size()` is `GetExtent()`; `Elements` states that a span has that many elements. |
| Spans.Span.Data | task1/Span.hpp:108-110 | `Data()` is `data_`; `FromCount` and `FromRange` state where it points. |
| Spans.Span.Begin | task1/Span.hpp:148-150 | `begin()` is `data_`; `EndMinusBegin` states its distance to `end()`. |
| Spans.Span.At | task1/Span.hpp:104-106 | `operator[](index)` reads `data_[index]`; `Elements` states the elements it reads. |
| Spans.Span.Elements | task1/Span.hpp:104-106 | Has `Size()` elements, and element `i` is `data_[i]`. |
| Spans.Span.FirstStatic | task1/Span.hpp:128-131 | `First<Count>()` is a valid span at `Data()` with static extent `Count`, holding the first `Count` elements. |
| Spans.Span.First | task1/Span.hpp:133-135 | `First(count)` holds the first `count` elements, with a dynamic extent. |
| Spans.Span.LastStatic | task1/Span.hpp:137-140 | `Last<Count>()` starts at `Data() + Size() - Count` and holds the last `Count` elements. |
| Spans.Span.Last | task1/Span.hpp:142-144 | `Last(count)` holds the last `count` elements, with a dynamic extent. |
| Spans.Default | task1/Span.hpp:64-67 | `Span()` is null and empty. It is offered for extent 0 or dynamic only. |
| Spans.FromCount | task1/Span.hpp:69-72 | `Span(first, count)` starts at `first`. Its size is `count`, or the static extent. Its elements are the buffer from `first`. |
| Spans.FromRange | task1/Span.hpp:74-77 | `Span(first, last)` has size `last - first` (or the static extent) and holds `buf[first..]` of that length. |
| Spans.FromContainer | task1/Span.hpp:79-83 | For a non-empty range, `Span(range)` starts at the range's first element and holds its first `Size()` elements. |
| Spans.EndMinusBegin | task1/Span.hpp:148-166 | `end() - begin()` is `Size()`; for a null span both are `nullptr` and the size is 0. |
| Spans.FirstLastPartition | task1/Span.hpp:133-144 | `First(n)` followed by `Last(Size() - n)` is the whole span. |
| TypeLists.FromTuple | task3/type_lists.hpp:34-51 | `FromTuple<TTuple<Ts...>>` holds `Ts...` in order. |
| TypeLists.ToTupleImpl | task3/type_lists.hpp:53-62 | The accumulating walk yields the accumulated pack followed by the list's elements. |
| TypeLists.ToTuple | task3/type_lists.hpp:64-67 | `ToTuple<TL>` holds the list's elements in order. |
| TypeLists.TupleRoundTrip | task3/type_lists.hpp:34-67 | `ToTuple<FromTuple<T>>` is `T`, and `FromTuple<ToTuple<L>>` is `L`. |
| TypeLists.Repeat | task3/type_lists.hpp:69-74 | Every element of `Repeat<T>` is `T`. |
| TypeLists.Take | task3/type_lists.hpp:76-91 | `Take<N, L>` is the first `min(N, |L|)` elements of a finite list. |
| TypeLists.TakeStream | task3/type_lists.hpp:76-91 | `Take<N, S>` of an infinite list has `N` elements, element `i` being element `i` of `S`. |
| TypeLists.Drop | task3/type_lists.hpp:93-112 | `Drop<N, L>` is what follows the first `min(N, |L|)` elements. |
| TypeLists.DropStreamAt | task3/type_lists.hpp:93-112 | Element `i` of `Drop<N, S>` is element `i + N` of `S`. |
| TypeLists.DropStream | task3/type_lists.hpp:93-112 | `Drop<N, S>` on an infinite list takes `N` tails; `DropStreamAt` states its elements. |
| TypeLists.TakeStreamSplit | task3/type_lists.hpp:76-112 | The first `m` elements are the first `n` followed by the first `m - n` of `Drop<n, S>`. |
| TypeLists.TakeDrop | task3/type_lists.hpp:76-112 | `Take<N, L>` followed by `Drop<N, L>` is `L`. |
| TypeLists.Replicate | task3/type_lists.hpp:114-128 | `Replicate<N, T>` is `N` copies of `T`. |
| TypeLists.TakeRepeat | task3/type_lists.hpp:69-128 | `Take<N, Repeat<T>>` is `Replicate<N, T>`. |
| TypeLists.Map | task3/type_lists.hpp:130-140 | `Map<F, L>` has `L`'s length, and element `i` is `F` of element `i`. |
| TypeLists.MapStream | task3/type_lists.hpp:130-140 | On an infinite list, element `i` of `Map<F, S>` is `F` of element `i`. |
| TypeLists.Filter | task3/type_lists.hpp:142-185 | `Filter<P, L>` holds exactly the elements of `L` satisfying `P`, as a subsequence of `L`. |
| TypeLists.FilterCounts | task3/type_lists.hpp:142-185 | Each satisfying element is kept as often as it occurs. The others are not kept at all. |
| TypeLists.FilterAppend | task3/type_lists.hpp:142-185 | Filtering distributes over concatenation, so the order of `L` is kept. |
| TypeLists.FilterAsWritten | task3/type_lists.hpp:164-180 | When the as-written instantiation is well-formed, its result is `Filter<P, L>`. |
| TypeLists.FilterAsWrittenFails | task3/type_lists.hpp:164-180 | The as-written `Filter<P, L>` is ill-formed exactly when `L` is non-empty and its last element fails `P`. |
| TypeLists.FilterAsWrittenCounterexample | task3/type_lists.hpp:164-180 | Filtering `[1]` by "is even" is ill-formed as written, where the empty list is meant. |
| TypeLists.Iterate | task3/type_lists.hpp:187-197 | `Iterate<F, T>` starts with `T`, and element `n` is the head after `n` tails. |
| TypeLists.IteratePower | task3/type_lists.hpp:187-197 | Element `n` is `F` applied `n` times to `T`, so each element is `F` of the previous one. |
| TypeLists.Cycle | task3/type_lists.hpp:199-220 | `Cycle<L>` is `Nil` exactly when `L` is the empty list, and is infinite otherwise, for finite and infinite `L` alike. |
| TypeLists.CycleAt | task3/type_lists.hpp:199-220 | Element `i` of `Cycle<L>` is element `i mod |L|` of `L`. |
| TypeLists.CycleOfInfinite | task3/type_lists.hpp:199-208 | For an infinite `L` the walk never reaches the end, so element `i` of `Cycle<L>` is element `i` of `L`. |
| TypeLists.StreamCycleAt | task3/type_lists.hpp:201-204 | The head after `n` tails of `CycleImpl` over an infinite list; `CycleOfInfinite` states its value. |
| TypeLists.InitsImpl | task3/type_lists.hpp:223-234 | `Inits<L, Ts...>` has `|L| + 1` elements, element `i` being `Ts...` followed by the first `i` of `L`. |
| TypeLists.Inits | task3/type_lists.hpp:223-234 | `Inits<L>` has `|L| + 1` elements, and element `i` is `Take<i, L>`. |
| TypeLists.Tails | task3/type_lists.hpp:236-247 | `Tails<L>` has `|L| + 1` elements, element `i` is `Drop<i, L>`, and the last one is `Nil`. |
| TypeLists.Scanl | task3/type_lists.hpp:249-264 | `Scanl<OP, T, L>` has `|L| + 1` elements, starts with `T`, and each next element is `OP` of the previous one and the next element of `L`. |
| TypeLists.FoldlIsFoldLeftOfReverse | task3/type_lists.hpp:266-280 | `Foldl<OP, T, L>` as written is the left fold of `L` reversed. |
| TypeLists.Foldl | task3/type_lists.hpp:266-280 | `Foldl` as written; `FoldlIsFoldLeftOfReverse` and `FoldlCounterexample` state what it computes. |
| TypeLists.FoldLeft | task3/type_lists.hpp:266-280 | The corrected left fold; `FoldLeftAppend` and `ScanlLastIsFoldLeft` state what it computes. |
| TypeLists.FoldlCounterexample | task3/type_lists.hpp:266-280 | With `OP(x, y) = 10x + y`, `T = 0` and `L = [1, 2]`: as written the fold gives 21, the left fold gives 12, and so does the last element of `Scanl`. |
| TypeLists.FoldLeftAppend | task3/type_lists.hpp:266-280 | The corrected left fold over `a ++ b` folds `b` starting from the fold of `a`. |
| TypeLists.ScanlLastIsFoldLeft | task3/type_lists.hpp:249-280 | The last element of `Scanl` is the corrected left fold. |
| TypeLists.Zip2 | task3/type_lists.hpp:282-296 | `Zip2<L, R>` has the shorter length, and element `i` is the pair of the two elements `i`. |
| FunValueSequences.PlusOne | task3/fun_value_sequences.hpp:11-12 | `PlusOne` yields a larger value. |
| FunValueSequences.Nats | task3/fun_value_sequences.hpp:15 | `Iterate<PlusOne, 0>`; `NatsAt` states that element `i` is `i`. |
| FunValueSequences.NatsAt | task3/fun_value_sequences.hpp:15 | Element `i` of `Nats` is `i`. |
| FunValueSequences.FibPairsAt | task3/fun_value_sequences.hpp:19-20 | Element `n` of `Iterate<FibNext, (0, 1)>` is `(F(n), F(n - 1))`. |
| FunValueSequences.FibNext | task3/fun_value_sequences.hpp:19-20 | `(a, b)` steps to `(a + b, a)`; `FibPairsAt` states the pairs this yields. |
| FunValueSequences.DropSecond | task3/fun_value_sequences.hpp:22-23 | Keeps the first of the pair; `FibIsFibonacci` states the values this yields. |
| FunValueSequences.Fib | task3/fun_value_sequences.hpp:26-32 | `Map<DropSecond, Iterate<FibNext, (0, 1)>>`; `FibIsFibonacci` states its elements. |
| FunValueSequences.FibIsFibonacci | task3/fun_value_sequences.hpp:26-32 | Element `n` of `Fib` is the `n`-th Fibonacci number. |
| FunValueSequences.FibRecurrence | task3/fun_value_sequences.hpp:26-32 | `Fib` starts 0, 1, and each element is the sum of the two before it. |
| FunValueSequences.IsPrimeHelper | task3/fun_value_sequences.hpp:36-44 | Tests the divisors from `D` down to 2; `IsPrimeHelperMeaning` states its meaning. |
| FunValueSequences.IsPrime | task3/fun_value_sequences.hpp:46-59 | `false` for 0 and 1, otherwise `IsPrimeHelper<N, N - 1>`; `IsPrimeMeaning` states its meaning. |
| FunValueSequences.IsPrimeHelperMeaning | task3/fun_value_sequences.hpp:36-44 | `IsPrimeHelper<N, D>` holds exactly when no value in [2, D] divides `N`. |
| FunValueSequences.IsPrimeMeaning | task3/fun_value_sequences.hpp:46-59 | `IsPrime` holds exactly for values at least 2 with no divisor strictly between 1 and the value. |
| FunValueSequences.SmallPrimes | task3/fun_value_sequences.hpp:46-59 | 2, 3, 5 and 7 pass. 0, 1, 4, 6 and 9 do not. |
| FunValueSequences.FilterKeepsIncreasing | task3/type_lists.hpp:142-185 | Filtering a strictly increasing list leaves it strictly increasing. |
| FunValueSequences.PrimesBelow | task3/fun_value_sequences.hpp:62-65 | The part of `Primes` drawn from the naturals below `n` holds exactly the primes below `n`, in increasing order. |
| FunValueSequences.PrimesBelowPrefix | task3/fun_value_sequences.hpp:62-65 | A shorter prefix of the naturals gives a prefix of the primes, so the finite prefixes form one list. |
| EnumeratorTraits.EnumType.MinLimit | task6/EnumeratorTraits.hpp:60-61 | `MIN_LIMIT` is the larger of `-MAXN` and the underlying type's minimum, except for a 64-bit unsigned type, where the comparison converts `-MAXN` to unsigned and `MIN_LIMIT` is `-MAXN`. |
| EnumeratorTraits.EnumType.MaxLimit | task6/EnumeratorTraits.hpp:62 | `MAX_LIMIT` is the smaller of `MAXN` and the underlying type's maximum. |
| EnumeratorTraits.EnumType.IterationLimit | task6/EnumeratorTraits.hpp:63 | `ITERATION_LIMIT` is the larger of `-MIN_LIMIT` and `MAX_LIMIT`, so `[-L, L]` covers the limits. |
| EnumeratorTraits.EnumType.SatisfyLimits | task6/EnumeratorTraits.hpp:65-67 | `MIN_LIMIT <= index <= MAX_LIMIT`; `ItemsAreTheValidElements` states its role. |
| EnumeratorTraits.EnumType.EnumValue | task6/EnumeratorTraits.hpp:100-104 | `static_cast<Enum>(index)` is the integral conversion to the fixed underlying type: the result lies in that type's range, equals the index when the index is representable, and differs from it by a multiple of the type's width. |
| EnumeratorTraits.NarrowCasts | task6/EnumeratorTraits.hpp:69-73 | For `std::uint8_t` with the default `MAXN` the probed -1, outside the limits, casts to 255 and -255 to 1; for `std::int8_t` the probed 128 casts to -128. |
| EnumeratorTraits.EnumType.IsValidElement | task6/EnumeratorTraits.hpp:69-73 | Inside the limits and spelled as a name rather than a `(`-cast; `ValidInMembers` states what it selects. |
| EnumeratorTraits.ValidInSameSpelling | task6/EnumeratorTraits.hpp:69-73 | Two spellings that agree inside the limits select the same values of any range, because the limits are tested first. |
| EnumeratorTraits.SpellingOutsideLimits | task6/EnumeratorTraits.hpp:69-73 | Changing the spelling of values outside the limits changes neither the items, nor the enumerators, nor the names. |
| EnumeratorTraits.EnumType.Enumerators | task6/EnumeratorTraits.hpp:91-109 | `enum_items` holds `static_cast<Enum>` of each item, in the items' order. |
| EnumeratorTraits.EnumType.Names | task6/EnumeratorTraits.hpp:111-132 | One name per item, in the items' order: the name of item `i` is `getEnumItemName` of its spelling. |
| EnumeratorTraits.ItemName | task6/EnumeratorTraits.hpp:30-38 | `getEnumItemName` is the suffix after the last `:`, which holds no `:`. Without a `:` the spelling is unchanged. |
| EnumeratorTraits.LastIndexOf | task6/EnumeratorTraits.hpp:33 | `rfind(':')` is the last position holding `:`, or `npos` (-1). |
| EnumeratorTraits.ValidInMembers | task6/EnumeratorTraits.hpp:65-73 | The probed values kept in [lo, hi] are exactly those inside the limits whose spelling does not start with `(`. |
| EnumeratorTraits.ValidInIncreasing | task6/EnumeratorTraits.hpp:65-73 | The kept values come out strictly increasing. |
| EnumeratorTraits.ItemsAreTheValidElements | task6/EnumeratorTraits.hpp:65-73 | The items are exactly the values that satisfy the limits and are spelled as names, in increasing order. |
| EnumeratorTraits.EnumeratorsAreItems | task6/EnumeratorTraits.hpp:100-104 | Outside the 64-bit unsigned case the cast changes no item. |
| EnumeratorTraits.WideUnsignedItems | task6/EnumeratorTraits.hpp:60-73 | A 64-bit unsigned enum named only at 0 and 2^64 - 1 has `MIN_LIMIT == -MAXN`, items -1 and 0, and enumerators 2^64 - 1 and 0. |
| EnumeratorTraits.WideUnsignedScenario | task6/EnumeratorTraits.hpp:60-132 | `enum class E : std::uint64_t { A = 0, B = ~0ull }` has size 2, with B first, named "B", and A second, named "A". |
| EnumeratorTraits.GetEnumSize | task6/EnumeratorTraits.hpp:75-87 | Counting `Is` and `-Is` for `Is` in [0, L] gives the number of items. |
| EnumeratorTraits.PutFront | task6/EnumeratorTraits.hpp:99-101 | `data[start_index++] = v` extends the front part by `v` and leaves the back part alone. |
| EnumeratorTraits.PutBack | task6/EnumeratorTraits.hpp:102-104 | `data[end_index--] = v` extends the back part at its start and leaves the front part alone. |
| EnumeratorTraits.ItemsStep | task6/EnumeratorTraits.hpp:97-105 | One step of the fold places `static_cast<Enum>(-index)` at the front and `static_cast<Enum>(index)` at the back, each when valid. |
| EnumeratorTraits.GetEnumItems | task6/EnumeratorTraits.hpp:91-109 | For `index` from L down to 0, the two cursors fill the array, which comes out as the enumerators of the items in increasing order of the probed values. |
| EnumeratorTraits.NamesStep | task6/EnumeratorTraits.hpp:117-125 | One step of the names fold, as `ItemsStep`, storing names. |
| EnumeratorTraits.GetEnumNames | task6/EnumeratorTraits.hpp:111-129 | The names fold fills the array with the item names, in the items' order. |
| EnumeratorTraits.Traits.constructor | task6/EnumeratorTraits.hpp:89-132 | `enum_size`, `enum_items` and `enum_names` are computed once and agree with the items and names. |
| EnumeratorTraits.Traits.Size | task6/EnumeratorTraits.hpp:45-47 | `size()` is the number of valid enumerators. |
| EnumeratorTraits.Traits.At | task6/EnumeratorTraits.hpp:49-51 | `at(i)` is `static_cast<Enum>` of the `i`-th valid probed value, which is valid, and lies in the underlying range. |
| EnumeratorTraits.Traits.NameAt | task6/EnumeratorTraits.hpp:53-55 | `nameAt(i)` is the name of the `i`-th enumerator. |
| FixedStrings.FixedString.constructor | task4/FixedString.hpp:10-13 | The storage is value-initialised and then gets the first `length` characters of the literal. The rest of the capacity is `'\0'`. |
| FixedStrings.FixedString.View | task4/FixedString.hpp:15-17 | The `string_view` has `length` characters, those stored first. |
| FixedStrings.Cstr | task4/FixedString.hpp:23-25 | `_cstr` gives a capacity-256 string whose view is the literal, with the rest zero-filled. |
| FixedStrings.LiteralRoundTrip | task4/FixedString.hpp:10-25 | Viewing a `_cstr` literal gives the literal back, and the unused capacity is all `'\0'`. |

## Left out

- Writes through the views are left out. `reference` results are modelled as read values, and aliasing between views of one buffer is not modelled.
- Machine integers are left out. `size_t` and `ptrdiff_t` wrap-around is not modelled: each view's `Valid()` keeps every address inside its buffer, so no computation of a valid view overflows. `GetStride()` returns the stored `ptrdiff_t` converted to `size_t`, and `Stride()` converts it back. The model reads that round trip as the identity, which it is modulo 2^64.
- Slices.Slice.Skip: requires a positive skip. The C++ code takes any `ptrdiff_t`. For 0 it divides by zero; for negative values its `size_t` size arithmetic has no meaningful result.
- Slices.Slice.First (and the other subviews of both views): require `count <= Size()`. The C++ code does not check this; a larger count gives a view past the end.
- Slices.Slice.Retype: the conversion operators on lines 208-240 are modelled by the value each is evidently meant to return. This covers `ToDynamicExtent`, `ToDynamic`, `ToReadOnly`, `ToReadOnlyDynamicExtent`, `ToReadOnlyDynamicStride` and `ToReadOnlyDynamic`. All but the one on lines 213-216 (`ToDynamicStride`) return the bare `Slice(...)`, which inside the class template is the injected-class-name, so it builds the current specialisation. Returning that as the target type needs the same conversion again, so read literally those operators call themselves without end. A non-terminating conversion has no value to model.
- Slices.Slice.ToDynamicExtent: modelled by the value it is evidently meant to return, for the reason on the `Slices.Slice.Retype` line: its bare `Slice(...)` at line 210 calls the conversion again without end.
- Slices.Slice.ToDynamic: modelled by the value it is evidently meant to return, for the reason on the `Slices.Slice.Retype` line: its bare `Slice(...)` at line 220 calls the conversion again without end.
- Slices.Slice.ToReadOnly: modelled by the value it is evidently meant to return, for the reason on the `Slices.Slice.Retype` line: its bare `Slice(...)` at line 224 calls the conversion again without end.
- Slices.Slice.ToReadOnlyDynamicExtent: modelled by the value it is evidently meant to return, for the reason on the `Slices.Slice.Retype` line: its bare `Slice(...)` at line 229 calls the conversion again without end.
- Slices.Slice.ToReadOnlyDynamicStride: modelled by the value it is evidently meant to return, for the reason on the `Slices.Slice.Retype` line: its bare `Slice(...)` at line 234 calls the conversion again without end.
- Slices.Slice.ToReadOnlyDynamic: modelled by the value it is evidently meant to return, for the reason on the `Slices.Slice.Retype` line: its bare `Slice(...)` at line 239 calls the conversion again without end.
- Slices.FromPointer: requires that a static extent or stride template argument equals the runtime count or skip given (`Holders.Agrees`). The C++ code accepts a mismatch: the static holder then silently keeps its template argument, as `Holders.StaticIgnoresArgument` states. Every deduction guide and every internal call meets the requirement, so the model does not cover views built with a mismatch.
- Slices.FromContainer: requires, for the same reason as `Slices.FromPointer`, that a static extent equals the container's size and a static stride is 1.
- Slices.Slice.Retype: requires, for the same reason as `Slices.FromPointer`, that the target's static extent and stride equal the view's size and stride.
- Slices.Cast: requires, for the same reason as `Slices.FromPointer`, that the target's static extent and stride equal the source view's size and stride.
- The `Slice()` default constructor (lines 172-175) leaves `data_` uninitialised, so there is no value to model. `data()`/`size()` are the same as `Data()`/`Size()`. `cbegin`/`cend` are modelled by `Begin`/`End`. `operator->` is not modelled.
- Reverse iterators (`rbegin`, `rend` and their const forms) are not modelled, in either view.
- Element constness appears only as the `readOnly` flag of a slice; the type system's checks on `const T` are not modelled.
- Span's constructor from `std::span` (Span.hpp:85-88) is not modelled.
- Spans.Span.SizeBytes: `sizeof(T)` is a parameter.
- Spans.FromContainer: requires a non-empty range. The C++ constructor takes `&*begin(range)`, which dereferences past the end of an empty range, so it has no defined result there.
- The `assert(extent <= size)` of the static Span holder is a precondition of `MakeExtent`, not a runtime abort.
- EnumeratorTraits: reading the enumerator spelling out of `__PRETTY_FUNCTION__` is not modelled. This covers `helper`, `getTypeString` and the offsets `kLeftShift`/`kRightShift`. The spelling is the input `text`. `Valid()` asks that every spelling is non-empty, that the underlying range holds 0, and that `MAXN` fits a `size_t`.
- EnumeratorTraits: `IsValidElement` tests `SatisfyLimits` first (task6/EnumeratorTraits.hpp:71), so the spelling of a value outside the limits never affects the result. The model's `&&` does the same, so `text` of such a value is never consulted.
- EnumeratorTraits: the parameter-pack folds are modelled as `for` loops over the same index order. For an empty enum, `end_index = enum_size - 1` wraps to the largest `size_t`; the model uses -1, and no write happens in either case.
- FixedStrings.FixedString.constructor: requires `length <= max_length` and a literal at least `length` long. The C++ code copies without checking either.
- FixedStrings: `max_length` is the capacity of the `storage` array, not a type parameter.
- `Nats`, `Fib` and `IsPrime` use unbounded integers. `int` overflow of large Fibonacci numbers is not modelled. `IsPrime` is modelled for non-negative tags, the only ones `Nats` produces; the C++ code recurses without end on negative ones.
- FunValueSequences.PrimesBelow: the infinite `Primes = Filter<IsPrime, Nats>` is modelled by its finite prefixes, the primes drawn from the first `n` naturals. A lazily filtered stream has no total definition in Dafny.
- TypeLists.DropStream: its pointwise meaning is the lemma `DropStreamAt` rather than an `ensures` clause.
- TypeLists: `Inits`, `Tails`, `Scanl` and `Zip2` are modelled on finite lists only. `Take`, `Drop`, `Map` and `Cycle` are modelled on both kinds.
- TypeLists.Filter: modelled on finite lists only. On an infinite list (as in `Primes`) the lazy filter has no total definition in Dafny.
- TypeLists: the unfinished variadic `Zip` (type_lists.hpp:298 onward) is not modelled.
- TypeLists: the `TypeList`/`TypeSequence`/`Empty` concepts are not modelled; they are the datatype's constructors.
- `task3/value_types.hpp` is not part of this model: `ValueTag<v>` is `v`.
- `task4/PolymorphicMapper.hpp`, `task5/Spy.hpp` and `task7/reflect.hpp` are not part of this model.

## Findings

| source | as written | input that shows it | evidently intended | confidence | as-written member | corrected member |
|---|---|---|---|---|---|---|
| task3/type_lists.hpp:266-280 | `FoldlImpl` computes `OP<Foldl<OP, T, TL::Tail>, TL::Head>`, so the last element is folded first: a left fold of the reversed list | `OP(x, y) = 10x + y`, `T = 0`, `TL = [1, 2]`: gives 21, while the left fold (and the last element of `Scanl`) gives 12 | `Foldl<OP, OP<T, Head>, Tail>`, a left fold `OP(... OP(OP(T, L0), L1) ..., Ln)` agreeing with `Scanl` | medium, not executed | TypeLists.Foldl (TypeLists.FoldlIsFoldLeftOfReverse, TypeLists.FoldlCounterexample) | TypeLists.FoldLeft (TypeLists.FoldLeftAppend, TypeLists.ScanlLastIsFoldLeft) |
| task3/type_lists.hpp:164-180 | `FilterImpl<P, TL, false>` re-declares `Head` and `Tail` with `using` from its base `Filter<P, TL::Tail>`. When that rest filters to nothing, the base is `FilterImpl<P, Nil>`, which derives from the empty `Nil` and has its `Head`/`Tail` commented out, so the instantiation is ill-formed | `P` = "is even", `TL = [1]` (or any finite list whose last element fails `P`): traversing `Filter<P, TL>` fails to instantiate | the filtered list, the empty list when nothing after a rejected head is kept | medium, not executed | TypeLists.FilterAsWritten (TypeLists.FilterAsWrittenFails, TypeLists.FilterAsWrittenCounterexample) | TypeLists.Filter (TypeLists.FilterCounts, TypeLists.FilterAppend) |
