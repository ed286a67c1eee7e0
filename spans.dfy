/** The contiguous view `Span<T, extent>` of task1/Span.hpp: a data pointer
    and an extent holder; the stride is always 1. */
module Spans {
  import opened Holders

  /** A data pointer: null, or an offset into the span's buffer. */
  datatype Pointer = Null | Ptr(offset: int) {

    /** Pointer arithmetic `p + n`; only `nullptr + 0` is defined on null. */
    function Plus(n: int): (q: Pointer)
      requires Ptr? || n == 0
      ensures q.Ptr? == Ptr? && (Ptr? ==> q.offset == offset + n)
    {
      if Null? then Null else Ptr(offset + n)
    }
  }

  /** `detail::ExtentHolder<extent>` of task1: the static form stores nothing
      and reports `extent`; `ExtentHolder<dynamic_extent>` stores the size. */
  datatype ExtentHolder = Fixed(extent: nat) | Runtime(size: nat) {

    /** `GetExtent()`. */
    function GetExtent(): nat {
      match this
      case Fixed(e) => e
      case Runtime(s) => s
    }
  }

  /** The constructor `ExtentHolder<extent>(size)`. The static form asserts
      `extent <= size` and keeps `extent`; the dynamic form keeps `size`. */
  function MakeExtent(extent: nat, size: nat): (h: ExtentHolder)
    requires extent == DynamicExtent || extent <= size
    ensures h.Fixed? <==> extent != DynamicExtent
    ensures h.GetExtent() == if extent == DynamicExtent then size else extent
    ensures h.GetExtent() <= size
  {
    if extent == DynamicExtent then Runtime(size) else Fixed(extent)
  }

  /** `Span<T, extent>` over `buf`. */
  datatype Span<T> = Span(buf: seq<T>, data: Pointer, holder: ExtentHolder) {

    /** `Size()`. */
    function Size(): nat { holder.GetExtent() }

    /** `Data()`. */
    function Data(): Pointer { data }

    /** `SizeBytes()`: `Size() * sizeof(T)`, the element size being a parameter. */
    function SizeBytes(sizeOfT: nat): (b: nat)
      ensures sizeOfT > 0 ==> (b == 0 <==> Empty())
      ensures b == Size() * sizeOfT
    {
      Size() * sizeOfT
    }

    /** `empty()`. */
    function Empty(): (b: bool)
      ensures b <==> Size() == 0
    {
      Size() == 0
    }

    /** The template argument: `dynamic_extent` or the static extent. */
    function ExtentParam(): int {
      match holder
      case Fixed(e) => e
      case Runtime(_) => DynamicExtent
    }

    /** The caller's contract: a null span is empty, a non-null one lies
        inside its buffer. */
    predicate Valid() {
      (holder.Fixed? ==> holder.extent != DynamicExtent) &&
      match data
      case Null => Size() == 0
      case Ptr(off) => 0 <= off && off + Size() <= |buf|
    }

    /** `begin()`: the data pointer. */
    function Begin(): Pointer { data }

    /** `end()`: `data_ + Size()`. */
    function End(): (p: Pointer)
      requires Valid()
      ensures p.Ptr? == data.Ptr?
    {
      data.Plus(Size())
    }

    /** `operator[](index)`: `data_[index]`. */
    function At(i: int): T
      requires Valid() && 0 <= i < Size()
    {
      buf[data.offset + i]
    }

    /** `Front()`: `*begin()`. */
    function Front(): (x: T)
      requires Valid() && Size() > 0
      ensures x == At(0)
    {
      buf[Begin().offset]
    }

    /** `Back()`: `*(end() - 1)`. */
    function Back(): (x: T)
      requires Valid() && Size() > 0
      ensures x == At(Size() - 1)
    {
      buf[End().offset - 1]
    }

    /** The elements the span covers, element `i` being `At(i)`. */
    function Elements(): (r: seq<T>)
      requires Valid()
      ensures |r| == Size()
      ensures forall i :: 0 <= i < Size() ==> r[i] == At(i)
    {
      seq(Size(), i requires 0 <= i < Size() => At(i))
    }

    /** `First<Count>()`: `Span<T, Count>(Data(), Count)`. */
    function FirstStatic(n: nat): (r: Span<T>)
      requires Valid() && n <= Size() && n != DynamicExtent
      ensures r.Valid() && r.buf == buf && r.Data() == Data() && r.Size() == n
      ensures r.holder == Fixed(n)
      ensures r.Elements() == Elements()[..n]
    {
      Span(buf, Data(), MakeExtent(n, n))
    }

    /** `First(count)`: `Span<T, dynamic_extent>(Data(), count)`. */
    function First(n: nat): (r: Span<T>)
      requires Valid() && n <= Size()
      ensures r.Valid() && r.buf == buf && r.Data() == Data() && r.Size() == n
      ensures r.holder.Runtime?
      ensures r.Elements() == Elements()[..n]
    {
      Span(buf, Data(), MakeExtent(DynamicExtent, n))
    }

    /** `Last<Count>()`: `Span<T, Count>(Data() + Size() - Count, Count)`. */
    function LastStatic(n: nat): (r: Span<T>)
      requires Valid() && n <= Size() && n != DynamicExtent
      ensures r.Valid() && r.buf == buf && r.Data() == Data().Plus(Size() - n) && r.Size() == n
      ensures r.holder == Fixed(n)
      ensures r.Elements() == Elements()[Size() - n..]
    {
      Span(buf, Data().Plus(Size() - n), MakeExtent(n, n))
    }

    /** `Last(count)`: `Span<T, dynamic_extent>(Data() + Size() - count, count)`. */
    function Last(n: nat): (r: Span<T>)
      requires Valid() && n <= Size()
      ensures r.Valid() && r.buf == buf && r.Data() == Data().Plus(Size() - n) && r.Size() == n
      ensures r.holder.Runtime?
      ensures r.Elements() == Elements()[Size() - n..]
    {
      Span(buf, Data().Plus(Size() - n), MakeExtent(DynamicExtent, n))
    }
  }

  /** `Span()`, offered for a zero or dynamic extent: null and empty. */
  function Default<T>(extent: nat): (r: Span<T>)
    requires extent == 0 || extent == DynamicExtent
    ensures r.Valid() && r.Data() == Null && r.Size() == 0 && r.Empty()
  {
    Span([], Null, MakeExtent(extent, 0))
  }

  /** `Span(It first, size_type count)`. A static extent may be smaller than
      `count`; the span then covers only the first `extent` elements. */
  function FromCount<T>(extent: nat, buf: seq<T>, first: int, count: nat): (r: Span<T>)
    requires extent == DynamicExtent || extent <= count
    requires 0 <= first && first + count <= |buf|
    ensures r.Valid() && r.buf == buf && r.Data() == Ptr(first)
    ensures r.Size() == if extent == DynamicExtent then count else extent
    ensures r.Elements() == buf[first..first + r.Size()]
  {
    Span(buf, Ptr(first), MakeExtent(extent, count))
  }

  /** `Span(It first, It last)`: size `last - first`. */
  function FromRange<T>(extent: nat, buf: seq<T>, first: int, last: int): (r: Span<T>)
    requires 0 <= first <= last <= |buf|
    requires extent == DynamicExtent || extent <= last - first
    ensures r.Valid() && r.buf == buf && r.Data() == Ptr(first)
    ensures r.Size() == if extent == DynamicExtent then last - first else extent
    ensures r.Elements() == buf[first..first + r.Size()]
  {
    Span(buf, Ptr(first), MakeExtent(extent, last - first))
  }

  /** `Span(Range&& range)`: the whole contiguous range, size `size(range)`.
      The data pointer is `&*begin(range)`, which dereferences the first
      element, so the range must not be empty. */
  function FromContainer<T>(extent: nat, range: seq<T>): (r: Span<T>)
    requires |range| > 0
    requires extent == DynamicExtent || extent <= |range|
    ensures r.Valid() && r.buf == range && r.Data() == Ptr(0)
    ensures r.Size() == if extent == DynamicExtent then |range| else extent
    ensures r.Elements() == range[..r.Size()]
  {
    Span(range, Ptr(0), MakeExtent(extent, |range|))
  }

  /** `end() - begin() == Size()`: for a null span both are `nullptr` and
      the size is 0. */
  lemma EndMinusBegin<T>(s: Span<T>)
    requires s.Valid()
    ensures s.Data().Null? ==> s.End() == s.Begin() == Null && s.Size() == 0
    ensures s.Data().Ptr? ==> s.End().Ptr? && s.End().offset - s.Begin().offset == s.Size()
  {
  }

  /** `First(n)` and `Last(Size() - n)` split the span in two. */
  lemma FirstLastPartition<T>(s: Span<T>, n: nat)
    requires s.Valid() && n <= s.Size()
    ensures s.First(n).Elements() + s.Last(s.Size() - n).Elements() == s.Elements()
  {
    assert s.Elements()[..n] + s.Elements()[n..] == s.Elements();
  }
}
