/** The strided view `Slice<T, extent, stride>` of task2/Slice.hpp: a data
    pointer (an offset into a buffer), an extent holder and a stride holder.
    Every subview derives a new (data, size, stride) triple over the same
    buffer. */
module Slices {
  import opened Holders
  import opened Common

  /** `Slice<T, extent, stride>` over `buf`, or `Slice<const T, ...>` when
      `readOnly` holds. A static holder stands for a template argument other
      than the dynamic marker. */
  datatype Slice<T> = Slice(buf: seq<T>, data: int, extent: Holder, stride: Holder, readOnly: bool) {

    /** `Size()`, i.e. `GetExtent()`. */
    function Size(): int { extent.Value() }

    /** `Stride()`, i.e. `GetStride()` read as a signed value. */
    function Stride(): int { stride.Value() }

    /** `Data()`. */
    function Data(): int { data }

    /** `empty()`. */
    function Empty(): (b: bool)
      ensures b <==> Size() == 0
    {
      extent.Value() == 0
    }

    /** The template arguments this slice was instantiated with. */
    function ExtentParam(): int { extent.Param(DynamicExtent) }
    function StrideParam(): int { stride.Param(DynamicStride) }

    /** Address of logical element `i`: `data_ + i * stride`. */
    function Addr(i: int): int { data + i * Stride() }

    /** The view's contract: a non-zero stride and every one of the `Size()`
        addresses inside the buffer. Since addresses are affine in the index,
        the two ends suffice (see AddrInBuffer). */
    predicate Valid() {
      extent.WellFormed(DynamicExtent) && stride.WellFormed(DynamicStride) &&
      0 <= Size() <= DynamicExtent && Stride() != 0 &&
      (Size() > 0 ==> 0 <= Addr(0) < |buf| && 0 <= Addr(Size() - 1) < |buf|)
    }

    /** `operator[](pos)`: `data_[pos * stride]`. */
    function At(i: int): T
      requires Valid() && 0 <= i < Size()
    {
      AddrInBuffer(this, i);
      buf[Addr(i)]
    }

    /** `Front()`: `data_[0]`. */
    function Front(): (x: T)
      requires Valid() && Size() > 0
      ensures x == At(0)
    {
      buf[data]
    }

    /** `Back()`: `data_[(extent - 1) * stride]`. */
    function Back(): (x: T)
      requires Valid() && Size() > 0
      ensures x == At(Size() - 1)
    {
      buf[data + (extent.Value() - 1) * stride.Value()]
    }

    /** The logical contents of the view, element `i` being `At(i)`. */
    function Elements(): (r: seq<T>)
      requires Valid()
      ensures |r| == Size()
      ensures forall i :: 0 <= i < Size() ==> r[i] == At(i)
    {
      seq(Size(), i requires 0 <= i < Size() => At(i))
    }

    /** Position reached by `begin()` and by `end()`. */
    function BeginPos(): int { data }
    function EndPos(): int { data + extent.Value() * stride.Value() }

    // ---------------------------------------------------------------
    // Subviews
    // ---------------------------------------------------------------

    /** `First(count)`: `Slice<T, dynamic_extent, stride>(data_, count, stride)`. */
    function First(n: int): (r: Slice<T>)
      requires Valid() && 0 <= n <= Size()
      ensures r.Valid() && r.buf == buf && r.readOnly == readOnly
      ensures r.Data() == Data() && r.Size() == n && r.Stride() == Stride()
      ensures r.extent.Dynamic? && r.stride == stride
      ensures r.Elements() == Elements()[..n]
    {
      var r := Slice(buf, data, ExtentHolder(DynamicExtent, n), StrideHolder(StrideParam(), Stride()), readOnly);
      RemakeIdentity(stride, DynamicStride);
      ShiftedValid(this, r, 0);
      r
    }

    /** `First<count>()`: `Slice<T, count, stride>(data_, count, stride)`. */
    function FirstStatic(n: int): (r: Slice<T>)
      requires Valid() && 0 <= n <= Size() && n != DynamicExtent
      ensures r.Valid() && r.buf == buf && r.readOnly == readOnly
      ensures r.Data() == Data() && r.Size() == n && r.Stride() == Stride()
      ensures r.extent == Static(n) && r.stride == stride
      ensures r.Elements() == Elements()[..n]
    {
      var r := Slice(buf, data, ExtentHolder(n, n), StrideHolder(StrideParam(), Stride()), readOnly);
      RemakeIdentity(stride, DynamicStride);
      ShiftedValid(this, r, 0);
      r
    }

    /** `Last(count)`: starts at `data_ + (extent - count) * stride`. */
    function Last(n: int): (r: Slice<T>)
      requires Valid() && 0 <= n <= Size()
      ensures r.Valid() && r.buf == buf && r.readOnly == readOnly
      ensures r.Data() == Addr(Size() - n) && r.Size() == n && r.Stride() == Stride()
      ensures r.extent.Dynamic? && r.stride == stride
      ensures r.Elements() == Elements()[Size() - n..]
    {
      var r := Slice(buf, data + (Size() - n) * Stride(), ExtentHolder(DynamicExtent, n),
                     StrideHolder(StrideParam(), Stride()), readOnly);
      RemakeIdentity(stride, DynamicStride);
      ShiftedValid(this, r, Size() - n);
      r
    }

    /** `Last<count>()`: the same numbers with a static extent. */
    function LastStatic(n: int): (r: Slice<T>)
      requires Valid() && 0 <= n <= Size() && n != DynamicExtent
      ensures r.Valid() && r.buf == buf && r.readOnly == readOnly
      ensures r.Data() == Addr(Size() - n) && r.Size() == n && r.Stride() == Stride()
      ensures r.extent == Static(n) && r.stride == stride
      ensures r.Elements() == Elements()[Size() - n..]
    {
      var r := Slice(buf, data + (Size() - n) * Stride(), ExtentHolder(n, n),
                     StrideHolder(StrideParam(), Stride()), readOnly);
      RemakeIdentity(stride, DynamicStride);
      ShiftedValid(this, r, Size() - n);
      r
    }

    /** `DropFirst(count)`: starts at `data_ + count * stride`, size `extent - count`. */
    function DropFirst(n: int): (r: Slice<T>)
      requires Valid() && 0 <= n <= Size()
      ensures r.Valid() && r.buf == buf && r.readOnly == readOnly
      ensures r.Data() == Addr(n) && r.Size() == Size() - n && r.Stride() == Stride()
      ensures r.extent.Dynamic? && r.stride == stride
      ensures r.Elements() == Elements()[n..]
    {
      var r := Slice(buf, data + n * Stride(), ExtentHolder(DynamicExtent, Size() - n),
                     StrideHolder(StrideParam(), Stride()), readOnly);
      RemakeIdentity(stride, DynamicStride);
      ShiftedValid(this, r, n);
      r
    }

    /** `DropFirst<count>()`: forwards to `DropFirst(count)` on a dynamic
        extent, and yields the static extent `extent - count` otherwise. */
    function DropFirstStatic(n: int): (r: Slice<T>)
      requires Valid() && 0 <= n <= Size()
      ensures r.Valid() && r.buf == buf && r.readOnly == readOnly
      ensures r.Data() == Addr(n) && r.Size() == Size() - n && r.Stride() == Stride()
      ensures r.extent.Static? == extent.Static? && r.stride == stride
      ensures r.Elements() == Elements()[n..]
    {
      if extent.Dynamic? then DropFirst(n)
      else
        var r := Slice(buf, data + n * Stride(), ExtentHolder(ExtentParam() - n, ExtentParam() - n),
                       StrideHolder(StrideParam(), Stride()), readOnly);
        RemakeIdentity(stride, DynamicStride);
        ShiftedValid(this, r, n);
        r
    }

    /** `DropLast(count)`: keeps `data_`, size `extent - count`. */
    function DropLast(n: int): (r: Slice<T>)
      requires Valid() && 0 <= n <= Size()
      ensures r.Valid() && r.buf == buf && r.readOnly == readOnly
      ensures r.Data() == Data() && r.Size() == Size() - n && r.Stride() == Stride()
      ensures r.extent.Dynamic? && r.stride == stride
      ensures r.Elements() == Elements()[..Size() - n]
    {
      var r := Slice(buf, data, ExtentHolder(DynamicExtent, Size() - n),
                     StrideHolder(StrideParam(), Stride()), readOnly);
      RemakeIdentity(stride, DynamicStride);
      ShiftedValid(this, r, 0);
      r
    }

    /** `DropLast<count>()`: as `DropLast(count)`, static when the extent is. */
    function DropLastStatic(n: int): (r: Slice<T>)
      requires Valid() && 0 <= n <= Size()
      ensures r.Valid() && r.buf == buf && r.readOnly == readOnly
      ensures r.Data() == Data() && r.Size() == Size() - n && r.Stride() == Stride()
      ensures r.extent.Static? == extent.Static? && r.stride == stride
      ensures r.Elements() == Elements()[..Size() - n]
    {
      if extent.Dynamic? then DropLast(n)
      else
        var r := Slice(buf, data, ExtentHolder(ExtentParam() - n, ExtentParam() - n),
                       StrideHolder(StrideParam(), Stride()), readOnly);
        RemakeIdentity(stride, DynamicStride);
        ShiftedValid(this, r, 0);
        r
    }

    // ---------------------------------------------------------------
    // Skips
    // ---------------------------------------------------------------

    /** `Skip(skip)`: every `k`-th element from index 0, as a
        `Slice<T, dynamic_extent, dynamic_stride>` of size `(extent + k - 1) / k`
        and stride `k * stride`. */
    function Skip(k: int): (r: Slice<T>)
      requires Valid() && k > 0
      ensures r.Valid() && r.buf == buf && r.readOnly == readOnly
      ensures r.Data() == Data() && r.Stride() == k * Stride()
      ensures r.Size() * k >= Size() && (r.Size() - 1) * k < Size()
      ensures r.extent.Dynamic? && r.stride.Dynamic?
      ensures forall i :: 0 <= i < r.Size() ==> 0 <= i * k < Size() && r.At(i) == At(i * k)
    {
      var r := Slice(buf, data, ExtentHolder(DynamicExtent, (Size() + k - 1) / k),
                     StrideHolder(DynamicStride, k * Stride()), readOnly);
      SkipFacts(this, k, r);
      r
    }

    /** `Skip<skip>()`: the same numbers as `Skip(k)`, in four variants that
        keep a static extent static and a static stride static. */
    function SkipStatic(k: int): (r: Slice<T>)
      requires Valid() && k > 0
      requires extent.Static? ==> (ExtentParam() + k - 1) / k != DynamicExtent
      requires stride.Static? ==> StrideParam() * k != DynamicStride
      ensures r.Valid() && r.buf == buf && r.readOnly == readOnly
      ensures r.Data() == Data() && r.Stride() == k * Stride()
      ensures r.Size() * k >= Size() && (r.Size() - 1) * k < Size()
      ensures r.extent.Static? == extent.Static? && r.stride.Static? == stride.Static?
      ensures forall i :: 0 <= i < r.Size() ==> 0 <= i * k < Size() && r.At(i) == At(i * k)
    {
      var r :=
        if extent.Dynamic? && stride.Dynamic? then
          Slice(buf, data, ExtentHolder(DynamicExtent, (Size() + k - 1) / k),
                StrideHolder(DynamicStride, k * Stride()), readOnly)
        else if extent.Dynamic? then
          Slice(buf, data, ExtentHolder(DynamicExtent, (Size() + k - 1) / k),
                StrideHolder(StrideParam() * k, StrideParam() * k), readOnly)
        else if stride.Dynamic? then
          Slice(buf, data, ExtentHolder((ExtentParam() + k - 1) / k, (ExtentParam() + k - 1) / k),
                StrideHolder(DynamicStride, Stride() * k), readOnly)
        else
          Slice(buf, data, ExtentHolder((ExtentParam() + k - 1) / k, (ExtentParam() + k - 1) / k),
                StrideHolder(k * StrideParam(), k * StrideParam()), readOnly);
      SkipFacts(this, k, r);
      r
    }

    // ---------------------------------------------------------------
    // Conversions
    // ---------------------------------------------------------------

    /** `Slice<T', extent', stride'>(data_, GetExtent(), GetStride())`: the
        value every conversion operator builds. */
    function Retype(ro: bool, extentParam: int, strideParam: int): (r: Slice<T>)
      requires Valid()
      requires Agrees(extentParam, DynamicExtent, Size()) && Agrees(strideParam, DynamicStride, Stride())
      ensures r.Valid() && r.buf == buf && r.readOnly == ro
      ensures r.Data() == Data() && r.Size() == Size() && r.Stride() == Stride()
      ensures r.ExtentParam() == extentParam && r.StrideParam() == strideParam
      ensures r.Elements() == Elements()
    {
      var r := Slice(buf, data, ExtentHolder(extentParam, Size()), StrideHolder(strideParam, Stride()), ro);
      ShiftedValid(this, r, 0);
      r
    }

    /** `operator Slice<T, dynamic_extent, stride>()`, offered when the extent is static. */
    function ToDynamicExtent(): (r: Slice<T>)
      requires Valid() && extent.Static?
      ensures r.Valid() && r.buf == buf && r.readOnly == readOnly
      ensures r.Data() == Data() && r.Size() == Size() && r.Stride() == Stride()
      ensures r.extent.Dynamic? && r.stride == stride
    {
      RemakeIdentity(stride, DynamicStride);
      Retype(readOnly, DynamicExtent, StrideParam())
    }

    /** `operator Slice<T, extent, dynamic_stride>()`, offered when the stride is static. */
    function ToDynamicStride(): (r: Slice<T>)
      requires Valid() && stride.Static?
      ensures r.Valid() && r.buf == buf && r.readOnly == readOnly
      ensures r.Data() == Data() && r.Size() == Size() && r.Stride() == Stride()
      ensures r.extent == extent && r.stride.Dynamic?
    {
      RemakeIdentity(extent, DynamicExtent);
      Retype(readOnly, ExtentParam(), DynamicStride)
    }

    /** `operator Slice<T, dynamic_extent, dynamic_stride>()`, offered when both are static. */
    function ToDynamic(): (r: Slice<T>)
      requires Valid() && extent.Static? && stride.Static?
      ensures r.Valid() && r.buf == buf && r.readOnly == readOnly
      ensures r.Data() == Data() && r.Size() == Size() && r.Stride() == Stride()
      ensures r.extent.Dynamic? && r.stride.Dynamic?
    {
      Retype(readOnly, DynamicExtent, DynamicStride)
    }

    /** `operator Slice<const T, extent, stride>()`. */
    function ToReadOnly(): (r: Slice<T>)
      requires Valid()
      ensures r.Valid() && r.buf == buf && r.readOnly
      ensures r.Data() == Data() && r.Size() == Size() && r.Stride() == Stride()
      ensures r.extent == extent && r.stride == stride
    {
      RemakeIdentity(extent, DynamicExtent);
      RemakeIdentity(stride, DynamicStride);
      Retype(true, ExtentParam(), StrideParam())
    }

    /** `operator Slice<const T, dynamic_extent, stride>()`. */
    function ToReadOnlyDynamicExtent(): (r: Slice<T>)
      requires Valid() && !readOnly && extent.Static?
      ensures r.Valid() && r.buf == buf && r.readOnly
      ensures r.Data() == Data() && r.Size() == Size() && r.Stride() == Stride()
      ensures r.extent.Dynamic? && r.stride == stride
    {
      RemakeIdentity(stride, DynamicStride);
      Retype(true, DynamicExtent, StrideParam())
    }

    /** `operator Slice<const T, extent, dynamic_stride>()`. */
    function ToReadOnlyDynamicStride(): (r: Slice<T>)
      requires Valid() && !readOnly && stride.Static?
      ensures r.Valid() && r.buf == buf && r.readOnly
      ensures r.Data() == Data() && r.Size() == Size() && r.Stride() == Stride()
      ensures r.extent == extent && r.stride.Dynamic?
    {
      RemakeIdentity(extent, DynamicExtent);
      Retype(true, ExtentParam(), DynamicStride)
    }

    /** `operator Slice<const T, dynamic_extent, dynamic_stride>()`. */
    function ToReadOnlyDynamic(): (r: Slice<T>)
      requires Valid() && !readOnly && extent.Static? && stride.Static?
      ensures r.Valid() && r.buf == buf && r.readOnly
      ensures r.Data() == Data() && r.Size() == Size() && r.Stride() == Stride()
      ensures r.extent.Dynamic? && r.stride.Dynamic?
    {
      Retype(true, DynamicExtent, DynamicStride)
    }
  }

  // ---------------------------------------------------------------
  // Constructors
  // ---------------------------------------------------------------

  /** `Slice(It first, count, skip = 1)` of `Slice<T, extent, stride>`:
      `count` elements of `buf`, `skip` apart, from offset `first`. */
  function FromPointer<T>(extentParam: int, strideParam: int, readOnly: bool,
                          buf: seq<T>, first: int, count: int, skip: int): (r: Slice<T>)
    requires 0 <= count <= DynamicExtent && skip != 0
    requires Agrees(extentParam, DynamicExtent, count) && Agrees(strideParam, DynamicStride, skip)
    requires count > 0 ==> 0 <= first < |buf| && 0 <= first + (count - 1) * skip < |buf|
    ensures r.Valid() && r.buf == buf && r.readOnly == readOnly
    ensures r.Data() == first && r.Size() == count && r.Stride() == skip
    ensures r.ExtentParam() == extentParam && r.StrideParam() == strideParam
    ensures forall i :: 0 <= i < count ==> 0 <= first + i * skip < |buf| && r.At(i) == buf[first + i * skip]
  {
    var r := Slice(buf, first, ExtentHolder(extentParam, count), StrideHolder(strideParam, skip), readOnly);
    forall i | 0 <= i < count ensures 0 <= first + i * skip < |buf| {
      AddrInBuffer(r, i);
    }
    r
  }

  /** `Slice(U& container)` and `Slice(std::array<T, N>& arr)`: the whole
      container, size `container.size()` (or `N`), stride 1. */
  function FromContainer<T>(extentParam: int, strideParam: int, readOnly: bool, container: seq<T>): (r: Slice<T>)
    requires |container| <= DynamicExtent
    requires Agrees(extentParam, DynamicExtent, |container|) && Agrees(strideParam, DynamicStride, 1)
    ensures r.Valid() && r.buf == container && r.readOnly == readOnly
    ensures r.Data() == 0 && r.Size() == |container| && r.Stride() == 1
    ensures r.ExtentParam() == extentParam && r.StrideParam() == strideParam
    ensures r.Elements() == container
  {
    Slice(container, 0, ExtentHolder(extentParam, |container|), StrideHolder(strideParam, 1), readOnly)
  }

  /** The cast constructor `Slice(Slice<T, other_extent, other_stride>& slice)`,
      offered when the target's extent or stride is dynamic. A static target
      axis keeps its own template argument, so it is required to agree with
      the source's value. */
  function Cast<T>(extentParam: int, strideParam: int, other: Slice<T>): (r: Slice<T>)
    requires other.Valid()
    requires extentParam == DynamicExtent || strideParam == DynamicStride
    requires Agrees(extentParam, DynamicExtent, other.Size()) && Agrees(strideParam, DynamicStride, other.Stride())
    ensures r.Valid() && r.buf == other.buf && r.readOnly == other.readOnly
    ensures r.Data() == other.Data() && r.Size() == other.Size() && r.Stride() == other.Stride()
    ensures r.ExtentParam() == extentParam && r.StrideParam() == strideParam
    ensures r.Elements() == other.Elements()
  {
    other.Retype(other.readOnly, extentParam, strideParam)
  }

  // ---------------------------------------------------------------
  // Lemmas
  // ---------------------------------------------------------------

  /** Every logical index of a valid slice addresses the buffer. */
  lemma AddrInBuffer<T>(s: Slice<T>, i: int)
    requires s.Valid() && 0 <= i < s.Size()
    ensures 0 <= s.Addr(i) < |s.buf|
  {
    AffineBetween(s.data, s.Stride(), i, s.Size() - 1, |s.buf|);
  }

  /** Points of an affine walk lie between its two ends. */
  lemma AffineBetween(d: int, st: int, i: int, m: int, len: int)
    requires 0 <= i <= m && 0 <= d < len && 0 <= d + m * st < len
    ensures 0 <= d + i * st < len
  {
    assert m * st - i * st == (m - i) * st;
    if st >= 0 {
      assert i * st >= 0 && (m - i) * st >= 0;
    } else {
      assert i * st <= 0 && (m - i) * st <= 0;
    }
  }

  /** `Addr` of a slice that starts `m` steps into `s`, with the same stride. */
  lemma ShiftedAddr<T>(s: Slice<T>, m: int, i: int)
    ensures s.data + m * s.Stride() + i * s.Stride() == s.Addr(m + i)
  {
    assert (m + i) * s.Stride() == m * s.Stride() + i * s.Stride();
  }

  /** A slice that starts `m` steps into `s` on the same stride, and ends no
      later than `s`, is valid and reads the corresponding elements of `s`. */
  lemma ShiftedValid<T>(s: Slice<T>, r: Slice<T>, m: int)
    requires s.Valid() && 0 <= m && 0 <= r.Size() && m + r.Size() <= s.Size()
    requires r.buf == s.buf && r.data == s.data + m * s.Stride() && r.Stride() == s.Stride()
    requires r.extent.WellFormed(DynamicExtent) && r.stride.WellFormed(DynamicStride)
    ensures r.Valid()
    ensures forall i :: 0 <= i < r.Size() ==> r.At(i) == s.At(m + i)
    ensures r.Elements() == s.Elements()[m..m + r.Size()]
  {
    if r.Size() > 0 {
      ShiftedAddr(s, m, 0);
      ShiftedAddr(s, m, r.Size() - 1);
      AddrInBuffer(s, m);
      AddrInBuffer(s, m + r.Size() - 1);
    }
    forall i | 0 <= i < r.Size() ensures r.At(i) == s.At(m + i) {
      ShiftedAddr(s, m, i);
    }
  }

  /** Ceiling division as the source writes it: `(n + k - 1) / k` is the least
      number of `k`-blocks covering `n`. */
  lemma CeilDiv(n: int, k: int)
    requires 0 <= n && 0 < k
    ensures (n + k - 1) / k >= 0
    ensures ((n + k - 1) / k) * k >= n
    ensures ((n + k - 1) / k - 1) * k < n
  {
    var q, r := (n + k - 1) / k, (n + k - 1) % k;
    assert q * k + r == n + k - 1;
    assert (q - 1) * k == q * k - k;
  }

  /** The two bounds of CeilDiv determine the value. */
  lemma CeilDivUnique(n: int, k: int, m: int)
    requires 0 <= n && 0 < k
    requires m * k >= n && (m - 1) * k < n
    ensures m == (n + k - 1) / k
  {
    var c := (n + k - 1) / k;
    CeilDiv(n, k);
    MulLessCancel(c - 1, m, k);
    MulLessCancel(m - 1, c, k);
  }

  /** A positive factor keeps a non-zero stride non-zero. */
  lemma MulNonZero(k: int, st: int)
    requires 0 < k && st != 0
    ensures k * st != 0
  {
    if st > 0 { assert k * st >= st; } else { assert k * st <= st; }
  }

  /** Index `i` of a `k`-skip of `n` elements addresses index `i * k < n`. */
  lemma SkipIndexInRange(n: int, k: int, i: int)
    requires 0 <= n && 0 < k && 0 <= i < (n + k - 1) / k
    ensures 0 <= i * k < n
  {
    CeilDiv(n, k);
    var c := (n + k - 1) / k;
    MulLeMono(0, i, k);
    MulLeMono(i, c - 1, k);
  }

  /** Common facts of the two Skip variants. */
  lemma SkipFacts<T>(s: Slice<T>, k: int, r: Slice<T>)
    requires s.Valid() && k > 0
    requires r.buf == s.buf && r.data == s.data && r.Size() == (s.Size() + k - 1) / k && r.Stride() == k * s.Stride()
    requires r.extent.WellFormed(DynamicExtent) && r.stride.WellFormed(DynamicStride)
    ensures r.Valid()
    ensures r.Size() * k >= s.Size() && (r.Size() - 1) * k < s.Size()
    ensures forall i :: 0 <= i < r.Size() ==> 0 <= i * k < s.Size() && r.At(i) == s.At(i * k)
  {
    var n, q, st := s.Size(), r.Size(), s.Stride();
    CeilDiv(n, k);
    CeilDivAtMost(n, k);
    MulNonZero(k, st);
    forall i | 0 <= i < q ensures 0 <= i * k < n && r.Addr(i) == s.Addr(i * k) {
      SkipIndexInRange(n, k, i);
      MulAssoc(i, k, st);
    }
    if q > 0 {
      AddrInBuffer(s, 0);
      AddrInBuffer(s, (q - 1) * k);
    }
  }

  /** Skipping never lengthens: `(n + k - 1) / k <= n`. */
  lemma CeilDivAtMost(n: int, k: int)
    requires 0 <= n && 0 < k
    ensures (n + k - 1) / k <= n
  {
    var q := (n + k - 1) / k;
    assert q * k <= n + k - 1 by {
      assert q * k + (n + k - 1) % k == n + k - 1;
    }
    assert n * (k - 1) >= 0;
    assert (n + 1) * k == n * k + k;
    MulLessCancel(q, n + 1, k);
  }

  lemma MulAssoc(i: int, k: int, st: int)
    ensures i * (k * st) == (i * k) * st
  {
  }

  /** `First(k)` and `DropFirst(k)` partition the view with no gap and no
      overlap. */
  lemma FirstDropFirstPartition<T>(s: Slice<T>, k: int)
    requires s.Valid() && 0 <= k <= s.Size()
    ensures s.First(k).Elements() + s.DropFirst(k).Elements() == s.Elements()
  {
    assert s.Elements()[..k] + s.Elements()[k..] == s.Elements();
  }

  /** `DropLast(n)` and `Last(n)` partition the view the other way round. */
  lemma DropLastLastPartition<T>(s: Slice<T>, n: int)
    requires s.Valid() && 0 <= n <= s.Size()
    ensures s.DropLast(n).Elements() + s.Last(n).Elements() == s.Elements()
  {
    assert s.Elements()[..s.Size() - n] + s.Elements()[s.Size() - n..] == s.Elements();
  }

  /** The element of `DropFirst(n)` at the front is `s[n]`. */
  lemma DropFirstFront<T>(s: Slice<T>, n: int)
    requires s.Valid() && 0 <= n < s.Size()
    ensures s.DropFirst(n).Size() > 0 && s.DropFirst(n).Front() == s.At(n)
  {
    assert s.DropFirst(n).Elements()[0] == s.Elements()[n];
  }

  /** The ceiling rule composes: `⌈⌈n/a⌉/b⌉ == ⌈n/(a*b)⌉`. */
  lemma CeilDivCompose(n: int, a: int, b: int)
    requires 0 <= n && 0 < a && 0 < b
    ensures a * b > 0
    ensures ((n + a - 1) / a + b - 1) / b == (n + a * b - 1) / (a * b)
  {
    var q := (n + a - 1) / a;
    CeilDiv(n, a);
    CeilDiv(q, b);
    var m := (q + b - 1) / b;
    assert a * b > 0;
    ComposeUpper(m, q, a, b, n);
    ComposeLower(m, q, a, b, n);
    CeilDivUnique(n, a * b, m);
  }

  /** `m * b >= q` and `q * a >= n` give `m * (a * b) >= n`. */
  lemma ComposeUpper(m: int, q: int, a: int, b: int, n: int)
    requires 0 < a && 0 < b && m * b >= q && q * a >= n
    ensures m * (a * b) >= n
  {
    MulLeMono(q, m * b, a);
    assert m * (a * b) == (m * b) * a;
  }

  /** `(m - 1) * b < q` and `(q - 1) * a < n` give `(m - 1) * (a * b) < n`. */
  lemma ComposeLower(m: int, q: int, a: int, b: int, n: int)
    requires 0 < a && 0 < b && (m - 1) * b < q && (q - 1) * a < n
    ensures (m - 1) * (a * b) < n
  {
    MulLeMono((m - 1) * b, q - 1, a);
    assert (m - 1) * (a * b) == ((m - 1) * b) * a;
  }

  lemma MulLeMono(x: int, y: int, k: int)
    requires x <= y && 0 < k
    ensures x * k <= y * k
  {
    assert y * k - x * k == (y - x) * k;
  }

  /** Skipping by `a` and then by `b` is skipping by `a * b`: the same data,
      stride and size (the ceiling rule composes exactly). */
  lemma SkipSkip<T>(s: Slice<T>, a: int, b: int)
    requires s.Valid() && a > 0 && b > 0
    ensures a * b > 0
    ensures s.Skip(a).Skip(b) == s.Skip(a * b)
  {
    var once := s.Skip(a);
    var twice := once.Skip(b);
    var direct := s.Skip(a * b);
    CeilDivCompose(s.Size(), a, b);
    assert twice.extent == direct.extent;
    assert b * (a * s.Stride()) == (a * b) * s.Stride() by {
      MulAssoc(b, a, s.Stride());
    }
    assert twice.stride == direct.stride;
  }

  /** A valid view whose elements are 0..9, whatever its buffer and stride. */
  predicate HoldsZeroToNine(s: Slice<int>) {
    s.Valid() && s.Elements() == [0, 1, 2, 3, 4, 5, 6, 7, 8, 9]
  }

  /** Over 0..9, `Skip(3)` keeps 0, 3, 6 and 9. */
  lemma TenElementSkip(s: Slice<int>)
    requires HoldsZeroToNine(s)
    ensures s.Skip(3).Size() == 4 && s.Skip(3).Elements() == [0, 3, 6, 9]
  {
    var k := s.Skip(3);
    assert k.Size() == 4;
    var e, ks := s.Elements(), k.Elements();
    assert ks[0] == e[0] && ks[1] == e[3] && ks[2] == e[6] && ks[3] == e[9];
  }

  /** Over 0..9, `Last(2)` is 8 and 9. */
  lemma TenElementLast(s: Slice<int>)
    requires HoldsZeroToNine(s)
    ensures s.Last(2).Elements() == [8, 9]
  {
    assert s.Last(2).Elements() == s.Elements()[8..];
  }

  /** Over 0..9, dropping two at each end leaves 2..7. */
  lemma TenElementDrops(s: Slice<int>)
    requires HoldsZeroToNine(s)
    ensures s.DropFirst(2).DropLast(2).Elements() == [2, 3, 4, 5, 6, 7]
  {
    var d := s.DropFirst(2);
    assert d.Elements() == s.Elements()[2..];
    assert d.DropLast(2).Elements() == d.Elements()[..6];
  }

  /** The scenario holds for the stride-1 view of the container 0..9. */
  lemma TenElementScenario()
    ensures HoldsZeroToNine(FromContainer(DynamicExtent, 1, false, [0, 1, 2, 3, 4, 5, 6, 7, 8, 9]))
  {
  }
}
