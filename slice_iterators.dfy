/** `Slice::IteratorImpl` of task2/Slice.hpp, a random-access cursor whose
    position moves by multiples of the stride, together with the free
    iterator operators, `begin()`/`end()` and the free `operator==` that
    compares two slices element by element. */
module SliceIterators {
  import opened Holders
  import opened Slices
  import opened Common

  /** C++ integer division `a / b`, which truncates toward zero (Dafny's `/`
      is Euclidean). */
  function TruncDiv(a: int, b: int): (q: int)
    requires b != 0
    ensures (a >= 0) == (b > 0) || a == 0 ==> q >= 0
    ensures (a >= 0) != (b > 0) ==> q <= 0
    ensures Abs(q) == Abs(a) / Abs(b)
  {
    var m := Abs(a) / Abs(b);
    if (a < 0) == (b < 0) then m else -m
  }

  function Abs(x: int): int { if x < 0 then -x else x }

  /** Truncating division leaves a remainder `a - q * b` that is smaller
      than `b` in magnitude and has the sign of `a` (or is 0). */
  lemma TruncDivRemainder(a: int, b: int)
    requires b != 0
    ensures var r := a - TruncDiv(a, b) * b;
            Abs(r) < Abs(b) && (r == 0 || (r < 0) == (a < 0))
  {
    var y := Abs(b);
    var m, rr := Abs(a) / y, Abs(a) % y;
    var q := TruncDiv(a, b);
    var p := m * y;
    assert Abs(a) == p + rr && 0 <= rr < y;
    assert q * b == if a >= 0 then p else -p by {
      NegMul(m, y);
      if b < 0 { assert b == -y; } else { assert b == y; }
    }
  }

  lemma NegMul(x: int, y: int)
    ensures (-x) * y == -(x * y) && x * (-y) == -(x * y) && (-x) * (-y) == x * y
  {
  }

  /** Dividing an exact multiple recovers the factor, whatever the signs. */
  lemma TruncDivExact(k: int, b: int)
    requires b != 0
    ensures TruncDiv(k * b, b) == k
  {
    var x, y := Abs(k), Abs(b);
    assert Abs(k * b) == x * y by {
      if k < 0 && b < 0 { assert k * b == x * y; }
      else if k < 0 { assert k * b == -(x * y); }
      else if b < 0 { assert k * b == -(x * y); }
    }
    MulDivCancel(x, y);
    if k != 0 {
      assert (k * b < 0) <==> ((k < 0) != (b < 0));
    }
  }

  lemma MulDivCancel(x: int, y: int)
    requires 0 <= x && 0 < y
    ensures (x * y) / y == x
  {
    var q, r := (x * y) / y, (x * y) % y;
    assert (x - q) * y == r by {
      assert q * y + r == x * y;
    }
    MulLessCancel(x - q, 1, y);
    MulLessCancel(-1, x - q, y);
  }

  /** Two positions on one stride coincide exactly when they are the same
      number of steps from the start. */
  lemma StepsMeet(d: int, st: int, k: int, n: int)
    requires st != 0
    ensures d + k * st == d + n * st <==> k == n
  {
    assert (k - n) * st == k * st - n * st;
  }

  /** `IteratorImpl<UnderlyingType>`: `data_` is the offset `pos` into `buf`. */
  class Iterator<T> {
    var buf: seq<T>
    var pos: int
    var stride: int

    /** `IteratorImpl()`: a null position with stride 0. */
    constructor Default()
      ensures buf == [] && pos == 0 && stride == 0
    {
      buf, pos, stride := [], 0, 0;
    }

    /** `IteratorImpl(data, stride)`. */
    constructor (buf: seq<T>, pos: int, stride: int)
      ensures this.buf == buf && this.pos == pos && this.stride == stride
    {
      this.buf, this.pos, this.stride := buf, pos, stride;
    }

    /** `operator++()`. */
    method Increment()
      modifies this
      ensures pos == old(pos) + stride && stride == old(stride) && buf == old(buf)
    {
      pos := pos + stride;
    }

    /** `operator++(int)`: advances and returns a copy of the old position. */
    method PostIncrement() returns (copy: Iterator<T>)
      modifies this
      ensures fresh(copy) && copy.buf == buf && copy.pos == old(pos) && copy.stride == stride
      ensures pos == old(pos) + stride && stride == old(stride) && buf == old(buf)
    {
      copy := new Iterator(buf, pos, stride);
      pos := pos + stride;
    }

    /** `operator--()`. */
    method Decrement()
      modifies this
      ensures pos == old(pos) - stride && stride == old(stride) && buf == old(buf)
    {
      pos := pos - stride;
    }

    /** `operator--(int)`. */
    method PostDecrement() returns (copy: Iterator<T>)
      modifies this
      ensures fresh(copy) && copy.buf == buf && copy.pos == old(pos) && copy.stride == stride
      ensures pos == old(pos) - stride && stride == old(stride) && buf == old(buf)
    {
      copy := new Iterator(buf, pos, stride);
      pos := pos - stride;
    }

    /** `operator+=(n)`: `data_ += n * stride_`. */
    method AddAssign(n: int)
      modifies this
      ensures pos == old(pos) + n * stride && stride == old(stride) && buf == old(buf)
    {
      pos := pos + n * stride;
    }

    /** `operator-=(n)`: `data_ -= n * stride_`. */
    method SubAssign(n: int)
      modifies this
      ensures pos == old(pos) - n * stride && stride == old(stride) && buf == old(buf)
    {
      pos := pos - n * stride;
    }

    /** `operator-(other)`: `(data_ - other.data_) / stride_`, truncating.
        Positions a whole number of steps apart are that many steps apart. */
    function Distance(other: Iterator<T>): (d: int)
      reads this, other
      requires stride != 0
      ensures forall k :: pos - other.pos == k * stride ==> d == k
    {
      forall k | pos - other.pos == k * stride ensures TruncDiv(pos - other.pos, stride) == k {
        TruncDivExact(k, stride);
      }
      TruncDiv(pos - other.pos, stride)
    }

    /** The `==` that the defaulted `operator<=>` brings: both members equal. */
    function Equals(other: Iterator<T>): bool
      reads this, other
    {
      pos == other.pos && stride == other.stride
    }

    /** `<` of the defaulted `operator<=>`: `data_` first, then `stride_`.
        On one stride it is the order of positions. */
    function Less(other: Iterator<T>): (b: bool)
      reads this, other
      ensures stride == other.stride ==> (b <==> pos < other.pos)
    {
      pos < other.pos || (pos == other.pos && stride < other.stride)
    }

    /** `operator*()`. */
    function Deref(): T
      reads this
      requires 0 <= pos < |buf|
    {
      buf[pos]
    }

    /** `operator[](n)`: `data_[n * stride_]`. */
    function Index(n: int): T
      reads this
      requires 0 <= pos + n * stride < |buf|
    {
      buf[pos + n * stride]
    }
  }

  /** Free `operator+(it, n)`: a copy advanced by `n` steps. */
  method Plus<T>(it: Iterator<T>, n: int) returns (r: Iterator<T>)
    ensures fresh(r) && r.buf == it.buf && r.pos == it.pos + n * it.stride && r.stride == it.stride
  {
    r := new Iterator(it.buf, it.pos, it.stride);
    r.AddAssign(n);
  }

  /** Free `operator+(n, it)`: `it + n`. */
  method PlusLeft<T>(n: int, it: Iterator<T>) returns (r: Iterator<T>)
    ensures fresh(r) && r.buf == it.buf && r.pos == it.pos + n * it.stride && r.stride == it.stride
  {
    r := Plus(it, n);
  }

  /** Free `operator-(it, n)`: a copy moved back by `n` steps. */
  method Minus<T>(it: Iterator<T>, n: int) returns (r: Iterator<T>)
    ensures fresh(r) && r.buf == it.buf && r.pos == it.pos - n * it.stride && r.stride == it.stride
  {
    r := new Iterator(it.buf, it.pos, it.stride);
    r.SubAssign(n);
  }

  /** `begin()` (and `cbegin()`): `iterator(data_, stride)`. */
  method Begin<T>(s: Slice<T>) returns (it: Iterator<T>)
    ensures fresh(it) && it.buf == s.buf && it.pos == s.BeginPos() && it.stride == s.Stride()
  {
    it := new Iterator(s.buf, s.data, s.stride.Value());
  }

  /** `end()` (and `cend()`): `iterator(data_ + extent * stride, stride)`. */
  method End<T>(s: Slice<T>) returns (it: Iterator<T>)
    ensures fresh(it) && it.buf == s.buf && it.pos == s.EndPos() && it.stride == s.Stride()
  {
    it := new Iterator(s.buf, s.data + s.extent.Value() * s.stride.Value(), s.stride.Value());
  }

  /** `end() - begin()` is the size of the view. */
  method BeginEndDistance<T>(s: Slice<T>) returns (d: int)
    requires s.Valid()
    ensures d == s.Size()
  {
    var b := Begin(s);
    var e := End(s);
    d := e.Distance(b);
    assert e.pos - b.pos == s.Size() * s.Stride();
  }

  /** The three ways to reach logical element `i` from `begin()`: `i`
      increments, `+= i`, and `begin()[i]`, all land on `operator[](i)`. */
  method FromBegin<T>(s: Slice<T>, i: int) returns (stepped: T, jumped: T, indexed: T)
    requires s.Valid() && 0 <= i < s.Size()
    ensures stepped == s.At(i) && jumped == s.At(i) && indexed == s.At(i)
  {
    AddrInBuffer(s, i);
    var it := Begin(s);
    indexed := it.Index(i);
    var k := 0;
    while k < i
      invariant 0 <= k <= i
      invariant it.buf == s.buf && it.stride == s.Stride() && it.pos == s.Addr(k)
    {
      it.Increment();
      k := k + 1;
    }
    stepped := it.Deref();
    var jump := Begin(s);
    jump.AddAssign(i);
    jumped := jump.Deref();
  }

  /** A range-for over `begin()`..`end()` visits the logical elements in order. */
  method Collect<T>(s: Slice<T>) returns (xs: seq<T>)
    requires s.Valid()
    ensures xs == s.Elements()
  {
    var it := Begin(s);
    var last := End(s);
    xs := [];
    ghost var k := 0;
    while !it.Equals(last)
      invariant 0 <= k <= s.Size()
      invariant it.buf == s.buf && it.stride == s.Stride() && it.pos == s.Addr(k)
      invariant last.pos == s.Addr(s.Size()) && last.stride == s.Stride()
      invariant xs == s.Elements()[..k]
      decreases s.Size() - k
    {
      StepsMeet(s.data, s.Stride(), k, s.Size());
      AddrInBuffer(s, k);
      xs := xs + [it.Deref()];
      it.Increment();
      k := k + 1;
    }
    StepsMeet(s.data, s.Stride(), k, s.Size());
  }

  /** Free `operator==`: false on different sizes, otherwise true exactly
      when all corresponding elements are equal, whatever the two strides. */
  method Equal<T(==)>(s1: Slice<T>, s2: Slice<T>) returns (eq: bool)
    requires s1.Valid() && s2.Valid()
    ensures s1.Size() != s2.Size() ==> !eq
    ensures eq <==> s1.Size() == s2.Size() && forall i :: 0 <= i < s1.Size() ==> s1.At(i) == s2.At(i)
    ensures eq <==> s1.Elements() == s2.Elements()
  {
    if s1.Size() != s2.Size() {
      return false;
    }
    ElementsEqual(s1, s2);
    var it1 := Begin(s1);
    var it2 := Begin(s2);
    var end1 := End(s1);
    ghost var k := 0;
    while !it1.Equals(end1)
      invariant 0 <= k <= s1.Size()
      invariant it1.buf == s1.buf && it1.stride == s1.Stride() && it1.pos == s1.Addr(k)
      invariant it2.buf == s2.buf && it2.stride == s2.Stride() && it2.pos == s2.Addr(k)
      invariant end1.pos == s1.Addr(s1.Size()) && end1.stride == s1.Stride()
      invariant forall j :: 0 <= j < k ==> s1.At(j) == s2.At(j)
      decreases s1.Size() - k
    {
      StepsMeet(s1.data, s1.Stride(), k, s1.Size());
      AddrInBuffer(s1, k);
      AddrInBuffer(s2, k);
      if it1.Deref() != it2.Deref() {
        assert s1.At(k) != s2.At(k);
        return false;
      }
      ShiftedAddr(s1, k, 1);
      ShiftedAddr(s2, k, 1);
      it1.Increment();
      it2.Increment();
      k := k + 1;
    }
    StepsMeet(s1.data, s1.Stride(), k, s1.Size());
    eq := true;
  }

  /** Two views of one size have equal elements exactly when they agree at
      every index. */
  lemma ElementsEqual<T>(s1: Slice<T>, s2: Slice<T>)
    requires s1.Valid() && s2.Valid() && s1.Size() == s2.Size()
    ensures s1.Elements() == s2.Elements() <==> forall i :: 0 <= i < s1.Size() ==> s1.At(i) == s2.At(i)
  {
    if forall i :: 0 <= i < s1.Size() ==> s1.At(i) == s2.At(i) {
      assert s1.Elements() == s2.Elements();
    }
  }

  /** A stride-1 view over [1, 2, 3] equals a stride-2 view reading indices
      0, 2 and 4 of [1, 9, 2, 9, 3]. */
  method StridedEqualityScenario() returns (eq: bool)
    ensures eq
  {
    var a := FromContainer(DynamicExtent, 1, false, [1, 2, 3]);
    var b := FromPointer(DynamicExtent, DynamicStride, false, [1, 9, 2, 9, 3], 0, 3, 2);
    assert a.Elements() == [1, 2, 3];
    assert b.At(0) == 1 && b.At(1) == 2 && b.At(2) == 3;
    assert b.Elements() == [1, 2, 3];
    eq := Equal(a, b);
  }
}
