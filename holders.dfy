/** Storage strategy of the strided view: `ValueWrapper`, `ExtentHolder` and
    `StrideHolder` of task2/Slice.hpp.

    A holder is instantiated with a template argument. When that argument is
    the "dynamic" marker, the holder stores the runtime value it is built
    with; otherwise it stores nothing and always answers the template
    argument, whatever value it was built with. */
module Holders {

  /** `std::dynamic_extent`, i.e. the largest 64-bit `std::size_t`. */
  const DynamicExtent: int := 0xFFFF_FFFF_FFFF_FFFF

  /** `dynamic_stride`. */
  const DynamicStride: int := -1

  /** `ValueWrapper<T, value, false>` is `Static(value)`;
      `ValueWrapper<T, value, true>` holding `value_` is `Dynamic(value_)`. */
  datatype Holder = Static(constant: int) | Dynamic(stored: int) {

    /** `GetValue()`: the compiled-in constant or the stored scalar. */
    function Value(): int {
      match this
      case Static(c) => c
      case Dynamic(s) => s
    }

    /** The template argument this holder was instantiated with. */
    function Param(marker: int): int {
      match this
      case Static(c) => c
      case Dynamic(_) => marker
    }

    /** A static holder is never instantiated with the marker itself. */
    predicate WellFormed(marker: int) {
      Static? ==> constant != marker
    }
  }

  /** The constructor `ValueWrapper<T, param, param == marker>(arg)`. */
  function Make(param: int, marker: int, arg: int): (h: Holder)
    ensures h.WellFormed(marker)
    ensures h.Param(marker) == param
  {
    if param == marker then Dynamic(arg) else Static(param)
  }

  /** `ExtentHolder<extent>(arg)`. */
  function ExtentHolder(extent: int, arg: int): (h: Holder)
    ensures h.WellFormed(DynamicExtent) && h.Param(DynamicExtent) == extent
  {
    Make(extent, DynamicExtent, arg)
  }

  /** `StrideHolder<stride>(arg)`. */
  function StrideHolder(stride: int, arg: int): (h: Holder)
    ensures h.WellFormed(DynamicStride) && h.Param(DynamicStride) == stride
  {
    Make(stride, DynamicStride, arg)
  }

  /** The runtime value handed to a holder is the one it reports exactly when
      the holder is dynamic or the value agrees with the template argument. */
  predicate Agrees(param: int, marker: int, arg: int) {
    param == marker || param == arg
  }

  /** A dynamic holder returns the value it was constructed with. */
  lemma DynamicReturnsArgument(marker: int, arg: int)
    ensures Make(marker, marker, arg).Dynamic?
    ensures Make(marker, marker, arg).Value() == arg
  {
  }

  /** A static holder ignores its constructor argument and reports the
      template argument. */
  lemma StaticIgnoresArgument(param: int, marker: int, arg1: int, arg2: int)
    requires param != marker
    ensures Make(param, marker, arg1) == Make(param, marker, arg2)
    ensures Make(param, marker, arg1).Value() == param
  {
  }

  /** The value reported by a freshly made holder. */
  lemma MakeValue(param: int, marker: int, arg: int)
    requires Agrees(param, marker, arg)
    ensures Make(param, marker, arg).Value() == arg
  {
  }

  /** Re-making a holder of the same instantiation from its own value gives
      back the same holder: this is what every subview that keeps the stride
      template argument relies on. */
  lemma RemakeIdentity(h: Holder, marker: int)
    requires h.WellFormed(marker)
    ensures Make(h.Param(marker), marker, h.Value()) == h
  {
  }
}
