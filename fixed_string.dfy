/** `FixedString<max_length>` of task4/FixedString.hpp: a string literal
    copied into a fixed-capacity character array, usable as a
    `string_view` of its first `length` characters. */
module FixedStrings {

  /** The capacity of the strings made by the literal operator `_cstr`. */
  const LiteralCapacity: nat := 256

  class FixedString {
    /** `std::array<char, max_length> storage`. */
    const storage: array<char>
    /** `size_t length`. */
    var length: nat

    /** The capacity `max_length`. */
    function MaxLength(): nat
      reads this
    {
      storage.Length
    }

    ghost predicate Valid()
      reads this
    {
      length <= storage.Length
    }

    /** `FixedString(string, length)`: the storage is value-initialised (all
        '\0'), then the first `length` characters of `string` are copied in. */
    constructor (maxLength: nat, str: string, length: nat)
      requires length <= maxLength && length <= |str|
      ensures Valid() && fresh(storage)
      ensures MaxLength() == maxLength && this.length == length
      ensures storage[..length] == str[..length]
      ensures forall i :: length <= i < maxLength ==> storage[i] == '\0'
    {
      var a := new char[maxLength](_ => '\0');
      for i := 0 to length
        invariant a[..i] == str[..i]
        invariant forall j :: i <= j < maxLength ==> a[j] == '\0'
      {
        a[i] := str[i];
      }
      storage := a;
      this.length := length;
    }

    /** `operator std::string_view()`: the first `length` stored characters. */
    function View(): (v: string)
      reads this, storage
      requires Valid()
      ensures |v| == length
      ensures forall i :: 0 <= i < length ==> v[i] == storage[i]
    {
      storage[..length]
    }
  }

  /** `operator""_cstr(data, length)`: a `FixedString<256>` of the literal. */
  method Cstr(data: string, length: nat) returns (s: FixedString)
    requires length <= |data| && length <= LiteralCapacity
    ensures fresh(s) && fresh(s.storage) && s.Valid()
    ensures s.MaxLength() == LiteralCapacity
    ensures s.View() == data[..length]
    ensures forall i :: length <= i < LiteralCapacity ==> s.storage[i] == '\0'
  {
    s := new FixedString(LiteralCapacity, data, length);
  }

  /** Converting a literal to a view gives the literal back, and the unused
      capacity is zero-filled. */
  method LiteralRoundTrip(literal: string) returns (view: string, padding: seq<char>)
    requires |literal| <= LiteralCapacity
    ensures view == literal
    ensures |padding| == LiteralCapacity - |literal|
    ensures forall i :: 0 <= i < |padding| ==> padding[i] == '\0'
  {
    var s := Cstr(literal, |literal|);
    view := s.View();
    padding := s.storage[|literal|..];
  }
}
