/** `EnumeratorTraits<Enum, MAXN>` of task6/EnumeratorTraits.hpp: the
    valid enumerators of an enum, found by probing every value in
    [-ITERATION_LIMIT, ITERATION_LIMIT], together with their names.

    The compiler's spelling of `static_cast<Enum>(v)` (what
    `getTypeString<v>()` extracts from the function signature text) is the
    input `text(v)`: a named enumerator reads like `Color::Red`, a value
    without a name like `(Color)5`. */
module EnumeratorTraits {
  import opened Common

  /** The default `MAXN`. */
  const DefaultMaxN: nat := 512

  /** The largest `unsigned long long`, 2^64 - 1. */
  const ULongLongMax: int := 0xFFFF_FFFF_FFFF_FFFF

  /** An enum type as the traits see it: `MAXN`, the range of the
      underlying type, and the compiler's spelling of each value. */
  datatype EnumType = EnumType(maxn: nat, typeMin: int, typeMax: int, text: int -> string) {

    /** The underlying range holds 0, `MAXN` fits a `size_t`, and the
        compiler spells every value with at least one character. */
    ghost predicate Valid() {
      typeMin <= 0 <= typeMax && maxn <= ULongLongMax && forall v :: |text(v)| > 0
    }

    /** The underlying type is a 64-bit unsigned integer (`unsigned long`
        or `unsigned long long`): the one case where comparing it with a
        `long long` converts the `long long` to unsigned. */
    predicate WideUnsigned() {
      typeMin == 0 && typeMax == ULongLongMax
    }

    /** `MIN_LIMIT`: `MINUS_MAXN` when it compares greater than the type's
        minimum, and that minimum otherwise. For a 64-bit unsigned type the
        comparison sees `-MAXN` as `2^64 - MAXN`, which is greater than 0,
        so `MIN_LIMIT` is `-MAXN` although the type has no negative value. */
    function MinLimit(): (r: int)
      ensures !WideUnsigned() ==>
        r >= -(maxn as int) && r >= typeMin && (r == -(maxn as int) || r == typeMin)
      ensures WideUnsigned() && maxn <= ULongLongMax ==> r == -(maxn as int)
    {
      var minusMaxn := -(maxn as int);
      var greater := if WideUnsigned() then minusMaxn % (ULongLongMax + 1) > typeMin
                     else minusMaxn > typeMin;
      if greater then minusMaxn else typeMin
    }

    /** `MAX_LIMIT`: the smaller of `MAXN` and the type's maximum. */
    function MaxLimit(): (r: int)
      ensures r <= maxn && r <= typeMax && (r == maxn || r == typeMax)
    {
      if maxn < typeMax then maxn else typeMax
    }

    /** `ITERATION_LIMIT`: the larger of `-MIN_LIMIT` and `MAX_LIMIT`, so the
        probed range [-L, L] covers [MIN_LIMIT, MAX_LIMIT]. */
    function IterationLimit(): (r: int)
      requires Valid()
      ensures r >= 0 && -r <= MinLimit() && MaxLimit() <= r
      ensures r == -MinLimit() || r == MaxLimit()
    {
      if -MinLimit() > MaxLimit() then -MinLimit() else MaxLimit()
    }

    /** `SatisfyLimits(index)`. */
    predicate SatisfyLimits(index: int) {
      MinLimit() <= index <= MaxLimit()
    }

    /** The number of values of the underlying type, 2^N for an N-bit type. */
    function Width(): (w: int)
      requires typeMin <= typeMax
      ensures w > 0
    {
      typeMax - typeMin + 1
    }

    /** `static_cast<Enum>(index)`: the underlying type is fixed, so the cast
        is the integral conversion to it, which takes an index outside
        [typeMin, typeMax] round modulo the type's width (so -1 becomes 255
        for `std::uint8_t` and 2^64 - 1 for `std::uint64_t`). */
    function EnumValue(index: int): (v: int)
      requires typeMin <= typeMax
      ensures typeMin <= v <= typeMax
      ensures typeMin <= index <= typeMax ==> v == index
      ensures (index - v) % Width() == 0
    {
      if typeMin <= index <= typeMax then index
      else
        var offset := index - typeMin;
        ModUnique(offset - offset % Width(), Width(), offset / Width(), 0);
        typeMin + offset % Width()
    }

    /** `IsValidElement<index>()`: inside the limits, and spelled as a name
        rather than as a parenthesised cast. */
    predicate IsValidElement(index: int)
      requires Valid()
    {
      SatisfyLimits(index) && text(index)[0] != '('
    }

    /** The valid values in [lo, hi], ascending. */
    function ValidIn(lo: int, hi: int): seq<int>
      requires Valid()
      decreases if lo > hi then 0 else hi - lo + 1
    {
      if lo > hi then []
      else (if IsValidElement(lo) then [lo] else []) + ValidIn(lo + 1, hi)
    }

    /** What `enum_items` is meant to hold: every valid value of the probed
        range, ascending. */
    function Items(): seq<int>
      requires Valid()
    {
      ValidIn(-IterationLimit(), IterationLimit())
    }

    /** What `enum_items` holds: `static_cast<Enum>` of each item. */
    function Enumerators(): (r: seq<int>)
      requires Valid()
      ensures |r| == |Items()|
      ensures forall i :: 0 <= i < |r| ==> r[i] == EnumValue(Items()[i])
    {
      ValuesOfAt(this, Items());
      ValuesOf(this, Items())
    }

    /** The name of each item, as `getEnumItemName` extracts it. */
    function Names(): (r: seq<string>)
      requires Valid()
      ensures |r| == |Items()|
      ensures forall i :: 0 <= i < |r| ==> r[i] == ItemName(text(Items()[i]))
    {
      NamesOfAt(text, Items());
      NamesOf(text, Items())
    }
  }

  /** `getEnumItemName`: what follows the last ':' of the spelling, or all of
      it when there is none. */
  function ItemName(s: string): (r: string)
    ensures |r| <= |s| && s[|s| - |r|..] == r
    ensures ':' !in r
    ensures ':' in s ==> s[|s| - |r| - 1] == ':'
    ensures ':' !in s ==> r == s
  {
    var k := LastIndexOf(s, ':');
    if k < 0 then s else s[k + 1..]
  }

  /** `rfind(c)`: the last position holding `c`, or -1 (`npos`). */
  function LastIndexOf(s: string, c: char): (k: int)
    ensures -1 <= k < |s|
    ensures k >= 0 ==> s[k] == c
    ensures forall j :: k < j < |s| ==> s[j] != c
  {
    if |s| == 0 then -1
    else if s[|s| - 1] == c then |s| - 1
    else LastIndexOf(s[..|s| - 1], c)
  }

  /** `static_cast<Enum>` of each probed value of `vs`. */
  function ValuesOf(e: EnumType, vs: seq<int>): (r: seq<int>)
    requires e.typeMin <= e.typeMax
    ensures |r| == |vs|
  {
    if |vs| == 0 then [] else [e.EnumValue(vs[0])] + ValuesOf(e, vs[1..])
  }

  /** Value `i` is the cast of probed value `i`. */
  lemma {:induction false} ValuesOfAt(e: EnumType, vs: seq<int>)
    requires e.typeMin <= e.typeMax
    ensures forall i :: 0 <= i < |vs| ==> ValuesOf(e, vs)[i] == e.EnumValue(vs[i])
  {
    if |vs| > 0 {
      ValuesOfAt(e, vs[1..]);
    }
  }

  lemma {:induction false} ValuesOfAppend(e: EnumType, a: seq<int>, b: seq<int>)
    requires e.typeMin <= e.typeMax
    ensures ValuesOf(e, a + b) == ValuesOf(e, a) + ValuesOf(e, b)
  {
    if |a| > 0 {
      assert (a + b)[0] == a[0] && (a + b)[1..] == a[1..] + b;
      ValuesOfAppend(e, a[1..], b);
    } else {
      assert a + b == b;
    }
  }

  /** The names of a sequence of values. */
  function NamesOf(text: int -> string, vs: seq<int>): (r: seq<string>)
    ensures |r| == |vs|
  {
    if |vs| == 0 then [] else [ItemName(text(vs[0]))] + NamesOf(text, vs[1..])
  }

  /** Name `i` is the name of value `i`. */
  lemma {:induction false} NamesOfAt(text: int -> string, vs: seq<int>)
    ensures forall i :: 0 <= i < |vs| ==> NamesOf(text, vs)[i] == ItemName(text(vs[i]))
  {
    if |vs| > 0 {
      NamesOfAt(text, vs[1..]);
    }
  }

  lemma {:induction false} NamesOfAppend(text: int -> string, a: seq<int>, b: seq<int>)
    ensures NamesOf(text, a + b) == NamesOf(text, a) + NamesOf(text, b)
  {
    if |a| > 0 {
      assert (a + b)[0] == a[0] && (a + b)[1..] == a[1..] + b;
      NamesOfAppend(text, a[1..], b);
    } else {
      assert a + b == b;
    }
  }

  // ---------------------------------------------------------------
  // Facts about the valid values
  // ---------------------------------------------------------------

  /** `ValidIn(lo, hi)` holds exactly the valid values of [lo, hi]. */
  lemma {:induction false} ValidInMembers(e: EnumType, lo: int, hi: int)
    requires e.Valid()
    ensures forall v :: v in e.ValidIn(lo, hi) <==> lo <= v <= hi && e.IsValidElement(v)
    decreases if lo > hi then 0 else hi - lo + 1
  {
    if lo <= hi {
      ValidInMembers(e, lo + 1, hi);
    }
  }

  /** The valid values of [lo, hi] come out strictly increasing. */
  lemma {:induction false} ValidInIncreasing(e: EnumType, lo: int, hi: int)
    requires e.Valid()
    ensures Increasing(e.ValidIn(lo, hi))
    decreases if lo > hi then 0 else hi - lo + 1
  {
    if lo <= hi {
      ValidInIncreasing(e, lo + 1, hi);
      ValidInMembers(e, lo + 1, hi);
      var rest := e.ValidIn(lo + 1, hi);
      forall j | 0 <= j < |rest| ensures lo < rest[j] {
        assert rest[j] in rest;
      }
    }
  }

  /** [lo, hi] is [lo, m] followed by [m + 1, hi]. */
  lemma {:induction false} ValidInSplit(e: EnumType, lo: int, m: int, hi: int)
    requires e.Valid() && lo - 1 <= m <= hi
    ensures e.ValidIn(lo, hi) == e.ValidIn(lo, m) + e.ValidIn(m + 1, hi)
    decreases m - lo + 1
  {
    if lo <= m {
      ValidInSplit(e, lo + 1, m, hi);
    }
  }

  /** Growing the probed range [-(i - 1), i - 1] to [-i, i] adds `-i` in front and
      `i` at the back, each when valid. */
  lemma Widen(e: EnumType, i: int)
    requires e.Valid() && i >= 1
    ensures e.ValidIn(-i, i) == e.ValidIn(-i, -i) + e.ValidIn(-i + 1, i - 1) + e.ValidIn(i, i)
  {
    ValidInSplit(e, -i, -i, i);
    ValidInSplit(e, -i + 1, i - 1, i);
  }

  /** The items are exactly the valid enumerators, in increasing order. */
  lemma ItemsAreTheValidElements(e: EnumType)
    requires e.Valid()
    ensures forall v :: v in e.Items() <==> e.SatisfyLimits(v) && e.text(v)[0] != '('
    ensures Increasing(e.Items())
  {
    ValidInIncreasing(e, -e.IterationLimit(), e.IterationLimit());
    ValidInMembers(e, -e.IterationLimit(), e.IterationLimit());
  }

  /** Probed indices outside a narrow underlying type are converted to it:
      for `std::uint8_t` (with the default `MAXN`, so ITERATION_LIMIT 255)
      -1 becomes 255 and -255 becomes 1, outside the limits; for
      `std::int8_t` the probed 128 becomes -128. */
  lemma NarrowCasts(u: EnumType, s: EnumType)
    requires u.Valid() && u.maxn == DefaultMaxN && u.typeMin == 0 && u.typeMax == 255
    requires s.typeMin == -128 && s.typeMax == 127
    ensures u.IterationLimit() == 255 && !u.SatisfyLimits(-1)
    ensures u.EnumValue(-1) == 255 && u.EnumValue(-255) == 1
    ensures s.EnumValue(128) == -128
  {
  }

  /** Outside the 64-bit unsigned case the limits lie inside the underlying
      range, so the cast changes no item. */
  lemma EnumeratorsAreItems(e: EnumType)
    requires e.Valid() && !e.WideUnsigned()
    ensures e.Enumerators() == e.Items()
  {
    var items := e.Items();
    ItemsAreTheValidElements(e);
    forall i | 0 <= i < |items|
      ensures e.Enumerators()[i] == items[i]
    {
      assert items[i] in items;
    }
  }

  /** A 64-bit unsigned enum whose only named values are 0 and 2^64 - 1,
      the latter spelled when probing -1: with any `MAXN` from 1 on, the
      traits report -1 and 0, that is the enumerators 2^64 - 1 and 0. */
  lemma WideUnsignedItems(e: EnumType)
    requires e.Valid() && e.WideUnsigned() && e.maxn >= 1
    requires forall v :: e.text(v)[0] != '(' <==> v == -1 || v == 0
    ensures e.MinLimit() == -(e.maxn as int)
    ensures e.Items() == [-1, 0] && e.Enumerators() == [ULongLongMax, 0]
  {
    ItemsAreTheValidElements(e);
    assert e.SatisfyLimits(-1) && e.SatisfyLimits(0);
    assert forall v :: v in e.Items() <==> v == -1 || v == 0;
    TwoIncreasing(e.Items(), -1, 0);
  }

  /** `enum class E : std::uint64_t { A = 0, B = ~0ull }` with the default
      `MAXN`: the traits report B (2^64 - 1) first and A second. */
  lemma WideUnsignedScenario(e: EnumType)
    requires e.maxn == DefaultMaxN && e.typeMin == 0 && e.typeMax == ULongLongMax
    requires forall v :: e.text(v) == if v == 0 then "E::A" else if v == -1 then "E::B" else "(E)1"
    ensures e.Valid() && e.MinLimit() == -512
    ensures e.Items() == [-1, 0] && e.Enumerators() == [ULongLongMax, 0] && e.Names() == ["B", "A"]
  {
    assert e.text(0) == "E::A" && e.text(-1) == "E::B";
    WideUnsignedItems(e);
    var names := e.Names();
    assert names[0] == ItemName("E::B") && names[1] == ItemName("E::A");
    ScopedNames();
  }

  /** `getEnumItemName` drops the `E::` qualifier. */
  lemma ScopedNames()
    ensures ItemName("E::B") == "B" && ItemName("E::A") == "A"
  {
    assert LastIndexOf("E::B", ':') == 2 && LastIndexOf("E::A", ':') == 2;
  }

  /** An increasing sequence holding exactly `a` and `b = a + 1` is `[a, b]`. */
  lemma TwoIncreasing(s: seq<int>, a: int, b: int)
    requires a == b - 1 && Increasing(s)
    requires forall v :: v in s <==> v == a || v == b
    ensures s == [a, b]
  {
    assert a in s && b in s;
    var i, j :| 0 <= i < |s| && 0 <= j < |s| && s[i] == a && s[j] == b;
    assert i != j;
    forall k | 0 <= k < |s| ensures a <= s[k] <= b {
      assert s[k] in s;
    }
    IncreasingBounded(s, a, b);
    assert s[0] in s && s[1] in s;
  }

  /** An increasing sequence within [a, b] has at most `b - a + 1` elements. */
  lemma {:induction false} IncreasingBounded(s: seq<int>, a: int, b: int)
    requires a <= b + 1 && Increasing(s)
    requires forall k :: 0 <= k < |s| ==> a <= s[k] <= b
    ensures |s| <= b - a + 1
  {
    if |s| > 0 {
      var t := s[1..];
      assert a <= s[0] <= b;
      assert Increasing(t) by {
        forall i, j | 0 <= i < j < |t| ensures t[i] < t[j] {
          assert t[i] == s[i + 1] && t[j] == s[j + 1];
        }
      }
      forall k | 0 <= k < |t| ensures a + 1 <= t[k] <= b {
        assert t[k] == s[k + 1] && s[0] < s[k + 1];
      }
      IncreasingBounded(t, a + 1, b);
    }
  }

  // ---------------------------------------------------------------
  // The compile-time loops
  // ---------------------------------------------------------------

  /** `GetEnumSize()`: for `Is` in [0, ITERATION_LIMIT], count `Is` if valid
      and, when `Is != 0`, `-Is` if valid. */
  method GetEnumSize(e: EnumType) returns (size: nat)
    requires e.Valid()
    ensures size == |e.Items()|
  {
    var limit := e.IterationLimit();
    size := 0;
    for step := 0 to limit + 1
      invariant size == |e.ValidIn(-step + 1, step - 1)|
    {
      var index := step;
      if step == 0 {
        assert e.ValidIn(0, 0) == (if e.IsValidElement(0) then [0] else []) + e.ValidIn(1, 0);
      } else {
        Widen(e, step);
      }
      if e.IsValidElement(index) {
        size := size + 1;
      }
      if step != 0 && e.IsValidElement(-index) {
        size := size + 1;
      }
    }
  }

  /** The value probed at the front at one step, when valid. */
  function Front(e: EnumType, v: int): seq<int>
    requires e.Valid()
  {
    if e.IsValidElement(v) then [v] else []
  }

  /** The value probed at the back at one step, when valid and non-zero. */
  function Back(e: EnumType, v: int): seq<int>
    requires e.Valid()
  {
    if v != 0 && e.IsValidElement(v) then [v] else []
  }

  /** Step `step` of the walk probes `-index` and `index`, `index` being
      `limit - step`: the placed front part grows by the first at its end,
      the placed back part by the second at its start, and what remains
      to be placed shrinks by both. */
  lemma StepSplit(e: EnumType, limit: int, step: int)
    requires e.Valid() && 0 <= step <= limit
    ensures Low(e, limit, step + 1) == Low(e, limit, step) + Front(e, step - limit)
    ensures High(e, limit, step + 1) == Back(e, limit - step) + High(e, limit, step)
    ensures Remaining(e, limit, step) ==
            Remaining(e, limit, step + 1) + |Front(e, step - limit)| + |Back(e, limit - step)|
  {
    LowStep(e, limit, step);
    HighStep(e, limit, step);
    RemainingStep(e, limit - step);
  }

  lemma LowStep(e: EnumType, limit: int, step: int)
    requires e.Valid() && 0 <= step <= limit
    ensures Low(e, limit, step + 1) == Low(e, limit, step) + Front(e, step - limit)
  {
    ValidInSplit(e, -limit, step - limit - 1, step - limit);
    Single(e, step - limit);
  }

  lemma HighStep(e: EnumType, limit: int, step: int)
    requires e.Valid() && 0 <= step <= limit
    ensures High(e, limit, step + 1) == Back(e, limit - step) + High(e, limit, step)
  {
    var index := limit - step;
    if index > 0 {
      assert BackFrom(limit, step + 1) == index && BackFrom(limit, step) == index + 1;
      ValidInSplit(e, index, index, limit);
      Single(e, index);
    } else {
      assert BackFrom(limit, step + 1) == 1 == BackFrom(limit, step);
    }
  }

  lemma RemainingStep(e: EnumType, index: int)
    requires e.Valid() && 0 <= index
    ensures |e.ValidIn(-index, index)| ==
            |e.ValidIn(-(index - 1), index - 1)| + |Front(e, -index)| + |Back(e, index)|
  {
    if index > 0 {
      Widen(e, index);
      Single(e, -index);
      Single(e, index);
    } else {
      Single(e, 0);
      assert e.ValidIn(1, -1) == [];
    }
  }

  /** Two spellings that agree inside the limits keep the same values of
      [lo, hi]: `IsValidElement` tests the limits before the spelling. */
  lemma {:induction false} ValidInSameSpelling(e: EnumType, f: EnumType, lo: int, hi: int)
    requires e.Valid() && f.Valid()
    requires f == e.(text := f.text)
    requires forall v :: e.SatisfyLimits(v) ==> f.text(v) == e.text(v)
    ensures f.ValidIn(lo, hi) == e.ValidIn(lo, hi)
    decreases if lo > hi then 0 else hi - lo + 1
  {
    if lo <= hi {
      assert f.IsValidElement(lo) == e.IsValidElement(lo);
      ValidInSameSpelling(e, f, lo + 1, hi);
    }
  }

  /** The spelling of a value outside the limits never changes the traits:
      the items, the enumerators and the names are the same whatever it is. */
  lemma SpellingOutsideLimits(e: EnumType, f: EnumType)
    requires e.Valid() && f.Valid()
    requires f == e.(text := f.text)
    requires forall v :: e.SatisfyLimits(v) ==> f.text(v) == e.text(v)
    ensures f.Items() == e.Items()
    ensures f.Enumerators() == e.Enumerators()
    ensures f.Names() == e.Names()
  {
    assert f.IterationLimit() == e.IterationLimit();
    ValidInSameSpelling(e, f, -e.IterationLimit(), e.IterationLimit());
    var items := e.Items();
    assert f.Items() == items;
    ItemsAreTheValidElements(e);
    forall i | 0 <= i < |items|
      ensures f.Names()[i] == e.Names()[i]
    {
      assert items[i] in items;
      assert f.text(items[i]) == e.text(items[i]);
    }
    ValuesOfSameRange(e, f, items);
  }

  /** The cast depends on the underlying range only. */
  lemma {:induction false} ValuesOfSameRange(e: EnumType, f: EnumType, vs: seq<int>)
    requires e.typeMin <= e.typeMax && f.typeMin == e.typeMin && f.typeMax == e.typeMax
    ensures ValuesOf(f, vs) == ValuesOf(e, vs)
  {
    if |vs| > 0 {
      ValuesOfSameRange(e, f, vs[1..]);
    }
  }

  /** The one-value range. */
  lemma Single(e: EnumType, v: int)
    requires e.Valid()
    ensures e.ValidIn(v, v) == if e.IsValidElement(v) then [v] else []
  {
    assert e.ValidIn(v + 1, v) == [];
  }

  /** The lowest positive value already placed at the back after `step` steps. */
  function BackFrom(limit: int, step: int): int {
    if step <= limit then limit - step + 1 else 1
  }

  /** `data[start_index++] = v`: the placed front part grows by `v`, the
      placed back part is untouched. */
  method PutFront<T>(data: array<T>, front: int, back: int, v: T) returns (next: int)
    requires 0 <= front <= back < data.Length
    modifies data
    ensures next == front + 1
    ensures data[..next] == old(data[..front]) + [v]
    ensures data[back + 1..] == old(data[back + 1..])
  {
    data[front] := v;
    assert data[..front + 1] == old(data[..front]) + [v];
    next := front + 1;
  }

  /** `data[end_index--] = v`: the placed back part grows by `v` at its start,
      the placed front part is untouched. */
  method PutBack<T>(data: array<T>, front: int, back: int, v: T) returns (next: int)
    requires 0 <= front <= back < data.Length
    modifies data
    ensures next == back - 1
    ensures data[next + 1..] == [v] + old(data[back + 1..])
    ensures data[..front] == old(data[..front])
  {
    data[back] := v;
    assert data[back..] == [v] + old(data[back + 1..]);
    next := back - 1;
  }

  /** The two cursors of a walk over `d`: the front part holds `low`, the
      back part `high`, and `remaining` slots lie between them. */
  ghost predicate Placed<T>(d: seq<T>, front: int, back: int, low: seq<T>, high: seq<T>, remaining: int) {
    0 <= front <= back + 1 <= |d| && d[..front] == low && d[back + 1..] == high &&
    back + 1 - front == remaining
  }

  /** Once no slot remains, the front and back parts make up the whole array. */
  lemma PlacedFull<T>(d: seq<T>, front: int, back: int, low: seq<T>, high: seq<T>)
    requires Placed(d, front, back, low, high, 0)
    ensures d == low + high
  {
    assert d == d[..front] + d[back + 1..];
  }

  /** Before the first step nothing is placed; after the last one the two
      parts hold all the items and nothing remains. */
  lemma Finished(e: EnumType, limit: int)
    requires e.Valid() && limit >= 0
    ensures Low(e, limit, 0) == [] && High(e, limit, 0) == []
    ensures Low(e, limit, limit + 1) + High(e, limit, limit + 1) == e.ValidIn(-limit, limit)
    ensures Remaining(e, limit, limit + 1) == 0
  {
    ValidInSplit(e, -limit, 0, limit);
  }

  /** One step of either walk: `f` (nothing or one value) goes to the front
      cursor, then `b` (nothing or one value) to the back cursor. */
  method Place<T>(data: array<T>, front: int, back: int, f: seq<T>, b: seq<T>,
                  ghost low: seq<T>, ghost high: seq<T>, ghost remaining: int)
    returns (front': int, back': int)
    requires |f| <= 1 && |b| <= 1 && 0 <= remaining
    requires Placed(data[..], front, back, low, high, remaining + |f| + |b|)
    modifies data
    ensures Placed(data[..], front', back', low + f, b + high, remaining)
  {
    front', back' := front, back;
    if |f| == 1 {
      front' := PutFront(data, front', back', f[0]);
      assert f == [f[0]];
    }
    if |b| == 1 {
      back' := PutBack(data, front', back', b[0]);
      assert b == [b[0]];
    }
  }

  /** The valid values placed at the front after `step` steps. */
  function Low(e: EnumType, limit: int, step: int): seq<int>
    requires e.Valid()
  {
    e.ValidIn(-limit, step - limit - 1)
  }

  /** The valid values placed at the back after `step` steps. */
  function High(e: EnumType, limit: int, step: int): seq<int>
    requires e.Valid()
  {
    e.ValidIn(BackFrom(limit, step), limit)
  }

  /** The number of valid values still to be placed after `step` steps. */
  function Remaining(e: EnumType, limit: int, step: int): int
    requires e.Valid()
  {
    |e.ValidIn(step - limit, limit - step)|
  }

  /** One step of `GetEnumItems`: probe `-index` for the front cursor and a
      non-zero `index` for the back cursor, `index` being `limit - step`,
      storing `static_cast<Enum>` of each value found. */
  method ItemsStep(e: EnumType, limit: int, step: int, data: array<int>, front: int, back: int)
    returns (front': int, back': int)
    requires e.Valid() && 0 <= step <= limit
    requires Placed(data[..], front, back, ValuesOf(e, Low(e, limit, step)), ValuesOf(e, High(e, limit, step)), Remaining(e, limit, step))
    modifies data
    ensures Placed(data[..], front', back', ValuesOf(e, Low(e, limit, step + 1)), ValuesOf(e, High(e, limit, step + 1)), Remaining(e, limit, step + 1))
  {
    StepSplit(e, limit, step);
    var f, b := Front(e, step - limit), Back(e, limit - step);
    ValuesOfAppend(e, Low(e, limit, step), f);
    ValuesOfAppend(e, b, High(e, limit, step));
    front', back' := Place(data, front, back, ValuesOf(e, f), ValuesOf(e, b),
                           ValuesOf(e, Low(e, limit, step)), ValuesOf(e, High(e, limit, step)),
                           Remaining(e, limit, step + 1));
  }

  /** `GetEnumItems()`: for `index` from ITERATION_LIMIT down to 0, a valid
      `-index` goes to the front cursor and a valid non-zero `index` to the
      back cursor, each as `static_cast<Enum>` of it; the two cursors meet,
      and the probed values come out ascending. */
  method GetEnumItems(e: EnumType, size: nat) returns (data: array<int>)
    requires e.Valid() && size == |e.Items()|
    ensures fresh(data)
    ensures data[..] == e.Enumerators()
  {
    var limit := e.IterationLimit();
    var front, back := 0, size - 1;
    Finished(e, limit);
    data := new int[size];
    for step := 0 to limit + 1
      invariant Placed(data[..], front, back, ValuesOf(e, Low(e, limit, step)), ValuesOf(e, High(e, limit, step)), Remaining(e, limit, step))
    {
      front, back := ItemsStep(e, limit, step, data, front, back);
    }
    ItemsPlaced(e, data[..], front, back, limit);
  }

  /** After the last step of the items walk the array holds all the enumerators. */
  lemma ItemsPlaced(e: EnumType, d: seq<int>, front: int, back: int, limit: int)
    requires e.Valid() && limit == e.IterationLimit()
    requires Placed(d, front, back, ValuesOf(e, Low(e, limit, limit + 1)),
                    ValuesOf(e, High(e, limit, limit + 1)), Remaining(e, limit, limit + 1))
    ensures d == e.Enumerators()
  {
    var low, high := Low(e, limit, limit + 1), High(e, limit, limit + 1);
    Finished(e, limit);
    assert low + high == e.Items();
    ValuesOfAppend(e, low, high);
    PlacedFull(d, front, back, ValuesOf(e, low), ValuesOf(e, high));
    assert d == ValuesOf(e, e.Items());
  }

  /** One step of `GetEnumNames`: as `ItemsStep`, storing names. */
  method NamesStep(e: EnumType, limit: int, step: int, data: array<string>, front: int, back: int)
    returns (front': int, back': int)
    requires e.Valid() && 0 <= step <= limit
    requires Placed(data[..], front, back, NamesOf(e.text, Low(e, limit, step)), NamesOf(e.text, High(e, limit, step)), Remaining(e, limit, step))
    modifies data
    ensures Placed(data[..], front', back', NamesOf(e.text, Low(e, limit, step + 1)), NamesOf(e.text, High(e, limit, step + 1)), Remaining(e, limit, step + 1))
  {
    StepSplit(e, limit, step);
    var f, b := Front(e, step - limit), Back(e, limit - step);
    NamesOfAppend(e.text, Low(e, limit, step), f);
    NamesOfAppend(e.text, b, High(e, limit, step));
    front', back' := Place(data, front, back, NamesOf(e.text, f), NamesOf(e.text, b),
                           NamesOf(e.text, Low(e, limit, step)), NamesOf(e.text, High(e, limit, step)),
                           Remaining(e, limit, step + 1));
  }

  /** `GetEnumNames()`: the same walk as `GetEnumItems`, storing
      `getEnumItemName` of each value found. */
  method GetEnumNames(e: EnumType, size: nat) returns (data: array<string>)
    requires e.Valid() && size == |e.Items()|
    ensures fresh(data)
    ensures data[..] == e.Names()
  {
    var limit := e.IterationLimit();
    var front, back := 0, size - 1;
    Finished(e, limit);
    data := new string[size];
    for step := 0 to limit + 1
      invariant Placed(data[..], front, back, NamesOf(e.text, Low(e, limit, step)), NamesOf(e.text, High(e, limit, step)), Remaining(e, limit, step))
    {
      front, back := NamesStep(e, limit, step, data, front, back);
    }
    NamesPlaced(e, data[..], front, back, limit);
  }

  /** After the last step of the names walk the array holds all the names. */
  lemma NamesPlaced(e: EnumType, d: seq<string>, front: int, back: int, limit: int)
    requires e.Valid() && limit == e.IterationLimit()
    requires Placed(d, front, back, NamesOf(e.text, Low(e, limit, limit + 1)),
                    NamesOf(e.text, High(e, limit, limit + 1)), Remaining(e, limit, limit + 1))
    ensures d == e.Names()
  {
    var low, high := Low(e, limit, limit + 1), High(e, limit, limit + 1);
    Finished(e, limit);
    assert low + high == e.Items();
    NamesOfAppend(e.text, low, high);
    PlacedFull(d, front, back, NamesOf(e.text, low), NamesOf(e.text, high));
    assert d == NamesOf(e.text, e.Items());
  }

  /** The traits of one enum: `enum_size`, `enum_items` and `enum_names`,
      computed once, and the accessors `size()`, `at(i)` and `nameAt(i)`. */
  class Traits {
    const e: EnumType
    const enumSize: nat
    const enumItems: array<int>
    const enumNames: array<string>

    ghost predicate Valid()
      reads this, enumItems, enumNames
    {
      e.Valid() &&
      enumItems[..] == e.Enumerators() && enumNames[..] == e.Names() &&
      enumSize == enumItems.Length == enumNames.Length
    }

    /** Runs the three compile-time computations. */
    constructor (e: EnumType)
      requires e.Valid()
      ensures this.e == e && Valid()
    {
      this.e := e;
      var size := GetEnumSize(e);
      var items := GetEnumItems(e, size);
      var names := GetEnumNames(e, size);
      enumSize, enumItems, enumNames := size, items, names;
    }

    /** `size()`: the number of valid enumerators. */
    function Size(): (n: nat)
      reads this, enumItems, enumNames
      requires Valid()
      ensures n == |e.Items()|
    {
      enumSize
    }

    /** `at(i)`: the `i`-th valid enumerator, in increasing order of the
        probed values. */
    function At(i: nat): (v: int)
      reads this, enumItems, enumNames
      requires Valid() && i < Size()
      ensures v == e.EnumValue(e.Items()[i])
      ensures e.IsValidElement(e.Items()[i])
      ensures e.typeMin <= v <= e.typeMax
    {
      ItemsAreTheValidElements(e);
      assert e.Items()[i] in e.Items();
      enumItems[i]
    }

    /** `nameAt(i)`: the name of the `i`-th valid enumerator. */
    function NameAt(i: nat): (name: string)
      reads this, enumItems, enumNames
      requires Valid() && i < Size()
      ensures name == ItemName(e.text(e.Items()[i]))
    {
      enumNames[i]
    }
  }
}
