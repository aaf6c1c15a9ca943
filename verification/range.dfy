/**
  The closed interval `range_t<T>` of ospcommon, with T instantiated as the
  extended integers of module ExtInt. The default constructor and the one
  taking `empty` both produce the canonical empty range [pos_inf, neg_inf];
  `zero` and `one` give [0, 0] and [0, 1]; a single value t gives [t, t];
  two values give exactly those bounds, unordered.
 */
module Ranges {
  import opened Wrappers
  import opened ExtInt

  datatype Range = Range(lower: Ext, upper: Ext) {

    /** `empty()`: the upper bound lies below the lower one. */
    predicate IsEmpty() {
      Lt(upper, lower)
    }

    /** `contains(t)`: neither `t < lower` nor `upper < t`. */
    predicate Contains(t: Ext) {
      !Lt(t, lower) && !Lt(upper, t)
    }

    /** Either non-empty or the canonical empty range built by `Empty()`. */
    predicate IsCanonical() {
      !IsEmpty() || this == Empty()
    }

    /** `size()`: `upper - lower`; None when both bounds are the same infinity. */
    function Size(): (r: Option<Ext>)
      ensures r.None? <==> lower == upper && !lower.Fin?
      ensures lower.Fin? && upper.Fin? ==> r == Some(Fin(upper.v - lower.v))
      ensures r.Some? ==> (Lt(r.value, Fin(0)) <==> IsEmpty())
      ensures r.Some? ==> (r.value == Fin(0) <==> lower == upper)
      ensures r.Some? ==> (r.value.Fin? <==> lower.Fin? && upper.Fin?)
    {
      Sub(upper, lower)
    }

    /** `extend(t)`: grow the bounds just enough to take in t. */
    function Extend(t: Ext): (r: Range)
      ensures r.Contains(t)
      ensures forall s :: Contains(s) ==> r.Contains(s)
      ensures Le(r.lower, lower) && Le(upper, r.upper)
      ensures r.lower == lower || r.lower == t
      ensures r.upper == upper || r.upper == t
    {
      Range(Min(lower, t), Max(upper, t))
    }

    /** `extend(other)`: grow the bounds just enough to take in other's bounds. */
    function ExtendBy(other: Range): (r: Range)
      ensures forall s :: Contains(s) || other.Contains(s) ==> r.Contains(s)
      ensures Le(r.lower, lower) && Le(upper, r.upper)
      ensures Le(r.lower, other.lower) && Le(other.upper, r.upper)
      ensures r.lower == lower || r.lower == other.lower
      ensures r.upper == upper || r.upper == other.upper
    {
      Range(Min(lower, other.lower), Max(upper, other.upper))
    }

    /** `clamp(t)`: `max(lower, min(t, upper))`. */
    function Clamp(t: Ext): (r: Ext)
      ensures !IsEmpty() ==> Contains(r)
      ensures Contains(t) ==> r == t
      ensures !IsEmpty() && Lt(t, lower) ==> r == lower
      ensures !IsEmpty() && Le(upper, t) ==> r == upper
      ensures IsEmpty() ==> r == lower
    {
      Max(lower, Min(t, upper))
    }
  }

  /** The default constructor and `range_t(empty)`: [pos_inf, neg_inf]. */
  function Empty(): (r: Range)
    ensures r.IsEmpty()
    ensures forall t :: !r.Contains(t)
  {
    Range(PosInf, NegInf)
  }

  /** `range_t(zero)`: [0, 0]. */
  function Zero(): (r: Range)
    ensures !r.IsEmpty()
    ensures forall t :: r.Contains(t) <==> t == Fin(0)
    ensures r.Size() == Some(Fin(0))
  {
    Range(Fin(0), Fin(0))
  }

  /** `range_t(one)`: [0, 1]. */
  function One(): (r: Range)
    ensures !r.IsEmpty()
    ensures forall t :: r.Contains(t) <==> t == Fin(0) || t == Fin(1)
    ensures r.Size() == Some(Fin(1))
  {
    Range(Fin(0), Fin(1))
  }

  /** `range_t(t)`: the range holding t alone. */
  function Point(t: Ext): (r: Range)
    ensures !r.IsEmpty()
    ensures forall s :: r.Contains(s) <==> s == t
    ensures t.Fin? ==> r.Size() == Some(Fin(0))
  {
    Range(t, t)
  }

  /**
    What `sscanf(s, "%f %f", &lower, &upper)` did: it failed on input before
    any conversion (returning EOF), or converted zero, one or two numbers,
    storing them into lower and then upper.
   */
  datatype Scan = InputFailure | Converted0 | Converted1(first: Ext) | Converted2(first: Ext, second: Ext)

  /** The return code of the scan: EOF (-1) or the number of conversions. */
  function ReturnCount(s: Scan): int {
    match s
    case InputFailure => -1
    case Converted0 => 0
    case Converted1(_) => 1
    case Converted2(_, _) => 2
  }

  /** The range the scan wrote into: converted values replace lower, then upper. */
  function StoreInto(ret: Range, s: Scan): Range {
    match s
    case InputFailure => ret
    case Converted0 => ret
    case Converted1(a) => Range(a, ret.upper)
    case Converted2(a, b) => Range(a, b)
  }

  /**
    `fromString`: scan into a range that starts out empty, and return it when
    both numbers were read; otherwise return the default, itself the empty
    range unless the caller passes one.
   */
  function FromString(s: Scan, defaultValue: Range := Empty()): (r: Range)
    ensures s.Converted2? ==> r == Range(s.first, s.second)
    ensures !s.Converted2? ==> r == defaultValue
  {
    var ret := StoreInto(Empty(), s);
    if ReturnCount(s) == 2 then ret else defaultValue
  }
}
