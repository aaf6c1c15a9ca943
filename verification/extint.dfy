/**
  The scalar type the interval is instantiated with: an integer extended by
  the two sentinels pos_inf and neg_inf that the empty interval is built from.
  The comparison is the one a floating-point `<` gives on non-NaN values, and
  subtraction follows the IEEE rules for infinities, with the one undefined
  case (an infinity minus the same infinity, NaN for floats) made explicit.
 */
module ExtInt {
  import opened Wrappers

  datatype Ext = NegInf | Fin(v: int) | PosInf

  /** Position of the constructor in the order NegInf < Fin(_) < PosInf. */
  function Rank(a: Ext): nat {
    match a
    case NegInf => 0
    case Fin(_) => 1
    case PosInf => 2
  }

  /** The strict order `a < b`. */
  predicate Lt(a: Ext, b: Ext) {
    if a.Fin? && b.Fin? then a.v < b.v else Rank(a) < Rank(b)
  }

  /** The non-strict order `a <= b`, i.e. `!(b < a)`. */
  predicate Le(a: Ext, b: Ext) {
    !Lt(b, a)
  }

  /** std::min as the standard library writes it: `(b < a) ? b : a`. */
  function Min(a: Ext, b: Ext): (r: Ext)
    ensures Le(r, a) && Le(r, b)
    ensures r == a || r == b
  {
    if Lt(b, a) then b else a
  }

  /** std::max as the standard library writes it: `(a < b) ? b : a`. */
  function Max(a: Ext, b: Ext): (r: Ext)
    ensures Le(a, r) && Le(b, r)
    ensures r == a || r == b
  {
    if Lt(a, b) then b else a
  }

  /** The difference `a - b`, None where IEEE arithmetic yields NaN. */
  function Sub(a: Ext, b: Ext): (r: Option<Ext>)
    ensures r.None? <==> a == b && !a.Fin?
    ensures a.Fin? && b.Fin? ==> r == Some(Fin(a.v - b.v))
    ensures r.Some? ==> (Lt(r.value, Fin(0)) <==> Lt(a, b))
    ensures r.Some? ==> (r.value == Fin(0) <==> a == b)
    ensures r.Some? ==> (r.value.Fin? <==> a.Fin? && b.Fin?)
  {
    match (a, b)
    case (Fin(x), Fin(y)) => Some(Fin(x - y))
    case (PosInf, PosInf) => None
    case (NegInf, NegInf) => None
    case (PosInf, _) => Some(PosInf)
    case (NegInf, _) => Some(NegInf)
    case (_, PosInf) => Some(NegInf)
    case (_, NegInf) => Some(PosInf)
  }
}
