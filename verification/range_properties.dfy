/** Properties relating several operations of the interval type. */
module RangeProperties {
  import opened Wrappers
  import opened ExtInt
  import opened Ranges

  /** A range is empty exactly when it contains no value at all. */
  lemma EmptyIffContainsNothing(r: Range)
    ensures r.IsEmpty() <==> forall t :: !r.Contains(t)
  {
    if !r.IsEmpty() {
      assert r.Contains(r.lower);
    }
  }

  /** Ranges are convex: whatever lies between two contained values is contained. */
  lemma ContainsBetween(r: Range, a: Ext, b: Ext, x: Ext)
    requires r.Contains(a) && r.Contains(b)
    requires Le(a, x) && Le(x, b)
    ensures r.Contains(x)
  {
  }

  /** Extending the canonical empty range by t gives the point range [t, t]. */
  lemma ExtendEmpty(t: Ext)
    ensures Empty().Extend(t) == Point(t)
  {
  }

  /** Extending by a value is extending by the point range of that value. */
  lemma ExtendIsExtendByPoint(r: Range, t: Ext)
    ensures r.Extend(t) == r.ExtendBy(Point(t))
  {
  }

  /** Extending twice by the same value gives the bounds of extending once. */
  lemma ExtendIdempotent(r: Range, t: Ext)
    ensures r.Extend(t).Extend(t) == r.Extend(t)
  {
  }

  /** Extending twice by the same range gives the bounds of extending once. */
  lemma ExtendByIdempotent(r: Range, other: Range)
    ensures r.ExtendBy(other).ExtendBy(other) == r.ExtendBy(other)
    ensures r.ExtendBy(r) == r
  {
  }

  /** The canonical empty range is a unit of `extend(range)` on either side. */
  lemma ExtendByEmpty(r: Range)
    ensures r.ExtendBy(Empty()) == r
    ensures Empty().ExtendBy(r) == r
  {
  }

  /** `extend(range)` is commutative and associative on the bounds. */
  lemma ExtendByCommutativeAssociative(a: Range, b: Range, c: Range)
    ensures a.ExtendBy(b) == b.ExtendBy(a)
    ensures a.ExtendBy(b).ExtendBy(c) == a.ExtendBy(b.ExtendBy(c))
  {
  }

  /**
    `extend(t)` on a canonical range grows it no further than needed: any
    range holding t and everything the original held holds the result too.
   */
  lemma ExtendIsLeast(r: Range, t: Ext, s: Range)
    requires r.IsCanonical()
    requires s.Contains(t)
    requires forall x :: r.Contains(x) ==> s.Contains(x)
    ensures r.Extend(t).IsCanonical()
    ensures forall x :: r.Extend(t).Contains(x) ==> s.Contains(x)
  {
    var e := r.Extend(t);
    if r.IsEmpty() {
      assert e == Point(t);
    } else {
      assert r.Contains(r.lower) && r.Contains(r.upper);
      forall x | e.Contains(x)
        ensures s.Contains(x)
      {
        ContainsBetween(s, e.lower, e.upper, x);
      }
    }
  }

  /**
    `extend(other)` on canonical ranges grows no further than needed: any
    range holding everything either operand held holds the result too.
   */
  lemma ExtendByIsLeast(r: Range, other: Range, s: Range)
    requires r.IsCanonical() && other.IsCanonical()
    requires forall x :: r.Contains(x) || other.Contains(x) ==> s.Contains(x)
    ensures r.ExtendBy(other).IsCanonical()
    ensures forall x :: r.ExtendBy(other).Contains(x) ==> s.Contains(x)
  {
    var e := r.ExtendBy(other);
    if r.IsEmpty() {
      assert e == other;
    } else if other.IsEmpty() {
      assert e == r;
    } else {
      assert r.Contains(r.lower) && r.Contains(r.upper);
      assert other.Contains(other.lower) && other.Contains(other.upper);
      forall x | e.Contains(x)
        ensures s.Contains(x)
      {
        ContainsBetween(s, e.lower, e.upper, x);
      }
    }
  }

  /**
    The canonical form matters: a range with lower > upper other than
    [pos_inf, neg_inf], such as [5, 3], contains nothing, yet extending it by
    0 yields [0, 3] and not [0, 0].
   */
  lemma ExtendNonCanonicalEmpty()
    ensures Range(Fin(5), Fin(3)).IsEmpty()
    ensures Range(Fin(5), Fin(3)).Extend(Fin(0)) == Range(Fin(0), Fin(3))
    ensures Range(Fin(5), Fin(3)).Extend(Fin(0)).Contains(Fin(2))
  {
  }

  /** Clamping an already clamped value changes nothing. */
  lemma ClampIdempotent(r: Range, t: Ext)
    ensures r.Clamp(r.Clamp(t)) == r.Clamp(t)
  {
  }

  /** `fromString` keeps the scanned order: "5 3" gives the empty [5, 3]. */
  lemma FromStringKeepsOrder(a: Ext, b: Ext)
    requires Lt(b, a)
    ensures FromString(Converted2(a, b)).IsEmpty()
    ensures FromString(Converted2(a, b)) == Range(a, b)
  {
  }

  /** Without two numbers and without a default argument the result is empty. */
  lemma FromStringDefaultsToEmpty(s: Scan)
    requires ReturnCount(s) != 2
    ensures FromString(s) == Empty()
    ensures forall t :: !FromString(s).Contains(t)
  {
  }
}
