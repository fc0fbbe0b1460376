/**
 * `reversor(obj)`: a wrapper for use inside a sort key whose `<` is the
 * converse of the wrapped values' `<`, with `None` as the largest wrapper.
 * It orders exactly like a descending comparator key with `none_first` unset.
 */
module Reversors {
  import opened Values
  import Comparator

  datatype Reversor = Reversor(obj: Value)

  /** `__eq__`: the wrapped objects are equal. */
  predicate Eq(self: Reversor, other: Reversor) {
    other.obj == self.obj
  }

  /** `__lt__`: never when `self` wraps `None`; always when only `other` does; else `other.obj < self.obj`. */
  predicate Lt(self: Reversor, other: Reversor) {
    if self.obj.Null? then false
    else if other.obj.Null? then true
    else PrimLess(other.obj.p, self.obj.p)
  }

  /** A `reversor` key sorts like a `desc` comparator key with `None` last. */
  lemma LtIsDescendingNoneLast(u: Value, v: Value)
    ensures Lt(Reversor(u), Reversor(v)) <==> Comparator.Before(true, false, u, v)
  {
  }

  /** For present values, `reversor(x) < reversor(y)` exactly when `y < x`, so never both ways. */
  lemma LtConverse(p: Prim, q: Prim)
    ensures Lt(Reversor(Present(p)), Reversor(Present(q))) <==> PrimLess(q, p)
    ensures Lt(Reversor(Present(p)), Reversor(Present(q))) ==> !Lt(Reversor(Present(q)), Reversor(Present(p)))
  {
    PrimLessTrichotomy(p, q);
  }

  /** A `None` wrapper is never less than anything, and every other wrapper is less than it. */
  lemma NoneIsMaximum(r: Reversor)
    ensures !Lt(Reversor(Null), r)
    ensures r.obj.Present? ==> Lt(r, Reversor(Null))
  {
  }

  /** `Lt` is a strict total order whose incomparable pairs are exactly the `Eq` ones. */
  lemma LtStrictTotalOrder(x: Reversor, y: Reversor, z: Reversor)
    ensures !Lt(x, x)
    ensures Lt(x, y) ==> !Lt(y, x)
    ensures Lt(x, y) && Lt(y, z) ==> Lt(x, z)
    ensures Lt(x, y) || Eq(x, y) || Lt(y, x)
    ensures Eq(x, y) ==> !Lt(x, y) && !Lt(y, x)
  {
    LtIsDescendingNoneLast(x.obj, y.obj);
    LtIsDescendingNoneLast(y.obj, x.obj);
    LtIsDescendingNoneLast(x.obj, x.obj);
    LtIsDescendingNoneLast(y.obj, z.obj);
    LtIsDescendingNoneLast(x.obj, z.obj);
    Comparator.BeforeTrichotomy(true, false, x.obj, y.obj);
    Comparator.BeforeTrichotomy(true, false, x.obj, x.obj);
    if Lt(x, y) && Lt(y, z) {
      Comparator.BeforeTransitive(true, false, x.obj, y.obj, z.obj);
    }
  }
}
