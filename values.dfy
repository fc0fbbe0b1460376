/**
 * Field values of a record, and Python's `<` on them.
 *
 * A field holds `None` or a primitive; the primitives the sorted data uses are
 * integers and strings. Strings compare lexicographically by code point, as
 * Python's `str.__lt__` does.
 */
module Values {

  datatype Prim = IntP(n: int) | StrP(s: string)

  datatype Value = Null | Present(p: Prim)

  /** Python's `s < t` on two strings: lexicographic order by code point. */
  predicate StrLess(s: string, t: string)
    ensures StrLess(s, t) ==> s != t
    ensures |s| < |t| && s == t[..|s|] ==> StrLess(s, t)
    decreases |s|
  {
    if s == [] then t != []
    else if t == [] then false
    else if s[0] < t[0] then true
    else s[0] == t[0] && StrLess(s[1..], t[1..])
  }

  /**
   * Python's `a < b` on two primitives. Integers and strings compare within
   * their own kind; across kinds Python raises TypeError, and the model puts
   * every integer before every string instead.
   */
  predicate PrimLess(a: Prim, b: Prim)
    ensures PrimLess(a, b) ==> a != b
  {
    match (a, b)
    case (IntP(x), IntP(y)) => x < y
    case (StrP(x), StrP(y)) => StrLess(x, y)
    case (IntP(_), StrP(_)) => true
    case (StrP(_), IntP(_)) => false
  }

  /** Exactly one of `s < t`, `s == t`, `t < s` holds. */
  lemma {:induction false} StrLessTrichotomy(s: string, t: string)
    ensures StrLess(s, t) || s == t || StrLess(t, s)
    ensures !(StrLess(s, t) && StrLess(t, s))
    decreases |s|
  {
    if s != [] && t != [] {
      StrLessTrichotomy(s[1..], t[1..]);
      assert s == [s[0]] + s[1..] && t == [t[0]] + t[1..];
    }
  }

  lemma {:induction false} StrLessTransitive(s: string, t: string, u: string)
    requires StrLess(s, t) && StrLess(t, u)
    ensures StrLess(s, u)
    decreases |s|
  {
    if s != [] && t != [] && u != [] && s[0] == t[0] == u[0] {
      StrLessTransitive(s[1..], t[1..], u[1..]);
    }
  }

  /** `PrimLess` is a strict total order: trichotomy and transitivity. */
  lemma PrimLessTrichotomy(a: Prim, b: Prim)
    ensures PrimLess(a, b) || a == b || PrimLess(b, a)
    ensures !(PrimLess(a, b) && PrimLess(b, a))
    ensures !PrimLess(a, a)
  {
    if a.StrP? && b.StrP? {
      StrLessTrichotomy(a.s, b.s);
    }
    if a.StrP? {
      StrLessTrichotomy(a.s, a.s);
    }
  }

  lemma PrimLessTransitive(a: Prim, b: Prim, c: Prim)
    requires PrimLess(a, b) && PrimLess(b, c)
    ensures PrimLess(a, c)
  {
    if a.StrP? && b.StrP? && c.StrP? {
      StrLessTransitive(a.s, b.s, c.s);
    }
  }
}
