/**
 * The three-way comparison `Comparator._compare_a_b`.
 *
 * Descriptors are tried in order; for each, both records' values are read,
 * `clean` (when given) is applied to both, and the first key whose values
 * differ decides. `None` goes last, or first under `none_first`, whatever the
 * direction; other values go ascending, or descending under `desc`.
 */
module Comparator {
  import opened Wrappers
  import opened Values
  import opened Records
  import opened SpecNormalizer

  /** The KeyError of line 65, naming the key that could not be read. */
  datatype KeyError = KeyError(key: Key)

  /** `if clean: v = clean(v)`. */
  function Cleaned(d: Descriptor, v: Value): Value {
    match d.clean
    case Some(f) => f(v)
    case None => v
  }

  /** `if desc:` — Python's None and False are both false. */
  predicate Descending(d: Descriptor) {
    d.desc == Some(true)
  }

  /**
   * The per-key order as a strict relation: does `x` come strictly before `y`?
   * `None` sits at one end, chosen by `noneFirst` alone; present values are
   * ordered by `<`, reversed when `desc`.
   */
  ghost predicate Before(desc: bool, noneFirst: bool, x: Value, y: Value) {
    match (x, y)
    case (Null, Null) => false
    case (Null, Present(_)) => noneFirst
    case (Present(_), Null) => !noneFirst
    case (Present(p), Present(q)) => if desc then PrimLess(q, p) else PrimLess(p, q)
  }

  /** `Before` is a strict total order for every choice of the two flags. */
  lemma BeforeTrichotomy(desc: bool, noneFirst: bool, x: Value, y: Value)
    ensures Before(desc, noneFirst, x, y) || x == y || Before(desc, noneFirst, y, x)
    ensures !(Before(desc, noneFirst, x, y) && Before(desc, noneFirst, y, x))
    ensures !Before(desc, noneFirst, x, x)
  {
    if x.Present? && y.Present? {
      PrimLessTrichotomy(x.p, y.p);
    }
    if x.Present? {
      PrimLessTrichotomy(x.p, x.p);
    }
  }

  lemma BeforeTransitive(desc: bool, noneFirst: bool, x: Value, y: Value, z: Value)
    requires Before(desc, noneFirst, x, y) && Before(desc, noneFirst, y, z)
    ensures Before(desc, noneFirst, x, z)
  {
    if x.Present? && y.Present? && z.Present? {
      if desc {
        PrimLessTransitive(z.p, y.p, x.p);
      } else {
        PrimLessTransitive(x.p, y.p, z.p);
      }
    }
  }

  /**
   * Lines 71-77 for one key, on already cleaned values: 0 when equal,
   * otherwise -1 when `x` goes first and 1 when `y` goes first.
   */
  function KeyOrder(d: Descriptor, x: Value, y: Value): (r: int)
    ensures r == 0 <==> x == y
    ensures r == -1 <==> Before(Descending(d), d.noneFirst, x, y)
    ensures r == 1 <==> Before(Descending(d), d.noneFirst, y, x)
  {
    BeforeTrichotomy(Descending(d), d.noneFirst, x, y);
    if x == y then 0
    else if x.Null? then (if d.noneFirst then -1 else 1)
    else if y.Null? then (if d.noneFirst then 1 else -1)
    else if Descending(d) then (if PrimLess(y.p, x.p) then -1 else 1)
    else (if PrimLess(y.p, x.p) then 1 else -1)
  }

  /** `_compare_a_b(a, b)` over the descriptor list `ds`. */
  function Compare(ds: seq<Descriptor>, a: Record, b: Record): (r: Result<int, KeyError>)
    ensures r.Ok? ==> -1 <= r.value <= 1
    ensures r.Err? ==> exists i :: 0 <= i < |ds| && r.error == KeyError(ds[i].key)
    decreases |ds|
  {
    if ds == [] then Ok(0)
    else
      match LookupPair(a, b, ds[0].key)
      case Missing => Err(KeyError(ds[0].key))
      case Found(_, va, vb) =>
        var c := KeyOrder(ds[0], Cleaned(ds[0], va), Cleaned(ds[0], vb));
        if c != 0 then Ok(c)
        else
          var rest := Compare(ds[1..], a, b);
          assert rest.Err? ==> exists i :: 1 <= i < |ds| && rest.error == KeyError(ds[i].key) by {
            if rest.Err? {
              var j :| 0 <= j < |ds[1..]| && rest.error == KeyError(ds[1..][j].key);
              assert ds[1..][j] == ds[j + 1];
            }
          }
          rest
  }

  /** Key `d` reads both records and its cleaned values agree. */
  ghost predicate KeyEqual(d: Descriptor, a: Record, b: Record) {
    var l := LookupPair(a, b, d.key);
    l.Found? && Cleaned(d, l.va) == Cleaned(d, l.vb)
  }

  ghost predicate AllKeysEqual(ds: seq<Descriptor>, a: Record, b: Record) {
    forall i :: 0 <= i < |ds| ==> KeyEqual(ds[i], a, b)
  }

  /** The comparison answers 0 iff every key reads both records with equal cleaned values. */
  lemma {:induction false} CompareZeroIff(ds: seq<Descriptor>, a: Record, b: Record)
    ensures Compare(ds, a, b) == Ok(0) <==> AllKeysEqual(ds, a, b)
    decreases |ds|
  {
    if ds != [] {
      CompareZeroIff(ds[1..], a, b);
      assert forall i :: 1 <= i < |ds| ==> ds[1..][i - 1] == ds[i];
      if AllKeysEqual(ds[1..], a, b) && KeyEqual(ds[0], a, b) {
        forall i | 0 <= i < |ds| ensures KeyEqual(ds[i], a, b) {
          if i > 0 { assert ds[i] == ds[1..][i - 1]; }
        }
      }
    }
  }

  /** Lexicographic order: the first key whose cleaned values differ decides, and a key that cannot be read raises. */
  lemma {:induction false} CompareFirstDifference(ds: seq<Descriptor>, a: Record, b: Record, k: nat)
    requires k < |ds|
    requires forall i :: 0 <= i < k ==> KeyEqual(ds[i], a, b)
    ensures LookupPair(a, b, ds[k].key).Missing? ==> Compare(ds, a, b) == Err(KeyError(ds[k].key))
    ensures LookupPair(a, b, ds[k].key).Found? && !KeyEqual(ds[k], a, b) ==>
      var l := LookupPair(a, b, ds[k].key);
      Compare(ds, a, b) == Ok(KeyOrder(ds[k], Cleaned(ds[k], l.va), Cleaned(ds[k], l.vb)))
    decreases k
  {
    if k > 0 {
      assert KeyEqual(ds[0], a, b);
      assert forall i :: 0 <= i < k - 1 ==> ds[1..][i] == ds[i + 1];
      CompareFirstDifference(ds[1..], a, b, k - 1);
      assert ds[1..][k - 1] == ds[k];
    }
  }

  /** Swapping the records negates the answer, and a KeyError is raised either way. */
  lemma {:induction false} CompareAntisymmetric(ds: seq<Descriptor>, a: Record, b: Record)
    ensures Compare(ds, b, a) == Negated(Compare(ds, a, b))
    decreases |ds|
  {
    if ds != [] {
      LookupPairSymmetric(a, b, ds[0].key);
      CompareAntisymmetric(ds[1..], a, b);
    }
  }

  /**
   * Transitivity: if `a` goes no later than `b` and `b` no later than `c`,
   * then comparing `a` with `c` raises nothing and puts `a` no later than `c`.
   */
  lemma {:induction false} CompareTransitive(ds: seq<Descriptor>, a: Record, b: Record, c: Record)
    requires Compare(ds, a, b).Ok? && Compare(ds, a, b).value <= 0
    requires Compare(ds, b, c).Ok? && Compare(ds, b, c).value <= 0
    ensures Compare(ds, a, c).Ok? && Compare(ds, a, c).value <= 0
    decreases |ds|
  {
    if ds != [] {
      var d := ds[0];
      LookupPairChain(a, b, c, d.key);
      var lab, lbc := LookupPair(a, b, d.key), LookupPair(b, c, d.key);
      var x, y, z := Cleaned(d, lab.va), Cleaned(d, lab.vb), Cleaned(d, lbc.vb);
      BeforeTrichotomy(Descending(d), d.noneFirst, x, z);
      if x == y && y == z {
        CompareTransitive(ds[1..], a, b, c);
      } else if x != y && y != z {
        BeforeTransitive(Descending(d), d.noneFirst, x, y, z);
      }
    }
  }

  /** Every row resolves every descriptor's key the same way. */
  ghost predicate Resolvable(ds: seq<Descriptor>, rows: seq<Record>, via: Access) {
    forall i, j :: 0 <= i < |rows| && 0 <= j < |ds| ==>
      (via == BySubscript ==> Subscript(rows[i], ds[j].key).Some?) &&
      (via == ByAttribute ==> GetAttr(rows[i], ds[j].key).Some?)
  }

  /**
   * Every comparison between rows at two different positions succeeds. A key
   * a row lacks is harmless as long as an earlier key decides each pair.
   */
  ghost predicate Comparable(ds: seq<Descriptor>, rows: seq<Record>) {
    forall i, j :: 0 <= i < |rows| && 0 <= j < |rows| && i != j ==> Compare(ds, rows[i], rows[j]).Ok?
  }

  /** Rows of one shape that all carry every key never make the comparator raise. */
  lemma ResolvableIsComparable(ds: seq<Descriptor>, rows: seq<Record>, via: Access)
    requires Resolvable(ds, rows, via)
    ensures Comparable(ds, rows)
  {
    forall i, j | 0 <= i < |rows| && 0 <= j < |rows| && i != j ensures Compare(ds, rows[i], rows[j]).Ok? {
      ResolvedPairCompares(ds, rows[i], rows[j], via);
    }
  }

  lemma {:induction false} ResolvedPairCompares(ds: seq<Descriptor>, a: Record, b: Record, via: Access)
    requires forall j :: 0 <= j < |ds| ==>
      (via == BySubscript ==> Subscript(a, ds[j].key).Some? && Subscript(b, ds[j].key).Some?) &&
      (via == ByAttribute ==> GetAttr(a, ds[j].key).Some? && GetAttr(b, ds[j].key).Some?)
    ensures Compare(ds, a, b).Ok?
    decreases |ds|
  {
    if ds != [] {
      assert forall j :: 0 <= j < |ds| - 1 ==> ds[1..][j] == ds[j + 1];
      ResolvedPairCompares(ds[1..], a, b, via);
    }
  }
}
