/**
 * `msorted(rows, spec, reverse)`: the spec is normalised into a comparator
 * first (so an invalid spec raises even for no rows), then a fresh copy of
 * `rows` is sorted stably by that comparator. `reverse` flips every
 * comparison, which is what Python's `sorted(..., reverse=True)` amounts to:
 * equal rows keep their input order either way.
 */
module MSort {
  import opened Wrappers
  import opened Values
  import opened Records
  import opened SpecNormalizer
  import opened Comparator
  import StableSort

  /** What `msorted` can raise: an invalid spec, or a KeyError from a comparison. */
  datatype SortError = SpecErr(spec: SpecError) | LookupErr(lookup: KeyError)

  /** The comparison the sort uses: `_compare_a_b`, negated when sorting in reverse. */
  function Cmp(ds: seq<Descriptor>, rev: bool, a: Record, b: Record): (r: Result<int, KeyError>)
    ensures r.Ok? ==> -1 <= r.value <= 1
    ensures rev ==> r == Compare(ds, b, a)
  {
    CompareAntisymmetric(ds, a, b);
    if rev then Negated(Compare(ds, a, b)) else Compare(ds, a, b)
  }

  /** The comparison handed to the sort: sorting in reverse compares the rows the other way round. */
  function CmpOf(ds: seq<Descriptor>, rev: bool): (c: StableSort.Comparison<Record, KeyError>)
    ensures forall a, b :: c(a, b) == (if rev then Compare(ds, b, a) else Compare(ds, a, b))
  {
    (a, b) => Cmp(ds, rev, a, b)
  }

  /**
   * `msorted(rows, [(k, opts)])` on two rows whose `k` reads None in `a` and a
   * present value in `b`: `a` goes first exactly when `opts` sets `none_first`
   * to True, whatever `opts` says about `reverse`; `reverse=True` turns that round.
   */
  lemma NoneFirstOption(k: Key, o: Opts, a: Record, b: Record)
    requires o.clean.None?
    requires LookupPair(a, b, k).Found? && LookupPair(a, b, k).va.Null? && LookupPair(a, b, k).vb.Present?
    ensures NormalizeSpec(MsortedSpec(Many([Tuple(k, [DictArg(o)])]))).Ok?
    ensures Cmp(NormalizeSpec(MsortedSpec(Many([Tuple(k, [DictArg(o)])]))).value, false, a, b)
      == Ok(if o.noneFirst == Some(true) then -1 else 1)
    ensures Cmp(NormalizeSpec(MsortedSpec(Many([Tuple(k, [DictArg(o)])]))).value, true, a, b)
      == Ok(if o.noneFirst == Some(true) then 1 else -1)
  {
    var es := [Tuple(k, [DictArg(o)])];
    assert MsortedSpec(Many(es)) == Many(es);
    assert es[..|es| - 1] == [] && NormalizeElems([]) == Ok([]);
    assert NormalizeElem(es[0]).Ok?;
    assert [] + [NormalizeElem(es[0]).value] == [NormalizeElem(es[0]).value];
    assert NormalizeElems(es) == Ok([NormalizeElem(es[0]).value]);
    var ds := [NormalizeElem(es[0]).value];
    assert ds[1..] == [];
  }

  /** The comparator, reversed or not, is antisymmetric and transitive. */
  lemma CmpConsistent(ds: seq<Descriptor>, rev: bool)
    ensures StableSort.Consistent(CmpOf(ds, rev))
  {
    var cmp := CmpOf(ds, rev);
    forall a, b ensures cmp(b, a) == Negated(cmp(a, b)) {
      CompareAntisymmetric(ds, a, b);
    }
    forall a, b, c ensures StableSort.TransitiveAt(cmp, a, b, c) {
      if StableSort.LessEq(cmp, a, b) && StableSort.LessEq(cmp, b, c) {
        if rev {
          CompareAntisymmetric(ds, a, b);
          CompareAntisymmetric(ds, b, c);
          CompareAntisymmetric(ds, a, c);
          CompareTransitive(ds, c, b, a);
        } else {
          CompareTransitive(ds, a, b, c);
        }
      }
    }
  }

  /** Sorting in reverse puts `a` before `b` exactly when the forward sort puts `b` before `a`. */
  lemma ReverseFlipsOrder(ds: seq<Descriptor>, a: Record, b: Record)
    ensures StableSort.LessEq(CmpOf(ds, true), a, b) <==> StableSort.LessEq(CmpOf(ds, false), b, a)
    ensures StableSort.Tie(CmpOf(ds, true), a, b) <==> StableSort.Tie(CmpOf(ds, false), a, b)
  {
    CompareAntisymmetric(ds, a, b);
  }

  /** The comparison the sort uses, reversed or not, raises between the same positions as `_compare_a_b`. */
  lemma ComparableBothWays(ds: seq<Descriptor>, rev: bool, rows: seq<Record>)
    ensures StableSort.Comparable(CmpOf(ds, rev), rows) <==> Comparator.Comparable(ds, rows)
  {
  }

  /** `msorted`: normalise the spec, then stably sort the rows by the comparator. */
  function Msorted(rows: seq<Record>, spec: Spec, reverse: bool): (r: Result<seq<Record>, SortError>)
    ensures NormalizeSpec(MsortedSpec(spec)).Err? ==> r.Err? && r.error.SpecErr?
    ensures r.Ok? ==> |r.value| == |rows|
  {
    match NormalizeSpec(MsortedSpec(spec))
    case Err(e) => Err(SpecErr(e))
    case Ok(ds) =>
      match StableSort.Sort(CmpOf(ds, reverse), rows)
      case Err(e) => Err(LookupErr(e))
      case Ok(q) => Ok(q)
  }

  /**
   * What `msorted` promises: an invalid spec raises before any row is
   * looked at; the rows are sorted exactly when no comparison between two
   * of them raises; and a sorted result is a permutation of the rows,
   * ordered by the comparator, with tied rows in their input order.
   */
  lemma MsortedCorrect(rows: seq<Record>, spec: Spec, reverse: bool)
    ensures NormalizeSpec(MsortedSpec(spec)).Err? ==>
      Msorted(rows, spec, reverse) == Err(SpecErr(NormalizeSpec(MsortedSpec(spec)).error))
    ensures NormalizeSpec(MsortedSpec(spec)).Ok? ==>
      (Msorted(rows, spec, reverse).Ok? <==> Comparator.Comparable(NormalizeSpec(MsortedSpec(spec)).value, rows))
    ensures Msorted(rows, spec, reverse).Ok? ==>
      var cmp := CmpOf(NormalizeSpec(MsortedSpec(spec)).value, reverse);
      var q := Msorted(rows, spec, reverse).value;
      && multiset(q) == multiset(rows)
      && StableSort.Ordered(cmp, q)
      && StableSort.SameTies(cmp, q, rows)
  {
    var n := NormalizeSpec(MsortedSpec(spec));
    if n.Ok? {
      var cmp := CmpOf(n.value, reverse);
      ComparableBothWays(n.value, reverse, rows);
      if Comparator.Comparable(n.value, rows) {
        StableSort.SortSucceeds(cmp, rows);
      }
      if StableSort.Sort(cmp, rows).Ok? {
        CmpConsistent(n.value, reverse);
        StableSort.SortComparable(cmp, rows);
        StableSort.SortPermutes(cmp, rows);
        StableSort.SortCorrect(cmp, rows);
      }
    }
  }

  /**
   * `msorted([{'g': 2}, {'g': 1}], ['g', 'n'])`: neither row has `n`, but `g`
   * decides the only pair, so the rows sort; two rows tied on `g` reach `n`
   * and raise KeyError.
   */
  lemma EarlierKeyDecides()
    ensures Msorted([Mapping(map["g" := Present(IntP(2))]), Mapping(map["g" := Present(IntP(1))])],
                    Many([Scalar(StrKey("g")), Scalar(StrKey("n"))]), false)
      == Ok([Mapping(map["g" := Present(IntP(1))]), Mapping(map["g" := Present(IntP(2))])])
    ensures Msorted([Mapping(map["g" := Present(IntP(1))]), Mapping(map["g" := Present(IntP(1))])],
                    Many([Scalar(StrKey("g")), Scalar(StrKey("n"))]), false)
      == Err(LookupErr(KeyError(StrKey("n"))))
  {
    var a, b := Mapping(map["g" := Present(IntP(2))]), Mapping(map["g" := Present(IntP(1))]);
    var es := [Scalar(StrKey("g")), Scalar(StrKey("n"))];
    var ds := [Descriptor(StrKey("g"), None, None, false), Descriptor(StrKey("n"), None, None, false)];
    assert MsortedSpec(Many(es)) == Many(es);
    NormalizeElemsPointwise(es);
    assert NormalizeElem(es[0]) == Ok(ds[0]) && NormalizeElem(es[1]) == Ok(ds[1]);
    var v := NormalizeElems(es).value;
    assert |v| == 2 && v[0] == ds[0] && v[1] == ds[1];
    assert v == ds;
    assert NormalizeSpec(Many(es)) == Ok(ds);
    assert ds[1..] == [ds[1]] && ds[1..][1..] == [];
    var cmp := CmpOf(ds, false);
    assert cmp(a, b) == Ok(1) by {
      assert LookupPair(a, b, StrKey("g")) == Found(BySubscript, Present(IntP(2)), Present(IntP(1)));
    }
    assert cmp(b, b) == Err(KeyError(StrKey("n"))) by {
      assert LookupPair(b, b, StrKey("g")) == Found(BySubscript, Present(IntP(1)), Present(IntP(1)));
      assert LookupPair(b, b, StrKey("n")) == Missing;
    }
    assert [a, b][..1] == [a] && [b, b][..1] == [b] && [a][..0] == [] && [b][..0] == [];
    assert StableSort.Sort(cmp, [a]) == Ok([a]);
    assert StableSort.Sort(cmp, [b]) == Ok([b]);
    assert StableSort.Insert(cmp, [a], b) == Ok([b, a]) by {
      assert [a][..0] == [] && StableSort.Insert(cmp, [], b) == Ok([b]);
      assert [b] + [a] == [b, a];
    }
  }

  /**
   * Every stable sort of the rows by the comparator gives the same answer:
   * any permutation of the rows that is ordered and keeps ties in input
   * order is exactly what `msorted` returns, when the rows are comparable.
   */
  lemma MsortedUnique(rows: seq<Record>, spec: Spec, reverse: bool, s: seq<Record>)
    requires NormalizeSpec(MsortedSpec(spec)).Ok?
    requires Comparator.Comparable(NormalizeSpec(MsortedSpec(spec)).value, rows)
    requires multiset(s) == multiset(rows)
    requires StableSort.Ordered(CmpOf(NormalizeSpec(MsortedSpec(spec)).value, reverse), s)
    requires StableSort.SameTies(CmpOf(NormalizeSpec(MsortedSpec(spec)).value, reverse), s, rows)
    ensures Msorted(rows, spec, reverse) == Ok(s)
  {
    var cmp := CmpOf(NormalizeSpec(MsortedSpec(spec)).value, reverse);
    MsortedCorrect(rows, spec, reverse);
    var q := Msorted(rows, spec, reverse).value;
    CmpConsistent(NormalizeSpec(MsortedSpec(spec)).value, reverse);
    forall x ensures StableSort.Ties(cmp, q, x) == StableSort.Ties(cmp, s, x) {
      assert StableSort.Ties(cmp, q, x) == StableSort.Ties(cmp, rows, x);
      assert StableSort.Ties(cmp, s, x) == StableSort.Ties(cmp, rows, x);
    }
    StableSort.StableSortUnique(cmp, q, s);
  }

  /** `msorted` as it runs: `sorted` copies the rows into a new list and sorts that in place. */
  method MsortedRows(rows: seq<Record>, spec: Spec, reverse: bool) returns (r: Result<seq<Record>, SortError>)
    ensures r == Msorted(rows, spec, reverse)
  {
    var n := Normalize(MsortedSpec(spec));
    if n.Err? {
      return Err(SpecErr(n.error));
    }
    var a := new Record[|rows|](i requires 0 <= i < |rows| => rows[i]);
    assert a[..] == rows;
    var err := StableSort.SortInPlace(CmpOf(n.value, reverse), a);
    if err.Some? {
      return Err(LookupErr(err.value));
    }
    return Ok(a[..]);
  }
}
