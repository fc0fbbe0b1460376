/**
 * Records and the field lookup of `Comparator._compare_a_b`.
 *
 * A record has one of three shapes: a positional sequence (a tuple or list),
 * a mapping (a dict with string keys) or an attribute-bearing object. The
 * comparator reads field `k` of both records by subscript (`a[k]; b[k]`) and,
 * when that raises for either record, by attribute (`getattr(a, k);
 * getattr(b, k)`); when that raises too it raises KeyError.
 */
module Records {
  import opened Wrappers
  import opened Values

  /** A column key: a position or a name. */
  datatype Key = IntKey(i: int) | StrKey(s: string)

  datatype Record =
    | Positional(items: seq<Value>)
    | Mapping(entries: map<string, Value>)
    | Attributed(attrs: map<string, Value>)

  /**
   * `r[k]`, or None where Python raises. A positional record accepts an
   * integer in `-len .. len-1` (negative positions count from the end); a
   * mapping accepts a string it holds; an object is not subscriptable.
   */
  function Subscript(r: Record, k: Key): (v: Option<Value>)
    ensures v.Some? <==>
      || (r.Positional? && k.IntKey? && -|r.items| <= k.i < |r.items|)
      || (r.Mapping? && k.StrKey? && k.s in r.entries)
  {
    match r
    case Positional(items) =>
      if k.IntKey? && -|items| <= k.i < |items| then
        Some(items[if k.i < 0 then |items| + k.i else k.i])
      else None
    case Mapping(entries) =>
      if k.StrKey? && k.s in entries then Some(entries[k.s]) else None
    case Attributed(_) => None
  }

  /** `getattr(r, k)`, or None where Python raises: only objects carry named attributes. */
  function GetAttr(r: Record, k: Key): (v: Option<Value>)
    ensures v.Some? <==> r.Attributed? && k.StrKey? && k.s in r.attrs
  {
    match r
    case Attributed(attrs) =>
      if k.StrKey? && k.s in attrs then Some(attrs[k.s]) else None
    case _ => None
  }

  /** The one way a record resolves a key, if any. */
  function Field(r: Record, k: Key): Option<Value> {
    if Subscript(r, k).Some? then Subscript(r, k) else GetAttr(r, k)
  }

  datatype Access = BySubscript | ByAttribute

  /** Outcome of reading one key from both records: the two values, or KeyError. */
  datatype Lookup = Found(via: Access, va: Value, vb: Value) | Missing

  /** The lookup of lines 58-65: subscript on both, else attribute on both, else missing. */
  function LookupPair(a: Record, b: Record, k: Key): (r: Lookup)
    ensures r.Found? ==> Field(a, k) == Some(r.va) && Field(b, k) == Some(r.vb)
  {
    if Subscript(a, k).Some? && Subscript(b, k).Some? then
      Found(BySubscript, Subscript(a, k).value, Subscript(b, k).value)
    else if GetAttr(a, k).Some? && GetAttr(b, k).Some? then
      Found(ByAttribute, GetAttr(a, k).value, GetAttr(b, k).value)
    else Missing
  }

  /** No record offers a key both by subscript and by attribute. */
  lemma AccessExclusive(r: Record, k: Key)
    ensures !(Subscript(r, k).Some? && GetAttr(r, k).Some?)
  {
  }

  /**
   * A successful pair lookup reads each record's own field, and succeeds
   * exactly when both records offer the key the same way.
   */
  lemma LookupPairReadsFields(a: Record, b: Record, k: Key)
    ensures LookupPair(a, b, k).Found? <==>
      (Subscript(a, k).Some? && Subscript(b, k).Some?) || (GetAttr(a, k).Some? && GetAttr(b, k).Some?)
    ensures LookupPair(a, b, k).Found? ==>
      Field(a, k) == Some(LookupPair(a, b, k).va) && Field(b, k) == Some(LookupPair(a, b, k).vb)
  {
  }

  /** Swapping the records swaps the two values. */
  lemma LookupPairSymmetric(a: Record, b: Record, k: Key)
    ensures LookupPair(a, b, k).Missing? ==> LookupPair(b, a, k).Missing?
    ensures LookupPair(a, b, k).Found? ==>
      LookupPair(b, a, k) == Found(LookupPair(a, b, k).via, LookupPair(a, b, k).vb, LookupPair(a, b, k).va)
  {
  }

  /** Lookups chain: if `a, b` and `b, c` both resolve `k`, so does `a, c`, with the same values. */
  lemma LookupPairChain(a: Record, b: Record, c: Record, k: Key)
    requires LookupPair(a, b, k).Found? && LookupPair(b, c, k).Found?
    ensures LookupPair(a, c, k) == Found(LookupPair(a, b, k).via, LookupPair(a, b, k).va, LookupPair(b, c, k).vb)
  {
    AccessExclusive(b, k);
  }
}
