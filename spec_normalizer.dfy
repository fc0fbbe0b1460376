/**
 * The sort specification accepted by `Comparator` and `msorted`, and its
 * normalisation into descriptors (`Comparator.__init__` and `Comparator.new`).
 *
 * A specification is one bare key, or a sequence whose elements are each a
 * bare key, a 1-tuple `(key,)` or a pair `(key, opts)` with `opts` a dict of
 * the options `reverse`, `clean` and `none_first`.
 */
module SpecNormalizer {
  import opened Wrappers
  import opened Values
  import opened Records

  /**
   * An options dict. Each field is None when the dict lacks that key. `clean`
   * is a total function on values (a Python callable without side effects).
   */
  datatype Opts = Opts(reverse: Option<bool>, clean: Option<Value -> Value>, noneFirst: Option<bool>)

  /** An element of a tuple after its first one. */
  datatype Arg = DictArg(opts: Opts) | NoneArg | OtherArg

  /** One element of a sequence specification. */
  datatype SpecElem =
    | Scalar(key: Key)                // a bare int or str
    | Tuple(head: Key, rest: seq<Arg>) // a tuple; `head` is its first element
    | NotTuple                        // a list, dict, None or any other object

  /** What `Comparator(spec=...)` receives: a bare key or an iterable of elements. */
  datatype Spec = Single(key: Key) | Many(elems: seq<SpecElem>)

  /**
   * A normalised column descriptor `(key, desc, clean, none_first)`. `desc` is
   * None where the source stores Python's None (bare keys inside a sequence),
   * and is read as false.
   */
  datatype Descriptor = Descriptor(key: Key, desc: Option<bool>, clean: Option<Value -> Value>, noneFirst: bool)

  /** The assertion failures of `Comparator.__init__`. */
  datatype SpecError =
    | BadShape      // not a key, not a tuple, or a tuple of length other than 1 or 2
    | OptsNotDict   // the second item of a pair is None or not a dict

  /** `Comparator.new(*args)`: one bare key becomes a bare spec, anything else a sequence spec. */
  function NewSpec(args: seq<SpecElem>): (s: Spec)
    ensures s.Single? <==> |args| == 1 && args[0].Scalar?
  {
    if |args| == 1 && args[0].Scalar? then Single(args[0].key) else Many(args)
  }

  /** What `msorted` passes on: `Comparator.new(spec)` for a key, `Comparator.new(*spec)` otherwise. */
  function MsortedSpec(spec: Spec): (s: Spec)
    ensures spec.Single? ==> s == spec
    ensures spec.Many? && s.Single? ==> spec.elems == [Scalar(s.key)]
    ensures s.Many? ==> s == spec
  {
    match spec
    case Single(k) => NewSpec([Scalar(k)])
    case Many(elems) => NewSpec(elems)
  }

  /** One element of a sequence spec, lines 40-50. */
  function NormalizeElem(e: SpecElem): (r: Result<Descriptor, SpecError>)
    ensures r.Ok? <==> e.Scalar? || (e.Tuple? && (|e.rest| == 0 || (|e.rest| == 1 && e.rest[0].DictArg?)))
    ensures r.Ok? ==> r.value.key == (if e.Scalar? then e.key else e.head)
    ensures r.Ok? && (e.Scalar? || |e.rest| == 0) ==> r.value.desc.None? && r.value.clean.None? && !r.value.noneFirst
    ensures r.Ok? && e.Tuple? && |e.rest| == 1 ==>
      r.value.desc.Some? && (r.value.desc.value <==> e.rest[0].opts.reverse == Some(true)) &&
      r.value.clean == e.rest[0].opts.clean &&
      (r.value.noneFirst <==> e.rest[0].opts.noneFirst == Some(true))
  {
    match e
    case Scalar(k) => Ok(Descriptor(k, None, None, false))
    case NotTuple => Err(BadShape)
    case Tuple(k, rest) =>
      if |rest| == 0 then Ok(Descriptor(k, None, None, false))
      else if |rest| == 1 then
        match rest[0]
        case DictArg(o) => Ok(Descriptor(k, Some(o.reverse.GetOr(false)), o.clean, o.noneFirst.GetOr(false)))
        case _ => Err(OptsNotDict)
      else Err(BadShape)
  }

  /** The loop of lines 38-52: elements in order; the first bad element's error wins. */
  function NormalizeElems(es: seq<SpecElem>): (r: Result<seq<Descriptor>, SpecError>)
    ensures r.Ok? ==> |r.value| == |es|
  {
    if es == [] then Ok([])
    else
      match NormalizeElems(es[..|es| - 1])
      case Err(e) => Err(e)
      case Ok(ds) =>
        match NormalizeElem(es[|es| - 1])
        case Err(e) => Err(e)
        case Ok(d) => Ok(ds + [d])
  }

  /** `Comparator.__init__`: the descriptors stored in `self.spec`. */
  function NormalizeSpec(spec: Spec): Result<seq<Descriptor>, SpecError> {
    match spec
    case Single(k) => Ok([Descriptor(k, Some(false), None, false)])
    case Many(es) => NormalizeElems(es)
  }

  /** The first element that fails decides the error of the whole sequence. */
  lemma {:induction false} NormalizeElemsPrefixErr(es: seq<SpecElem>, i: nat)
    requires i <= |es| && NormalizeElems(es[..i]).Err?
    ensures NormalizeElems(es) == NormalizeElems(es[..i])
    decreases |es| - i
  {
    if i < |es| {
      assert es[..i + 1][..i] == es[..i];
      NormalizeElemsPrefixErr(es, i + 1);
    } else {
      assert es[..i] == es;
    }
  }

  /**
   * A sequence spec normalises element by element, preserving order: it
   * succeeds iff every element does, and then descriptor `i` is element `i`'s.
   */
  lemma {:induction false} NormalizeElemsPointwise(es: seq<SpecElem>)
    ensures NormalizeElems(es).Ok? <==> forall i :: 0 <= i < |es| ==> NormalizeElem(es[i]).Ok?
    ensures NormalizeElems(es).Ok? ==>
      forall i :: 0 <= i < |es| ==> NormalizeElems(es).value[i] == NormalizeElem(es[i]).value
  {
    if es != [] {
      var init := es[..|es| - 1];
      NormalizeElemsPointwise(init);
      assert forall i :: 0 <= i < |init| ==> init[i] == es[i];
    }
  }

  /**
   * A bare key given to `msorted` or to `Comparator.new`, alone or as the only
   * element of a sequence, becomes exactly one descriptor `(key, False, None, False)`.
   */
  lemma BareKeyRouting(k: Key)
    ensures NormalizeSpec(MsortedSpec(Single(k))) == Ok([Descriptor(k, Some(false), None, false)])
    ensures NormalizeSpec(MsortedSpec(Many([Scalar(k)]))) == Ok([Descriptor(k, Some(false), None, false)])
    ensures NormalizeSpec(NewSpec([Scalar(k)])) == Ok([Descriptor(k, Some(false), None, false)])
  {
  }

  /**
   * `Comparator.__init__` as the source writes it: a loop that appends one
   * descriptor per element to a fresh list, stopping at the first assertion
   * failure.
   */
  method Normalize(spec: Spec) returns (r: Result<seq<Descriptor>, SpecError>)
    ensures r == NormalizeSpec(spec)
  {
    match spec
    case Single(k) =>
      r := Ok([Descriptor(k, Some(false), None, false)]);
    case Many(es) =>
      var a: seq<Descriptor> := [];
      for i := 0 to |es|
        invariant NormalizeElems(es[..i]) == Ok(a)
      {
        assert es[..i + 1][..i] == es[..i];
        var d := NormalizeElem(es[i]);
        if d.Err? {
          NormalizeElemsPrefixErr(es, i + 1);
          return Err(d.error);
        }
        a := a + [d.value];
      }
      assert es[..|es|] == es;
      r := Ok(a);
  }
}
