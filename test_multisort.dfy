/**
 * The test-side spec helpers and fixture of the multisort test suite:
 * `norm_spec_item`, `_fix_SORT_TESTS_spec`, `_check_sort`, the students
 * table with `clean_grade`, and the expected orders of the `msorted` cases
 * that the comparator rules determine.
 */
module MultisortTests {
  import opened Wrappers
  import opened Values
  import opened Records
  import opened SpecNormalizer
  import opened Comparator
  import opened MSort
  import StableSort

  const COL_IDX: int := 0
  const COL_NAME: int := 1
  const COL_GRADE: int := 2
  const COL_ATTEND: int := 3
  const STUDENT_COLS: seq<string> := ["idx", "name", "grade", "attend"]

  /** A student row as a tuple `(idx, name, grade, attend)`. */
  function Student(idx: int, name: string, grade: Value, attend: int): Record {
    Positional([Present(IntP(idx)), Present(StrP(name)), grade, Present(IntP(attend))])
  }

  const S0: Record := Student(0, "joh", Present(StrP("a")), 100)
  const S1: Record := Student(1, "joe", Present(StrP("B")), 80)
  const S2: Record := Student(2, "dav", Present(StrP("A")), 85)
  const S3: Record := Student(3, "bob", Present(StrP("C")), 85)
  const S4: Record := Student(4, "jim", Null, 55)
  const S5: Record := Student(5, "jan", Present(StrP("B")), 70)

  const STUDENTS_BASE: seq<Record> := [S0, S1, S2, S3, S4, S5]

  /** `str.upper` on ASCII letters. */
  function UpperChar(c: char): char {
    if 'a' <= c <= 'z' then (c as int - 32) as char else c
  }

  function Upper(s: string): string {
    seq(|s|, i requires 0 <= i < |s| => UpperChar(s[i]))
  }

  /** `clean_grade`: None stays None, a string is upper-cased. */
  function CleanGrade(v: Value): Value {
    match v
    case Present(StrP(s)) => Present(StrP(Upper(s)))
    case _ => v
  }

  /** `clean_grade` leaves None alone, and cleaning twice is cleaning once. */
  lemma CleanGradeIdempotent(v: Value)
    ensures v.Null? ==> CleanGrade(v) == Null
    ensures CleanGrade(CleanGrade(v)) == CleanGrade(v)
  {
    if v.Present? && v.p.StrP? {
      var u := Upper(v.p.s);
      assert Upper(u) == u;
    }
  }

  /** `norm_spec_item`: the `(key, reverse, clean)` triple of one spec element, or its assertion failure. */
  function NormSpecItem(e: SpecElem): Result<(Key, Option<bool>, Option<Value -> Value>), SpecError> {
    match e
    case Scalar(k) => Ok((k, None, None))
    case NotTuple => Err(BadShape)
    case Tuple(k, rest) =>
      if |rest| == 0 then Ok((k, None, None))
      else if |rest| == 1 then
        match rest[0]
        case DictArg(o) => Ok((k, Some(o.reverse.GetOr(false)), o.clean))
        case _ => Err(OptsNotDict)
      else Err(BadShape)
  }

  /**
   * The test's normaliser agrees with the comparator's: the same elements
   * fail with the same assertion, and the others give the same key,
   * direction and clean function (the test's triple has no `none_first`).
   */
  lemma NormalizersAgree(e: SpecElem)
    ensures NormSpecItem(e).Ok? <==> NormalizeElem(e).Ok?
    ensures NormSpecItem(e).Err? ==> NormSpecItem(e).error == NormalizeElem(e).error
    ensures NormSpecItem(e).Ok? ==>
      var d := NormalizeElem(e).value;
      NormSpecItem(e).value == (d.key, d.desc, d.clean)
  {
  }

  /** What `_fix_SORT_TESTS_spec` raises. */
  datatype FixError =
    | UnexpectedRowAs(rowAs: string)  // the explicit `raise Exception`
    | IndexError                      // a column number outside the four columns, or `[*''][0]`
    | TypeError                       // a column name used where a column number is expected

  /** `STUDENT_COLS[i]`, with Python's negative indices. */
  function ColumnName(i: int): (r: Result<string, FixError>)
    ensures r.Ok? <==> -4 <= i < 4
    ensures r.Ok? ==> r.value == STUDENT_COLS[(i + 4) % 4]
  {
    if -4 <= i < 4 then Ok(STUDENT_COLS[if i < 0 then i + 4 else i]) else Err(IndexError)
  }

  /** The column key a spec element uses, for either kind of element. */
  function ElemKey(e: SpecElem): Option<Key> {
    match e
    case Scalar(k) => Some(k)
    case Tuple(k, _) => Some(k)
    case NotTuple => None
  }

  /**
   * One turn of the loop at lines 92-98: an int becomes its column name; a
   * tuple gets its first element replaced by the column name it indexes.
   */
  function Renamed(e: SpecElem): (r: Result<SpecElem, FixError>)
    ensures r.Ok? <==> ElemKey(e).Some? && ElemKey(e).value.IntKey? && -4 <= ElemKey(e).value.i < 4
    ensures r.Ok? ==> ElemKey(r.value) == Some(StrKey(STUDENT_COLS[(ElemKey(e).value.i + 4) % 4]))
    ensures r.Ok? ==> (e.Scalar? && r.value.Scalar?) || (e.Tuple? && r.value.Tuple? && r.value.rest == e.rest)
  {
    match e
    case Scalar(IntKey(i)) =>
      (match ColumnName(i) case Ok(n) => Ok(Scalar(StrKey(n))) case Err(x) => Err(x))
    case Scalar(StrKey(s)) => Err(if s == "" then IndexError else TypeError)
    case Tuple(IntKey(i), rest) =>
      (match ColumnName(i) case Ok(n) => Ok(Tuple(StrKey(n), rest)) case Err(x) => Err(x))
    case Tuple(StrKey(_), _) => Err(TypeError)
    case NotTuple => Err(TypeError)
  }

  /**
   * Renaming changes the column key and nothing else: the comparator built
   * from the renamed element has the same direction, clean function and
   * `none_first`, and reads the named column.
   */
  lemma RenamedKeepsOptions(e: SpecElem)
    requires Renamed(e).Ok?
    ensures ElemKey(e).Some? && ElemKey(e).value.IntKey?
    ensures ElemKey(Renamed(e).value) == Some(StrKey(ColumnName(ElemKey(e).value.i).value))
    ensures NormalizeElem(Renamed(e).value).Ok? && NormalizeElem(e).Ok? ==>
      NormalizeElem(Renamed(e).value).value == NormalizeElem(e).value.(key := StrKey(ColumnName(ElemKey(e).value.i).value))
    ensures NormalizeElem(Renamed(e).value).Err? <==> NormalizeElem(e).Err?
  {
  }

  /**
   * `_fix_SORT_TESTS_spec(spec, row_as)`: positional rows keep the spec;
   * dict and object rows get every column number replaced by its name.
   */
  method FixSortTestsSpec(spec: Spec, rowAs: string) returns (r: Result<Spec, FixError>)
    ensures rowAs == "list" || rowAs == "tuple" ==> r == Ok(spec)
    ensures rowAs !in ["list", "tuple", "dict", "object"] ==> r == Err(UnexpectedRowAs(rowAs))
    ensures (rowAs == "dict" || rowAs == "object") && spec.Single? && spec.key.IntKey? ==>
      r.Ok? == ColumnName(spec.key.i).Ok? &&
      (r.Ok? ==> r.value == Single(StrKey(ColumnName(spec.key.i).value)))
    ensures (rowAs == "dict" || rowAs == "object") && spec.Single? && spec.key.StrKey? ==>
      r == if spec.key.s == "" then Ok(Many([])) else Err(TypeError)
    ensures (rowAs == "dict" || rowAs == "object") && spec.Many? ==>
      && (r.Ok? <==> forall i :: 0 <= i < |spec.elems| ==> Renamed(spec.elems[i]).Ok?)
      && (r.Ok? ==>
            && r.value.Many? && |r.value.elems| == |spec.elems|
            && forall i :: 0 <= i < |spec.elems| ==> r.value.elems[i] == Renamed(spec.elems[i]).value)
      && (r.Err? ==>
            exists i ::
              && 0 <= i < |spec.elems| && Renamed(spec.elems[i]) == Err(r.error)
              && forall j :: 0 <= j < i ==> Renamed(spec.elems[j]).Ok?)
  {
    if rowAs == "list" || rowAs == "tuple" {
      return Ok(spec);
    } else if rowAs == "dict" || rowAs == "object" {
    } else {
      return Err(UnexpectedRowAs(rowAs));
    }
    match spec
    case Single(IntKey(i)) =>
      var n := ColumnName(i);
      if n.Err? {
        return Err(n.error);
      }
      return Ok(Single(StrKey(n.value)));
    case Single(StrKey(s)) =>
      // iterating over a string visits its characters, each itself a string
      if s == "" {
        return Ok(Many([]));
      }
      return Err(TypeError);
    case Many(es) =>
      var a: seq<SpecElem> := [];
      for i := 0 to |es|
        invariant |a| == i
        invariant forall j :: 0 <= j < i ==> Renamed(es[j]).Ok? && a[j] == Renamed(es[j]).value
      {
        var c := Renamed(es[i]);
        if c.Err? {
          return Err(c.error);
        }
        a := a + [c.value];
      }
      return Ok(Many(a));
  }

  /** What `_check_sort` raises. */
  datatype CheckError =
    | ExpectedLength   // the assertion on `len(expected)`
    | RowKind          // `self.fail`: a row of the wrong kind
    | NoIdx            // the row has no `idx` field where it is looked for
    | PastExpected     // more rows than expected values

  /** The kind test of lines 108-115; lists and tuples are both positional records here. */
  predicate RowKindOk(row: Record, rowAs: string) {
    && (rowAs == "list" || rowAs == "tuple" ==> row.Positional?)
    && (rowAs == "dict" ==> row.Mapping?)
  }

  /** Line 117: `row[0]`, `row.idx` or `row['idx']`, as the row kind says. */
  function RowIdx(row: Record, rowAs: string): Option<Value> {
    if rowAs == "list" || rowAs == "tuple" then Subscript(row, IntKey(0))
    else if rowAs == "object" then GetAttr(row, StrKey("idx"))
    else Subscript(row, StrKey("idx"))
  }

  /** Row `row` passes the check against the expected `idx` value `e`. */
  predicate RowMatches(e: int, row: Record, rowAs: string) {
    RowKindOk(row, rowAs) && RowIdx(row, rowAs) == Some(Present(IntP(e)))
  }

  /** The rows before position `i` all pass the check. */
  predicate MatchedBefore(expected: seq<int>, rows: seq<Record>, rowAs: string, i: int)
    requires 0 <= i <= |rows| && i <= |expected|
  {
    forall j :: 0 <= j < i ==> RowMatches(expected[j], rows[j], rowAs)
  }

  /**
   * `_check_sort(expected, rows, row_as)`: true iff the rows carry the
   * expected `idx` values in order. Otherwise the first row that does not
   * decides: a row of the wrong kind fails the test, a row without `idx`
   * raises, a row past the six expected values raises, and a row with
   * another `idx` makes the answer false.
   */
  method CheckSort(expected: seq<int>, rows: seq<Record>, rowAs: string) returns (r: Result<bool, CheckError>)
    ensures |expected| != 6 <==> r == Err(ExpectedLength)
    ensures r == Ok(true) <==>
      |expected| == 6 && |rows| <= 6 && forall i :: 0 <= i < |rows| ==> RowMatches(expected[i], rows[i], rowAs)
    ensures r == Ok(false) <==>
      && |expected| == 6
      && exists i ::
        && 0 <= i < |rows| && i < |expected| && MatchedBefore(expected, rows, rowAs, i)
        && RowKindOk(rows[i], rowAs) && RowIdx(rows[i], rowAs).Some? && !RowMatches(expected[i], rows[i], rowAs)
    ensures r == Err(RowKind) <==>
      && |expected| == 6
      && exists i :: 0 <= i < |rows| && i <= 6 && MatchedBefore(expected, rows, rowAs, i) && !RowKindOk(rows[i], rowAs)
    ensures r == Err(NoIdx) <==>
      && |expected| == 6
      && exists i ::
        && 0 <= i < |rows| && i <= 6 && MatchedBefore(expected, rows, rowAs, i)
        && RowKindOk(rows[i], rowAs) && RowIdx(rows[i], rowAs).None?
    ensures r == Err(PastExpected) <==>
      && |expected| == 6 && |rows| > 6 && MatchedBefore(expected, rows, rowAs, 6)
      && RowKindOk(rows[6], rowAs) && RowIdx(rows[6], rowAs).Some?
  {
    if |expected| != 6 {
      return Err(ExpectedLength);
    }
    for i := 0 to |rows|
      invariant i <= 6
      invariant forall j :: 0 <= j < i ==> j < 6 && RowMatches(expected[j], rows[j], rowAs)
    {
      var row := rows[i];
      if !RowKindOk(row, rowAs) {
        return Err(RowKind);
      }
      var idx := RowIdx(row, rowAs);
      if idx.None? {
        return Err(NoIdx);
      }
      if i >= |expected| {
        return Err(PastExpected);
      }
      if idx.value != Present(IntP(expected[i])) {
        return Ok(false);
      }
    }
    return Ok(true);
  }

  /** `(COL_GRADE, {'reverse': False, 'clean': clean_grade})`. */
  const GRADE_CLEANED: SpecElem := Tuple(IntKey(COL_GRADE), [DictArg(Opts(Some(false), Some(CleanGrade), None))])

  /** `(COL_ATTEND, {'reverse': r})`. */
  function Attend(r: bool): SpecElem {
    Tuple(IntKey(COL_ATTEND), [DictArg(Opts(Some(r), None, None))])
  }

  /** The comparator of `[GRADE_CLEANED, Attend(r)]`. */
  function GradeAttend(r: bool): seq<Descriptor> {
    [Descriptor(IntKey(COL_GRADE), Some(false), Some(CleanGrade), false), Descriptor(IntKey(COL_ATTEND), Some(r), None, false)]
  }

  /** The comparator of `COL_GRADE` and of `[COL_GRADE]`. */
  const GRADE: seq<Descriptor> := [Descriptor(IntKey(COL_GRADE), Some(false), None, false)]

  /** The comparator of `[COL_GRADE, COL_NAME]`. */
  const GRADE_NAME: seq<Descriptor> := [Descriptor(IntKey(COL_GRADE), None, None, false), Descriptor(IntKey(COL_NAME), None, None, false)]

  /** A student row: a tuple of four values. */
  predicate IsRow(a: Record) {
    a.Positional? && |a.items| == 4
  }

  lemma GradeCompare(a: Record, b: Record)
    requires IsRow(a) && IsRow(b)
    ensures Cmp(GRADE, false, a, b) == Ok(KeyOrder(GRADE[0], a.items[2], b.items[2]))
  {
    assert GRADE[1..] == [];
    assert Compare(GRADE[1..], a, b) == Ok(0);
  }

  lemma GradeNameCompare(a: Record, b: Record)
    requires IsRow(a) && IsRow(b)
    ensures Cmp(GRADE_NAME, false, a, b) ==
      var c := KeyOrder(GRADE_NAME[0], a.items[2], b.items[2]);
      if c != 0 then Ok(c) else Ok(KeyOrder(GRADE_NAME[1], a.items[1], b.items[1]))
  {
    var rest := GRADE_NAME[1..];
    assert rest == [GRADE_NAME[1]] && rest[1..] == [];
    assert Compare(rest[1..], a, b) == Ok(0);
    assert Compare(rest, a, b) == Ok(KeyOrder(GRADE_NAME[1], a.items[1], b.items[1]));
  }

  lemma GradeAttendCompare(r: bool, a: Record, b: Record)
    requires IsRow(a) && IsRow(b)
    ensures Cmp(GradeAttend(r), false, a, b) ==
      var c := KeyOrder(GradeAttend(r)[0], CleanGrade(a.items[2]), CleanGrade(b.items[2]));
      if c != 0 then Ok(c) else Ok(KeyOrder(GradeAttend(r)[1], a.items[3], b.items[3]))
  {
    var ds := GradeAttend(r);
    assert ds[1..] == [ds[1]] && ds[1..][1..] == [];
    assert Compare(ds[1..][1..], a, b) == Ok(0);
    assert Compare(ds[1..], a, b) == Ok(KeyOrder(ds[1], a.items[3], b.items[3]));
  }

  /** The grades after `clean_grade`: the lower-case `a` of row 0 becomes `A`. */
  lemma CleanedGrades()
    ensures CleanGrade(Present(StrP("a"))) == Present(StrP("A"))
    ensures CleanGrade(Present(StrP("A"))) == Present(StrP("A"))
    ensures CleanGrade(Present(StrP("B"))) == Present(StrP("B"))
    ensures CleanGrade(Present(StrP("C"))) == Present(StrP("C"))
    ensures CleanGrade(Null) == Null
  {
    assert Upper("a") == "A";
    assert Upper("A") == "A";
    assert Upper("B") == "B";
    assert Upper("C") == "C";
  }

  lemma GradeAttendAscStep0()
    ensures StableSort.Sort(CmpOf(GradeAttend(false), false), STUDENTS_BASE[..1]) == Ok([S0])
  {
    assert STUDENTS_BASE[..1] == STUDENTS_BASE[..0] + [S0];
    StableSort.SortSnocInsert(CmpOf(GradeAttend(false), false), STUDENTS_BASE[..0], S0, [], [S0]);
  }

  lemma GradeAttendAscInsert1()
    ensures StableSort.Insert(CmpOf(GradeAttend(false), false), [S0], S1) == Ok([S0, S1])
  {
    var cmp := CmpOf(GradeAttend(false), false);
    assert cmp(S0, S1) == Ok(-1) by { GradeAttendCompare(false, S0, S1); }
    var init: seq<Record>, rest: seq<Record> := [S0], [];
    assert init + rest == [S0] && init + [S1] + rest == [S0, S1];
    StableSort.InsertAt(cmp, init, rest, S1);
  }

  lemma GradeAttendAscStep1()
    ensures StableSort.Sort(CmpOf(GradeAttend(false), false), STUDENTS_BASE[..2]) == Ok([S0, S1])
  {
    assert STUDENTS_BASE[..2] == STUDENTS_BASE[..1] + [S1];
    GradeAttendAscStep0();
    GradeAttendAscInsert1();
    StableSort.SortSnocInsert(CmpOf(GradeAttend(false), false), STUDENTS_BASE[..1], S1, [S0], [S0, S1]);
  }

  lemma GradeAttendAscInsert2()
    ensures StableSort.Insert(CmpOf(GradeAttend(false), false), [S0, S1], S2) == Ok([S2, S0, S1])
  {
    var cmp := CmpOf(GradeAttend(false), false);
    assert cmp(S1, S2) == Ok(1) by { GradeAttendCompare(false, S1, S2); }
    assert cmp(S0, S2) == Ok(1) by { GradeAttendCompare(false, S0, S2); }
    var init: seq<Record>, rest: seq<Record> := [], [S0, S1];
    assert init + rest == [S0, S1] && init + [S2] + rest == [S2, S0, S1];
    StableSort.InsertAt(cmp, init, rest, S2);
  }

  lemma GradeAttendAscStep2()
    ensures StableSort.Sort(CmpOf(GradeAttend(false), false), STUDENTS_BASE[..3]) == Ok([S2, S0, S1])
  {
    assert STUDENTS_BASE[..3] == STUDENTS_BASE[..2] + [S2];
    GradeAttendAscStep1();
    GradeAttendAscInsert2();
    StableSort.SortSnocInsert(CmpOf(GradeAttend(false), false), STUDENTS_BASE[..2], S2, [S0, S1], [S2, S0, S1]);
  }

  lemma GradeAttendAscInsert3()
    ensures StableSort.Insert(CmpOf(GradeAttend(false), false), [S2, S0, S1], S3) == Ok([S2, S0, S1, S3])
  {
    var cmp := CmpOf(GradeAttend(false), false);
    assert cmp(S1, S3) == Ok(-1) by { GradeAttendCompare(false, S1, S3); }
    var init: seq<Record>, rest: seq<Record> := [S2, S0, S1], [];
    assert init + rest == [S2, S0, S1] && init + [S3] + rest == [S2, S0, S1, S3];
    StableSort.InsertAt(cmp, init, rest, S3);
  }

  lemma GradeAttendAscStep3()
    ensures StableSort.Sort(CmpOf(GradeAttend(false), false), STUDENTS_BASE[..4]) == Ok([S2, S0, S1, S3])
  {
    assert STUDENTS_BASE[..4] == STUDENTS_BASE[..3] + [S3];
    GradeAttendAscStep2();
    GradeAttendAscInsert3();
    StableSort.SortSnocInsert(CmpOf(GradeAttend(false), false), STUDENTS_BASE[..3], S3, [S2, S0, S1], [S2, S0, S1, S3]);
  }

  lemma GradeAttendAscInsert4()
    ensures StableSort.Insert(CmpOf(GradeAttend(false), false), [S2, S0, S1, S3], S4) == Ok([S2, S0, S1, S3, S4])
  {
    var cmp := CmpOf(GradeAttend(false), false);
    assert cmp(S3, S4) == Ok(-1) by { GradeAttendCompare(false, S3, S4); }
    var init: seq<Record>, rest: seq<Record> := [S2, S0, S1, S3], [];
    assert init + rest == [S2, S0, S1, S3] && init + [S4] + rest == [S2, S0, S1, S3, S4];
    StableSort.InsertAt(cmp, init, rest, S4);
  }

  lemma GradeAttendAscStep4()
    ensures StableSort.Sort(CmpOf(GradeAttend(false), false), STUDENTS_BASE[..5]) == Ok([S2, S0, S1, S3, S4])
  {
    assert STUDENTS_BASE[..5] == STUDENTS_BASE[..4] + [S4];
    GradeAttendAscStep3();
    GradeAttendAscInsert4();
    StableSort.SortSnocInsert(CmpOf(GradeAttend(false), false), STUDENTS_BASE[..4], S4, [S2, S0, S1, S3], [S2, S0, S1, S3, S4]);
  }

  /** The comparisons that place row 5. */
  lemma GradeAttendAscPairs5()
    ensures CmpOf(GradeAttend(false), false)(S4, S5) == Ok(1)
    ensures CmpOf(GradeAttend(false), false)(S3, S5) == Ok(1)
    ensures CmpOf(GradeAttend(false), false)(S1, S5) == Ok(1)
    ensures CmpOf(GradeAttend(false), false)(S0, S5) == Ok(-1)
  {
    GradeAttendCompare(false, S4, S5);
    GradeAttendCompare(false, S3, S5);
    GradeAttendCompare(false, S1, S5);
    GradeAttendCompare(false, S0, S5);
  }

  lemma GradeAttendAscInsert5()
    ensures StableSort.Insert(CmpOf(GradeAttend(false), false), [S2, S0, S1, S3, S4], S5) == Ok([S2, S0, S5, S1, S3, S4])
  {
    var cmp := CmpOf(GradeAttend(false), false);
    GradeAttendAscPairs5();
    var init: seq<Record>, rest: seq<Record> := [S2, S0], [S1, S3, S4];
    assert init + rest == [S2, S0, S1, S3, S4] && init + [S5] + rest == [S2, S0, S5, S1, S3, S4];
    StableSort.InsertAt(cmp, init, rest, S5);
  }

  lemma GradeAttendAscStep5()
    ensures StableSort.Sort(CmpOf(GradeAttend(false), false), STUDENTS_BASE) == Ok([S2, S0, S5, S1, S3, S4])
  {
    assert STUDENTS_BASE == STUDENTS_BASE[..5] + [S5];
    GradeAttendAscStep4();
    GradeAttendAscInsert5();
    StableSort.SortSnocInsert(CmpOf(GradeAttend(false), false), STUDENTS_BASE[..5], S5, [S2, S0, S1, S3, S4], [S2, S0, S5, S1, S3, S4]);
  }

  lemma GradeAttendDescStep0()
    ensures StableSort.Sort(CmpOf(GradeAttend(true), false), STUDENTS_BASE[..1]) == Ok([S0])
  {
    assert STUDENTS_BASE[..1] == STUDENTS_BASE[..0] + [S0];
    StableSort.SortSnocInsert(CmpOf(GradeAttend(true), false), STUDENTS_BASE[..0], S0, [], [S0]);
  }

  lemma GradeAttendDescInsert1()
    ensures StableSort.Insert(CmpOf(GradeAttend(true), false), [S0], S1) == Ok([S0, S1])
  {
    var cmp := CmpOf(GradeAttend(true), false);
    assert cmp(S0, S1) == Ok(-1) by { GradeAttendCompare(true, S0, S1); }
    var init: seq<Record>, rest: seq<Record> := [S0], [];
    assert init + rest == [S0] && init + [S1] + rest == [S0, S1];
    StableSort.InsertAt(cmp, init, rest, S1);
  }

  lemma GradeAttendDescStep1()
    ensures StableSort.Sort(CmpOf(GradeAttend(true), false), STUDENTS_BASE[..2]) == Ok([S0, S1])
  {
    assert STUDENTS_BASE[..2] == STUDENTS_BASE[..1] + [S1];
    GradeAttendDescStep0();
    GradeAttendDescInsert1();
    StableSort.SortSnocInsert(CmpOf(GradeAttend(true), false), STUDENTS_BASE[..1], S1, [S0], [S0, S1]);
  }

  lemma GradeAttendDescInsert2()
    ensures StableSort.Insert(CmpOf(GradeAttend(true), false), [S0, S1], S2) == Ok([S0, S2, S1])
  {
    var cmp := CmpOf(GradeAttend(true), false);
    assert cmp(S1, S2) == Ok(1) by { GradeAttendCompare(true, S1, S2); }
    assert cmp(S0, S2) == Ok(-1) by { GradeAttendCompare(true, S0, S2); }
    var init: seq<Record>, rest: seq<Record> := [S0], [S1];
    assert init + rest == [S0, S1] && init + [S2] + rest == [S0, S2, S1];
    StableSort.InsertAt(cmp, init, rest, S2);
  }

  lemma GradeAttendDescStep2()
    ensures StableSort.Sort(CmpOf(GradeAttend(true), false), STUDENTS_BASE[..3]) == Ok([S0, S2, S1])
  {
    assert STUDENTS_BASE[..3] == STUDENTS_BASE[..2] + [S2];
    GradeAttendDescStep1();
    GradeAttendDescInsert2();
    StableSort.SortSnocInsert(CmpOf(GradeAttend(true), false), STUDENTS_BASE[..2], S2, [S0, S1], [S0, S2, S1]);
  }

  lemma GradeAttendDescInsert3()
    ensures StableSort.Insert(CmpOf(GradeAttend(true), false), [S0, S2, S1], S3) == Ok([S0, S2, S1, S3])
  {
    var cmp := CmpOf(GradeAttend(true), false);
    assert cmp(S1, S3) == Ok(-1) by { GradeAttendCompare(true, S1, S3); }
    var init: seq<Record>, rest: seq<Record> := [S0, S2, S1], [];
    assert init + rest == [S0, S2, S1] && init + [S3] + rest == [S0, S2, S1, S3];
    StableSort.InsertAt(cmp, init, rest, S3);
  }

  lemma GradeAttendDescStep3()
    ensures StableSort.Sort(CmpOf(GradeAttend(true), false), STUDENTS_BASE[..4]) == Ok([S0, S2, S1, S3])
  {
    assert STUDENTS_BASE[..4] == STUDENTS_BASE[..3] + [S3];
    GradeAttendDescStep2();
    GradeAttendDescInsert3();
    StableSort.SortSnocInsert(CmpOf(GradeAttend(true), false), STUDENTS_BASE[..3], S3, [S0, S2, S1], [S0, S2, S1, S3]);
  }

  lemma GradeAttendDescInsert4()
    ensures StableSort.Insert(CmpOf(GradeAttend(true), false), [S0, S2, S1, S3], S4) == Ok([S0, S2, S1, S3, S4])
  {
    var cmp := CmpOf(GradeAttend(true), false);
    assert cmp(S3, S4) == Ok(-1) by { GradeAttendCompare(true, S3, S4); }
    var init: seq<Record>, rest: seq<Record> := [S0, S2, S1, S3], [];
    assert init + rest == [S0, S2, S1, S3] && init + [S4] + rest == [S0, S2, S1, S3, S4];
    StableSort.InsertAt(cmp, init, rest, S4);
  }

  lemma GradeAttendDescStep4()
    ensures StableSort.Sort(CmpOf(GradeAttend(true), false), STUDENTS_BASE[..5]) == Ok([S0, S2, S1, S3, S4])
  {
    assert STUDENTS_BASE[..5] == STUDENTS_BASE[..4] + [S4];
    GradeAttendDescStep3();
    GradeAttendDescInsert4();
    StableSort.SortSnocInsert(CmpOf(GradeAttend(true), false), STUDENTS_BASE[..4], S4, [S0, S2, S1, S3], [S0, S2, S1, S3, S4]);
  }

  /** The comparisons that place row 5. */
  lemma GradeAttendDescPairs5()
    ensures CmpOf(GradeAttend(true), false)(S4, S5) == Ok(1)
    ensures CmpOf(GradeAttend(true), false)(S3, S5) == Ok(1)
    ensures CmpOf(GradeAttend(true), false)(S1, S5) == Ok(-1)
  {
    GradeAttendCompare(true, S4, S5);
    GradeAttendCompare(true, S3, S5);
    GradeAttendCompare(true, S1, S5);
  }

  lemma GradeAttendDescInsert5()
    ensures StableSort.Insert(CmpOf(GradeAttend(true), false), [S0, S2, S1, S3, S4], S5) == Ok([S0, S2, S1, S5, S3, S4])
  {
    var cmp := CmpOf(GradeAttend(true), false);
    GradeAttendDescPairs5();
    var init: seq<Record>, rest: seq<Record> := [S0, S2, S1], [S3, S4];
    assert init + rest == [S0, S2, S1, S3, S4] && init + [S5] + rest == [S0, S2, S1, S5, S3, S4];
    StableSort.InsertAt(cmp, init, rest, S5);
  }

  lemma GradeAttendDescStep5()
    ensures StableSort.Sort(CmpOf(GradeAttend(true), false), STUDENTS_BASE) == Ok([S0, S2, S1, S5, S3, S4])
  {
    assert STUDENTS_BASE == STUDENTS_BASE[..5] + [S5];
    GradeAttendDescStep4();
    GradeAttendDescInsert5();
    StableSort.SortSnocInsert(CmpOf(GradeAttend(true), false), STUDENTS_BASE[..5], S5, [S0, S2, S1, S3, S4], [S0, S2, S1, S5, S3, S4]);
  }

  lemma GradeStep0()
    ensures StableSort.Sort(CmpOf(GRADE, false), STUDENTS_BASE[..1]) == Ok([S0])
  {
    assert STUDENTS_BASE[..1] == STUDENTS_BASE[..0] + [S0];
    StableSort.SortSnocInsert(CmpOf(GRADE, false), STUDENTS_BASE[..0], S0, [], [S0]);
  }

  lemma GradeInsert1()
    ensures StableSort.Insert(CmpOf(GRADE, false), [S0], S1) == Ok([S1, S0])
  {
    var cmp := CmpOf(GRADE, false);
    assert cmp(S0, S1) == Ok(1) by { GradeCompare(S0, S1); }
    var init: seq<Record>, rest: seq<Record> := [], [S0];
    assert init + rest == [S0] && init + [S1] + rest == [S1, S0];
    StableSort.InsertAt(cmp, init, rest, S1);
  }

  lemma GradeStep1()
    ensures StableSort.Sort(CmpOf(GRADE, false), STUDENTS_BASE[..2]) == Ok([S1, S0])
  {
    assert STUDENTS_BASE[..2] == STUDENTS_BASE[..1] + [S1];
    GradeStep0();
    GradeInsert1();
    StableSort.SortSnocInsert(CmpOf(GRADE, false), STUDENTS_BASE[..1], S1, [S0], [S1, S0]);
  }

  lemma GradeInsert2()
    ensures StableSort.Insert(CmpOf(GRADE, false), [S1, S0], S2) == Ok([S2, S1, S0])
  {
    var cmp := CmpOf(GRADE, false);
    assert cmp(S0, S2) == Ok(1) by { GradeCompare(S0, S2); }
    assert cmp(S1, S2) == Ok(1) by { GradeCompare(S1, S2); }
    var init: seq<Record>, rest: seq<Record> := [], [S1, S0];
    assert init + rest == [S1, S0] && init + [S2] + rest == [S2, S1, S0];
    StableSort.InsertAt(cmp, init, rest, S2);
  }

  lemma GradeStep2()
    ensures StableSort.Sort(CmpOf(GRADE, false), STUDENTS_BASE[..3]) == Ok([S2, S1, S0])
  {
    assert STUDENTS_BASE[..3] == STUDENTS_BASE[..2] + [S2];
    GradeStep1();
    GradeInsert2();
    StableSort.SortSnocInsert(CmpOf(GRADE, false), STUDENTS_BASE[..2], S2, [S1, S0], [S2, S1, S0]);
  }

  lemma GradeInsert3()
    ensures StableSort.Insert(CmpOf(GRADE, false), [S2, S1, S0], S3) == Ok([S2, S1, S3, S0])
  {
    var cmp := CmpOf(GRADE, false);
    assert cmp(S0, S3) == Ok(1) by { GradeCompare(S0, S3); }
    assert cmp(S1, S3) == Ok(-1) by { GradeCompare(S1, S3); }
    var init: seq<Record>, rest: seq<Record> := [S2, S1], [S0];
    assert init + rest == [S2, S1, S0] && init + [S3] + rest == [S2, S1, S3, S0];
    StableSort.InsertAt(cmp, init, rest, S3);
  }

  lemma GradeStep3()
    ensures StableSort.Sort(CmpOf(GRADE, false), STUDENTS_BASE[..4]) == Ok([S2, S1, S3, S0])
  {
    assert STUDENTS_BASE[..4] == STUDENTS_BASE[..3] + [S3];
    GradeStep2();
    GradeInsert3();
    StableSort.SortSnocInsert(CmpOf(GRADE, false), STUDENTS_BASE[..3], S3, [S2, S1, S0], [S2, S1, S3, S0]);
  }

  lemma GradeInsert4()
    ensures StableSort.Insert(CmpOf(GRADE, false), [S2, S1, S3, S0], S4) == Ok([S2, S1, S3, S0, S4])
  {
    var cmp := CmpOf(GRADE, false);
    assert cmp(S0, S4) == Ok(-1) by { GradeCompare(S0, S4); }
    var init: seq<Record>, rest: seq<Record> := [S2, S1, S3, S0], [];
    assert init + rest == [S2, S1, S3, S0] && init + [S4] + rest == [S2, S1, S3, S0, S4];
    StableSort.InsertAt(cmp, init, rest, S4);
  }

  lemma GradeStep4()
    ensures StableSort.Sort(CmpOf(GRADE, false), STUDENTS_BASE[..5]) == Ok([S2, S1, S3, S0, S4])
  {
    assert STUDENTS_BASE[..5] == STUDENTS_BASE[..4] + [S4];
    GradeStep3();
    GradeInsert4();
    StableSort.SortSnocInsert(CmpOf(GRADE, false), STUDENTS_BASE[..4], S4, [S2, S1, S3, S0], [S2, S1, S3, S0, S4]);
  }

  /** The comparisons that place row 5. */
  lemma GradePairs5()
    ensures CmpOf(GRADE, false)(S4, S5) == Ok(1)
    ensures CmpOf(GRADE, false)(S0, S5) == Ok(1)
    ensures CmpOf(GRADE, false)(S3, S5) == Ok(1)
    ensures CmpOf(GRADE, false)(S1, S5) == Ok(0)
  {
    GradeCompare(S4, S5);
    GradeCompare(S0, S5);
    GradeCompare(S3, S5);
    GradeCompare(S1, S5);
  }

  lemma GradeInsert5()
    ensures StableSort.Insert(CmpOf(GRADE, false), [S2, S1, S3, S0, S4], S5) == Ok([S2, S1, S5, S3, S0, S4])
  {
    var cmp := CmpOf(GRADE, false);
    GradePairs5();
    var init: seq<Record>, rest: seq<Record> := [S2, S1], [S3, S0, S4];
    assert init + rest == [S2, S1, S3, S0, S4] && init + [S5] + rest == [S2, S1, S5, S3, S0, S4];
    StableSort.InsertAt(cmp, init, rest, S5);
  }

  lemma GradeStep5()
    ensures StableSort.Sort(CmpOf(GRADE, false), STUDENTS_BASE) == Ok([S2, S1, S5, S3, S0, S4])
  {
    assert STUDENTS_BASE == STUDENTS_BASE[..5] + [S5];
    GradeStep4();
    GradeInsert5();
    StableSort.SortSnocInsert(CmpOf(GRADE, false), STUDENTS_BASE[..5], S5, [S2, S1, S3, S0, S4], [S2, S1, S5, S3, S0, S4]);
  }

  lemma GradeNameStep0()
    ensures StableSort.Sort(CmpOf(GRADE_NAME, false), STUDENTS_BASE[..1]) == Ok([S0])
  {
    assert STUDENTS_BASE[..1] == STUDENTS_BASE[..0] + [S0];
    StableSort.SortSnocInsert(CmpOf(GRADE_NAME, false), STUDENTS_BASE[..0], S0, [], [S0]);
  }

  lemma GradeNameInsert1()
    ensures StableSort.Insert(CmpOf(GRADE_NAME, false), [S0], S1) == Ok([S1, S0])
  {
    var cmp := CmpOf(GRADE_NAME, false);
    assert cmp(S0, S1) == Ok(1) by { GradeNameCompare(S0, S1); }
    var init: seq<Record>, rest: seq<Record> := [], [S0];
    assert init + rest == [S0] && init + [S1] + rest == [S1, S0];
    StableSort.InsertAt(cmp, init, rest, S1);
  }

  lemma GradeNameStep1()
    ensures StableSort.Sort(CmpOf(GRADE_NAME, false), STUDENTS_BASE[..2]) == Ok([S1, S0])
  {
    assert STUDENTS_BASE[..2] == STUDENTS_BASE[..1] + [S1];
    GradeNameStep0();
    GradeNameInsert1();
    StableSort.SortSnocInsert(CmpOf(GRADE_NAME, false), STUDENTS_BASE[..1], S1, [S0], [S1, S0]);
  }

  lemma GradeNameInsert2()
    ensures StableSort.Insert(CmpOf(GRADE_NAME, false), [S1, S0], S2) == Ok([S2, S1, S0])
  {
    var cmp := CmpOf(GRADE_NAME, false);
    assert cmp(S0, S2) == Ok(1) by { GradeNameCompare(S0, S2); }
    assert cmp(S1, S2) == Ok(1) by { GradeNameCompare(S1, S2); }
    var init: seq<Record>, rest: seq<Record> := [], [S1, S0];
    assert init + rest == [S1, S0] && init + [S2] + rest == [S2, S1, S0];
    StableSort.InsertAt(cmp, init, rest, S2);
  }

  lemma GradeNameStep2()
    ensures StableSort.Sort(CmpOf(GRADE_NAME, false), STUDENTS_BASE[..3]) == Ok([S2, S1, S0])
  {
    assert STUDENTS_BASE[..3] == STUDENTS_BASE[..2] + [S2];
    GradeNameStep1();
    GradeNameInsert2();
    StableSort.SortSnocInsert(CmpOf(GRADE_NAME, false), STUDENTS_BASE[..2], S2, [S1, S0], [S2, S1, S0]);
  }

  lemma GradeNameInsert3()
    ensures StableSort.Insert(CmpOf(GRADE_NAME, false), [S2, S1, S0], S3) == Ok([S2, S1, S3, S0])
  {
    var cmp := CmpOf(GRADE_NAME, false);
    assert cmp(S0, S3) == Ok(1) by { GradeNameCompare(S0, S3); }
    assert cmp(S1, S3) == Ok(-1) by { GradeNameCompare(S1, S3); }
    var init: seq<Record>, rest: seq<Record> := [S2, S1], [S0];
    assert init + rest == [S2, S1, S0] && init + [S3] + rest == [S2, S1, S3, S0];
    StableSort.InsertAt(cmp, init, rest, S3);
  }

  lemma GradeNameStep3()
    ensures StableSort.Sort(CmpOf(GRADE_NAME, false), STUDENTS_BASE[..4]) == Ok([S2, S1, S3, S0])
  {
    assert STUDENTS_BASE[..4] == STUDENTS_BASE[..3] + [S3];
    GradeNameStep2();
    GradeNameInsert3();
    StableSort.SortSnocInsert(CmpOf(GRADE_NAME, false), STUDENTS_BASE[..3], S3, [S2, S1, S0], [S2, S1, S3, S0]);
  }

  lemma GradeNameInsert4()
    ensures StableSort.Insert(CmpOf(GRADE_NAME, false), [S2, S1, S3, S0], S4) == Ok([S2, S1, S3, S0, S4])
  {
    var cmp := CmpOf(GRADE_NAME, false);
    assert cmp(S0, S4) == Ok(-1) by { GradeNameCompare(S0, S4); }
    var init: seq<Record>, rest: seq<Record> := [S2, S1, S3, S0], [];
    assert init + rest == [S2, S1, S3, S0] && init + [S4] + rest == [S2, S1, S3, S0, S4];
    StableSort.InsertAt(cmp, init, rest, S4);
  }

  lemma GradeNameStep4()
    ensures StableSort.Sort(CmpOf(GRADE_NAME, false), STUDENTS_BASE[..5]) == Ok([S2, S1, S3, S0, S4])
  {
    assert STUDENTS_BASE[..5] == STUDENTS_BASE[..4] + [S4];
    GradeNameStep3();
    GradeNameInsert4();
    StableSort.SortSnocInsert(CmpOf(GRADE_NAME, false), STUDENTS_BASE[..4], S4, [S2, S1, S3, S0], [S2, S1, S3, S0, S4]);
  }

  /** The comparisons that place row 5. */
  lemma GradeNamePairs5()
    ensures CmpOf(GRADE_NAME, false)(S4, S5) == Ok(1)
    ensures CmpOf(GRADE_NAME, false)(S0, S5) == Ok(1)
    ensures CmpOf(GRADE_NAME, false)(S3, S5) == Ok(1)
    ensures CmpOf(GRADE_NAME, false)(S1, S5) == Ok(1)
    ensures CmpOf(GRADE_NAME, false)(S2, S5) == Ok(-1)
  {
    GradeNameCompare(S4, S5);
    GradeNameCompare(S0, S5);
    GradeNameCompare(S3, S5);
    GradeNameCompare(S1, S5);
    GradeNameCompare(S2, S5);
  }

  lemma GradeNameInsert5()
    ensures StableSort.Insert(CmpOf(GRADE_NAME, false), [S2, S1, S3, S0, S4], S5) == Ok([S2, S5, S1, S3, S0, S4])
  {
    var cmp := CmpOf(GRADE_NAME, false);
    GradeNamePairs5();
    var init: seq<Record>, rest: seq<Record> := [S2], [S1, S3, S0, S4];
    assert init + rest == [S2, S1, S3, S0, S4] && init + [S5] + rest == [S2, S5, S1, S3, S0, S4];
    StableSort.InsertAt(cmp, init, rest, S5);
  }

  lemma GradeNameStep5()
    ensures StableSort.Sort(CmpOf(GRADE_NAME, false), STUDENTS_BASE) == Ok([S2, S5, S1, S3, S0, S4])
  {
    assert STUDENTS_BASE == STUDENTS_BASE[..5] + [S5];
    GradeNameStep4();
    GradeNameInsert5();
    StableSort.SortSnocInsert(CmpOf(GRADE_NAME, false), STUDENTS_BASE[..5], S5, [S2, S1, S3, S0, S4], [S2, S5, S1, S3, S0, S4]);
  }

  /** Test rows 26: grade (cleaned) ascending, then attendance ascending. */
  lemma MsortedGradeAttendAsc()
    ensures Msorted(STUDENTS_BASE, Many([GRADE_CLEANED, Attend(false)]), false) == Ok([S2, S0, S5, S1, S3, S4])
  {
    NormalizedGradeAttend(false);
    GradeAttendAscStep5();
  }

  /** Test rows 27 and 28: grade (cleaned) ascending, then attendance descending. */
  lemma MsortedGradeAttendDesc()
    ensures Msorted(STUDENTS_BASE, Many([GRADE_CLEANED, Attend(true)]), false) == Ok([S0, S2, S1, S5, S3, S4])
  {
    NormalizedGradeAttend(true);
    GradeAttendDescStep5();
  }

  lemma NormalizedGradeAttend(r: bool)
    ensures NormalizeSpec(MsortedSpec(Many([GRADE_CLEANED, Attend(r)]))) == Ok(GradeAttend(r))
  {
    var es, ds := [GRADE_CLEANED, Attend(r)], GradeAttend(r);
    assert NormalizeElem(es[0]) == Ok(ds[0]) && NormalizeElem(es[1]) == Ok(ds[1]);
    NormalizeElemsPointwise(es);
    assert NormalizeElems(es).value == ds;
  }

  /**
   * Test rows 31 and 32: `COL_GRADE` alone or `[COL_GRADE]`. Upper-case
   * grades sort before the lower-case `a`, None goes last, and the tie
   * between rows 1 and 5 keeps their input order.
   */
  lemma MsortedByGrade()
    ensures Msorted(STUDENTS_BASE, Single(IntKey(COL_GRADE)), false) == Ok([S2, S1, S5, S3, S0, S4])
    ensures Msorted(STUDENTS_BASE, Many([Scalar(IntKey(COL_GRADE))]), false) == Ok([S2, S1, S5, S3, S0, S4])
  {
    BareKeyRouting(IntKey(COL_GRADE));
    GradeStep5();
  }

  /** Test row 33: `[COL_GRADE, COL_NAME]`; the grade tie is broken by name. */
  lemma MsortedByGradeName()
    ensures Msorted(STUDENTS_BASE, Many([Scalar(IntKey(COL_GRADE)), Scalar(IntKey(COL_NAME))]), false) == Ok([S2, S5, S1, S3, S0, S4])
  {
    var es := [Scalar(IntKey(COL_GRADE)), Scalar(IntKey(COL_NAME))];
    var ds := GRADE_NAME;
    assert NormalizeElem(es[0]) == Ok(ds[0]) && NormalizeElem(es[1]) == Ok(ds[1]);
    NormalizeElemsPointwise(es);
    assert NormalizeElems(es).value == ds;
    assert NormalizeSpec(MsortedSpec(Many(es))) == Ok(ds);
    GradeNameStep5();
  }
}
