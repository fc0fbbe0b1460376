# multisort: a Dafny model of the comparator-based multi-column sort

`multisort` sorts a list of records (tuples, lists, dicts or plain objects) by several columns at once.
Each column has its own options:

- `reverse`: sort that column in descending order;
- `clean`: a callback applied to the column value before comparing;
- `none_first`: put `None` values first.

`msorted(rows, spec, reverse)` does three things:

1. It normalises the spec into a list of column descriptors (`Comparator.__init__`).
2. It wraps the three-way comparison `_compare_a_b` as a sort key.
3. It returns a new stably sorted list.

`reversor` is a small wrapper that turns the natural order around inside a hand-written sort key.

The model also covers the test support code that the library's own tests rely on:

- the test-side spec normaliser `norm_spec_item`;
- the index-to-name spec rewrite `_fix_SORT_TESTS_spec`;
- the order check `_check_sort`;
- the `STUDENTS_BASE` fixture, with the expected orders the comparator rules determine;
- from `test_util`, the line-indenting `pre` and the append-only `StringBuffer`.

Modules:

| file | module | models |
|---|---|---|
| `wrappers.dfy` | `Wrappers` | `Option`, `Result` and negating a comparison result |
| `values.dfy` | `Values` | column values (`None`, int, str) and Python's `<` on them |
| `records.dfy` | `Records` | the three record shapes, `r[k]`, `getattr(r, k)` and the paired lookup of `_compare_a_b` |
| `spec_normalizer.dfy` | `SpecNormalizer` | the spec grammar, `Comparator.new` and `Comparator.__init__` |
| `comparator.dfy` | `Comparator` | `_compare_a_b` and its order properties |
| `stable_sort.dfy` | `StableSort` | a stable insertion sort over any three-way comparison that can raise, as a function and as an in-place array method |
| `msorted.dfy` | `MSort` | `msorted` |
| `reversor.dfy` | `Reversors` | `reversor.__eq__` and `reversor.__lt__` |
| `test_multisort.dfy` | `MultisortTests` | `clean_grade`, `norm_spec_item`, `_fix_SORT_TESTS_spec`, `_check_sort` and the expected orders of `MSORTED_TESTS` |
| `test_util.dfy` | `TestUtil` | `pre` and `StringBuffer` |

`_compare_a_b` is modelled as a pure function over the descriptor list, because a `Comparator` never changes after `__init__`.
`Comparator.__init__`, `pre`, `msorted`'s sort, `_fix_SORT_TESTS_spec` and `_check_sort` each loop over their input, so each is a method with a loop.
Each such method is proved equal to a specification function, or against an explicit postcondition.
`StringBuffer` mutates its list of pieces, so it is a class.

The key-based `multisort`/`mscol` engine is not part of this model, since it is not defined in `src/multisort/multisort.py`.
Its features (per-column defaults, `required`, missing-value groups) are therefore absent; the model follows `src/multisort/multisort.py` only.

## Model

| member | source | states |
|---|---|---|
| Values.StrLess | src/multisort/multisort.py:75-77 | Python's `<` on strings: never holds between equal strings, and a proper prefix is less than the longer string |
| Values.PrimLess | src/multisort/multisort.py:75-77 | Python's `<` on present values (ints by value, strs by code point, every int before every str): never holds between equal values |
| Values.StrLessTrichotomy | src/multisort/multisort.py:75-77 | string `<` (code point order) is total and asymmetric |
| Values.StrLessTransitive | src/multisort/multisort.py:75-77 | string `<` is transitive |
| Values.PrimLessTrichotomy | src/multisort/multisort.py:75-77 | `<` on present values is irreflexive, asymmetric and total |
| Values.PrimLessTransitive | src/multisort/multisort.py:75-77 | `<` on present values is transitive |
| Records.Subscript | src/multisort/multisort.py:60 | `r[k]` succeeds exactly for an in-range (possibly negative) position of a sequence or a present key of a dict |
| Records.GetAttr | src/multisort/multisort.py:62 | `getattr(r, k)` succeeds exactly for a named attribute of an object |
| Records.LookupPair | src/multisort/multisort.py:58-65 | a successful pair lookup returns the field each record itself resolves the key to; LookupPairReadsFields gives the exact success condition |
| Records.AccessExclusive | src/multisort/multisort.py:58-62 | no record offers a key both by subscript and by attribute |
| Records.LookupPairReadsFields | src/multisort/multisort.py:58-65 | the pair lookup succeeds iff both records offer the key by subscript, or both by attribute, and then returns each record's own field |
| Records.LookupPairSymmetric | src/multisort/multisort.py:58-65 | swapping the records swaps the looked-up values and keeps KeyError |
| Records.LookupPairChain | src/multisort/multisort.py:58-65 | lookups that succeed for `a,b` and `b,c` succeed for `a,c` with the same values |
| SpecNormalizer.NewSpec | src/multisort/multisort.py:27-31 | `Comparator.new` keeps a spec bare exactly when it gets a single bare key |
| SpecNormalizer.MsortedSpec | src/multisort/multisort.py:83-86 | `msorted` passes a bare key on unchanged, and a sequence unchanged unless it is a single bare key, which `Comparator.new` turns into a bare spec |
| SpecNormalizer.NormalizeElem | src/multisort/multisort.py:40-50 | an element normalises iff it is a bare key, a 1-tuple or a pair whose second item is a dict; the descriptor keeps the element's key; a bare key or 1-tuple has no direction, clean or `none_first`; a pair's descriptor is descending iff `opts['reverse']` is True, carries `opts['clean']`, and puts None first iff `opts['none_first']` is True (each defaulting to False or no clean when absent) |
| SpecNormalizer.NormalizeElems | src/multisort/multisort.py:38-52 | a successful sequence spec yields one descriptor per element |
| SpecNormalizer.NormalizeElemsPrefixErr | src/multisort/multisort.py:43-49 | the first element that fails its assertion decides the error of the whole spec |
| SpecNormalizer.NormalizeElemsPointwise | src/multisort/multisort.py:38-52 | a sequence spec succeeds iff every element does, and descriptor `i` is element `i`'s normal form (order preserved) |
| SpecNormalizer.NormalizeSpec | src/multisort/multisort.py:34-52 | `self.spec`: one ascending descriptor for a bare key, the element-wise normal forms otherwise; its properties are NormalizeElemsPointwise, NormalizeElemsPrefixErr and BareKeyRouting |
| SpecNormalizer.BareKeyRouting | src/multisort/multisort.py:28-36 | a bare key, whether given to `msorted`, to `Comparator.new` or as the only element of a list, becomes exactly one descriptor `(key, False, None, False)` |
| SpecNormalizer.Normalize | src/multisort/multisort.py:34-52 | the `__init__` loop stores exactly the normalised descriptors, or fails with the first element's assertion |
| Comparator.Cleaned | src/multisort/multisort.py:67-69 | the value after `clean`, when the descriptor has one; used by Compare, CompareZeroIff and CompareFirstDifference |
| Comparator.Before | src/multisort/multisort.py:71-77 | the independent per-key strict order that KeyOrder is proved against: `None` at the end `none_first` chooses, present values by `<`, reversed under `desc` |
| Comparator.BeforeTrichotomy | src/multisort/multisort.py:71-77 | for one key, distinct cleaned values are ordered one way or the other, never both |
| Comparator.BeforeTransitive | src/multisort/multisort.py:71-77 | the one-key order, with `None` placement and direction, is transitive |
| Comparator.KeyOrder | src/multisort/multisort.py:71-77 | one key answers 0 iff the values are equal, -1 iff the first goes first, 1 iff the second does; `None` goes last, or first under `none_first`, in either direction |
| Comparator.Compare | src/multisort/multisort.py:54-79 | the comparison answers -1, 0 or 1, and raises only KeyError naming one of the spec's keys |
| Comparator.CompareZeroIff | src/multisort/multisort.py:57-79 | the comparison is 0 iff every key reads both records with equal cleaned values |
| Comparator.CompareFirstDifference | src/multisort/multisort.py:57-79 | after keys that agree, the first unreadable key raises KeyError and the first differing key decides |
| Comparator.CompareAntisymmetric | src/multisort/multisort.py:54-79 | `compare(b, a) == -compare(a, b)`, and both raise together |
| Comparator.CompareTransitive | src/multisort/multisort.py:54-79 | `a <= b` and `b <= c` imply that comparing `a, c` succeeds with `a <= c` |
| Comparator.ResolvableIsComparable | src/multisort/multisort.py:58-65 | rows of one shape that all carry every spec key never make the comparison raise |
| Comparator.ResolvedPairCompares | src/multisort/multisort.py:58-65 | two records that both offer every key the same way compare without error |
| StableSort.Insert | src/multisort/multisort.py:87 | inserting a row into a sorted prefix adds exactly one row; its order and permutation properties are the lemmas below |
| StableSort.InsertAt | src/multisort/multisort.py:87 | the inserted row lands just after the last row that does not compare greater, in front of all rows that do |
| StableSort.Sort | src/multisort/multisort.py:87 | a successful sort returns as many rows as it was given; SortPermutes, SortCorrect and StableSortUnique state the rest |
| StableSort.InsertPermutes | src/multisort/multisort.py:87 | inserting one row gives a permutation of the rows plus it |
| StableSort.SortPermutes | src/multisort/multisort.py:87 | a successful sort is a permutation of its input |
| StableSort.InsertOrdered | src/multisort/multisort.py:87 | inserting into an ordered list keeps it ordered |
| StableSort.InsertStable | src/multisort/multisort.py:87 | insertion places a new row after all rows tied with it |
| StableSort.SortCorrect | src/multisort/multisort.py:87 | a successful sort is ordered, and rows that compare equal keep their input order |
| StableSort.SortSucceeds | src/multisort/multisort.py:87 | a sort succeeds when no comparison between rows at two different positions raises |
| StableSort.SortComparable | src/multisort/multisort.py:87 | conversely, when a sort succeeds, no comparison between rows at two different positions raises: the one pair it skips is ordered through transitivity |
| StableSort.SortPrefixErr | src/multisort/multisort.py:87 | once sorting a prefix raises, sorting the whole list raises the same error |
| StableSort.StableSortUnique | src/multisort/multisort.py:87 | two ordered permutations with the same tie order are equal, so every stable sort gives the same list |
| StableSort.InsertInPlace | src/multisort/multisort.py:87 | shifting the greater rows right and dropping the row into the gap leaves exactly `Insert`'s result in the array prefix, or returns its error, and leaves the rest of the array unchanged |
| StableSort.SortInPlace | src/multisort/multisort.py:87 | the in-place insertion sort leaves the array holding the sorted list, or returns the error the sort raises |
| MSort.Cmp | src/multisort/multisort.py:82-87 | the comparison `sorted` applies through `cmp_to_key`: results lie in -1..1, and with `reverse=True` it equals `_compare_a_b` with the rows swapped |
| MSort.CmpOf | src/multisort/multisort.py:82-87 | the key function handed to `sorted`: for every pair of rows, `_compare_a_b(a, b)`, or `_compare_a_b(b, a)` when `reverse=True` |
| MSort.NoneFirstOption | src/multisort/multisort.py:50-74 | with spec `[(k, opts)]` (no clean), a row reading None at `k` goes before a row with a present value iff `opts['none_first']` is True, whatever `opts['reverse']` is; `reverse=True` turns that round |
| MSort.CmpConsistent | src/multisort/multisort.py:54-87 | the comparison, reversed or not, is antisymmetric and transitive |
| MSort.ReverseFlipsOrder | src/multisort/multisort.py:87 | with `reverse=True`, `a` goes no later than `b` iff `b` goes no later than `a` forward, and ties are the same ties |
| MSort.Msorted | src/multisort/multisort.py:82-87 | an invalid spec raises a spec error, and a sorted result has as many rows as the input; MsortedCorrect and MsortedUnique state the rest |
| MSort.MsortedCorrect | src/multisort/multisort.py:82-87 | an invalid spec raises before any row is read; with a valid spec the rows sort exactly when `_compare_a_b` raises for no two rows at different positions (a key missing from a row does no harm while earlier keys decide each pair); the result is a permutation of the rows, ordered, with ties in input order |
| MSort.ComparableBothWays | src/multisort/multisort.py:82-87 | the comparison the sort uses, reversed or not, raises for exactly the same pairs of positions as `_compare_a_b` |
| MSort.EarlierKeyDecides | src/multisort/multisort.py:54-87 | `msorted([{'g': 2}, {'g': 1}], ['g', 'n'])` sorts to the two rows in `g` order although neither row has `n`; two rows tied on `g` raise KeyError for `n` |
| MSort.MsortedUnique | src/multisort/multisort.py:82-87 | any ordered permutation of the rows that keeps tied rows in input order is exactly `msorted`'s result |
| MSort.MsortedRows | src/multisort/multisort.py:82-87 | sorting a fresh array copy of the rows returns the specified result |
| Reversors.Eq | src/multisort/multisort.py:100-101 | `__eq__` compares the wrapped objects; LtStrictTotalOrder shows it is exactly incomparability under `__lt__` |
| Reversors.Lt | src/multisort/multisort.py:102-105 | `__lt__`, with the three branches of lines 103-105; its order properties are the lemmas below |
| Reversors.LtIsDescendingNoneLast | src/multisort/multisort.py:102-105 | `reversor` orders exactly like a descending key with `None` last |
| Reversors.LtConverse | src/multisort/multisort.py:102-105 | for present values `reversor(x) < reversor(y)` iff `y < x`, never both ways |
| Reversors.NoneIsMaximum | src/multisort/multisort.py:103-104 | a `None` wrapper is less than nothing, and every other wrapper is less than it |
| Reversors.LtStrictTotalOrder | src/multisort/multisort.py:100-105 | `<` is a strict total order whose incomparable pairs are exactly the `==` ones |
| MultisortTests.CleanGrade | tests/test_multisort.py:20-22 | `clean_grade`: `None` passes through, a string is upper-cased; CleanGradeIdempotent states its properties |
| MultisortTests.CleanGradeIdempotent | tests/test_multisort.py:20-22 | `clean_grade` keeps `None` and is idempotent |
| MultisortTests.NormSpecItem | tests/test_multisort.py:159-170 | the test's own `(key, reverse, clean)` normaliser; NormalizersAgree ties it to `Comparator.__init__` |
| MultisortTests.NormalizersAgree | tests/test_multisort.py:159-170 | `norm_spec_item` fails on the same elements with the same assertion as `Comparator.__init__`, and otherwise gives the same key, direction and clean function |
| MultisortTests.ColumnName | tests/test_multisort.py:89 | `STUDENT_COLS[i]` succeeds iff `-4 <= i < 4`, giving a column name |
| MultisortTests.Renamed | tests/test_multisort.py:92-98 | renaming succeeds iff the element's key is an int in `-4..3`; the renamed element then uses the name `STUDENT_COLS[i]`, keeps its shape, and a tuple keeps its options |
| MultisortTests.RenamedKeepsOptions | tests/test_multisort.py:92-98 | renaming swaps the column number for its name and changes nothing the comparator reads besides the key |
| MultisortTests.FixSortTestsSpec | tests/test_multisort.py:80-101 | list/tuple rows keep the spec; an unknown row kind raises; otherwise a bare number becomes its name and a sequence is renamed element by element, the first failing element deciding the error |
| MultisortTests.CheckSort | tests/test_multisort.py:104-119 | the length assertion fails iff `expected` does not have six entries; true iff each row, of the right kind, carries the expected `idx` in order; otherwise the first row that does not match decides, each outcome stated as an iff: wrong kind fails the test, no `idx` raises, a seventh row raises, another `idx` gives false |
| MultisortTests.MsortedGradeAttendAsc | tests/test_multisort.py:26 | grade (cleaned) then attend ascending sorts `STUDENTS_BASE` as `(2,0,5,1,3,4)` |
| MultisortTests.MsortedGradeAttendDesc | tests/test_multisort.py:27-28 | grade (cleaned) then attend descending sorts `STUDENTS_BASE` as `(0,2,1,5,3,4)` |
| MultisortTests.MsortedByGrade | tests/test_multisort.py:31-32 | `COL_GRADE` and `[COL_GRADE]` both sort `STUDENTS_BASE` as `(2,1,5,3,0,4)` |
| MultisortTests.MsortedByGradeName | tests/test_multisort.py:33 | `[COL_GRADE, COL_NAME]` sorts `STUDENTS_BASE` as `(2,5,1,3,0,4)` |
| TestUtil.Spaces | tests/test_util.py:21 | `' ' * n` has `max(n, 0)` characters, all spaces |
| TestUtil.Find | tests/test_util.py:22 | `s.find(c, start)` is the first position of `c` at or after `start`, or -1 when there is none |
| TestUtil.Split | tests/test_util.py:27-31 | splitting at newlines gives at least one piece and no piece holds a newline |
| TestUtil.Join | tests/test_util.py:32 | `sep.join(ps)`; JoinSnoc, JoinLength, JoinSplit and SplitJoin state its properties |
| TestUtil.Prefixed | tests/test_util.py:28 | every piece gets the padding in front, order kept |
| TestUtil.Indent | tests/test_util.py:20-32 | the reference meaning of `pre`: split at newlines, pad every piece, join with newlines; Pre is proved equal to it |
| TestUtil.IndentNoNewline | tests/test_util.py:22-24 | `pre` of a string without a newline is the padding followed by the string |
| TestUtil.IndentCount | tests/test_util.py:20-32 | `pre` keeps the number of newlines |
| TestUtil.IndentLength | tests/test_util.py:20-32 | `pre` adds `max(iChars, 0)` characters per line: `len(s) + max(iChars, 0)*(newlines+1)`, for every `iChars` |
| TestUtil.JoinSplit | tests/test_util.py:25-32 | joining the newline-split pieces with newlines gives the string back |
| TestUtil.SplitJoin | tests/test_util.py:25-32 | splitting a newline-join of newline-free pieces gives the pieces back |
| TestUtil.Pre | tests/test_util.py:20-32 | the index-walking loop indents every newline-separated piece, including an empty last piece after a trailing newline |
| TestUtil.Str | tests/test_util.py:38 | `str(v)`: `None`, the sign and decimal digits of an int (see Decimal), or the string itself |
| TestUtil.Decimal | tests/test_util.py:38 | `str(n)` of a natural is a non-empty digit string without a leading zero whose decimal value is `n` |
| TestUtil.JoinSnoc | tests/test_util.py:43-44 | joining one more piece appends the delimiter and the piece |
| TestUtil.JoinLength | tests/test_util.py:43-44 | the joined length is the pieces' total length plus one delimiter between each pair |
| TestUtil.StringBuffer.Ts | tests/test_util.py:43-44 | `ts(delim)` joins the pieces in order; A and Al state how each append changes `ts('')` |
| TestUtil.StringBuffer.constructor | tests/test_util.py:35-36 | a new buffer holds no pieces, or exactly the given string |
| TestUtil.StringBuffer.A | tests/test_util.py:37-39 | `a(v)` appends `str(v)`, keeps earlier pieces and returns the same buffer |
| TestUtil.StringBuffer.Al | tests/test_util.py:40-42 | `al(v)` appends `str(v)` and a newline, keeps earlier pieces and returns the same buffer |

## Left out

- Comparisons between an int and a str raise `TypeError` in Python. The model orders every int before every str instead, so that `<` is total.
- Record-level `None` (src/multisort/multisort.py:55-56) is left out. It does not give a consistent order (comparing `None` with `None` answers 1), and records are never `None` in the model.
- `cmp_to_key` (src/multisort/multisort.py:10-11, 32) is a library adapter. The model sorts with the three-way comparison directly.
- MSort.Msorted: sorts by insertion rather than Python's merge-based sort. `MsortedUnique` shows that any stable sort gives the same list when no comparison raises. When a comparison raises, the model reports the KeyError of the first failing comparison in insertion order, which may name a different key than Python's sort would.
- `clean` callbacks are total functions without side effects. A callback that raises is not modelled.
- MultisortTests.CleanGrade: upper-cases ASCII letters only, and leaves ints unchanged where Python would raise `AttributeError`.
- Lists and tuples are the same positional record. `_check_sort`'s separate list and tuple kind checks are therefore the same check.
- `getattr` returning methods of the record's class (such as `keys` on a dict) is not modelled. Only the object's own attributes are found.
- MultisortTests.Renamed: an element that is neither a key nor a tuple raises `TypeError` here. In Python, iterable elements such as lists would instead be unpacked.
- A tuple's first element is always a column key. Other first elements are not modelled.
- The expected orders at tests/test_multisort.py:29-30 are not asserted. They put the `None` grade first under a descending key, while `msorted` puts `None` last in both directions (src/multisort/multisort.py:72-73). Those rows test the key-based engine.
- The key-based `multisort`/`mscol` engine and `Student`/`_get_rows_in` are not part of this model. Neither are the `unittest` driver `_run_tests` and `dump_sort`.
- `getClassName` is left out because it is type-name introspection.
- `pc`, `quickTT`, `StopWatch` and `getFuncName` are left out: they print, use texttable, read the clock or inspect stack frames.
- tests/performance_tests.py and tests/hand_test.py are not part of this model. They rely on random data, timing and printing.
- `str(v)` is modelled only for `None`, ints and strings.
- The encoding of values and records is narrower than Python's. Column values are only `None`, int and str, so floats (whose NaN breaks antisymmetry) and bools are out. Dict records have string keys only. A record answers a key by subscript or by attribute but never both, so a namedtuple cannot be represented. The options `reverse` and `none_first` are bools, where Python tests the truthiness of any value.
