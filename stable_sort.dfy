/**
 * A stable sort by a three-way comparison that may raise, as Python's
 * `sorted(rows, key=cmp_to_key(cmp), reverse=...)` performs it.
 *
 * `Sort` specifies an insertion sort on sequences that stops at the first
 * comparison that raises; `SortInPlace` runs it on an array. For a comparison
 * that is antisymmetric and transitive, a successful result is a permutation
 * of the input, ordered and stable, and no other sequence has these three
 * properties: every stable sort returns the same sequence.
 */
module StableSort {
  import opened Wrappers

  /** `cmp(a, b)`: negative when `a` goes first, positive when `b` does, 0 for a tie; `Err` when it raises. */
  type Comparison<!T, E> = (T, T) -> Result<int, E>

  /** `a` may precede `b`: their comparison succeeds and is not positive. */
  ghost predicate LessEq<T, E>(cmp: Comparison<T, E>, a: T, b: T) {
    cmp(a, b).Ok? && cmp(a, b).value <= 0
  }

  /** A tie: the comparison succeeds with 0. */
  ghost predicate Tie<T, E>(cmp: Comparison<T, E>, a: T, b: T) {
    cmp(a, b).Ok? && cmp(a, b).value == 0
  }

  /** "No later than" is transitive through `b`. */
  ghost predicate TransitiveAt<T, E>(cmp: Comparison<T, E>, a: T, b: T, c: T) {
    LessEq(cmp, a, b) && LessEq(cmp, b, c) ==> LessEq(cmp, a, c)
  }

  /** Swapping the arguments negates the answer; "no later than" is transitive. */
  ghost predicate Consistent<T(!new), E>(cmp: Comparison<T, E>) {
    && (forall a, b :: cmp(b, a) == Negated(cmp(a, b)))
    && (forall a, b, c :: TransitiveAt(cmp, a, b, c))
  }

  lemma LessEqTransitive<T(!new), E>(cmp: Comparison<T, E>, a: T, b: T, c: T)
    requires Consistent(cmp) && LessEq(cmp, a, b) && LessEq(cmp, b, c)
    ensures LessEq(cmp, a, c)
  {
    assert TransitiveAt(cmp, a, b, c);
  }

  ghost predicate Ordered<T, E>(cmp: Comparison<T, E>, s: seq<T>) {
    forall i, j :: 0 <= i < j < |s| ==> LessEq(cmp, s[i], s[j])
  }

  /** No comparison between elements at two different positions of `s` raises. */
  ghost predicate Comparable<T, E>(cmp: Comparison<T, E>, s: seq<T>) {
    forall i, j :: 0 <= i < |s| && 0 <= j < |s| && i != j ==> cmp(s[i], s[j]).Ok?
  }

  /** Ties are symmetric and transitive, and an element tied with anything is tied with itself. */
  lemma TieProperties<T(!new), E>(cmp: Comparison<T, E>, a: T, b: T, c: T)
    requires Consistent(cmp)
    ensures Tie(cmp, a, b) ==> Tie(cmp, b, a) && Tie(cmp, a, a)
    ensures Tie(cmp, a, b) && Tie(cmp, b, c) ==> Tie(cmp, a, c)
  {
    assert cmp(b, a) == Negated(cmp(a, b));
    assert cmp(c, b) == Negated(cmp(b, c));
    assert cmp(c, a) == Negated(cmp(a, c));
    assert cmp(a, a) == Negated(cmp(a, a));
    if Tie(cmp, a, b) {
      LessEqTransitive(cmp, a, b, a);
    }
    if Tie(cmp, a, b) && Tie(cmp, b, c) {
      LessEqTransitive(cmp, a, b, c);
      LessEqTransitive(cmp, c, b, a);
    }
  }

  /** Insert `x` into `p`: walk left past every element that compares greater than `x`. */
  function Insert<T, E>(cmp: Comparison<T, E>, p: seq<T>, x: T): (r: Result<seq<T>, E>)
    ensures r.Ok? ==> |r.value| == |p| + 1
    decreases |p|
  {
    if p == [] then Ok([x])
    else
      var last := p[|p| - 1];
      match cmp(last, x)
      case Err(e) => Err(e)
      case Ok(c) =>
        if c > 0 then
          match Insert(cmp, p[..|p| - 1], x)
          case Err(e) => Err(e)
          case Ok(q) =>
            assert p == p[..|p| - 1] + [last];
            Ok(q + [last])
        else Ok(p + [x])
  }

  /** Insertion sort: each element in turn is inserted into the sorted prefix. */
  function Sort<T, E>(cmp: Comparison<T, E>, rows: seq<T>): (r: Result<seq<T>, E>)
    ensures r.Ok? ==> |r.value| == |rows|
  {
    if rows == [] then Ok([])
    else
      match Sort(cmp, rows[..|rows| - 1])
      case Err(e) => Err(e)
      case Ok(q) =>
        assert rows == rows[..|rows| - 1] + [rows[|rows| - 1]];
        Insert(cmp, q, rows[|rows| - 1])
  }

  /** `Insert` adds exactly `x`: the result is a permutation of `p + [x]`. */
  lemma {:induction false} InsertPermutes<T, E>(cmp: Comparison<T, E>, p: seq<T>, x: T)
    requires Insert(cmp, p, x).Ok?
    ensures multiset(Insert(cmp, p, x).value) == multiset(p) + multiset{x}
    decreases |p|
  {
    if p != [] {
      var init, last := p[..|p| - 1], p[|p| - 1];
      assert p == init + [last];
      if cmp(last, x).value > 0 {
        InsertPermutes(cmp, init, x);
      }
    }
  }

  /** A successful sort is a permutation of its input. */
  lemma {:induction false} SortPermutes<T, E>(cmp: Comparison<T, E>, rows: seq<T>)
    requires Sort(cmp, rows).Ok?
    ensures multiset(Sort(cmp, rows).value) == multiset(rows)
  {
    if rows != [] {
      var init, last := rows[..|rows| - 1], rows[|rows| - 1];
      assert rows == init + [last];
      SortPermutes(cmp, init);
      InsertPermutes(cmp, Sort(cmp, init).value, last);
    }
  }

  /** Sorting one more row inserts it into the sorted rows before it. */
  lemma SortSnoc<T, E>(cmp: Comparison<T, E>, rows: seq<T>, x: T)
    ensures Sort(cmp, rows + [x]) ==
      match Sort(cmp, rows)
      case Ok(q) => Insert(cmp, q, x)
      case Err(e) => Err(e)
  {
    assert (rows + [x])[..|rows|] == rows;
  }

  /** `x` stays at the end when the last element does not compare greater. */
  lemma InsertStop<T, E>(cmp: Comparison<T, E>, p: seq<T>, x: T)
    requires p != [] ==> LessEq(cmp, p[|p| - 1], x)
    ensures Insert(cmp, p, x) == Ok(p + [x])
  {
    if p == [] {
      assert p + [x] == [x];
    }
  }

  /** `x` moves past a last element that compares greater. */
  lemma InsertPass<T, E>(cmp: Comparison<T, E>, init: seq<T>, last: T, x: T, q: seq<T>)
    requires cmp(last, x).Ok? && cmp(last, x).value > 0
    requires Insert(cmp, init, x) == Ok(q)
    ensures Insert(cmp, init + [last], x) == Ok(q + [last])
  {
    assert (init + [last])[..|init|] == init;
  }

  /**
   * Where `Insert` puts `x`: after `init`, whose last element does not compare
   * greater, and in front of `rest`, whose every element does.
   */
  lemma {:induction false} InsertAt<T, E>(cmp: Comparison<T, E>, init: seq<T>, rest: seq<T>, x: T)
    requires init != [] ==> LessEq(cmp, init[|init| - 1], x)
    requires forall k :: 0 <= k < |rest| ==> cmp(rest[k], x).Ok? && cmp(rest[k], x).value > 0
    ensures Insert(cmp, init + rest, x) == Ok(init + [x] + rest)
    decreases |rest|
  {
    if rest == [] {
      assert init + rest == init && init + [x] + rest == init + [x];
      InsertStop(cmp, init, x);
    } else {
      var front, last := rest[..|rest| - 1], rest[|rest| - 1];
      assert rest == front + [last];
      assert forall k :: 0 <= k < |front| ==> front[k] == rest[k];
      InsertAt(cmp, init, front, x);
      InsertAtStep(cmp, init, front, last, x);
    }
  }

  /** One more row that compares greater, at the end, stays behind `x`. */
  lemma InsertAtStep<T, E>(cmp: Comparison<T, E>, init: seq<T>, front: seq<T>, last: T, x: T)
    requires cmp(last, x).Ok? && cmp(last, x).value > 0
    requires Insert(cmp, init + front, x) == Ok(init + [x] + front)
    ensures Insert(cmp, init + (front + [last]), x) == Ok(init + [x] + (front + [last]))
  {
    InsertPass(cmp, init + front, last, x, init + [x] + front);
    assert init + (front + [last]) == (init + front) + [last];
    assert init + [x] + (front + [last]) == (init + [x] + front) + [last];
  }

  /** Sorting one more row inserts it into the sorted prefix. */
  lemma SortSnocInsert<T, E>(cmp: Comparison<T, E>, rows: seq<T>, x: T, q: seq<T>, r: seq<T>)
    requires Sort(cmp, rows) == Ok(q) && Insert(cmp, q, x) == Ok(r)
    ensures Sort(cmp, rows + [x]) == Ok(r)
  {
    SortSnoc(cmp, rows, x);
  }

  /** The elements of `s` tied with `x`, in their order in `s`. */
  ghost function Ties<T, E>(cmp: Comparison<T, E>, s: seq<T>, x: T): seq<T> {
    if s == [] then []
    else (if Tie(cmp, s[0], x) then [s[0]] else []) + Ties(cmp, s[1..], x)
  }

  /** Stability: for every `x`, the elements tied with `x` come in the same order in both. */
  ghost predicate SameTies<T(!new), E>(cmp: Comparison<T, E>, s: seq<T>, t: seq<T>) {
    forall x :: Ties(cmp, s, x) == Ties(cmp, t, x)
  }

  lemma {:induction false} TiesConcat<T, E>(cmp: Comparison<T, E>, s: seq<T>, t: seq<T>, x: T)
    ensures Ties(cmp, s + t, x) == Ties(cmp, s, x) + Ties(cmp, t, x)
    decreases |s|
  {
    if s == [] {
      assert s + t == t;
    } else {
      var h := if Tie(cmp, s[0], x) then [s[0]] else [];
      assert (s + t)[0] == s[0];
      assert (s + t)[1..] == s[1..] + t;
      assert Ties(cmp, s + t, x) == h + Ties(cmp, s[1..] + t, x);
      TiesConcat(cmp, s[1..], t, x);
      assert Ties(cmp, s, x) == h + Ties(cmp, s[1..], x);
      assert h + (Ties(cmp, s[1..], x) + Ties(cmp, t, x)) == (h + Ties(cmp, s[1..], x)) + Ties(cmp, t, x);
    }
  }

  /** Inserting into an ordered sequence yields an ordered sequence. */
  lemma {:induction false} InsertOrdered<T(!new), E>(cmp: Comparison<T, E>, p: seq<T>, x: T)
    requires Consistent(cmp)
    requires Ordered(cmp, p) && Insert(cmp, p, x).Ok?
    ensures Ordered(cmp, Insert(cmp, p, x).value)
    decreases |p|
  {
    if p != [] {
      var init, last := p[..|p| - 1], p[|p| - 1];
      var q := Insert(cmp, p, x).value;
      if cmp(last, x).value > 0 {
        var q' := Insert(cmp, init, x).value;
        assert q == q' + [last];
        InsertOrdered(cmp, init, x);
        InsertPermutes(cmp, init, x);
        assert cmp(x, last) == Negated(cmp(last, x));
        forall i | 0 <= i < |q'| ensures LessEq(cmp, q'[i], last) {
          assert q'[i] in multiset(q');
          if q'[i] != x {
            assert q'[i] in multiset(init);
            var k :| 0 <= k < |init| && init[k] == q'[i];
            assert p[k] == init[k];
          }
        }
      } else {
        assert q == p + [x];
        assert LessEq(cmp, last, x);
        forall i | 0 <= i < |p| ensures LessEq(cmp, p[i], x) {
          if i < |p| - 1 {
            LessEqTransitive(cmp, p[i], last, x);
          }
        }
      }
    }
  }

  /** Two adjacent elements that are not tied can swap places without changing any tie order. */
  lemma SwapUntied<T(!new), E>(cmp: Comparison<T, E>, u: seq<T>, l: T, x: T, y: T)
    requires Consistent(cmp) && !Tie(cmp, l, x)
    ensures Ties(cmp, u + [x] + [l], y) == Ties(cmp, u + [l] + [x], y)
  {
    TiesConcat(cmp, u + [x], [l], y);
    TiesConcat(cmp, u, [x], y);
    TiesConcat(cmp, u + [l], [x], y);
    TiesConcat(cmp, u, [l], y);
    assert Ties(cmp, [l], y) == (if Tie(cmp, l, y) then [l] else []);
    assert Ties(cmp, [x], y) == (if Tie(cmp, x, y) then [x] else []);
    TieProperties(cmp, x, y, y);
    TieProperties(cmp, l, y, x);
    assert !(Tie(cmp, l, y) && Tie(cmp, x, y));
  }

  /** Inserting `x` keeps ties in order, `x` after the elements tied with it already in `p`. */
  lemma {:induction false} InsertStable<T(!new), E>(cmp: Comparison<T, E>, p: seq<T>, x: T, y: T)
    requires Consistent(cmp) && Insert(cmp, p, x).Ok?
    ensures Ties(cmp, Insert(cmp, p, x).value, y) == Ties(cmp, p + [x], y)
    decreases |p|
  {
    if p != [] {
      var init, last := p[..|p| - 1], p[|p| - 1];
      if cmp(last, x).value > 0 {
        var q' := Insert(cmp, init, x).value;
        assert Insert(cmp, p, x).value == q' + [last];
        InsertStable(cmp, init, x, y);
        TiesConcat(cmp, q', [last], y);
        TiesConcat(cmp, init + [x], [last], y);
        SwapUntied(cmp, init, last, x, y);
        assert p + [x] == init + [last] + [x];
      }
    }
  }

  /** Inserting into a stable sort of `init` gives a stable sort of `init + [x]`. */
  lemma InsertKeepsTies<T(!new), E>(cmp: Comparison<T, E>, q: seq<T>, init: seq<T>, x: T)
    requires Consistent(cmp) && Insert(cmp, q, x).Ok? && SameTies(cmp, q, init)
    ensures SameTies(cmp, Insert(cmp, q, x).value, init + [x])
  {
    forall y ensures Ties(cmp, Insert(cmp, q, x).value, y) == Ties(cmp, init + [x], y) {
      InsertStable(cmp, q, x, y);
      TiesConcat(cmp, q, [x], y);
      TiesConcat(cmp, init, [x], y);
    }
  }

  /** A successful sort is ordered and stable. */
  lemma {:induction false} SortCorrect<T(!new), E>(cmp: Comparison<T, E>, rows: seq<T>)
    requires Consistent(cmp) && Sort(cmp, rows).Ok?
    ensures Ordered(cmp, Sort(cmp, rows).value)
    ensures SameTies(cmp, Sort(cmp, rows).value, rows)
  {
    if rows != [] {
      var init, last := rows[..|rows| - 1], rows[|rows| - 1];
      var q := Sort(cmp, init).value;
      SortCorrect(cmp, init);
      InsertOrdered(cmp, q, last);
      assert rows == init + [last];
      InsertKeepsTies(cmp, q, init, last);
    }
  }

  lemma {:induction false} InsertSucceeds<T, E>(cmp: Comparison<T, E>, p: seq<T>, x: T)
    requires forall e :: e in p ==> cmp(e, x).Ok?
    ensures Insert(cmp, p, x).Ok?
    decreases |p|
  {
    if p != [] {
      assert p[|p| - 1] in p;
      assert forall e :: e in p[..|p| - 1] ==> e in p;
      InsertSucceeds(cmp, p[..|p| - 1], x);
    }
  }

  /** When no comparison between two positions raises, the sort raises nothing. */
  lemma {:induction false} SortSucceeds<T, E>(cmp: Comparison<T, E>, rows: seq<T>)
    requires Comparable(cmp, rows)
    ensures Sort(cmp, rows).Ok?
  {
    if rows != [] {
      var init, last := rows[..|rows| - 1], rows[|rows| - 1];
      assert forall i :: 0 <= i < |init| ==> init[i] == rows[i];
      SortSucceeds(cmp, init);
      var q := Sort(cmp, init).value;
      SortPermutes(cmp, init);
      forall e | e in q ensures cmp(e, last).Ok? {
        assert e in multiset(init);
        var i :| 0 <= i < |init| && init[i] == e;
        assert cmp(rows[i], rows[|rows| - 1]).Ok?;
      }
      InsertSucceeds(cmp, q, last);
    }
  }

  /** A successful insertion into an ordered list has compared `x` with every element, directly or through transitivity. */
  lemma {:induction false} InsertComparesAll<T(!new), E>(cmp: Comparison<T, E>, p: seq<T>, x: T)
    requires Consistent(cmp) && Ordered(cmp, p) && Insert(cmp, p, x).Ok?
    ensures forall e :: e in p ==> cmp(e, x).Ok?
    decreases |p|
  {
    if p != [] {
      var init, last := p[..|p| - 1], p[|p| - 1];
      assert p == init + [last];
      if cmp(last, x).value > 0 {
        assert Ordered(cmp, init) by {
          assert forall i :: 0 <= i < |init| ==> init[i] == p[i];
        }
        InsertComparesAll(cmp, init, x);
      } else {
        forall e | e in init ensures cmp(e, x).Ok? {
          var k :| 0 <= k < |init| && init[k] == e;
          assert LessEq(cmp, p[k], p[|p| - 1]);
          LessEqTransitive(cmp, e, last, x);
        }
      }
    }
  }

  /** Conversely, a successful sort means no comparison between two positions raises. */
  lemma {:induction false} SortComparable<T(!new), E>(cmp: Comparison<T, E>, rows: seq<T>)
    requires Consistent(cmp) && Sort(cmp, rows).Ok?
    ensures Comparable(cmp, rows)
  {
    if rows != [] {
      var init, last := rows[..|rows| - 1], rows[|rows| - 1];
      assert rows == init + [last];
      SortComparable(cmp, init);
      var q := Sort(cmp, init).value;
      SortCorrect(cmp, init);
      SortPermutes(cmp, init);
      InsertComparesAll(cmp, q, last);
      forall i, j | 0 <= i < |rows| && 0 <= j < |rows| && i != j ensures cmp(rows[i], rows[j]).Ok? {
        if i < |init| && j < |init| {
          assert cmp(init[i], init[j]).Ok?;
        } else if i < |init| {
          assert init[i] in multiset(q);
        } else {
          assert init[j] in multiset(q);
          assert cmp(rows[i], rows[j]) == Negated(cmp(rows[j], rows[i]));
        }
      }
    }
  }

  /** The first element of `s`, when tied with `x`, heads the ties of `x` in `s`. */
  lemma TiesHead<T, E>(cmp: Comparison<T, E>, s: seq<T>, x: T)
    requires s != [] && Tie(cmp, s[0], x)
    ensures Ties(cmp, s, x) != [] && Ties(cmp, s, x)[0] == s[0]
  {
    assert Ties(cmp, s, x) == [s[0]] + Ties(cmp, s[1..], x);
  }

  /** In an ordered sequence the first element may precede every element. */
  lemma FirstLeast<T, E>(cmp: Comparison<T, E>, s: seq<T>, y: T)
    requires Ordered(cmp, s) && y in multiset(s) && y != s[0]
    ensures LessEq(cmp, s[0], y)
  {
    var k :| 0 <= k < |s| && s[k] == y;
  }

  /** Two ordered permutations of each other with the same tie order start with the same element. */
  lemma SameFirst<T(!new), E>(cmp: Comparison<T, E>, s: seq<T>, t: seq<T>)
    requires Consistent(cmp)
    requires s != [] && multiset(s) == multiset(t)
    requires Ordered(cmp, s) && Ordered(cmp, t)
    requires Ties(cmp, s, t[0]) == Ties(cmp, t, t[0])
    ensures s[0] == t[0]
  {
    var a, b := s[0], t[0];
    assert a in multiset(s) && b in multiset(t);
    if a != b {
      FirstLeast(cmp, s, b);
      FirstLeast(cmp, t, a);
      assert cmp(b, a) == Negated(cmp(a, b));
      assert Tie(cmp, a, b);
      TieProperties(cmp, a, b, b);
      TieProperties(cmp, b, a, a);
      TiesHead(cmp, s, b);
      TiesHead(cmp, t, b);
    }
  }

  /** Dropping a common first element keeps the tie orders equal. */
  lemma TailTies<T(!new), E>(cmp: Comparison<T, E>, s: seq<T>, t: seq<T>)
    requires s != [] && t != [] && s[0] == t[0]
    requires SameTies(cmp, s, t)
    ensures SameTies(cmp, s[1..], t[1..])
  {
    var a := s[0];
    forall x ensures Ties(cmp, s[1..], x) == Ties(cmp, t[1..], x) {
      var h := if Tie(cmp, a, x) then [a] else [];
      assert Ties(cmp, s, x) == h + Ties(cmp, s[1..], x);
      assert Ties(cmp, t, x) == h + Ties(cmp, t[1..], x);
      assert Ties(cmp, s[1..], x) == Ties(cmp, s, x)[|h|..];
      assert Ties(cmp, t[1..], x) == Ties(cmp, t, x)[|h|..];
    }
  }

  /** Dropping a common first element keeps two sequences permutations of each other. */
  lemma TailPermutes<T>(s: seq<T>, t: seq<T>)
    requires s != [] && t != [] && s[0] == t[0] && multiset(s) == multiset(t)
    ensures multiset(s[1..]) == multiset(t[1..])
  {
    assert s == [s[0]] + s[1..] && t == [t[0]] + t[1..];
    assert multiset(s[1..]) == multiset(s) - multiset{s[0]};
    assert multiset(t[1..]) == multiset(t) - multiset{t[0]};
  }

  /** The tail of an ordered sequence is ordered. */
  lemma TailOrdered<T, E>(cmp: Comparison<T, E>, s: seq<T>)
    requires s != [] && Ordered(cmp, s)
    ensures Ordered(cmp, s[1..])
  {
    forall i, j | 0 <= i < j < |s| - 1 ensures LessEq(cmp, s[1..][i], s[1..][j]) {
      assert s[1..][i] == s[i + 1] && s[1..][j] == s[j + 1];
    }
  }

  /** Two sequences as in `StableSortUnique` agree at the head, and their tails are again such a pair. */
  lemma UniqueStep<T(!new), E>(cmp: Comparison<T, E>, s: seq<T>, t: seq<T>)
    requires Consistent(cmp) && s != []
    requires multiset(s) == multiset(t)
    requires Ordered(cmp, s) && Ordered(cmp, t)
    requires SameTies(cmp, s, t)
    ensures t != [] && s[0] == t[0]
    ensures multiset(s[1..]) == multiset(t[1..])
    ensures Ordered(cmp, s[1..]) && Ordered(cmp, t[1..])
    ensures SameTies(cmp, s[1..], t[1..])
  {
    assert |t| == |multiset(t)| == |s|;
    SameFirst(cmp, s, t);
    TailTies(cmp, s, t);
    TailPermutes(s, t);
    TailOrdered(cmp, s);
    TailOrdered(cmp, t);
  }

  /**
   * Uniqueness: two permutations of each other that are both ordered and keep
   * ties in the same order are the same sequence.
   */
  lemma {:induction false} StableSortUnique<T(!new), E>(cmp: Comparison<T, E>, s: seq<T>, t: seq<T>)
    requires Consistent(cmp)
    requires multiset(s) == multiset(t)
    requires Ordered(cmp, s) && Ordered(cmp, t)
    requires SameTies(cmp, s, t)
    ensures s == t
    decreases |s|
  {
    if s != [] {
      UniqueStep(cmp, s, t);
      StableSortUnique(cmp, s[1..], t[1..]);
      assert s == [s[0]] + s[1..] && t == [t[0]] + t[1..];
    } else {
      assert |t| == |multiset(t)| == 0;
    }
  }

  /** Once a prefix raises, the whole sort raises the same error. */
  lemma {:induction false} SortPrefixErr<T, E>(cmp: Comparison<T, E>, rows: seq<T>, i: nat)
    requires i <= |rows| && Sort(cmp, rows[..i]).Err?
    ensures Sort(cmp, rows) == Sort(cmp, rows[..i])
    decreases |rows| - i
  {
    if i < |rows| {
      assert rows[..i + 1][..i] == rows[..i];
      SortPrefixErr(cmp, rows, i + 1);
    } else {
      assert rows[..i] == rows;
    }
  }

  function Append<T, E>(r: Result<seq<T>, E>, tail: seq<T>): Result<seq<T>, E> {
    match r
    case Ok(q) => Ok(q + tail)
    case Err(e) => Err(e)
  }

  /** One step of `Insert` on the prefix `p[..j]`. */
  lemma InsertStep<T, E>(cmp: Comparison<T, E>, p: seq<T>, x: T, j: nat)
    requires 0 < j <= |p| && cmp(p[j - 1], x).Ok?
    ensures cmp(p[j - 1], x).value > 0 ==>
      Append(Insert(cmp, p[..j], x), p[j..]) == Append(Insert(cmp, p[..j - 1], x), p[j - 1..])
    ensures cmp(p[j - 1], x).value <= 0 ==> Insert(cmp, p[..j], x) == Ok(p[..j] + [x])
  {
    assert p[..j][..j - 1] == p[..j - 1];
    assert p[..j][j - 1] == p[j - 1];
    assert p[j - 1..] == [p[j - 1]] + p[j..];
    var r := Insert(cmp, p[..j - 1], x);
    if r.Ok? {
      assert r.value + [p[j - 1]] + p[j..] == r.value + p[j - 1..];
    }
  }

  /** Before any shifting, the whole prefix is still to be inserted into. */
  lemma InsertWhole<T, E>(cmp: Comparison<T, E>, p: seq<T>, x: T)
    ensures Insert(cmp, p, x) == Append(Insert(cmp, p[..|p|], x), p[|p|..])
  {
    assert p[..|p|] == p && p[|p|..] == [];
    assert Insert(cmp, p, x).Ok? ==> Insert(cmp, p, x).value + [] == Insert(cmp, p, x).value;
  }

  /** A comparison that raises ends the insertion into the prefix `p[..j]` with its error. */
  lemma InsertStepErr<T, E>(cmp: Comparison<T, E>, p: seq<T>, x: T, j: nat)
    requires 0 < j <= |p| && cmp(p[j - 1], x).Err?
    ensures Insert(cmp, p[..j], x) == Err(cmp(p[j - 1], x).error)
  {
    assert p[..j][j - 1] == p[j - 1];
  }

  /** Where the shifting stops, `x` goes in. */
  lemma InsertDone<T, E>(cmp: Comparison<T, E>, p: seq<T>, x: T, j: nat)
    requires j <= |p| && Insert(cmp, p, x) == Append(Insert(cmp, p[..j], x), p[j..])
    requires j == 0 || (cmp(p[j - 1], x).Ok? && cmp(p[j - 1], x).value <= 0)
    ensures Insert(cmp, p, x) == Ok(p[..j] + [x] + p[j..])
  {
    if j > 0 {
      InsertStep(cmp, p, x, j);
    } else {
      assert p[..0] == [] && p[0..] == p;
      assert Insert(cmp, p[..0], x) == Ok([x]);
      assert Append(Insert(cmp, p[..0], x), p) == Ok([x] + p);
      assert p[..0] + [x] + p[0..] == [x] + p;
    }
  }

  /**
   * The array contents while shifting: `p[..j]`, a gap at `j`, then `p[j..]`
   * one place to the right. Copying the element left of the gap into it moves
   * the gap one place left.
   */
  lemma ShiftGap<T>(s: seq<T>, t: seq<T>, p: seq<T>, i: nat, j: nat)
    requires 0 < j <= i < |s| && |p| == i && t == s[j := s[j - 1]]
    requires s[..j] == p[..j] && s[j + 1..i + 1] == p[j..]
    ensures t[..j - 1] == p[..j - 1] && t[j..i + 1] == p[j - 1..] && t[i + 1..] == s[i + 1..]
  {
    assert t[..j - 1] == s[..j][..j - 1];
    assert t[j..i + 1] == [s[j - 1]] + s[j + 1..i + 1];
    assert p[j - 1..] == [p[j - 1]] + p[j..];
  }

  /** The array contents once `x` is dropped into the gap at `j`. */
  lemma Placed<T>(s: seq<T>, t: seq<T>, p: seq<T>, x: T, i: nat, j: nat)
    requires j <= i < |s| && |p| == i && t == s[j := x]
    requires s[..j] == p[..j] && s[j + 1..i + 1] == p[j..]
    ensures t[..i + 1] == p[..j] + [x] + p[j..] && t[i + 1..] == s[i + 1..]
  {
    assert t[..i + 1] == s[..j] + [x] + s[j + 1..i + 1];
  }

  /**
   * Insert `a[i]` into the sorted `a[..i]`: shift every element that compares
   * greater one place right, then drop `a[i]` into the gap.
   */
  method InsertInPlace<T, E>(cmp: Comparison<T, E>, a: array<T>, i: nat) returns (err: Option<E>)
    requires i < a.Length
    modifies a
    ensures err.None? ==> Insert(cmp, old(a[..i]), old(a[i])) == Ok(a[..i + 1])
    ensures err.None? ==> a[i + 1..] == old(a[i + 1..])
    ensures err.Some? ==> Insert(cmp, old(a[..i]), old(a[i])) == Err(err.value)
  {
    var x := a[i];
    ghost var p := a[..i];
    var j := i;
    InsertWhole(cmp, p, x);
    while j > 0
      invariant 0 <= j <= i
      invariant a[..j] == p[..j] && a[j + 1..i + 1] == p[j..]
      invariant a[i + 1..] == old(a[i + 1..])
      invariant Insert(cmp, p, x) == Append(Insert(cmp, p[..j], x), p[j..])
    {
      var c := cmp(a[j - 1], x);
      assert a[j - 1] == p[j - 1] by { assert a[..j][j - 1] == p[..j][j - 1]; }
      if c.Err? {
        InsertStepErr(cmp, p, x, j);
        return Some(c.error);
      }
      InsertStep(cmp, p, x, j);
      if c.value <= 0 {
        break;
      }
      ghost var before := a[..];
      a[j] := a[j - 1];
      ShiftGap(before, a[..], p, i, j);
      j := j - 1;
    }
    InsertDone(cmp, p, x, j);
    ghost var before := a[..];
    a[j] := x;
    Placed(before, a[..], p, x, i, j);
    return None;
  }

  /** The insertion sort run in place on an array, as `Sort` specifies it. */
  method SortInPlace<T, E>(cmp: Comparison<T, E>, a: array<T>) returns (err: Option<E>)
    modifies a
    ensures err.None? ==> Sort(cmp, old(a[..])) == Ok(a[..])
    ensures err.Some? ==> Sort(cmp, old(a[..])) == Err(err.value)
  {
    ghost var rows := a[..];
    var i := 0;
    while i < a.Length
      invariant 0 <= i <= a.Length
      invariant Sort(cmp, rows[..i]) == Ok(a[..i])
      invariant a[i..] == rows[i..]
    {
      assert rows[..i + 1] == rows[..i] + [rows[i]];
      assert rows[..i + 1][..i] == rows[..i];
      assert a[i] == rows[i];
      err := InsertInPlace(cmp, a, i);
      if err.Some? {
        assert Sort(cmp, rows[..i + 1]) == Err(err.value);
        SortPrefixErr(cmp, rows, i + 1);
        return;
      }
      i := i + 1;
    }
    assert rows[..a.Length] == rows && a[..a.Length] == a[..];
    err := None;
  }
}
