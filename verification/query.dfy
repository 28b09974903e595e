/**
 * The relational building blocks every route handler is made of, stated over
 * tables held as sequences of rows:
 *   WHERE                 Filter, Any, FindFirst
 *   ORDER BY key DESC     SortDesc
 *   OFFSET .. LIMIT ..    Page
 *   count(*), sum, max    Count, SqlCount, Sum, SqlMax
 *   top n by a key        Top
 *   UPDATE .. WHERE ..    UpdateWhere
 * and `Number(q) || fallback`, the way every handler reads a numeric query parameter.
 */
module Query {
  import opened Wrappers

  /**
   * `Number(q) || fallback`. A missing parameter and one that is not a number both make
   * `Number` return NaN; NaN and 0 are falsy, so both give the fallback. Any other number,
   * a negative one included, passes through unchanged.
   */
  function NumberOr(q: Option<int>, fallback: int): (n: int)
    ensures q.Some? && q.value != 0 ==> n == q.value
    ensures q.None? || q.value == 0 ==> n == fallback
    ensures fallback != 0 ==> n != 0
  {
    match q
    case None => fallback
    case Some(x) => if x == 0 then fallback else x
  }

  // ---------------------------------------------------------------- WHERE

  /** The rows of `s` that satisfy `p`, in table order. */
  function Filter<T>(s: seq<T>, p: T -> bool): (r: seq<T>)
    ensures |r| <= |s|
    ensures forall x :: x in r ==> x in s && p(x)
    ensures forall x :: x in s && p(x) ==> x in r
  {
    if s == [] then []
    else
      assert s == [s[0]] + s[1..];
      (if p(s[0]) then [s[0]] else []) + Filter(s[1..], p)
  }

  /** Some row of `s` satisfies `p`. */
  predicate Any<T>(s: seq<T>, p: T -> bool) {
    exists i :: 0 <= i < |s| && p(s[i])
  }

  /** The row a `select ... where p limit 1` returns: the first match in table order. */
  function FindFirst<T>(s: seq<T>, p: T -> bool): (r: Option<T>)
    ensures r.None? <==> !Any(s, p)
    ensures r.Some? ==> r.value in s && p(r.value)
  {
    if s == [] then None
    else if p(s[0]) then Some(s[0])
    else FindFirst(s[1..], p)
  }

  /**
   * At most one row satisfies `p`: what a UNIQUE constraint on a column guarantees for the
   * condition "the column equals k", for every k.
   */
  predicate AtMostOne<T>(s: seq<T>, p: T -> bool) {
    forall i, j :: 0 <= i < j < |s| && p(s[i]) ==> !p(s[j])
  }

  // ---------------------------------------------------------------- aggregates

  /** `count(*)` under a condition, or `sum(case when p then 1 else 0 end)` on a non-empty table. */
  function Count<T>(s: seq<T>, p: T -> bool): (n: nat)
    ensures n <= |s|
    ensures n == 0 <==> !Any(s, p)
  {
    if s == [] then 0
    else
      AnyCons(s, p);
      (if p(s[0]) then 1 else 0) + Count(s[1..], p)
  }

  /** Counting the rows that satisfy `p` is taking the length of the filtered table. */
  lemma {:induction false} CountIsFilterLength<T>(s: seq<T>, p: T -> bool)
    ensures Count(s, p) == |Filter(s, p)|
  {
    if s != [] {
      CountIsFilterLength(s[1..], p);
    }
  }

  /**
   * `sum(case when p then 1 else 0 end)`: SQL's `sum` over no rows is NULL, not 0.
   */
  function SqlCount<T>(s: seq<T>, p: T -> bool): (n: Option<nat>)
    ensures n.None? <==> s == []
    ensures n.Some? ==> n.value == Count(s, p)
  {
    if s == [] then None else Some(Count(s, p))
  }

  function Sum<T>(s: seq<T>, f: T -> int): int {
    if s == [] then 0 else f(s[0]) + Sum(s[1..], f)
  }

  /** `max(column)` over the rows that satisfy `p`: NULL when there are none. */
  function SqlMax<T>(s: seq<T>, p: T -> bool, f: T -> int): (m: Option<int>)
    ensures m.None? <==> !Any(s, p)
  {
    if s == [] then None
    else
      var m := SqlMax(s[..|s| - 1], p, f);
      var x := s[|s| - 1];
      AnySnoc(s[..|s| - 1], x, p);
      assert s == s[..|s| - 1] + [x];
      if !p(x) then m else if m.None? || f(x) > m.value then Some(f(x)) else m
  }

  /** The maximum is reached by a matching row and no matching row exceeds it. */
  lemma {:induction false} SqlMaxIsMax<T>(s: seq<T>, p: T -> bool, f: T -> int)
    ensures SqlMax(s, p, f).Some? ==>
      && (forall i :: 0 <= i < |s| && p(s[i]) ==> f(s[i]) <= SqlMax(s, p, f).value)
      && (exists i :: 0 <= i < |s| && p(s[i]) && f(s[i]) == SqlMax(s, p, f).value)
  {
    if s != [] {
      var t := s[..|s| - 1];
      SqlMaxIsMax(t, p, f);
      var m := SqlMax(s, p, f);
      if m.Some? {
        forall i | 0 <= i < |s| && p(s[i]) ensures f(s[i]) <= m.value {
          if i < |t| {
            assert s[i] == t[i];
          }
        }
        if m == SqlMax(t, p, f) {
          var i :| 0 <= i < |t| && p(t[i]) && f(t[i]) == m.value;
          assert s[i] == t[i];
        } else {
          assert f(s[|s| - 1]) == m.value;
        }
      }
    }
  }

  /** The maximum over the table grown by one row. */
  lemma SqlMaxAppend<T>(s: seq<T>, x: T, p: T -> bool, f: T -> int)
    ensures SqlMax(s + [x], p, f) ==
      var m := SqlMax(s, p, f);
      if !p(x) then m else if m.None? || f(x) > m.value then Some(f(x)) else m
  {
    assert (s + [x])[..|s|] == s;
  }

  /** Some row of `s + [x]` satisfies `p` when some row of `s` does or `x` does. */
  lemma AnySnoc<T>(s: seq<T>, x: T, p: T -> bool)
    ensures Any(s + [x], p) <==> Any(s, p) || p(x)
  {
    var t := s + [x];
    if Any(s, p) {
      var i :| 0 <= i < |s| && p(s[i]);
      assert t[i] == s[i];
    }
    if p(x) {
      assert t[|s|] == x;
    }
    if Any(t, p) {
      var i :| 0 <= i < |t| && p(t[i]);
      if i < |s| {
        assert t[i] == s[i];
      }
    }
  }

  lemma {:induction false} CountAppend<T>(s: seq<T>, x: T, p: T -> bool)
    ensures Count(s + [x], p) == Count(s, p) + (if p(x) then 1 else 0)
  {
    if s != [] {
      assert (s + [x])[1..] == s[1..] + [x];
      CountAppend(s[1..], x, p);
    }
  }

  /** Two conditions that agree on every row of the table count the same rows. */
  lemma {:induction false} CountAgree<T>(s: seq<T>, p: T -> bool, q: T -> bool)
    requires forall i :: 0 <= i < |s| ==> p(s[i]) == q(s[i])
    ensures Count(s, p) == Count(s, q)
  {
    if s != [] {
      CountAgree(s[1..], p, q);
    }
  }

  /** Under a uniqueness constraint, a key matches exactly one row or none. */
  lemma {:induction false} AtMostOneCount<T>(s: seq<T>, p: T -> bool)
    requires AtMostOne(s, p)
    ensures Count(s, p) == if Any(s, p) then 1 else 0
  {
    if s != [] {
      var t := s[1..];
      assert AtMostOne(t, p) by {
        forall i, j | 0 <= i < j < |t| && p(t[i]) ensures !p(t[j]) {
          assert t[i] == s[i + 1] && t[j] == s[j + 1];
        }
      }
      AtMostOneCount(t, p);
      AnyCons(s, p);
      if p(s[0]) {
        forall j | 0 <= j < |t| ensures !p(t[j]) {
          assert t[j] == s[j + 1];
        }
      }
    }
  }

  /** Appending a row that matches only if nothing matched before keeps "at most one". */
  lemma AtMostOneAppend<T>(s: seq<T>, x: T, p: T -> bool)
    requires AtMostOne(s, p)
    requires p(x) ==> !Any(s, p)
    ensures AtMostOne(s + [x], p)
  {
    var t := s + [x];
    forall i, j | 0 <= i < j < |t| && p(t[i]) ensures !p(t[j]) {
      if j == |s| {
        assert t[i] == s[i];
      } else {
        assert t[i] == s[i] && t[j] == s[j];
      }
    }
  }

  /** An UPDATE whose assignment does not change whether `p` holds keeps "at most one". */
  lemma AtMostOneUpdate<T>(s: seq<T>, q: T -> bool, f: T -> T, p: T -> bool)
    requires AtMostOne(s, p)
    requires forall x :: p(f(x)) == p(x)
    ensures AtMostOne(UpdateWhere(s, q, f), p)
  {
    var r := UpdateWhere(s, q, f);
    forall i, j | 0 <= i < j < |r| && p(r[i]) ensures !p(r[j]) {
      assert p(r[i]) == p(s[i]) && p(r[j]) == p(s[j]);
    }
  }

  /** An UPDATE whose assignment does not change whether `p` holds finds the same rows. */
  lemma AnyAfterUpdate<T>(s: seq<T>, q: T -> bool, f: T -> T, p: T -> bool)
    requires forall x :: p(f(x)) == p(x)
    ensures Any(UpdateWhere(s, q, f), p) <==> Any(s, p)
  {
    var r := UpdateWhere(s, q, f);
    if Any(s, p) {
      var i :| 0 <= i < |s| && p(s[i]);
      assert p(r[i]);
    }
    if Any(r, p) {
      var i :| 0 <= i < |r| && p(r[i]);
      assert p(s[i]);
    }
  }

  lemma AnyCons<T>(s: seq<T>, p: T -> bool)
    requires s != []
    ensures Any(s, p) <==> p(s[0]) || Any(s[1..], p)
  {
    if Any(s, p) && !p(s[0]) {
      var i :| 0 <= i < |s| && p(s[i]);
      assert s[1..][i - 1] == s[i];
    }
    if Any(s[1..], p) {
      var i :| 0 <= i < |s[1..]| && p(s[1..][i]);
      assert s[i + 1] == s[1..][i];
    }
  }

  // ---------------------------------------------------------------- UPDATE

  /**
   * `UPDATE table SET f WHERE p`: every row that satisfies `p` is replaced by `f` of it,
   * every other row stays as it was, and no row is added, removed or moved.
   */
  function UpdateWhere<T>(s: seq<T>, p: T -> bool, f: T -> T): (r: seq<T>)
    ensures |r| == |s|
    ensures forall i :: 0 <= i < |s| ==> r[i] == if p(s[i]) then f(s[i]) else s[i]
  {
    if s == [] then []
    else [if p(s[0]) then f(s[0]) else s[0]] + UpdateWhere(s[1..], p, f)
  }

  /** The number of positions at which two tables of the same length hold different rows. */
  function Differences<T(==)>(a: seq<T>, b: seq<T>): nat
    requires |a| == |b|
  {
    if a == [] then 0 else (if a[0] != b[0] then 1 else 0) + Differences(a[1..], b[1..])
  }

  /** A sum over the table grows by the appended row's term. */
  lemma {:induction false} SumAppend<T>(s: seq<T>, x: T, f: T -> int)
    ensures Sum(s + [x], f) == Sum(s, f) + f(x)
  {
    if s != [] {
      assert (s + [x])[1..] == s[1..] + [x];
      SumAppend(s[1..], x, f);
    }
  }

  /**
   * An UPDATE that adds one to the summed column of every row it touches raises the sum
   * by the number of rows it touches.
   */
  lemma {:induction false} SumAfterIncrement<T>(s: seq<T>, p: T -> bool, g: T -> T, f: T -> int)
    requires forall x :: p(x) ==> f(g(x)) == f(x) + 1
    ensures Sum(UpdateWhere(s, p, g), f) == Sum(s, f) + Count(s, p)
  {
    if s != [] {
      var r := UpdateWhere(s, p, g);
      assert r[1..] == UpdateWhere(s[1..], p, g);
      SumAfterIncrement(s[1..], p, g, f);
    }
  }

  /**
   * An UPDATE whose assignment changes every row it touches changes exactly as many rows
   * as its WHERE clause selects: the number `.returning()` reports.
   */
  lemma {:induction false} UpdateWhereChanges<T>(s: seq<T>, p: T -> bool, f: T -> T)
    requires forall x :: p(x) ==> f(x) != x
    ensures Differences(s, UpdateWhere(s, p, f)) == Count(s, p)
  {
    if s != [] {
      var r := UpdateWhere(s, p, f);
      assert r[1..] == UpdateWhere(s[1..], p, f);
      UpdateWhereChanges(s[1..], p, f);
    }
  }

  /** The first row an `UPDATE ... WHERE p RETURNING` reports, when `f` keeps `p` true. */
  lemma {:induction false} FindFirstAfterUpdate<T>(s: seq<T>, p: T -> bool, f: T -> T, e: T)
    requires FindFirst(s, p) == Some(e)
    requires forall x :: p(x) ==> p(f(x))
    ensures FindFirst(UpdateWhere(s, p, f), p) == Some(f(e))
  {
    var r := UpdateWhere(s, p, f);
    if !p(s[0]) {
      assert r[0] == s[0] && r[1..] == UpdateWhere(s[1..], p, f);
      FindFirstAfterUpdate(s[1..], p, f, e);
    }
  }

  /** When at most one row matches, a lookup finds that row wherever it sits. */
  lemma {:induction false} FindFirstIsOnlyMatch<T>(s: seq<T>, p: T -> bool, i: int)
    requires AtMostOne(s, p) && 0 <= i < |s| && p(s[i])
    ensures FindFirst(s, p) == Some(s[i])
  {
    if i > 0 {
      assert !p(s[0]);
      assert AtMostOne(s[1..], p) by {
        forall a, b | 0 <= a < b < |s| - 1 && p(s[1..][a]) ensures !p(s[1..][b]) {
          assert s[1..][a] == s[a + 1] && s[1..][b] == s[b + 1];
        }
      }
      FindFirstIsOnlyMatch(s[1..], p, i - 1);
    }
  }

  /** A row appended to a table in which nothing matched is the row a lookup now finds. */
  lemma {:induction false} FindFirstAppended<T>(s: seq<T>, p: T -> bool, x: T)
    requires !Any(s, p) && p(x)
    ensures FindFirst(s + [x], p) == Some(x)
  {
    if s == [] {
      assert s + [x] == [x];
    } else {
      assert s[0] in s;
      assert (s + [x])[1..] == s[1..] + [x];
      assert !Any(s[1..], p) by {
        forall y | y in s[1..] ensures !p(y) { assert y in s; }
      }
      FindFirstAppended(s[1..], p, x);
    }
  }

  // ---------------------------------------------------------------- ORDER BY ... DESC

  /** Rows in non-increasing order of `key`. */
  predicate Descending<T>(s: seq<T>, key: T -> int) {
    forall i, j :: 0 <= i < j < |s| ==> key(s[i]) >= key(s[j])
  }

  /** Places `x` before the first row with a smaller key. */
  function InsertDesc<T>(x: T, s: seq<T>, key: T -> int): (r: seq<T>)
    requires Descending(s, key)
    ensures Descending(r, key)
    ensures multiset(r) == multiset(s) + multiset{x}
    ensures |r| == |s| + 1 && (r[0] == x || (s != [] && r[0] == s[0]))
  {
    if s == [] || key(x) >= key(s[0]) then [x] + s
    else
      var tail := InsertDesc(x, s[1..], key);
      var r := [s[0]] + tail;
      assert Descending(r, key) by {
        forall i, j | 0 <= i < j < |r| ensures key(r[i]) >= key(r[j]) {
          if i == 0 {
            assert key(s[0]) >= key(tail[0]);
            assert r[j] == tail[j - 1];
          } else {
            assert r[i] == tail[i - 1] && r[j] == tail[j - 1];
          }
        }
      }
      assert s == [s[0]] + s[1..];
      r
  }

  /**
   * `ORDER BY key DESC`: the same rows, largest key first. Rows with equal keys keep their
   * table order (SQL leaves that order open; this model fixes one).
   */
  function SortDesc<T>(s: seq<T>, key: T -> int): (r: seq<T>)
    ensures Descending(r, key)
    ensures multiset(r) == multiset(s)
    ensures |r| == |s|
  {
    if s == [] then []
    else
      assert s == [s[0]] + s[1..];
      InsertDesc(s[0], SortDesc(s[1..], key), key)
  }

  // ---------------------------------------------------------------- OFFSET / LIMIT

  /** How many rows OFFSET skips: a negative offset skips none, as in SQLite. */
  function Skipped(offset: int, n: nat): (k: nat)
    ensures k <= n
  {
    if offset <= 0 then 0 else if offset >= n then n else offset
  }

  /** How many of `n` rows `LIMIT limit OFFSET offset` keeps. */
  function PageSize(n: nat, offset: int, limit: int): nat {
    var rest := n - Skipped(offset, n);
    if 0 <= limit < rest then limit else rest
  }

  /**
   * `LIMIT limit OFFSET offset`. As in SQLite, a negative limit sets no bound and a
   * negative offset skips nothing.
   */
  function Page<T>(s: seq<T>, offset: int, limit: int): (r: seq<T>)
    ensures limit >= 0 ==> |r| <= limit
    ensures offset <= 0 && (limit < 0 || |s| <= limit) ==> r == s
    ensures Skipped(offset, |s|) + |r| <= |s|
    ensures r == s[Skipped(offset, |s|)..Skipped(offset, |s|) + |r|]
    ensures |r| == PageSize(|s|, offset, limit)
  {
    var rest := s[Skipped(offset, |s|)..];
    if 0 <= limit < |rest| then rest[..limit] else rest
  }

  lemma PageDescending<T>(s: seq<T>, key: T -> int, offset: int, limit: int)
    requires Descending(s, key)
    ensures Descending(Page(s, offset, limit), key)
  {
    var r := Page(s, offset, limit);
    var k := Skipped(offset, |s|);
    forall i, j | 0 <= i < j < |r| ensures key(r[i]) >= key(r[j]) {
      assert r[i] == s[k + i] && r[j] == s[k + j];
      assert key(s[k + i]) >= key(s[k + j]);
    }
  }

  lemma PageWithin<T>(s: seq<T>, offset: int, limit: int)
    ensures forall x :: x in Page(s, offset, limit) ==> x in s
  {
    var r := Page(s, offset, limit);
    var k := Skipped(offset, |s|);
    assert r == s[k..k + |r|];
    forall x | x in r ensures x in s {
      var i :| 0 <= i < |r| && r[i] == x;
      assert s[k + i] == x;
    }
  }

  /**
   * `select ... order by key desc limit limit offset offset` as the query builder emits it.
   * The builder leaves out a negative limit and a zero offset; an OFFSET without a LIMIT is
   * a syntax error in SQLite, so a negative limit with a non-zero offset fails (`None`).
   * Otherwise the answer is a page of the rows in non-increasing key order.
   */
  function Listing<T>(s: seq<T>, key: T -> int, offset: int, limit: int): (r: Option<seq<T>>)
    ensures r.None? <==> limit < 0 && offset != 0
    ensures r.Some? ==> |r.value| == PageSize(|s|, offset, limit) && Descending(r.value, key)
  {
    if limit < 0 && offset != 0 then None
    else
      var t := SortDesc(s, key);
      PageDescending(t, key, offset, limit);
      Some(Page(t, offset, limit))
  }

  /**
   * What the listing is: the page at `offset` of some ordering of all the rows by
   * non-increasing key (SQL leaves the order of equal keys open).
   */
  lemma ListingIsPage<T>(s: seq<T>, key: T -> int, offset: int, limit: int)
    ensures Listing(s, key, offset, limit).Some? ==>
      exists t :: multiset(t) == multiset(s) && Descending(t, key) && Listing(s, key, offset, limit).value == Page(t, offset, limit)
  {
    if Listing(s, key, offset, limit).Some? {
      var t := SortDesc(s, key);
      assert Listing(s, key, offset, limit).value == Page(t, offset, limit);
    }
  }

  /** Every listed row is a row of the table. */
  lemma ListingWithin<T>(s: seq<T>, key: T -> int, offset: int, limit: int)
    ensures Listing(s, key, offset, limit).Some? ==> forall x :: x in Listing(s, key, offset, limit).value ==> x in s
  {
    if Listing(s, key, offset, limit).Some? {
      var t := SortDesc(s, key);
      assert Listing(s, key, offset, limit).value == Page(t, offset, limit);
      PageWithin(t, offset, limit);
      SameMembers(t, s);
    }
  }

  /**
   * The first page (an offset of 0, or a negative one under a limit) holds the largest
   * keys: no row left out has a larger key than a listed one, and when the limit covers
   * the table every row is listed.
   */
  lemma ListingFirstPage<T>(s: seq<T>, key: T -> int, offset: int, limit: int)
    requires offset <= 0 && (offset == 0 || limit >= 0)
    ensures Listing(s, key, offset, limit).Some?
    ensures var r := Listing(s, key, offset, limit).value;
      forall x, y :: x in s && x !in r && y in r ==> key(y) >= key(x)
    ensures limit < 0 || |s| <= limit ==> multiset(Listing(s, key, offset, limit).value) == multiset(s)
  {
    var t := SortDesc(s, key);
    assert Page(t, offset, limit) == Top(s, key, limit);
    TopRanks(s, key, limit);
  }

  /**
   * The rows a query that sorts descending and takes the first `n` returns: as many as
   * there are, up to `n`, largest key first. `TopWithin`, `TopRanks` and `TopAll` state
   * which rows they are.
   */
  function Top<T>(s: seq<T>, key: T -> int, n: int): (r: seq<T>)
    ensures |r| == if 0 <= n < |s| then n else |s|
    ensures Descending(r, key)
  {
    PageDescending(SortDesc(s, key), key, 0, n);
    Page(SortDesc(s, key), 0, n)
  }

  /** The top rows are rows of the table. */
  lemma TopWithin<T>(s: seq<T>, key: T -> int, n: int)
    ensures forall x :: x in Top(s, key, n) ==> x in s
  {
    var t := SortDesc(s, key);
    var r := Top(s, key, n);
    assert r == t[..|r|];
    SameMembers(t, s);
    forall x | x in r ensures x in s {
      var i :| 0 <= i < |r| && r[i] == x;
      assert t[i] == x;
      assert x in multiset(t);
    }
  }

  /** No row left out ranks above a row returned: these are the `n` largest. */
  lemma TopRanks<T>(s: seq<T>, key: T -> int, n: int)
    ensures forall x, y :: x in s && x !in Top(s, key, n) && y in Top(s, key, n) ==> key(y) >= key(x)
  {
    var t := SortDesc(s, key);
    var r := Top(s, key, n);
    assert r == t[..|r|];
    SameMembers(t, s);
    forall x, y | x in s && x !in r && y in r ensures key(y) >= key(x) {
      var k :| 0 <= k < |t| && t[k] == x;
      var i :| 0 <= i < |r| && r[i] == y;
      assert t[i] == y;
      assert k >= |r| by {
        forall m | 0 <= m < |r| ensures r[m] != x { assert r[m] == t[m]; }
      }
    }
  }

  /** The ranking of `TopRanks` for a query that filters before it sorts. */
  lemma TopOfFilterRanks<T>(s: seq<T>, p: T -> bool, key: T -> int, n: int)
    ensures var r := Top(Filter(s, p), key, n);
      forall x, y :: x in s && p(x) && x !in r && y in r ==> key(y) >= key(x)
  {
    TopRanks(Filter(s, p), key, n);
  }

  /** A matching row whose key is strictly larger than every other match is in any non-empty top. */
  lemma TopHoldsStrictMax<T>(s: seq<T>, p: T -> bool, key: T -> int, n: int, x: T)
    requires n != 0 && x in s && p(x)
    requires forall y :: y in s && p(y) && y != x ==> key(y) < key(x)
    ensures x in Top(Filter(s, p), key, n)
  {
    var f := Filter(s, p);
    var r := Top(f, key, n);
    assert x in f;
    var u := r[0];
    TopWithin(f, key, n);
    TopRanks(f, key, n);
    assert u in s && p(u);
  }

  /** When the table has at most `n` rows, all of them are returned. */
  lemma TopAll<T>(s: seq<T>, key: T -> int, n: int)
    requires n < 0 || |s| <= n
    ensures multiset(Top(s, key, n)) == multiset(s)
  {
  }

  /** Sequences with the same multiset of rows have the same members. */
  lemma SameMembers<T>(a: seq<T>, b: seq<T>)
    requires multiset(a) == multiset(b)
    ensures forall x :: x in a <==> x in b
  {
    forall x ensures x in a <==> x in b {
      assert x in a <==> x in multiset(a);
      assert x in b <==> x in multiset(b);
    }
  }
}
