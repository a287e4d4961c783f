/**
 * The SQL query shapes the server uses: `ORDER BY <key> DESC` and
 * `LIMIT ? OFFSET ?`, and the page arithmetic around them (offset from a
 * page number, `Math.ceil(total / limit)` page counts).
 *
 * SQLite does not define the order of rows with equal keys; `SortDesc` is one
 * fixed insertion sort, and its own contract claims only that the result is a
 * descending permutation of its input. The LIMIT/OFFSET windows and the page
 * lemmas are stated over that one result, so they do fix an order among
 * equal keys: every request is taken to break ties the same way.
 */
module Query {

  predicate SortedDesc<T>(s: seq<T>, key: T -> int) {
    forall i, j :: 0 <= i < j < |s| ==> key(s[i]) >= key(s[j])
  }

  /** Inserts x into a descending sequence after every element whose key is at least x's. */
  function InsertDesc<T(==)>(x: T, s: seq<T>, key: T -> int): (r: seq<T>)
    requires SortedDesc(s, key)
    ensures SortedDesc(r, key)
    ensures multiset(r) == multiset(s) + multiset{x}
    ensures forall i :: 0 <= i < |r| ==> r[i] == x || r[i] in s
    decreases |s|
  {
    if |s| == 0 then [x]
    else if key(s[0]) >= key(x) then
      SortedTail(s, key);
      var rest := InsertDesc(x, s[1..], key);
      InsertAfterHead(x, s, rest, key);
      [s[0]] + rest
    else
      SortedCons(x, s, key);
      [x] + s
  }

  lemma SortedTail<T>(s: seq<T>, key: T -> int)
    requires |s| > 0 && SortedDesc(s, key)
    ensures SortedDesc(s[1..], key)
  {
    forall i, j | 0 <= i < j < |s[1..]|
      ensures key(s[1..][i]) >= key(s[1..][j])
    {
      assert s[1..][i] == s[i + 1] && s[1..][j] == s[j + 1];
    }
  }

  /** Putting an element that bounds a descending sequence in front keeps it descending. */
  lemma SortedCons<T>(h: T, t: seq<T>, key: T -> int)
    requires SortedDesc(t, key)
    requires forall i :: 0 <= i < |t| ==> key(h) >= key(t[i])
    ensures SortedDesc([h] + t, key)
  {
    var r := [h] + t;
    forall i, j | 0 <= i < j < |r|
      ensures key(r[i]) >= key(r[j])
    {
      assert r[j] == t[j - 1];
      if i > 0 {
        assert r[i] == t[i - 1];
      }
    }
  }

  /** Keeping the head in front of the insertion into the tail gives the insertion into the whole. */
  lemma InsertAfterHead<T>(x: T, s: seq<T>, rest: seq<T>, key: T -> int)
    requires |s| > 0 && SortedDesc(s, key) && key(s[0]) >= key(x)
    requires SortedDesc(rest, key) && multiset(rest) == multiset(s[1..]) + multiset{x}
    requires forall i :: 0 <= i < |rest| ==> rest[i] == x || rest[i] in s[1..]
    ensures SortedDesc([s[0]] + rest, key)
    ensures multiset([s[0]] + rest) == multiset(s) + multiset{x}
    ensures forall i :: 0 <= i < |[s[0]] + rest| ==> ([s[0]] + rest)[i] == x || ([s[0]] + rest)[i] in s
  {
    assert s == [s[0]] + s[1..];
    HeadBoundsInsertion(x, s, rest, key);
    SortedCons(s[0], rest, key);
  }

  /** The head of a descending s bounds every element inserted after it. */
  lemma HeadBoundsInsertion<T>(x: T, s: seq<T>, rest: seq<T>, key: T -> int)
    requires |s| > 0 && SortedDesc(s, key) && key(s[0]) >= key(x)
    requires forall i :: 0 <= i < |rest| ==> rest[i] == x || rest[i] in s[1..]
    ensures forall i :: 0 <= i < |rest| ==> key(s[0]) >= key(rest[i])
  {
    forall i | 0 <= i < |rest|
      ensures key(s[0]) >= key(rest[i])
    {
      if rest[i] != x {
        var j :| 0 <= j < |s[1..]| && s[1..][j] == rest[i];
        assert s[1..][j] == s[j + 1];
      }
    }
  }

  /** The rows in descending key order: `ORDER BY key DESC`. */
  function SortDesc<T(==)>(s: seq<T>, key: T -> int): (r: seq<T>)
    ensures SortedDesc(r, key)
    ensures multiset(r) == multiset(s)
    ensures |r| == |s|
    decreases |s|
  {
    if |s| == 0 then []
    else
      assert s == [s[0]] + s[1..];
      InsertDesc(s[0], SortDesc(s[1..], key), key)
  }

  /**
   * A prefix of a descending permutation of `source` is descending, drawn
   * from `source`, and no element of `source` left out of it has a greater key
   * than one in it.
   */
  lemma TopPrefix<T>(all: seq<T>, rows: seq<T>, source: seq<T>, key: T -> int)
    requires SortedDesc(all, key) && multiset(all) == multiset(source)
    requires |rows| <= |all| && rows == all[..|rows|]
    ensures SortedDesc(rows, key)
    ensures multiset(rows) <= multiset(source)
    ensures forall x :: x in source && x !in rows ==>
              forall k :: 0 <= k < |rows| ==> key(rows[k]) >= key(x)
  {
    assert all == rows + all[|rows|..];
    assert multiset(all) == multiset(rows) + multiset(all[|rows|..]);
    forall x | x in source && x !in rows
      ensures forall k :: 0 <= k < |rows| ==> key(rows[k]) >= key(x)
    {
      assert x in multiset(all);
      LeftOutNotLater(all, |rows|, x, key);
    }
  }

  /** An element of a descending sequence that is not among its first n has no greater key than those. */
  lemma LeftOutNotLater<T>(all: seq<T>, n: nat, x: T, key: T -> int)
    requires SortedDesc(all, key) && n <= |all| && x in all && x !in all[..n]
    ensures forall k :: 0 <= k < n ==> key(all[k]) >= key(x)
  {
    var j :| 0 <= j < |all| && all[j] == x;
    assert j >= n;
  }

  /** The rows satisfying `keep`, in their original order: a SQL `WHERE` or an array `filter`. */
  function Where<T>(rows: seq<T>, keep: T -> bool): (r: seq<T>)
    ensures |r| <= |rows|
    ensures forall i :: 0 <= i < |r| ==> keep(r[i]) && r[i] in rows
    ensures forall i :: 0 <= i < |rows| && keep(rows[i]) ==> rows[i] in r
    decreases |rows|
  {
    if |rows| == 0 then []
    else
      var rest := Where(rows[1..], keep);
      assert forall i :: 1 <= i < |rows| ==> rows[i] == rows[1..][i - 1];
      if keep(rows[0]) then [rows[0]] + rest else rest
  }

  /** Two conditions that agree on every row of the input select the same rows. */
  lemma {:induction false} WhereAgree<T>(rows: seq<T>, f: T -> bool, g: T -> bool)
    requires forall i :: 0 <= i < |rows| ==> f(rows[i]) == g(rows[i])
    ensures Where(rows, f) == Where(rows, g)
    decreases |rows|
  {
    if |rows| > 0 {
      assert forall i :: 1 <= i < |rows| ==> rows[i] == rows[1..][i - 1];
      WhereAgree(rows[1..], f, g);
    }
  }

  /** `before` holds between every element and each one after it. */
  predicate Chained<T>(s: seq<T>, before: (T, T) -> bool) {
    forall i, j :: 0 <= i < j < |s| ==> before(s[i], s[j])
  }

  /** A relation that holds along the input holds along the result. */
  lemma {:induction false} WhereKeepsOrder<T>(rows: seq<T>, keep: T -> bool, before: (T, T) -> bool)
    requires Chained(rows, before)
    ensures Chained(Where(rows, keep), before)
    decreases |rows|
  {
    if |rows| > 0 {
      var rest := Where(rows[1..], keep);
      assert Chained(rows[1..], before) by {
        forall i, j | 0 <= i < j < |rows[1..]|
          ensures before(rows[1..][i], rows[1..][j])
        {
          assert rows[1..][i] == rows[i + 1] && rows[1..][j] == rows[j + 1];
        }
      }
      WhereKeepsOrder(rows[1..], keep, before);
      forall k | 0 <= k < |rest|
        ensures before(rows[0], rest[k])
      {
        var j :| 0 <= j < |rows[1..]| && rows[1..][j] == rest[k];
        assert rows[1..][j] == rows[j + 1];
      }
      if keep(rows[0]) {
        var r := [rows[0]] + rest;
        assert Where(rows, keep) == r;
        forall i, j | 0 <= i < j < |r|
          ensures before(r[i], r[j])
        {
          if i == 0 {
            assert r[j] == rest[j - 1];
            assert before(rows[0], rest[j - 1]);
          } else {
            assert r[i] == rest[i - 1] && r[j] == rest[j - 1];
          }
        }
      }
    }
  }

  /** Clamps a SQL `OFFSET` into the row range: a negative offset counts as zero. */
  function OffsetStart(count: nat, offset: int): (k: nat)
    ensures k <= count
    ensures 0 <= offset <= count ==> k == offset
  {
    if offset < 0 then 0 else if offset > count then count else offset
  }

  /**
   * `LIMIT limit OFFSET offset` over already ordered rows. In SQLite a
   * negative limit means "no upper bound" and a negative offset skips nothing.
   */
  function Window<T>(rows: seq<T>, limit: int, offset: int): (w: seq<T>)
    ensures limit >= 0 ==> |w| <= limit
    ensures var k := OffsetStart(|rows|, offset);
            |w| <= |rows| - k &&
            forall i :: 0 <= i < |w| ==> w[i] == rows[k + i]
    ensures var k := OffsetStart(|rows|, offset);
            |w| == (if limit < 0 || k + limit > |rows| then |rows| - k else limit)
  {
    var rest := rows[OffsetStart(|rows|, offset)..];
    if limit < 0 || limit >= |rest| then rest else rest[..limit]
  }

  /** `(page - 1) * limit`. */
  function PageOffset(page: int, limit: int): int {
    (page - 1) * limit
  }

  /** The window is one contiguous slice of the rows, starting at the clamped offset. */
  lemma WindowIsSlice<T>(rows: seq<T>, limit: int, offset: int)
    ensures var k := OffsetStart(|rows|, offset);
            var w := Window(rows, limit, offset);
            k + |w| <= |rows| && w == rows[k..k + |w|]
  {
  }

  /** With offset 0 and a non-negative limit, the window is the first min(limit, |rows|) rows. */
  lemma FirstWindow<T>(rows: seq<T>, limit: int)
    requires limit >= 0
    ensures var w := Window(rows, limit, 0);
            |w| == (if limit < |rows| then limit else |rows|) && w == rows[..|w|]
  {
  }

  /** A window of a descending sequence is descending and drawn from it. */
  lemma WindowSorted<T>(rows: seq<T>, limit: int, offset: int, key: T -> int)
    requires SortedDesc(rows, key)
    ensures SortedDesc(Window(rows, limit, offset), key)
    ensures multiset(Window(rows, limit, offset)) <= multiset(rows)
  {
    WindowIsSlice(rows, limit, offset);
    SliceSorted(rows, OffsetStart(|rows|, offset), Window(rows, limit, offset), key);
  }

  /** A contiguous run of a descending sequence is descending and a sub-multiset of it. */
  lemma SliceSorted<T>(s: seq<T>, a: nat, w: seq<T>, key: T -> int)
    requires a + |w| <= |s| && w == s[a..a + |w|] && SortedDesc(s, key)
    ensures SortedDesc(w, key)
    ensures multiset(w) <= multiset(s)
  {
    forall i, j | 0 <= i < j < |w|
      ensures key(w[i]) >= key(w[j])
    {
      assert w[i] == s[a + i] && w[j] == s[a + j];
    }
    assert s == s[..a] + w + s[a + |w|..];
  }

  /** `Math.ceil(total / limit)` for a non-zero integer limit. */
  function TotalPages(total: nat, limit: int): int
    requires limit != 0
  {
    if limit > 0 then (total + limit - 1) / limit else -(total / -limit)
  }

  /** For a positive limit the page count is the least n with n * limit >= total. */
  lemma TotalPagesIsCeiling(total: nat, limit: int)
    requires limit > 0
    ensures TotalPages(total, limit) >= 0
    ensures TotalPages(total, limit) * limit >= total
    ensures total > 0 ==> (TotalPages(total, limit) - 1) * limit < total
    ensures total == 0 <==> TotalPages(total, limit) == 0
  {
    var q := (total + limit - 1) / limit;
    var r := (total + limit - 1) % limit;
    assert total + limit - 1 == q * limit + r && 0 <= r < limit;
    assert q * limit >= total;
    assert (q - 1) * limit == q * limit - limit;
  }

  /**
   * For a negative limit `total / limit` is at most 0, and its ceiling is the
   * least n with n * limit <= total.
   */
  lemma TotalPagesNegativeLimit(total: nat, limit: int)
    requires limit < 0
    ensures TotalPages(total, limit) <= 0
    ensures TotalPages(total, limit) * limit <= total < (TotalPages(total, limit) - 1) * limit
  {
    var m := -limit;
    var q := total / m;
    assert total == q * m + total % m && 0 <= total % m < m;
    assert TotalPages(total, limit) * limit == q * m;
    assert (TotalPages(total, limit) - 1) * limit == q * m + m;
  }

  lemma ScaleMonotone(a: int, b: int, c: int)
    requires a <= b && c > 0
    ensures a * c <= b * c
  {
    assert b * c - a * c == (b - a) * c;
  }

  /** Pages 1..n laid end to end. */
  function Pages<T>(rows: seq<T>, limit: int, n: nat): seq<T> {
    Concat((p: int) => Window(rows, limit, PageOffset(p, limit)), n)
  }


  /** The sequences page(1), ..., page(n) laid end to end. */
  function Concat<T>(page: int -> seq<T>, n: nat): seq<T>
    decreases n
  {
    if n == 0 then [] else Concat(page, n - 1) + page(n)
  }

  /** Two page functions that agree on pages 1..n give the same n pages. */
  lemma {:induction false} ConcatAgree<T>(f: int -> seq<T>, g: int -> seq<T>, n: nat)
    requires forall p :: 1 <= p <= n ==> f(p) == g(p)
    ensures Concat(f, n) == Concat(g, n)
    decreases n
  {
    if n > 0 {
      ConcatAgree(f, g, n - 1);
    }
  }

  function MinNat(a: nat, b: nat): nat {
    if a <= b then a else b
  }

  /** For a positive limit page p (p >= 1) is exactly the index range [(p-1)*limit, p*limit). */
  lemma PageIsSlice<T>(rows: seq<T>, limit: int, p: int)
    requires limit > 0 && p >= 1
    ensures var lo := MinNat((p - 1) * limit, |rows|);
            var hi := MinNat(p * limit, |rows|);
            Window(rows, limit, PageOffset(p, limit)) == rows[lo..hi]
  {
    assert p * limit == (p - 1) * limit + limit;
    assert (p - 1) * limit >= 0;
  }

  /** The first n pages together are exactly the first n * limit rows. */
  lemma {:induction false} PagesArePrefix<T>(rows: seq<T>, limit: int, n: nat)
    requires limit > 0
    ensures n * limit >= 0
    ensures Pages(rows, limit, n) == rows[..MinNat(n * limit, |rows|)]
    decreases n
  {
    if n > 0 {
      PagesArePrefix(rows, limit, n - 1);
      PagesPrefixStep(rows, limit, n);
    }
  }

  /** Appending page n to the first n - 1 pages extends the prefix by that page's rows. */
  lemma PagesPrefixStep<T>(rows: seq<T>, limit: int, n: nat)
    requires limit > 0 && n > 0
    requires Pages(rows, limit, n - 1) == rows[..MinNat((n - 1) * limit, |rows|)]
    ensures n * limit >= 0
    ensures Pages(rows, limit, n) == rows[..MinNat(n * limit, |rows|)]
  {
    ScaleMonotone(n - 1, n, limit);
    var a := MinNat((n - 1) * limit, |rows|);
    var b := MinNat(n * limit, |rows|);
    PageIsSlice(rows, limit, n);
    PrefixThenSlice(rows, a, b);
  }

  lemma PrefixThenSlice<T>(s: seq<T>, a: nat, b: nat)
    requires a <= b <= |s|
    ensures s[..a] + s[a..b] == s[..b]
  {
  }

  /** Pages 1..TotalPages cover every row, each once and in order. */
  lemma PagesCover<T>(rows: seq<T>, limit: int)
    requires limit > 0
    ensures Pages(rows, limit, TotalPages(|rows|, limit)) == rows
  {
    TotalPagesIsCeiling(|rows|, limit);
    PagesArePrefix(rows, limit, TotalPages(|rows|, limit));
  }

  /** Pages after the last one are empty. */
  lemma PagesBeyondEndEmpty<T>(rows: seq<T>, limit: int, p: int)
    requires limit > 0 && p > TotalPages(|rows|, limit)
    ensures Window(rows, limit, PageOffset(p, limit)) == []
  {
    TotalPagesIsCeiling(|rows|, limit);
    var t := TotalPages(|rows|, limit);
    ScaleMonotone(t, p - 1, limit);
  }

  ghost predicate Distinct<T>(s: seq<T>) {
    forall i, j :: 0 <= i < j < |s| ==> s[i] != s[j]
  }

  /** Two different pages of rows without repeats share no row. */
  lemma PagesDisjoint<T>(rows: seq<T>, limit: int, p: int, q: int)
    requires limit > 0 && 1 <= p < q
    requires Distinct(rows)
    ensures forall x :: x in Window(rows, limit, PageOffset(p, limit)) ==>
                          x !in Window(rows, limit, PageOffset(q, limit))
  {
    PageIsSlice(rows, limit, p);
    PageIsSlice(rows, limit, q);
    ScaleMonotone(p, q - 1, limit);
    var wp := Window(rows, limit, PageOffset(p, limit));
    var wq := Window(rows, limit, PageOffset(q, limit));
    var hp := MinNat(p * limit, |rows|);
    var lq := MinNat((q - 1) * limit, |rows|);
    assert hp <= lq;
    forall x | x in wp
      ensures x !in wq
    {
      var i :| 0 <= i < |wp| && wp[i] == x;
      assert x == rows[MinNat((p - 1) * limit, |rows|) + i];
      forall j | 0 <= j < |wq|
        ensures wq[j] != x
      {
        assert wq[j] == rows[lq + j];
      }
    }
  }
}
