/**
 * Cursor pagination as both repositories run it: rows with a key greater than
 * the cursor (all rows without one), ORDER BY key ASC, LIMIT limit + 1; the
 * first `limit` rows are the page and, when more than `limit` rows came back,
 * the key of the last row of the page is the next cursor.
 */
module Paging {
  import opened Wrappers

  /** Keys in a table are distinct (a primary key). */
  predicate UniqueKeys<T>(rows: seq<T>, key: T -> int) {
    forall i, j :: 0 <= i < j < |rows| ==> key(rows[i]) != key(rows[j])
  }

  /** The key is past the cursor. */
  predicate After(cursor: Option<int>, k: int) {
    cursor.None? || cursor.value < k
  }

  /** The rows past the cursor, in table order. */
  function Above<T(!new)>(rows: seq<T>, key: T -> int, cursor: Option<int>): (r: seq<T>)
    ensures forall x :: x in r <==> x in rows && After(cursor, key(x))
    ensures |r| <= |rows|
  {
    if rows == [] then []
    else
      var rest := Above(rows[1..], key, cursor);
      if After(cursor, key(rows[0])) then [rows[0]] + rest else rest
  }

  /** The row past the cursor with the smallest key, if any (see LeastSpec). */
  function Least<T(!new)>(rows: seq<T>, key: T -> int, cursor: Option<int>): Option<T> {
    if rows == [] then None
    else
      var rest := Least(rows[1..], key, cursor);
      if !After(cursor, key(rows[0])) then rest
      else if rest.Some? && key(rest.value) < key(rows[0]) then rest
      else Some(rows[0])
  }

  /** Least finds a row past the cursor whose key is the smallest of those, and finds none only when there is none. */
  lemma {:induction false} LeastSpec<T(!new)>(rows: seq<T>, key: T -> int, cursor: Option<int>)
    ensures var r := Least(rows, key, cursor);
      && (r.Some? ==> r.value in rows && After(cursor, key(r.value)))
      && (r.Some? ==> forall x :: x in rows && After(cursor, key(x)) ==> key(r.value) <= key(x))
      && (r.None? ==> forall x :: x in rows ==> !After(cursor, key(x)))
  {
    if rows != [] {
      LeastSpec(rows[1..], key, cursor);
      assert forall x :: x in rows ==> x == rows[0] || x in rows[1..];
    }
  }

  /** `ORDER BY key ASC LIMIT n` over the rows past the cursor. */
  function Ascending<T(!new)>(rows: seq<T>, key: T -> int, cursor: Option<int>, n: nat): seq<T>
    decreases n
  {
    if n == 0 then []
    else
      match Least(rows, key, cursor)
      case None => []
      case Some(x) => [x] + Ascending(rows, key, Some(key(x)), n - 1)
  }

  /** One page and the cursor of the next one. */
  datatype Page<T> = Page(data: seq<T>, nextCursor: Option<int>)

  /** The repositories' `list`: fetch limit + 1 rows, keep `limit`, and a cursor when more remain. */
  function List<T(!new)>(rows: seq<T>, key: T -> int, cursor: Option<int>, limit: nat): (p: Page<T>)
    requires 1 <= limit
    ensures p.data == Ascending(rows, key, cursor, limit)
    ensures p.nextCursor.Some? ==> |p.data| == limit && p.nextCursor.value == key(p.data[limit - 1])
  {
    var fetched := Ascending(rows, key, cursor, limit + 1);
    AscendingPrefix(rows, key, cursor, limit);
    Page(fetched[..if |fetched| < limit then |fetched| else limit],
         if |fetched| > limit then Some(key(fetched[limit - 1])) else None)
  }

  /** Asking for one row more only adds at the end. */
  lemma {:induction false} AscendingPrefix<T(!new)>(rows: seq<T>, key: T -> int, cursor: Option<int>, n: nat)
    ensures var longer := Ascending(rows, key, cursor, n + 1);
      Ascending(rows, key, cursor, n) == longer[..if |longer| < n then |longer| else n]
    decreases n
  {
    if n > 0 {
      match Least(rows, key, cursor)
      case None =>
      case Some(x) => AscendingPrefix(rows, key, Some(key(x)), n - 1);
    }
  }

  /** A page holds at most n rows, each a row past the cursor, in strictly ascending key order. */
  lemma {:induction false} AscendingSorted<T(!new)>(rows: seq<T>, key: T -> int, cursor: Option<int>, n: nat)
    ensures |Ascending(rows, key, cursor, n)| <= n
    ensures forall i :: 0 <= i < |Ascending(rows, key, cursor, n)| ==>
      Ascending(rows, key, cursor, n)[i] in rows && After(cursor, key(Ascending(rows, key, cursor, n)[i]))
    ensures forall i, j :: 0 <= i < j < |Ascending(rows, key, cursor, n)| ==>
      key(Ascending(rows, key, cursor, n)[i]) < key(Ascending(rows, key, cursor, n)[j])
    decreases n
  {
    if n > 0 {
      match Least(rows, key, cursor)
      case None =>
      case Some(x) =>
        LeastSpec(rows, key, cursor);
        AscendingSorted(rows, key, Some(key(x)), n - 1);
    }
  }

  /**
   * No row is skipped: every row past the cursor is on the page when the page
   * is short, or when its key is at most the last key shown.
   */
  lemma {:induction false} AscendingComplete<T(!new)>(rows: seq<T>, key: T -> int, cursor: Option<int>, n: nat, y: T)
    requires UniqueKeys(rows, key)
    requires y in rows && After(cursor, key(y))
    requires var r := Ascending(rows, key, cursor, n);
      |r| < n || (|r| > 0 && key(y) <= key(r[|r| - 1]))
    ensures y in Ascending(rows, key, cursor, n)
    decreases n
  {
    LeastSpec(rows, key, cursor);
    var x := Least(rows, key, cursor).value;
    var tail := Ascending(rows, key, Some(key(x)), n - 1);
    assert Ascending(rows, key, cursor, n) == [x] + tail;
    if key(y) == key(x) {
      UniqueKeysSameRow(rows, key, x, y);
    } else {
      AscendingSorted(rows, key, Some(key(x)), n - 1);
      if tail != [] {
        assert tail[|tail| - 1] == ([x] + tail)[|tail|];
      }
      AscendingComplete(rows, key, Some(key(x)), n - 1, y);
    }
  }

  /** Two rows of a table with the same key are the same row. */
  lemma UniqueKeysSameRow<T(!new)>(rows: seq<T>, key: T -> int, x: T, y: T)
    requires UniqueKeys(rows, key) && x in rows && y in rows && key(x) == key(y)
    ensures x == y
  {
    var i :| 0 <= i < |rows| && rows[i] == x;
    var j :| 0 <= j < |rows| && rows[j] == y;
    assert !(i < j) && !(j < i);
  }

  /** Without a cursor every row is past it. */
  lemma {:induction false} AboveNoCursor<T(!new)>(rows: seq<T>, key: T -> int)
    ensures Above(rows, key, None) == rows
  {
    if rows != [] {
      AboveNoCursor(rows[1..], key);
    }
  }

  /** Moving the cursor past the least remaining row removes exactly that row. */
  lemma {:induction false} AboveAfterLeast<T(!new)>(rows: seq<T>, key: T -> int, cursor: Option<int>, x: T)
    requires UniqueKeys(rows, key)
    requires Least(rows, key, cursor) == Some(x)
    ensures |Above(rows, key, Some(key(x)))| == |Above(rows, key, cursor)| - 1
  {
    LeastSpec(rows, key, cursor);
    var i :| 0 <= i < |rows| && rows[i] == x;
    AboveSplit(rows, key, cursor, x, i);
  }

  lemma {:induction false} AboveSplit<T(!new)>(rows: seq<T>, key: T -> int, cursor: Option<int>, x: T, i: nat)
    requires UniqueKeys(rows, key)
    requires i < |rows| && rows[i] == x && After(cursor, key(x))
    requires forall y :: y in rows && After(cursor, key(y)) ==> key(x) <= key(y)
    ensures |Above(rows, key, Some(key(x)))| == |Above(rows, key, cursor)| - 1
    decreases i
  {
    assert rows[1..] + [] == rows[1..];
    if i == 0 {
      NoneAbove(rows[1..], key, cursor, key(x));
    } else {
      assert UniqueKeys(rows[1..], key);
      AboveSplit(rows[1..], key, cursor, x, i - 1);
      assert key(rows[0]) != key(x);
    }
  }

  /** With every key past the cursor at least k and none equal to k, "past k" and "past the cursor" agree. */
  lemma {:induction false} NoneAbove<T(!new)>(rows: seq<T>, key: T -> int, cursor: Option<int>, k: int)
    requires After(cursor, k)
    requires forall y :: y in rows && After(cursor, key(y)) ==> k < key(y)
    ensures Above(rows, key, Some(k)) == Above(rows, key, cursor)
  {
    if rows != [] {
      NoneAbove(rows[1..], key, cursor, k);
    }
  }

  lemma {:induction false} AboveNone<T(!new)>(rows: seq<T>, key: T -> int, cursor: Option<int>)
    requires forall x :: x in rows ==> !After(cursor, key(x))
    ensures Above(rows, key, cursor) == []
  {
    if rows != [] {
      AboveNone(rows[1..], key, cursor);
    }
  }

  /** A page is as long as it can be: min(n, number of rows past the cursor). */
  lemma {:induction false} AscendingLength<T(!new)>(rows: seq<T>, key: T -> int, cursor: Option<int>, n: nat)
    requires UniqueKeys(rows, key)
    ensures |Ascending(rows, key, cursor, n)| == if n < |Above(rows, key, cursor)| then n else |Above(rows, key, cursor)|
    decreases n
  {
    if n > 0 {
      match Least(rows, key, cursor)
      case None =>
        LeastSpec(rows, key, cursor);
        AboveNone(rows, key, cursor);
      case Some(x) =>
        AscendingLength(rows, key, Some(key(x)), n - 1);
        AboveAfterLeast(rows, key, cursor, x);
    }
  }

  /** A page is strictly ascending by key, and its next cursor is the key of its last row. */
  lemma ListOrdered<T(!new)>(rows: seq<T>, key: T -> int, cursor: Option<int>, limit: nat)
    requires 1 <= limit
    ensures var p := List(rows, key, cursor, limit);
      && (forall i, j :: 0 <= i < j < |p.data| ==> key(p.data[i]) < key(p.data[j]))
      && (p.nextCursor.Some? ==> |p.data| > 0 && p.nextCursor.value == key(p.data[|p.data| - 1]))
  {
    AscendingSorted(rows, key, cursor, limit);
  }

  /** The next cursor is present exactly when more than `limit` rows are past the cursor. */
  lemma {:induction false} NextCursorIffMore<T(!new)>(rows: seq<T>, key: T -> int, cursor: Option<int>, limit: nat)
    requires UniqueKeys(rows, key) && 1 <= limit
    ensures List(rows, key, cursor, limit).nextCursor.Some? <==> |Above(rows, key, cursor)| > limit
  {
    AscendingLength(rows, key, cursor, limit + 1);
  }

  /**
   * Following the next cursor continues exactly where the page stopped: the
   * first page followed by m rows after its cursor are the first limit + m rows.
   */
  lemma {:induction false} PagesChain<T(!new)>(rows: seq<T>, key: T -> int, cursor: Option<int>, limit: nat, m: nat)
    requires 1 <= limit
    requires List(rows, key, cursor, limit).nextCursor.Some?
    ensures var p := List(rows, key, cursor, limit);
      p.data + Ascending(rows, key, p.nextCursor, m) == Ascending(rows, key, cursor, limit + m)
    decreases limit
  {
    var p := List(rows, key, cursor, limit);
    var x := Least(rows, key, cursor).value;
    if limit == 1 {
      assert p.data == [x];
    } else {
      var rest := Ascending(rows, key, Some(key(x)), limit - 1);
      assert p.data == [x] + rest;
      var longer := Ascending(rows, key, cursor, limit + 1);
      assert longer == [x] + Ascending(rows, key, Some(key(x)), limit);
      var q := List(rows, key, Some(key(x)), limit - 1);
      assert q.nextCursor.Some?;
      assert q.data == rest && q.nextCursor == p.nextCursor;
      PagesChain(rows, key, Some(key(x)), limit - 1, m);
      assert Ascending(rows, key, cursor, limit + m) == [x] + Ascending(rows, key, Some(key(x)), limit - 1 + m);
    }
  }
}
