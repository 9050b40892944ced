/**
 * The payments table of ExposedPaymentRepository: the rows in insertion
 * order, the primary key on id, the unique index on the idempotency key, and
 * the queries the service and the validators run against it.
 */
module PaymentRepository {
  import opened Wrappers
  import opened Domain
  import Paging

  function PaymentId(p: Payment): int {
    p.id
  }

  /** The table's constraints: primary key on id and a unique idempotency key. */
  predicate Constrained(rows: seq<Payment>) {
    && Paging.UniqueKeys(rows, PaymentId)
    && forall i, j :: 0 <= i < j < |rows| ==> rows[i].idempotencyKey != rows[j].idempotencyKey
  }

  /** An insert of p violates neither constraint. */
  predicate Insertable(rows: seq<Payment>, p: Payment) {
    forall q :: q in rows ==> q.id != p.id && q.idempotencyKey != p.idempotencyKey
  }

  lemma {:induction false} InsertKeepsConstraints(rows: seq<Payment>, p: Payment)
    requires Constrained(rows) && Insertable(rows, p)
    ensures Constrained(rows + [p])
  {
    var r := rows + [p];
    forall i, j | 0 <= i < j < |r| ensures r[i].id != r[j].id && r[i].idempotencyKey != r[j].idempotencyKey {
      if j == |rows| {
        assert r[i] in rows;
      }
    }
  }

  /** The rows carrying idempotency key k. */
  function WithKey(rows: seq<Payment>, k: string): (r: seq<Payment>)
    ensures forall q :: q in r <==> q in rows && q.idempotencyKey == k
  {
    if rows == [] then []
    else
      var rest := WithKey(rows[..|rows| - 1], k);
      var last := rows[|rows| - 1];
      assert rows == rows[..|rows| - 1] + [last];
      if last.idempotencyKey == k then rest + [last] else rest
  }

  /** `findByIdempotencyKey`: `singleOrNull` over the rows with that key. */
  function FindByIdempotencyKey(rows: seq<Payment>, k: string): (r: Option<Payment>)
    ensures r.Some? ==> r.value in rows && r.value.idempotencyKey == k
    ensures Constrained(rows) ==> (r.None? <==> forall q :: q in rows ==> q.idempotencyKey != k)
  {
    var m := WithKey(rows, k);
    assert Constrained(rows) ==> |m| <= 1 by {
      if Constrained(rows) {
        WithKeyAtMostOne(rows, k);
      }
    }
    if |m| == 1 then Some(m[0]) else None
  }

  /** Under the unique index at most one row carries a key. */
  lemma {:induction false} WithKeyAtMostOne(rows: seq<Payment>, k: string)
    requires Constrained(rows)
    ensures |WithKey(rows, k)| <= 1
  {
    if rows != [] {
      var init := rows[..|rows| - 1];
      var last := rows[|rows| - 1];
      assert Constrained(init) by {
        forall i, j | 0 <= i < j < |init| ensures init[i].id != init[j].id {
          assert init[i] == rows[i] && init[j] == rows[j];
        }
      }
      WithKeyAtMostOne(init, k);
      if last.idempotencyKey == k {
        forall q | q in init ensures q.idempotencyKey != k {
          var i :| 0 <= i < |init| && init[i] == q;
          assert rows[i].idempotencyKey != rows[|rows| - 1].idempotencyKey;
        }
        WithKeyNone(init, k);
      }
    }
  }

  lemma {:induction false} WithKeyNone(rows: seq<Payment>, k: string)
    requires forall q :: q in rows ==> q.idempotencyKey != k
    ensures WithKey(rows, k) == []
  {
    if rows != [] {
      WithKeyNone(rows[..|rows| - 1], k);
    }
  }

  /** After appending an insertable payment, its key finds it. */
  lemma {:induction false} FindInserted(rows: seq<Payment>, p: Payment)
    requires Constrained(rows) && Insertable(rows, p)
    ensures FindByIdempotencyKey(rows + [p], p.idempotencyKey) == Some(p)
  {
    var r := rows + [p];
    assert r[..|r| - 1] == rows;
    WithKeyNone(rows, p.idempotencyKey);
    InsertKeepsConstraints(rows, p);
  }

  /** Appending a payment with another key leaves every other lookup as it was. */
  lemma {:induction false} FindOther(rows: seq<Payment>, p: Payment, k: string)
    requires p.idempotencyKey != k
    ensures FindByIdempotencyKey(rows + [p], k) == FindByIdempotencyKey(rows, k)
  {
    var r := rows + [p];
    assert r[..|r| - 1] == rows;
    assert Constrained(r) ==> Constrained(rows) by {
      if Constrained(r) {
        forall i, j | 0 <= i < j < |rows| ensures rows[i].id != rows[j].id {
          assert r[i] == rows[i] && r[j] == rows[j];
        }
      }
    }
  }

  /** The row is this wallet's and lies in the half-open window [start, end). */
  predicate InPeriod(p: Payment, walletId: int, start: int, end: int) {
    p.walletId == walletId && start <= p.occurredAt < end
  }

  /** `sumByWalletAndPeriod`: SUM(amount) over the wallet's rows in [start, end), 0 when there are none. */
  function SumByWalletAndPeriod(rows: seq<Payment>, walletId: int, start: int, end: int): (r: int)
    ensures (forall q :: q in rows ==> !InPeriod(q, walletId, start, end)) ==> r == 0
    ensures (forall q :: q in rows ==> q.amount >= 0) ==> r >= 0
  {
    if rows == [] then 0
    else
      var last := rows[|rows| - 1];
      assert rows == rows[..|rows| - 1] + [last];
      SumByWalletAndPeriod(rows[..|rows| - 1], walletId, start, end)
        + if InPeriod(last, walletId, start, end) then last.amount else 0
  }

  /** `countByWalletAndDay`: COUNT(*) over the wallet's rows in [dayStart, dayEnd). */
  function CountByWalletAndDay(rows: seq<Payment>, walletId: int, dayStart: int, dayEnd: int): (r: nat)
    ensures r <= |rows|
    ensures (forall q :: q in rows ==> !InPeriod(q, walletId, dayStart, dayEnd)) ==> r == 0
  {
    if rows == [] then 0
    else
      var last := rows[|rows| - 1];
      assert rows == rows[..|rows| - 1] + [last];
      CountByWalletAndDay(rows[..|rows| - 1], walletId, dayStart, dayEnd)
        + if InPeriod(last, walletId, dayStart, dayEnd) then 1 else 0
  }

  /** A new row adds its amount to a window sum exactly when it is that wallet's and inside the window. */
  lemma {:induction false} SumAppend(rows: seq<Payment>, p: Payment, walletId: int, start: int, end: int)
    ensures SumByWalletAndPeriod(rows + [p], walletId, start, end)
         == SumByWalletAndPeriod(rows, walletId, start, end) + if InPeriod(p, walletId, start, end) then p.amount else 0
  {
    assert (rows + [p])[..|rows|] == rows;
  }

  /** A new row adds one to a day count exactly when it is that wallet's and inside the day. */
  lemma {:induction false} CountAppend(rows: seq<Payment>, p: Payment, walletId: int, dayStart: int, dayEnd: int)
    ensures CountByWalletAndDay(rows + [p], walletId, dayStart, dayEnd)
         == CountByWalletAndDay(rows, walletId, dayStart, dayEnd) + if InPeriod(p, walletId, dayStart, dayEnd) then 1 else 0
  {
    assert (rows + [p])[..|rows|] == rows;
  }

  /** When every row is the wallet's and inside the window, the count is the number of rows. */
  lemma {:induction false} CountAllInWindow(rows: seq<Payment>, walletId: int, dayStart: int, dayEnd: int)
    requires forall q :: q in rows ==> InPeriod(q, walletId, dayStart, dayEnd)
    ensures CountByWalletAndDay(rows, walletId, dayStart, dayEnd) == |rows|
  {
    if rows != [] {
      var init := rows[..|rows| - 1];
      assert forall q :: q in init ==> q in rows;
      CountAllInWindow(init, walletId, dayStart, dayEnd);
      assert rows[|rows| - 1] in rows;
    }
  }

  /** In a constrained table a key identifies one row. */
  lemma SameKeySameRow(rows: seq<Payment>, p: Payment, q: Payment)
    requires Constrained(rows) && p in rows && q in rows && p.idempotencyKey == q.idempotencyKey
    ensures p == q
  {
    var i :| 0 <= i < |rows| && rows[i] == p;
    var j :| 0 <= j < |rows| && rows[j] == q;
    assert !(i < j) && !(j < i);
  }

  /** Rows of other wallets never change a sum or a count. */
  lemma {:induction false} OtherWalletsIgnored(rows: seq<Payment>, others: seq<Payment>, walletId: int, start: int, end: int)
    requires forall q :: q in others ==> q.walletId != walletId
    ensures SumByWalletAndPeriod(rows + others, walletId, start, end) == SumByWalletAndPeriod(rows, walletId, start, end)
    ensures CountByWalletAndDay(rows + others, walletId, start, end) == CountByWalletAndDay(rows, walletId, start, end)
    decreases |others|
  {
    if others == [] {
      assert rows + others == rows;
    } else {
      var init := others[..|others| - 1];
      var last := others[|others| - 1];
      assert rows + others == (rows + init) + [last];
      SumAppend(rows + init, last, walletId, start, end);
      CountAppend(rows + init, last, walletId, start, end);
      OtherWalletsIgnored(rows, init, walletId, start, end);
    }
  }

  /** The inclusive filter of `list` and `count`: this wallet, startDate <= occurredAt <= endDate, each bound optional. */
  predicate InRange(p: Payment, walletId: int, startDate: Option<int>, endDate: Option<int>) {
    && p.walletId == walletId
    && (startDate.None? || startDate.value <= p.occurredAt)
    && (endDate.None? || p.occurredAt <= endDate.value)
  }

  /** The rows matching the filter, in table order. */
  function Matching(rows: seq<Payment>, walletId: int, startDate: Option<int>, endDate: Option<int>): (r: seq<Payment>)
    ensures forall q :: q in r <==> q in rows && InRange(q, walletId, startDate, endDate)
  {
    if rows == [] then []
    else
      var rest := Matching(rows[1..], walletId, startDate, endDate);
      if InRange(rows[0], walletId, startDate, endDate) then [rows[0]] + rest else rest
  }

  /** Filtering keeps the ids distinct. */
  lemma {:induction false} MatchingKeepsUniqueIds(rows: seq<Payment>, walletId: int, startDate: Option<int>, endDate: Option<int>)
    requires Paging.UniqueKeys(rows, PaymentId)
    ensures Paging.UniqueKeys(Matching(rows, walletId, startDate, endDate), PaymentId)
  {
    if rows != [] {
      var tail := rows[1..];
      assert Paging.UniqueKeys(tail, PaymentId) by {
        forall i, j | 0 <= i < j < |tail| ensures tail[i].id != tail[j].id {
          assert tail[i] == rows[i + 1] && tail[j] == rows[j + 1];
        }
      }
      MatchingKeepsUniqueIds(tail, walletId, startDate, endDate);
      var rest := Matching(tail, walletId, startDate, endDate);
      forall q | q in rest ensures q.id != rows[0].id {
        var j :| 0 <= j < |tail| && tail[j] == q;
        assert rows[j + 1] == q;
      }
    }
  }

  /** `count`: the number of matching rows. */
  function Count(rows: seq<Payment>, walletId: int, startDate: Option<int>, endDate: Option<int>): nat {
    |Matching(rows, walletId, startDate, endDate)|
  }

  /** `list`: one page of the matching rows past the cursor, ascending by id. */
  function List(rows: seq<Payment>, walletId: int, startDate: Option<int>, endDate: Option<int>,
                cursor: Option<int>, limit: nat): (p: Paging.Page<Payment>)
    requires 1 <= limit
    ensures |p.data| <= limit
    ensures p.nextCursor.Some? ==> |p.data| == limit && Paging.After(cursor, p.nextCursor.value)
  {
    var matching := Matching(rows, walletId, startDate, endDate);
    Paging.AscendingSorted(matching, PaymentId, cursor, limit);
    Paging.List(matching, PaymentId, cursor, limit)
  }

  /**
   * `count` is the number of rows a listing walks through: a first page
   * large enough holds exactly that many rows and no next cursor.
   */
  lemma CountIsFullListing(rows: seq<Payment>, walletId: int, startDate: Option<int>, endDate: Option<int>, limit: nat)
    requires Constrained(rows) && 1 <= limit && Count(rows, walletId, startDate, endDate) <= limit
    ensures var page := List(rows, walletId, startDate, endDate, None, limit);
      |page.data| == Count(rows, walletId, startDate, endDate) && page.nextCursor.None?
  {
    var matching := Matching(rows, walletId, startDate, endDate);
    MatchingKeepsUniqueIds(rows, walletId, startDate, endDate);
    Paging.AboveNoCursor(matching, PaymentId);
    Paging.AscendingLength(matching, PaymentId, None, limit);
    Paging.NextCursorIffMore(matching, PaymentId, None, limit);
  }

  /**
   * A page holds at most `limit` rows, each this wallet's, inside the
   * inclusive date range and past the cursor, strictly ascending by id; the
   * next cursor, when present, is the last id on the page.
   */
  lemma ListSound(rows: seq<Payment>, walletId: int, startDate: Option<int>, endDate: Option<int>,
                  cursor: Option<int>, limit: nat)
    requires 1 <= limit
    ensures var page := List(rows, walletId, startDate, endDate, cursor, limit);
      && |page.data| <= limit
      && (forall q :: q in page.data ==> q in rows && InRange(q, walletId, startDate, endDate) && Paging.After(cursor, q.id))
      && (forall i, j :: 0 <= i < j < |page.data| ==> page.data[i].id < page.data[j].id)
      && (page.nextCursor.Some? ==> page.nextCursor.value == page.data[|page.data| - 1].id)
  {
    Paging.AscendingSorted(Matching(rows, walletId, startDate, endDate), PaymentId, cursor, limit);
  }

  /** The next cursor is present exactly when more than `limit` matching rows lie past the cursor. */
  lemma ListNextCursor(rows: seq<Payment>, walletId: int, startDate: Option<int>, endDate: Option<int>,
                       cursor: Option<int>, limit: nat)
    requires 1 <= limit && Constrained(rows)
    ensures List(rows, walletId, startDate, endDate, cursor, limit).nextCursor.Some?
        <==> |Paging.Above(Matching(rows, walletId, startDate, endDate), PaymentId, cursor)| > limit
  {
    MatchingKeepsUniqueIds(rows, walletId, startDate, endDate);
    Paging.NextCursorIffMore(Matching(rows, walletId, startDate, endDate), PaymentId, cursor, limit);
  }

  /** No matching row past the cursor is skipped: it is on a short page, or on any page reaching its id. */
  lemma ListComplete(rows: seq<Payment>, walletId: int, startDate: Option<int>, endDate: Option<int>,
                     cursor: Option<int>, limit: nat, q: Payment)
    requires 1 <= limit && Constrained(rows)
    requires q in rows && InRange(q, walletId, startDate, endDate) && Paging.After(cursor, q.id)
    requires var d := List(rows, walletId, startDate, endDate, cursor, limit).data;
      |d| < limit || (|d| > 0 && q.id <= d[|d| - 1].id)
    ensures q in List(rows, walletId, startDate, endDate, cursor, limit).data
  {
    MatchingKeepsUniqueIds(rows, walletId, startDate, endDate);
    Paging.AscendingComplete(Matching(rows, walletId, startDate, endDate), PaymentId, cursor, limit, q);
  }

  /**
   * The payments table. The service layer's transaction and the row lock are
   * not modelled: each call of a service method is one atomic step.
   */
  class PaymentTable {
    var rows: seq<Payment>

    ghost predicate Valid()
      reads this
    {
      Constrained(rows)
    }

    constructor ()
      ensures Valid() && rows == []
    {
      rows := [];
    }

    /**
     * `insert`: appends the row; a row whose id or idempotency key is already
     * stored violates a unique constraint, and then nothing is written.
     */
    method Insert(p: Payment) returns (ok: bool)
      requires Valid()
      modifies this
      ensures Valid()
      ensures ok == Insertable(old(rows), p)
      ensures rows == if ok then old(rows) + [p] else old(rows)
    {
      ok := forall q | q in rows :: q.id != p.id && q.idempotencyKey != p.idempotencyKey;
      if ok {
        InsertKeepsConstraints(rows, p);
        rows := rows + [p];
      }
    }
  }
}
