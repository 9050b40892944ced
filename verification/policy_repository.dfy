/**
 * The policies table of ExposedPolicyRepository. A row holds the category as
 * the enum constant's name (a text column), as the table does; reading a row
 * back parses that name.
 */
module PolicyRepository {
  import opened Wrappers
  import opened Domain
  import Paging

  datatype PolicyRow = PolicyRow(
    id: int,
    name: string,
    category: string,
    maxPerPayment: Option<int>,
    daytimeDailyLimit: Option<int>,
    nighttimeDailyLimit: Option<int>,
    weekendDailyLimit: Option<int>,
    maxTxPerDay: Option<int>,
    createdAt: int,
    updatedAt: int)

  function RowId(r: PolicyRow): int {
    r.id
  }

  /** The column values `insert` writes for a policy. */
  function ToRow(p: Policy): (r: PolicyRow)
    ensures ToPolicy(r) == Some(p)
  {
    CategoryRoundTrip(p.category);
    PolicyRow(p.id, p.name, CategoryName(p.category), p.maxPerPayment, p.daytimeDailyLimit,
              p.nighttimeDailyLimit, p.weekendDailyLimit, p.maxTxPerDay, p.createdAt, p.updatedAt)
  }

  /**
   * `toPolicy`: the policy a row reads back as. A category text that names no
   * category (where `valueOf` throws) gives None; the table never holds one.
   */
  function ToPolicy(r: PolicyRow): (p: Option<Policy>)
    ensures p.Some? ==> p.value.id == r.id && CategoryName(p.value.category) == r.category
  {
    match CategoryOf(r.category)
    case None => None
    case Some(c) =>
      Some(Policy(r.id, r.name, c, r.maxPerPayment, r.daytimeDailyLimit, r.nighttimeDailyLimit,
                  r.weekendDailyLimit, r.maxTxPerDay, r.createdAt, r.updatedAt))
  }

  /** The table's state: primary key on id, and every category text written by `insert`. */
  predicate Constrained(rows: seq<PolicyRow>) {
    && Paging.UniqueKeys(rows, RowId)
    && forall r :: r in rows ==> CategoryOf(r.category).Some?
  }

  lemma {:induction false} InsertKeepsConstraints(rows: seq<PolicyRow>, p: Policy)
    requires Constrained(rows) && forall r :: r in rows ==> r.id != p.id
    ensures Constrained(rows + [ToRow(p)])
  {
    var t := rows + [ToRow(p)];
    forall i, j | 0 <= i < j < |t| ensures t[i].id != t[j].id {
      if j == |rows| {
        assert t[i] in rows;
      }
    }
  }

  /** The rows with primary key id. */
  function WithId(rows: seq<PolicyRow>, id: int): (r: seq<PolicyRow>)
    ensures forall x :: x in r <==> x in rows && x.id == id
  {
    if rows == [] then []
    else
      var rest := WithId(rows[..|rows| - 1], id);
      var last := rows[|rows| - 1];
      assert rows == rows[..|rows| - 1] + [last];
      if last.id == id then rest + [last] else rest
  }

  lemma {:induction false} WithIdNone(rows: seq<PolicyRow>, id: int)
    requires forall x :: x in rows ==> x.id != id
    ensures WithId(rows, id) == []
  {
    if rows != [] {
      WithIdNone(rows[..|rows| - 1], id);
    }
  }

  lemma {:induction false} WithIdAtMostOne(rows: seq<PolicyRow>, id: int)
    requires Paging.UniqueKeys(rows, RowId)
    ensures |WithId(rows, id)| <= 1
  {
    if rows != [] {
      var init := rows[..|rows| - 1];
      assert Paging.UniqueKeys(init, RowId) by {
        forall i, j | 0 <= i < j < |init| ensures init[i].id != init[j].id {
          assert init[i] == rows[i] && init[j] == rows[j];
        }
      }
      WithIdAtMostOne(init, id);
      if rows[|rows| - 1].id == id {
        forall x | x in init ensures x.id != id {
          var i :| 0 <= i < |init| && init[i] == x;
          assert rows[i].id != rows[|rows| - 1].id;
        }
        WithIdNone(init, id);
      }
    }
  }

  /** `getById`: `singleOrNull` over the rows with that id, read back as a policy. */
  function GetById(rows: seq<PolicyRow>, id: int): (r: Option<Policy>)
    ensures r.Some? ==> r.value.id == id && exists x :: x in rows && ToPolicy(x) == r
    ensures Constrained(rows) ==> (r.None? <==> forall x :: x in rows ==> x.id != id)
  {
    var m := WithId(rows, id);
    assert Constrained(rows) ==> |m| <= 1 by {
      if Constrained(rows) {
        WithIdAtMostOne(rows, id);
      }
    }
    assert |m| == 1 ==> m[0] in m;
    if |m| == 1 then ToPolicy(m[0]) else None
  }

  /** `insert` then `getById` gives back an equal policy, category included. */
  lemma {:induction false} InsertThenGet(rows: seq<PolicyRow>, p: Policy)
    requires Constrained(rows) && forall r :: r in rows ==> r.id != p.id
    ensures GetById(rows + [ToRow(p)], p.id) == Some(p)
  {
    var t := rows + [ToRow(p)];
    assert t[..|t| - 1] == rows;
    WithIdNone(rows, p.id);
    assert WithId(t, p.id) == [ToRow(p)];
  }

  /** Inserting a policy leaves the lookup of every other id unchanged. */
  lemma {:induction false} InsertKeepsOthers(rows: seq<PolicyRow>, p: Policy, id: int)
    requires p.id != id
    ensures GetById(rows + [ToRow(p)], id) == GetById(rows, id)
  {
    var t := rows + [ToRow(p)];
    assert t[..|t| - 1] == rows;
    assert WithId(t, id) == WithId(rows, id);
  }

  /** The category of the stored policy with that id (`getById(it)?.category`). */
  function CategoryById(rows: seq<PolicyRow>, id: int): (c: Option<PolicyCategory>)
    ensures c.Some? <==> GetById(rows, id).Some?
    ensures c.Some? ==> c.value == GetById(rows, id).value.category
  {
    match GetById(rows, id)
    case None => None
    case Some(p) => Some(p.category)
  }

  /** `ids.mapNotNull { getById(it) }`: the attached policies that resolve, in attach order. */
  function ResolvePolicies(rows: seq<PolicyRow>, ids: seq<int>): (r: seq<Policy>)
    ensures |r| <= |ids|
    ensures forall p :: p in r ==> p.id in ids && GetById(rows, p.id) == Some(p)
    ensures forall id :: id in ids && GetById(rows, id).Some? ==> GetById(rows, id).value in r
    ensures (forall id :: id in ids ==> GetById(rows, id).Some?) ==> |r| == |ids|
  {
    if ids == [] then []
    else
      var rest := ResolvePolicies(rows, ids[1..]);
      match GetById(rows, ids[0])
      case None => rest
      case Some(p) => [p] + rest
  }

  /** `firstOrNull { it.category == c }`. */
  function FirstOfCategory(ps: seq<Policy>, c: PolicyCategory): (r: Option<Policy>)
    ensures r.Some? ==> r.value.category == c
    ensures r.Some? ==> exists i :: 0 <= i < |ps| && ps[i] == r.value && forall j :: 0 <= j < i ==> ps[j].category != c
    ensures r.None? <==> forall p :: p in ps ==> p.category != c
  {
    if ps == [] then None
    else if ps[0].category == c then Some(ps[0])
    else
      var rest := FirstOfCategory(ps[1..], c);
      assert rest.Some? ==> exists i :: 1 <= i < |ps| && ps[i] == rest.value && forall j :: 0 <= j < i ==> ps[j].category != c by {
        if rest.Some? {
          var i :| 0 <= i < |ps[1..]| && ps[1..][i] == rest.value && forall j :: 0 <= j < i ==> ps[1..][j].category != c;
          assert ps[i + 1] == rest.value;
          forall j | 0 <= j < i + 1 ensures ps[j].category != c {
            if j > 0 {
              assert ps[j] == ps[1..][j - 1];
            }
          }
        }
      }
      rest
  }

  /**
   * `ids.mapNotNull { getById(it) }.firstOrNull { it.category == c }` is the
   * policy of the first attached id whose stored policy has category c.
   */
  lemma {:induction false} FirstAttached(rows: seq<PolicyRow>, ids: seq<int>, c: PolicyCategory, i: nat)
    requires i < |ids| && CategoryById(rows, ids[i]) == Some(c)
    requires forall j :: 0 <= j < i ==> CategoryById(rows, ids[j]) != Some(c)
    ensures FirstOfCategory(ResolvePolicies(rows, ids), c) == GetById(rows, ids[i])
  {
    if i == 0 {
      FirstAttachedHead(rows, ids, c);
    } else {
      FirstAttachedSkip(rows, ids, c);
      var tail := ids[1..];
      forall j | 0 <= j < i - 1
        ensures CategoryById(rows, tail[j]) != Some(c)
      {
        assert tail[j] == ids[j + 1];
      }
      assert tail[i - 1] == ids[i];
      FirstAttached(rows, tail, c, i - 1);
    }
  }

  /** The first attached id resolving to category c gives the policy found. */
  lemma FirstAttachedHead(rows: seq<PolicyRow>, ids: seq<int>, c: PolicyCategory)
    requires |ids| > 0 && CategoryById(rows, ids[0]) == Some(c)
    ensures FirstOfCategory(ResolvePolicies(rows, ids), c) == GetById(rows, ids[0])
  {
    var p := GetById(rows, ids[0]).value;
    var rs := ResolvePolicies(rows, ids);
    assert rs == [p] + ResolvePolicies(rows, ids[1..]);
    assert rs[0].category == c;
  }

  /** An attached id that does not resolve to category c is passed over. */
  lemma FirstAttachedSkip(rows: seq<PolicyRow>, ids: seq<int>, c: PolicyCategory)
    requires |ids| > 0 && CategoryById(rows, ids[0]) != Some(c)
    ensures FirstOfCategory(ResolvePolicies(rows, ids), c) == FirstOfCategory(ResolvePolicies(rows, ids[1..]), c)
  {
    var rs := ResolvePolicies(rows, ids);
    var rest := ResolvePolicies(rows, ids[1..]);
    match GetById(rows, ids[0])
    case None =>
      assert rs == rest;
    case Some(p) =>
      assert rs == [p] + rest;
      assert rs[0].category != c && rs[1..] == rest;
  }

  /** No attached id resolves to a policy of category c: there is no such policy to apply. */
  lemma {:induction false} NoneAttached(rows: seq<PolicyRow>, ids: seq<int>, c: PolicyCategory)
    requires forall id :: id in ids ==> CategoryById(rows, id) != Some(c)
    ensures FirstOfCategory(ResolvePolicies(rows, ids), c) == None
  {
  }

  /**
   * Every stored policy carries the fields its category requires; the policy
   * service's field checks keep this, and the value-limit validator relies on it.
   */
  predicate RequiredFieldsStored(rows: seq<PolicyRow>) {
    forall x :: x in rows && ToPolicy(x).Some? ==> HasRequiredFields(ToPolicy(x).value)
  }

  /** A policy `getById` returns from such a table carries its required fields. */
  lemma StoredHasRequiredFields(rows: seq<PolicyRow>, id: int)
    requires RequiredFieldsStored(rows) && GetById(rows, id).Some?
    ensures HasRequiredFields(GetById(rows, id).value)
  {
  }

  /** Rows read back as policies; a row that does not read back is dropped (the table never holds one). */
  function ToPolicies(rows: seq<PolicyRow>): (r: seq<Policy>)
    ensures |r| <= |rows|
    ensures (forall x :: x in rows ==> CategoryOf(x.category).Some?) ==> |r| == |rows|
    ensures (forall x :: x in rows ==> CategoryOf(x.category).Some?) ==>
      forall i :: 0 <= i < |r| ==> Some(r[i]) == ToPolicy(rows[i])
  {
    if rows == [] then []
    else
      var rest := ToPolicies(rows[1..]);
      match ToPolicy(rows[0])
      case None => rest
      case Some(p) => [p] + rest
  }

  /** The result of `list`: a page of policies and the cursor of the next one. */
  datatype PolicyPage = PolicyPage(data: seq<Policy>, nextCursor: Option<int>)

  /** `list`: the policies past the cursor (all of them without one), ascending by id, at most `limit`. */
  function List(rows: seq<PolicyRow>, limit: nat, cursor: Option<int>): (p: PolicyPage)
    requires 1 <= limit
    ensures |p.data| <= limit
    ensures p.nextCursor.Some? ==> Paging.After(cursor, p.nextCursor.value)
  {
    Paging.AscendingSorted(rows, RowId, cursor, limit);
    var page := Paging.List(rows, RowId, cursor, limit);
    PolicyPage(ToPolicies(page.data), page.nextCursor)
  }

  /** A stored row reads back as the policy `getById` returns for its id. */
  lemma StoredRowReads(rows: seq<PolicyRow>, x: PolicyRow)
    requires Constrained(rows) && x in rows
    ensures GetById(rows, x.id) == ToPolicy(x)
  {
    WithIdAtMostOne(rows, x.id);
    assert x in WithId(rows, x.id);
  }

  /** The page's policies are decoded one for one from the rows `Paging.List` fetched. */
  lemma PageDecodes(rows: seq<PolicyRow>, limit: nat, cursor: Option<int>)
    requires 1 <= limit && Constrained(rows)
    ensures var fetched := Paging.List(rows, RowId, cursor, limit).data;
      && |List(rows, limit, cursor).data| == |fetched|
      && forall i :: 0 <= i < |fetched| ==> Some(List(rows, limit, cursor).data[i]) == ToPolicy(fetched[i])
  {
    var fetched := Paging.List(rows, RowId, cursor, limit).data;
    Paging.AscendingSorted(rows, RowId, cursor, limit);
    assert forall x :: x in fetched ==> x in rows;
  }

  /** Every policy on a page is a stored policy past the cursor, and there are at most `limit` of them. */
  lemma ListSound(rows: seq<PolicyRow>, limit: nat, cursor: Option<int>)
    requires 1 <= limit && Constrained(rows)
    ensures var page := List(rows, limit, cursor);
      && |page.data| <= limit
      && forall i :: 0 <= i < |page.data| ==>
           Paging.After(cursor, page.data[i].id) && GetById(rows, page.data[i].id) == Some(page.data[i])
  {
    var fetched := Paging.List(rows, RowId, cursor, limit).data;
    Paging.AscendingSorted(rows, RowId, cursor, limit);
    PageDecodes(rows, limit, cursor);
    var data := List(rows, limit, cursor).data;
    forall i | 0 <= i < |data|
      ensures Paging.After(cursor, data[i].id) && GetById(rows, data[i].id) == Some(data[i])
    {
      StoredRowReads(rows, fetched[i]);
    }
  }

  /** A page's ids are those of the rows it was decoded from, one for one. */
  lemma PageIdsAgree(rows: seq<PolicyRow>, limit: nat, cursor: Option<int>)
    requires 1 <= limit && Constrained(rows)
    ensures var page := List(rows, limit, cursor);
      var inner := Paging.List(rows, RowId, cursor, limit);
      && |page.data| == |inner.data|
      && page.nextCursor == inner.nextCursor
      && forall i :: 0 <= i < |page.data| ==> page.data[i].id == inner.data[i].id
  {
    PageDecodes(rows, limit, cursor);
  }

  /** A page is strictly ascending by id, and its next cursor is the last id on it. */
  lemma ListOrdered(rows: seq<PolicyRow>, limit: nat, cursor: Option<int>)
    requires 1 <= limit && Constrained(rows)
    ensures var page := List(rows, limit, cursor);
      && (forall i, j :: 0 <= i < j < |page.data| ==> page.data[i].id < page.data[j].id)
      && (page.nextCursor.Some? ==> |page.data| > 0 && page.nextCursor.value == page.data[|page.data| - 1].id)
  {
    PageIdsAgree(rows, limit, cursor);
    Paging.ListOrdered(rows, RowId, cursor, limit);
  }

  /** The next cursor is present exactly when more than `limit` policies lie past the cursor. */
  lemma ListNextCursor(rows: seq<PolicyRow>, limit: nat, cursor: Option<int>)
    requires 1 <= limit && Constrained(rows)
    ensures List(rows, limit, cursor).nextCursor.Some? <==> |Paging.Above(rows, RowId, cursor)| > limit
  {
    Paging.NextCursorIffMore(rows, RowId, cursor, limit);
  }

  /** A page of policies reaching id k was fetched from rows reaching k. */
  lemma FetchedReaches(rows: seq<PolicyRow>, limit: nat, cursor: Option<int>, k: int)
    requires 1 <= limit && Constrained(rows)
    requires var d := List(rows, limit, cursor).data;
      |d| < limit || (|d| > 0 && k <= d[|d| - 1].id)
    ensures var f := Paging.List(rows, RowId, cursor, limit).data;
      |f| < limit || (|f| > 0 && k <= f[|f| - 1].id)
  {
    PageDecodes(rows, limit, cursor);
    var f := Paging.List(rows, RowId, cursor, limit).data;
    var d := List(rows, limit, cursor).data;
    if |f| > 0 {
      assert Some(d[|d| - 1]) == ToPolicy(f[|f| - 1]);
    }
  }

  /** A row on the fetched page appears, read back, on the page of policies. */
  lemma DecodedOnPage(rows: seq<PolicyRow>, limit: nat, cursor: Option<int>, x: PolicyRow)
    requires 1 <= limit && Constrained(rows)
    requires x in Paging.List(rows, RowId, cursor, limit).data
    ensures ToPolicy(x).Some? && ToPolicy(x).value in List(rows, limit, cursor).data
  {
    PageDecodes(rows, limit, cursor);
    var fetched := Paging.List(rows, RowId, cursor, limit).data;
    var i :| 0 <= i < |fetched| && fetched[i] == x;
    assert Some(List(rows, limit, cursor).data[i]) == ToPolicy(x);
  }

  /** The row a policy `getById` returns was read back from. */
  lemma StoredRow(rows: seq<PolicyRow>, p: Policy) returns (x: PolicyRow)
    requires GetById(rows, p.id) == Some(p)
    ensures x in rows && ToPolicy(x) == Some(p) && x.id == p.id
  {
    x :| x in rows && ToPolicy(x) == Some(p);
  }

  /** A row past the cursor is fetched when the fetched page is short or reaches its id. */
  lemma FetchedComplete(rows: seq<PolicyRow>, limit: nat, cursor: Option<int>, x: PolicyRow)
    requires 1 <= limit && Constrained(rows)
    requires x in rows && Paging.After(cursor, x.id)
    requires var f := Paging.List(rows, RowId, cursor, limit).data;
      |f| < limit || (|f| > 0 && x.id <= f[|f| - 1].id)
    ensures x in Paging.List(rows, RowId, cursor, limit).data
  {
    Paging.AscendingComplete(rows, RowId, cursor, limit, x);
  }

  /** No stored policy past the cursor is skipped: it is on a short page, or on any page reaching its id. */
  lemma ListComplete(rows: seq<PolicyRow>, limit: nat, cursor: Option<int>, p: Policy)
    requires 1 <= limit && Constrained(rows)
    requires GetById(rows, p.id) == Some(p) && Paging.After(cursor, p.id)
    requires var d := List(rows, limit, cursor).data;
      |d| < limit || (|d| > 0 && p.id <= d[|d| - 1].id)
    ensures p in List(rows, limit, cursor).data
  {
    var x := StoredRow(rows, p);
    FetchedReaches(rows, limit, cursor, p.id);
    FetchedComplete(rows, limit, cursor, x);
    DecodedOnPage(rows, limit, cursor, x);
  }

  /** `count`: every stored policy, whatever cursor a listing used. */
  function Count(rows: seq<PolicyRow>): nat {
    |rows|
  }

  /**
   * `count` is the number of policies a listing walks through: a first page
   * large enough holds exactly that many policies and no next cursor.
   */
  lemma CountIsFullListing(rows: seq<PolicyRow>, limit: nat)
    requires Constrained(rows) && 1 <= limit && Count(rows) <= limit
    ensures var page := List(rows, limit, None);
      |page.data| == Count(rows) && page.nextCursor.None?
  {
    Paging.AboveNoCursor(rows, RowId);
    Paging.AscendingLength(rows, RowId, None, limit);
    Paging.NextCursorIffMore(rows, RowId, None, limit);
    PageDecodes(rows, limit, None);
  }

  /** The policies table. */
  class PolicyTable {
    var rows: seq<PolicyRow>

    ghost predicate Valid()
      reads this
    {
      Constrained(rows)
    }

    constructor ()
      ensures Valid() && rows == []
    {
      rows := [];
    }

    /** `insert`: writes the policy's row; an id already stored violates the primary key and nothing is written. */
    method Insert(p: Policy) returns (ok: bool)
      requires Valid()
      modifies this
      ensures Valid()
      ensures ok == forall r :: r in old(rows) ==> r.id != p.id
      ensures rows == if ok then old(rows) + [ToRow(p)] else old(rows)
      ensures ok ==> GetById(rows, p.id) == Some(p)
    {
      ok := forall r | r in rows :: r.id != p.id;
      if ok {
        InsertKeepsConstraints(rows, p);
        InsertThenGet(rows, p);
        rows := rows + [ToRow(p)];
      }
    }
  }
}
