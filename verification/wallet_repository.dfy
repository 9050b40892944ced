/**
 * The wallets table of ExposedWalletRepository: keyed by id, with a single
 * nullable policy column, so a wallet holds at most one policy however many
 * ids it is given.
 */
module WalletRepository {
  import opened Wrappers
  import opened Domain

  datatype WalletRow = WalletRow(ownerName: string, policyId: Option<int>, createdAt: int)

  /** `ids.firstOrNull()`, the value written to the policy column. */
  function FirstOrNull(ids: seq<int>): (r: Option<int>)
    ensures r.None? <==> ids == []
    ensures r.Some? ==> r.value == ids[0]
  {
    if ids == [] then None else Some(ids[0])
  }

  /** `policyId?.let { listOf(it) } ?: emptyList()`, the list read back from the column. */
  function SlotIds(o: Option<int>): (ids: seq<int>)
    ensures |ids| <= 1
    ensures FirstOrNull(ids) == o
  {
    match o
    case None => []
    case Some(id) => [id]
  }

  /** `ids.take(1)`. */
  function Take1(ids: seq<int>): seq<int> {
    if ids == [] then [] else ids[..1]
  }

  /** Writing a list to the column and reading it back keeps its first id only. */
  lemma SlotKeepsFirst(ids: seq<int>)
    ensures SlotIds(FirstOrNull(ids)) == Take1(ids)
    ensures |ids| <= 1 ==> SlotIds(FirstOrNull(ids)) == ids
  {
  }

  /** The row `insert` writes for a wallet. */
  function ToRow(w: Wallet): WalletRow {
    WalletRow(w.ownerName, FirstOrNull(w.policyIds), w.createdAt)
  }

  /** `getById`: the stored wallet with that id, or None. */
  function GetById(table: map<int, WalletRow>, id: int): (r: Option<Wallet>)
    ensures r.Some? <==> id in table
    ensures r.Some? ==> && r.value.id == id
                        && r.value.ownerName == table[id].ownerName
                        && r.value.createdAt == table[id].createdAt
                        && FirstOrNull(r.value.policyIds) == table[id].policyId
                        && |r.value.policyIds| <= 1
  {
    if id in table then
      var row := table[id];
      Some(Wallet(id, row.ownerName, SlotIds(row.policyId), row.createdAt))
    else None
  }

  /** Inserting a wallet and reading it back gives it with only its first policy id. */
  lemma InsertThenGet(table: map<int, WalletRow>, w: Wallet)
    ensures GetById(table[w.id := ToRow(w)], w.id) == Some(w.(policyIds := Take1(w.policyIds)))
  {
    SlotKeepsFirst(w.policyIds);
  }

  /** The wallets table. */
  class WalletTable {
    var rows: map<int, WalletRow>

    constructor ()
      ensures rows == map[]
    {
      rows := map[];
    }

    /** `lockAndGet`: the same wallet `getById` reads; the row lock is not modelled. */
    method LockAndGet(id: int) returns (r: Option<Wallet>)
      ensures r == GetById(rows, id)
      ensures r.Some? <==> id in rows
    {
      if id in rows {
        var row := rows[id];
        r := Some(Wallet(id, row.ownerName, SlotIds(row.policyId), row.createdAt));
      } else {
        r := None;
      }
    }

    /** `insert`: writes the wallet's row; an id already stored violates the primary key and nothing is written. */
    method Insert(w: Wallet) returns (ok: bool)
      modifies this
      ensures ok == (w.id !in old(rows))
      ensures rows == if ok then old(rows)[w.id := ToRow(w)] else old(rows)
      ensures ok ==> GetById(rows, w.id) == Some(w.(policyIds := Take1(w.policyIds)))
    {
      ok := w.id !in rows;
      if ok {
        rows := rows[w.id := ToRow(w)];
        InsertThenGet(old(rows), w);
      }
    }

    /**
     * `updatePolicyIds`: the wallet's policy column becomes the first of ids;
     * an unknown wallet matches no row and nothing changes.
     */
    method UpdatePolicyIds(walletId: int, ids: seq<int>)
      modifies this
      ensures walletId in old(rows) ==> rows == old(rows)[walletId := old(rows)[walletId].(policyId := FirstOrNull(ids))]
      ensures walletId !in old(rows) ==> rows == old(rows)
      ensures walletId in old(rows) ==>
        GetById(rows, walletId) == Some(GetById(old(rows), walletId).value.(policyIds := Take1(ids)))
      ensures forall id :: id != walletId ==> GetById(rows, id) == GetById(old(rows), id)
    {
      if walletId in rows {
        rows := rows[walletId := rows[walletId].(policyId := FirstOrNull(ids))];
        SlotKeepsFirst(ids);
      }
    }
  }
}
