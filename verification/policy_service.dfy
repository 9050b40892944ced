/**
 * PolicyService: creating policies, attaching a policy to a wallet, and
 * listing policies.
 */
module PolicyService {
  import opened Wrappers
  import opened Domain
  import Policies = PolicyRepository
  import Wallets = WalletRepository
  import Paging

  /** Why `createPolicy` fails: a `require` on the fields, or a clashing id rejected by the primary key. */
  datatype PolicyError = MissingValueLimitFields | MissingMaxTxPerDay | DuplicateId

  /** The `require` checks of `createPolicy`: presence only, of the fields the category needs. */
  function CheckFields(category: PolicyCategory, maxPerPayment: Option<int>, daytimeDailyLimit: Option<int>,
                       nighttimeDailyLimit: Option<int>, weekendDailyLimit: Option<int>, maxTxPerDay: Option<int>)
    : Option<PolicyError>
  {
    match category
    case ValueLimit =>
      if maxPerPayment.Some? && daytimeDailyLimit.Some? && nighttimeDailyLimit.Some? && weekendDailyLimit.Some?
      then None else Some(MissingValueLimitFields)
    case TxCountLimit =>
      if maxTxPerDay.Some? then None else Some(MissingMaxTxPerDay)
  }

  /** The policy `createPolicy` builds: the given fields as they are, created and updated at the same instant. */
  function NewPolicy(newId: int, name: string, category: PolicyCategory, maxPerPayment: Option<int>,
                     daytimeDailyLimit: Option<int>, nighttimeDailyLimit: Option<int>, weekendDailyLimit: Option<int>,
                     maxTxPerDay: Option<int>, now: int): Policy
  {
    Policy(newId, name, category, maxPerPayment, daytimeDailyLimit, nighttimeDailyLimit, weekendDailyLimit,
           maxTxPerDay, now, now)
  }

  /**
   * The checks pass exactly when the policy carries the fields its category
   * requires; a value-limit policy missing any one of its four amounts, or a
   * transaction-count policy without its maximum, fails with that reason.
   */
  lemma CheckFieldsMeansRequiredFields(newId: int, name: string, category: PolicyCategory, maxPerPayment: Option<int>,
                                       daytimeDailyLimit: Option<int>, nighttimeDailyLimit: Option<int>,
                                       weekendDailyLimit: Option<int>, maxTxPerDay: Option<int>, now: int)
    ensures var p := NewPolicy(newId, name, category, maxPerPayment, daytimeDailyLimit, nighttimeDailyLimit,
                               weekendDailyLimit, maxTxPerDay, now);
      var check := CheckFields(category, maxPerPayment, daytimeDailyLimit, nighttimeDailyLimit, weekendDailyLimit,
                               maxTxPerDay);
      && (check.None? <==> HasRequiredFields(p))
      && (check.Some? ==> check.value == if category == ValueLimit then MissingValueLimitFields else MissingMaxTxPerDay)
  {
  }

  /** Appending a policy that carries its required fields keeps every stored policy carrying them. */
  lemma {:induction false} AppendKeepsRequiredFields(rows: seq<Policies.PolicyRow>, p: Policy)
    requires Policies.RequiredFieldsStored(rows) && HasRequiredFields(p)
    ensures Policies.RequiredFieldsStored(rows + [Policies.ToRow(p)])
  {
    forall x | x in rows + [Policies.ToRow(p)] && Policies.ToPolicy(x).Some?
      ensures HasRequiredFields(Policies.ToPolicy(x).value)
    {
      if x !in rows {
        assert x == Policies.ToRow(p);
      }
    }
  }

  /** `PolicyListResult`. */
  datatype PolicyListResult = PolicyListResult(data: seq<Policy>, nextCursor: Option<int>, total: int)

  /**
   * A page of stored policies past the cursor, strictly ascending by id,
   * whose next cursor, when present, is the id of its last policy.
   */
  predicate SoundPage(rows: seq<Policies.PolicyRow>, cursor: Option<int>, data: seq<Policy>, nextCursor: Option<int>) {
    && (forall p :: p in data ==> Policies.GetById(rows, p.id) == Some(p) && Paging.After(cursor, p.id))
    && (forall i, j :: 0 <= i < j < |data| ==> data[i].id < data[j].id)
    && (nextCursor.Some? ==> |data| > 0 && nextCursor.value == data[|data| - 1].id)
  }

  /** What the repository lemmas give about one page, under the table's constraints. */
  lemma PageFacts(rows: seq<Policies.PolicyRow>, limit: nat, cursor: Option<int>)
    requires 1 <= limit
    ensures var page := Policies.List(rows, limit, cursor);
      Policies.Constrained(rows) ==> SoundPage(rows, cursor, page.data, page.nextCursor)
  {
    if Policies.Constrained(rows) {
      var page := Policies.List(rows, limit, cursor);
      Policies.ListSound(rows, limit, cursor);
      Policies.ListOrdered(rows, limit, cursor);
      forall p | p in page.data
        ensures Policies.GetById(rows, p.id) == Some(p) && Paging.After(cursor, p.id)
      {
        var i :| 0 <= i < |page.data| && page.data[i] == p;
      }
    }
  }

  /** `listPolicies`: one page, and the number of stored policies whatever the cursor and limit. */
  function ListPolicies(rows: seq<Policies.PolicyRow>, limit: nat, cursor: Option<int>): (r: PolicyListResult)
    requires 1 <= limit
    ensures r.total == |rows|
    ensures r.data == Policies.List(rows, limit, cursor).data && r.nextCursor == Policies.List(rows, limit, cursor).nextCursor
    ensures |r.data| <= limit
    ensures Policies.Constrained(rows) ==> SoundPage(rows, cursor, r.data, r.nextCursor)
  {
    var page := Policies.List(rows, limit, cursor);
    PageFacts(rows, limit, cursor);
    PolicyListResult(page.data, page.nextCursor, Policies.Count(rows))
  }

  /** The policy service over the policies and wallets tables. */
  class PolicyService {
    const policies: Policies.PolicyTable
    const wallets: Wallets.WalletTable

    /** The policies table's constraints, and every stored policy carries its required fields. */
    ghost predicate Valid()
      reads policies
    {
      policies.Valid() && Policies.RequiredFieldsStored(policies.rows)
    }

    constructor (policies: Policies.PolicyTable, wallets: Wallets.WalletTable)
      ensures this.policies == policies && this.wallets == wallets
    {
      this.policies := policies;
      this.wallets := wallets;
    }

    /**
     * `createPolicy`: fails and stores nothing when a field the category
     * needs is missing (the other fields are stored as given, unchecked);
     * otherwise stores the policy once and returns it.
     */
    method CreatePolicy(name: string, category: PolicyCategory, maxPerPayment: Option<int>,
                        daytimeDailyLimit: Option<int>, nighttimeDailyLimit: Option<int>,
                        weekendDailyLimit: Option<int>, maxTxPerDay: Option<int>, newId: int, now: int)
      returns (r: Result<Policy, PolicyError>)
      requires Valid()
      modifies policies
      ensures Valid()
      ensures var p := NewPolicy(newId, name, category, maxPerPayment, daytimeDailyLimit, nighttimeDailyLimit,
                                 weekendDailyLimit, maxTxPerDay, now);
        && ((r.Err? && r.error != DuplicateId) <==> !HasRequiredFields(p))
        && (r.Err? && r.error != DuplicateId ==>
              Some(r.error) == CheckFields(category, maxPerPayment, daytimeDailyLimit, nighttimeDailyLimit,
                                           weekendDailyLimit, maxTxPerDay))
        && (r.Ok? <==> HasRequiredFields(p) && forall x :: x in old(policies.rows) ==> x.id != newId)
        && (r.Err? ==> policies.rows == old(policies.rows))
        && (r.Ok? ==> r.value == p && policies.rows == old(policies.rows) + [Policies.ToRow(p)]
                      && Policies.GetById(policies.rows, newId) == Some(p))
        && (r.Err? && r.error == DuplicateId <==>
              HasRequiredFields(p) && exists x :: x in old(policies.rows) && x.id == newId)
    {
      var check := CheckFields(category, maxPerPayment, daytimeDailyLimit, nighttimeDailyLimit, weekendDailyLimit,
                               maxTxPerDay);
      var p := NewPolicy(newId, name, category, maxPerPayment, daytimeDailyLimit, nighttimeDailyLimit,
                         weekendDailyLimit, maxTxPerDay, now);
      CheckFieldsMeansRequiredFields(newId, name, category, maxPerPayment, daytimeDailyLimit, nighttimeDailyLimit,
                                     weekendDailyLimit, maxTxPerDay, now);
      if check.Some? {
        return Err(check.value);
      }
      AppendKeepsRequiredFields(policies.rows, p);
      var ok := policies.Insert(p);
      if ok {
        r := Ok(p);
      } else {
        r := Err(DuplicateId);
      }
    }

    /**
     * `setWalletPolicy`: None, changing nothing, when the wallet or the
     * policy is not stored; otherwise the wallet's policy list becomes exactly
     * [policyId], replacing what was attached, and the result is true.
     */
    method SetWalletPolicy(walletId: int, policyId: int) returns (r: Option<bool>)
      modifies wallets
      ensures r.None? <==> walletId !in old(wallets.rows) || Policies.GetById(policies.rows, policyId).None?
      ensures r.None? ==> wallets.rows == old(wallets.rows)
      ensures r.Some? ==> r.value && Wallets.GetById(wallets.rows, walletId)
                                     == Some(Wallets.GetById(old(wallets.rows), walletId).value.(policyIds := [policyId]))
      ensures forall id :: id != walletId ==> Wallets.GetById(wallets.rows, id) == Wallets.GetById(old(wallets.rows), id)
    {
      var wallet := Wallets.GetById(wallets.rows, walletId);
      if wallet.None? {
        return None;
      }
      var policy := Policies.GetById(policies.rows, policyId);
      if policy.None? {
        return None;
      }
      wallets.UpdatePolicyIds(walletId, [policyId]);
      r := Some(true);
    }
  }
}
