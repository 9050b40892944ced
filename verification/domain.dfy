/**
 * The records of domain/model (Payment, Policy, Wallet) and the policy
 * violation of domain/exception.
 *
 * Identities (UUIDs in the service) are integers ordered as the database
 * orders them; instants are epoch seconds (see module Periods); money is an
 * integer number of cents, since every amount column is decimal(19,2).
 */
module Domain {
  import opened Wrappers
  import opened Periods

  datatype PolicyCategory = ValueLimit | TxCountLimit

  /** The enum constant's name, the text stored in the policies.category column. */
  function CategoryName(c: PolicyCategory): string {
    match c
    case ValueLimit => "VALUE_LIMIT"
    case TxCountLimit => "TX_COUNT_LIMIT"
  }

  /** `PolicyCategory.valueOf`: the category with that name, None for any other text. */
  function CategoryOf(s: string): (r: Option<PolicyCategory>)
    ensures r.Some? ==> CategoryName(r.value) == s
  {
    if s == "VALUE_LIMIT" then Some(ValueLimit)
    else if s == "TX_COUNT_LIMIT" then Some(TxCountLimit)
    else None
  }

  /** A category survives the trip through its stored name, and distinct categories have distinct names. */
  lemma CategoryRoundTrip(c: PolicyCategory)
    ensures CategoryOf(CategoryName(c)) == Some(c)
    ensures forall d :: CategoryName(d) == CategoryName(c) ==> d == c
  {
  }

  datatype PaymentStatus = Approved

  datatype Payment = Payment(
    id: int,
    walletId: int,
    amount: int,
    occurredAt: int,
    idempotencyKey: string,
    status: PaymentStatus,
    createdAt: int,
    updatedAt: int)

  datatype Policy = Policy(
    id: int,
    name: string,
    category: PolicyCategory,
    maxPerPayment: Option<int>,
    daytimeDailyLimit: Option<int>,
    nighttimeDailyLimit: Option<int>,
    weekendDailyLimit: Option<int>,
    maxTxPerDay: Option<int>,
    createdAt: int,
    updatedAt: int)

  /**
   * The fields a policy of its category must carry: all four amounts for a
   * value limit, the daily count for a transaction-count limit.
   */
  predicate HasRequiredFields(p: Policy) {
    match p.category
    case ValueLimit =>
      p.maxPerPayment.Some? && p.daytimeDailyLimit.Some? && p.nighttimeDailyLimit.Some? && p.weekendDailyLimit.Some?
    case TxCountLimit => p.maxTxPerDay.Some?
  }

  datatype Wallet = Wallet(id: int, ownerName: string, policyIds: seq<int>, createdAt: int)

  /**
   * A rejected payment (PolicyViolationException): the policy type that
   * rejected it and, for a value-limit period breach, the period. The message
   * text is not modelled.
   */
  datatype Violation = Violation(policyType: PolicyCategory, period: Option<Period>)

  /** What a policy validator decides: it returns normally or throws a violation. */
  datatype Verdict = Pass | Reject(violation: Violation)
}
