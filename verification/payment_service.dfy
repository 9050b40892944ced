/**
 * PaymentService: accepting a payment for a wallet. One call of
 * `createPayment` is one atomic step over the three tables (the transaction
 * and the wallet row lock serialise calls on a wallet).
 *
 * `Accept` states the outcome of one call and the payment rows after it as a
 * function of the tables before it; the `PaymentService` class carries out
 * the same steps on the tables and is proved to agree with it.
 */
module PaymentService {
  import opened Wrappers
  import opened Periods
  import opened Domain
  import Payments = PaymentRepository
  import Policies = PolicyRepository
  import Wallets = WalletRepository
  import ValueLimit = ValueLimitValidator
  import TxCount = TxCountLimitValidator

  datatype CreatePaymentResult =
    | Success(payment: Payment, isNew: bool)
    | Conflict
    | PolicyViolation(e: Violation)
    | WalletNotFound

  /** The categories of the attached policies that resolve, duplicates collapsed. */
  function ResolvedCategories(policyIds: seq<int>, getCategory: int -> Option<PolicyCategory>): (s: set<PolicyCategory>)
    ensures forall c :: c in s <==> exists id :: id in policyIds && getCategory(id) == Some(c)
  {
    if policyIds == [] then {}
    else
      var rest := ResolvedCategories(policyIds[1..], getCategory);
      assert forall id :: id in policyIds <==> id == policyIds[0] || id in policyIds[1..];
      match getCategory(policyIds[0])
      case None => rest
      case Some(c) => {c} + rest
  }

  /**
   * `resolveActivePolicyCategories`: the categories of the attached policies
   * that resolve; VALUE_LIMIT alone when none resolves. So the value limit is
   * checked by default, and not for a wallet whose policies resolve only to
   * other categories.
   */
  function ResolveActivePolicyCategories(policyIds: seq<int>, getCategory: int -> Option<PolicyCategory>)
    : (s: set<PolicyCategory>)
    ensures s != {}
    ensures (forall id :: id in policyIds ==> getCategory(id).None?) ==> s == {ValueLimit}
    ensures (exists id :: id in policyIds && getCategory(id).Some?) ==>
      forall c :: c in s <==> exists id :: id in policyIds && getCategory(id) == Some(c)
  {
    var s := ResolvedCategories(policyIds, getCategory);
    assert s == {} <==> forall id :: id in policyIds ==> getCategory(id).None? by {
      if s != {} {
        var c :| c in s;
      }
    }
    if s == {} then {ValueLimit} else s
  }

  /** The cases of the category-resolution tests. */
  lemma ResolutionExamples(a: int, b: int)
    requires a != b
    ensures ResolveActivePolicyCategories([], _ => None) == {ValueLimit}
    ensures ResolveActivePolicyCategories([a], _ => None) == {ValueLimit}
    ensures ResolveActivePolicyCategories([a], id => if id == a then Some(ValueLimit) else None) == {ValueLimit}
    ensures ResolveActivePolicyCategories([a], id => if id == a then Some(TxCountLimit) else None) == {TxCountLimit}
    ensures ResolveActivePolicyCategories([a, b], id => if id == a || id == b then Some(ValueLimit) else None)
         == {ValueLimit}
    ensures ResolveActivePolicyCategories([a, b],
              id => if id == a then Some(ValueLimit) else if id == b then Some(TxCountLimit) else None)
         == {ValueLimit, TxCountLimit}
  {
    var f := id => if id == a then Some(TxCountLimit) else None;
    assert a in [a] && f(a).Some?;
    var g := id => if id == a || id == b then Some(ValueLimit) else None;
    assert a in [a, b] && g(a).Some?;
    var h := id => if id == a then Some(ValueLimit) else if id == b then Some(TxCountLimit) else None;
    assert a in [a, b] && h(a) == Some(ValueLimit);
    assert b in [a, b] && h(b) == Some(TxCountLimit);
  }

  /** The active categories of a wallet, resolved through the policies table. */
  function ActiveCategories(policyRows: seq<Policies.PolicyRow>, wallet: Wallet): set<PolicyCategory> {
    ResolveActivePolicyCategories(wallet.policyIds, id => Policies.CategoryById(policyRows, id))
  }

  /** A wallet whose attached policies resolve, all of them, to TX_COUNT_LIMIT is not value-limit checked. */
  lemma OnlyTxCountPolicies(policyRows: seq<Policies.PolicyRow>, wallet: Wallet)
    requires exists id :: id in wallet.policyIds && Policies.CategoryById(policyRows, id).Some?
    requires forall id :: id in wallet.policyIds && Policies.CategoryById(policyRows, id).Some? ==>
      Policies.CategoryById(policyRows, id) == Some(TxCountLimit)
    ensures ActiveCategories(policyRows, wallet) == {TxCountLimit}
  {
    var getCategory := id => Policies.CategoryById(policyRows, id);
    var id :| id in wallet.policyIds && getCategory(id).Some?;
    assert getCategory(id) == Some(TxCountLimit);
  }

  /** The policy validators a service can be given. */
  datatype Validator = ValueLimitCheck | TxCountLimitCheck

  function Supports(v: Validator, c: PolicyCategory): bool {
    match v
    case ValueLimitCheck => ValueLimit.Supports(c)
    case TxCountLimitCheck => TxCount.Supports(c)
  }

  /** Each category is supported by exactly one of the two validators. */
  lemma SupportsPartition(c: PolicyCategory)
    ensures Supports(ValueLimitCheck, c) <==> c == ValueLimit
    ensures Supports(TxCountLimitCheck, c) <==> c == TxCountLimit
    ensures Supports(ValueLimitCheck, c) != Supports(TxCountLimitCheck, c)
  {
  }

  /** The validators the application wires in, in order: value limit first, then transaction count. */
  const Registered: seq<Validator> := [ValueLimitCheck, TxCountLimitCheck]

  /** One validator's verdict. */
  function Run(v: Validator, policyRows: seq<Policies.PolicyRow>, paymentRows: seq<Payment>, wallet: Wallet,
               amount: int, occurredAt: int): Verdict
    requires Policies.RequiredFieldsStored(policyRows)
  {
    match v
    case ValueLimitCheck => ValueLimit.Validate(policyRows, paymentRows, wallet, amount, occurredAt)
    case TxCountLimitCheck => TxCount.Validate(policyRows, paymentRows, wallet, amount, occurredAt)
  }

  /** `validators.filter { v -> categories.any { c -> v.supports(c) } }`, in list order. */
  function Active(validators: seq<Validator>, categories: set<PolicyCategory>): (r: seq<Validator>)
    ensures |r| <= |validators|
    ensures forall v :: v in r <==> v in validators && exists c :: c in categories && Supports(v, c)
  {
    if validators == [] then []
    else
      var rest := Active(validators[1..], categories);
      assert forall v :: v in validators <==> v == validators[0] || v in validators[1..];
      if exists c :: c in categories && Supports(validators[0], c) then [validators[0]] + rest else rest
  }

  /** The filter keeps list order: filtering a concatenation concatenates the filtered parts. */
  lemma {:induction false} ActiveAppend(a: seq<Validator>, b: seq<Validator>, categories: set<PolicyCategory>)
    ensures Active(a + b, categories) == Active(a, categories) + Active(b, categories)
  {
    if a == [] {
      assert a + b == b;
    } else {
      var v, tail := a[0], a[1..];
      assert a == [v] + tail && a + b == [v] + (tail + b);
      ActiveCons(v, tail + b, categories);
      ActiveAppend(tail, b, categories);
      ActiveCons(v, tail, categories);
    }
  }

  /** The first validator's fate is decided on its own, before the rest is filtered. */
  lemma ActiveCons(v: Validator, rest: seq<Validator>, categories: set<PolicyCategory>)
    ensures Active([v] + rest, categories) == Active([v], categories) + Active(rest, categories)
  {
    assert ([v] + rest)[0] == v && ([v] + rest)[1..] == rest;
    ActiveOne(v, categories);
  }

  /** One validator is kept exactly when it supports an active category. */
  lemma ActiveOne(v: Validator, categories: set<PolicyCategory>)
    ensures Active([v], categories) == if exists c :: c in categories && Supports(v, c) then [v] else []
  {
    assert [v][1..] == [];
  }

  /**
   * With the registered validators, the value-limit check runs first when
   * VALUE_LIMIT is active and the transaction-count check after it when
   * TX_COUNT_LIMIT is active.
   */
  lemma RegisteredActive(categories: set<PolicyCategory>)
    ensures Active(Registered, categories)
         == (if ValueLimit in categories then [ValueLimitCheck] else [])
          + (if TxCountLimit in categories then [TxCountLimitCheck] else [])
  {
    assert Registered == [ValueLimitCheck] + [TxCountLimitCheck];
    ActiveAppend([ValueLimitCheck], [TxCountLimitCheck], categories);
    ActiveOne(ValueLimitCheck, categories);
    ActiveOne(TxCountLimitCheck, categories);
    assert (exists c :: c in categories && Supports(ValueLimitCheck, c)) <==> ValueLimit in categories by {
      if ValueLimit in categories {
        assert Supports(ValueLimitCheck, ValueLimit);
      }
    }
    assert (exists c :: c in categories && Supports(TxCountLimitCheck, c)) <==> TxCountLimit in categories by {
      if TxCountLimit in categories {
        assert Supports(TxCountLimitCheck, TxCountLimit);
      }
    }
  }

  /**
   * When both limits are active and the value limit rejects, the value-limit
   * violation is the one reported, whatever the transaction count would say.
   */
  lemma ValueLimitReportedFirst(categories: set<PolicyCategory>, policyRows: seq<Policies.PolicyRow>,
                                paymentRows: seq<Payment>, wallet: Wallet, amount: int, occurredAt: int)
    requires Policies.RequiredFieldsStored(policyRows) && ValueLimit in categories
    requires Run(ValueLimitCheck, policyRows, paymentRows, wallet, amount, occurredAt).Reject?
    ensures FirstRejection(Active(Registered, categories), policyRows, paymentRows, wallet, amount, occurredAt)
         == Run(ValueLimitCheck, policyRows, paymentRows, wallet, amount, occurredAt)
  {
    RegisteredActive(categories);
    var active := Active(Registered, categories);
    assert active[0] == ValueLimitCheck;
  }

  /**
   * The verdict of running validators in order until one throws: the first
   * rejection, or Pass when all pass.
   */
  function FirstRejection(validators: seq<Validator>, policyRows: seq<Policies.PolicyRow>, paymentRows: seq<Payment>,
                          wallet: Wallet, amount: int, occurredAt: int): (v: Verdict)
    requires Policies.RequiredFieldsStored(policyRows)
    ensures v.Pass? <==> forall i :: 0 <= i < |validators| ==>
      Run(validators[i], policyRows, paymentRows, wallet, amount, occurredAt) == Pass
    ensures v.Reject? ==>
      exists i :: && 0 <= i < |validators|
                  && Run(validators[i], policyRows, paymentRows, wallet, amount, occurredAt) == v
                  && forall j :: 0 <= j < i ==> Run(validators[j], policyRows, paymentRows, wallet, amount, occurredAt) == Pass
  {
    if validators == [] then Pass
    else
      var first := Run(validators[0], policyRows, paymentRows, wallet, amount, occurredAt);
      if first.Reject? then first
      else
        var rest := FirstRejection(validators[1..], policyRows, paymentRows, wallet, amount, occurredAt);
        assert forall i :: 1 <= i < |validators| ==> validators[i] == validators[1..][i - 1];
        assert rest.Reject? ==>
          exists i :: && 0 <= i < |validators|
                      && Run(validators[i], policyRows, paymentRows, wallet, amount, occurredAt) == rest
                      && forall j :: 0 <= j < i ==> Run(validators[j], policyRows, paymentRows, wallet, amount, occurredAt) == Pass
        by {
          if rest.Reject? {
            var i :| 0 <= i < |validators[1..]| &&
              Run(validators[1..][i], policyRows, paymentRows, wallet, amount, occurredAt) == rest &&
              forall j :: 0 <= j < i ==> Run(validators[1..][j], policyRows, paymentRows, wallet, amount, occurredAt) == Pass;
            assert Run(validators[i + 1], policyRows, paymentRows, wallet, amount, occurredAt) == rest;
          }
        }
        rest
  }

  /** The forEach over the active validators: stops at the first rejection. */
  method RunValidators(validators: seq<Validator>, policyRows: seq<Policies.PolicyRow>, paymentRows: seq<Payment>,
                       wallet: Wallet, amount: int, occurredAt: int) returns (v: Verdict)
    requires Policies.RequiredFieldsStored(policyRows)
    ensures v == FirstRejection(validators, policyRows, paymentRows, wallet, amount, occurredAt)
  {
    var i := 0;
    while i < |validators|
      invariant 0 <= i <= |validators|
      invariant FirstRejection(validators[i..], policyRows, paymentRows, wallet, amount, occurredAt)
             == FirstRejection(validators, policyRows, paymentRows, wallet, amount, occurredAt)
    {
      var verdict := Run(validators[i], policyRows, paymentRows, wallet, amount, occurredAt);
      if verdict.Reject? {
        return verdict;
      }
      assert validators[i..][1..] == validators[i + 1..];
      i := i + 1;
    }
    v := Pass;
  }

  /** A stored payment answers a retried request: same wallet, numerically equal amount, same instant. */
  predicate SamePayload(p: Payment, walletId: int, amount: int, occurredAt: int) {
    p.walletId == walletId && p.amount == amount && p.occurredAt == occurredAt
  }

  /**
   * `handleIdempotencyConflict`: after a unique-key clash the key is looked
   * up again; the stored payment is replayed if it has the same payload,
   * otherwise (or if the key is absent) the request conflicts.
   */
  function HandleIdempotencyConflict(paymentRows: seq<Payment>, key: string, walletId: int, amount: int,
                                     occurredAt: int): (r: CreatePaymentResult)
    ensures r.Success? || r.Conflict?
    ensures r.Success? ==> !r.isNew && r.payment in paymentRows && r.payment.idempotencyKey == key
    ensures r.Success? ==> SamePayload(r.payment, walletId, amount, occurredAt)
    ensures Payments.Constrained(paymentRows) ==>
      (r.Success? <==> exists p :: p in paymentRows && p.idempotencyKey == key && SamePayload(p, walletId, amount, occurredAt))
  {
    match Payments.FindByIdempotencyKey(paymentRows, key)
    case None => Conflict
    case Some(existing) =>
      assert Payments.Constrained(paymentRows) ==>
        forall p :: p in paymentRows && p.idempotencyKey == key ==> p == existing
      by {
        if Payments.Constrained(paymentRows) {
          forall p | p in paymentRows && p.idempotencyKey == key ensures p == existing {
            Payments.SameKeySameRow(paymentRows, p, existing);
          }
        }
      }
      if SamePayload(existing, walletId, amount, occurredAt) then Success(existing, false) else Conflict
  }

  /**
   * A concurrent call may commit a payment with the same key after this
   * call's lookup and before its insert: then this call's insert violates the
   * unique key and is rolled back, and that payment is what the table holds.
   */
  predicate RaceAdmissible(paymentRows: seq<Payment>, key: string, raced: Option<Payment>) {
    raced.Some? ==> raced.value.idempotencyKey == key && Payments.Insertable(paymentRows, raced.value)
  }

  /** The payment a successful new request stores. */
  function NewPayment(newId: int, walletId: int, amount: int, occurredAt: int, key: string, now: int): Payment {
    Payment(newId, walletId, amount, occurredAt, key, Approved, now, now)
  }

  /**
   * `createPayment` as a function: the outcome and the payment rows after
   * it. newId and now stand for the random id and the clock; raced for a
   * concurrent insert of the same key.
   */
  function Accept(walletRows: map<int, Wallets.WalletRow>, policyRows: seq<Policies.PolicyRow>, paymentRows: seq<Payment>,
                  validators: seq<Validator>, walletId: int, amount: int, occurredAt: int, key: string,
                  newId: int, now: int, raced: Option<Payment>): (r: (CreatePaymentResult, seq<Payment>))
    requires Policies.RequiredFieldsStored(policyRows) && RaceAdmissible(paymentRows, key, raced)
    ensures r.0.Success? && r.0.isNew ==>
      r.0.payment == NewPayment(newId, walletId, amount, occurredAt, key, now) && r.1 == paymentRows + [r.0.payment]
    ensures r.1 == paymentRows || r.1 == paymentRows + [NewPayment(newId, walletId, amount, occurredAt, key, now)]
         || (raced.Some? && r.1 == paymentRows + [raced.value])
  {
    match Wallets.GetById(walletRows, walletId)
    case None => (WalletNotFound, paymentRows)
    case Some(wallet) =>
      match Payments.FindByIdempotencyKey(paymentRows, key)
      case Some(existing) =>
        (if SamePayload(existing, walletId, amount, occurredAt) then Success(existing, false) else Conflict, paymentRows)
      case None =>
        var active := Active(validators, ActiveCategories(policyRows, wallet));
        match FirstRejection(active, policyRows, paymentRows, wallet, amount, occurredAt)
        case Reject(violation) => (PolicyViolation(violation), paymentRows)
        case Pass => Commit(paymentRows, NewPayment(newId, walletId, amount, occurredAt, key, now), raced)
  }

  /**
   * The insert that ends an accepted request: a concurrent payment of the
   * same key wins and the clash is handled as a retry; otherwise the payment
   * is stored, or, if the table refuses it, the clash is handled likewise.
   */
  function Commit(paymentRows: seq<Payment>, payment: Payment, raced: Option<Payment>): (r: (CreatePaymentResult, seq<Payment>))
    ensures r.0.Success? || r.0.Conflict?
    ensures (r.0.Success? && r.0.isNew) <==> raced.None? && Payments.Insertable(paymentRows, payment)
    ensures r.0.Success? && r.0.isNew ==> r.0.payment == payment && r.1 == paymentRows + [payment]
    ensures !(r.0.Success? && r.0.isNew) ==> r.1 == if raced.Some? then paymentRows + [raced.value] else paymentRows
    ensures r.0.Success? && !r.0.isNew ==>
      r.0.payment.idempotencyKey == payment.idempotencyKey && r.0.payment in r.1
      && SamePayload(r.0.payment, payment.walletId, payment.amount, payment.occurredAt)
  {
    var key := payment.idempotencyKey;
    match raced
    case Some(other) =>
      var after := paymentRows + [other];
      (HandleIdempotencyConflict(after, key, payment.walletId, payment.amount, payment.occurredAt), after)
    case None =>
      if Payments.Insertable(paymentRows, payment) then (Success(payment, true), paymentRows + [payment])
      else (HandleIdempotencyConflict(paymentRows, key, payment.walletId, payment.amount, payment.occurredAt), paymentRows)
  }

  /** An unknown wallet is reported and no payment is stored. */
  lemma WalletMissing(walletRows: map<int, Wallets.WalletRow>, policyRows: seq<Policies.PolicyRow>,
                      paymentRows: seq<Payment>, validators: seq<Validator>, walletId: int, amount: int,
                      occurredAt: int, key: string, newId: int, now: int, raced: Option<Payment>)
    requires Policies.RequiredFieldsStored(policyRows) && RaceAdmissible(paymentRows, key, raced)
    requires walletId !in walletRows
    ensures Accept(walletRows, policyRows, paymentRows, validators, walletId, amount, occurredAt, key, newId, now, raced)
         == (WalletNotFound, paymentRows)
  {
  }

  /**
   * A key already stored is answered from the store and nothing is stored:
   * the stored payment, not new, when the payload is the same; Conflict when
   * the wallet, the amount or the instant differs.
   */
  lemma KeyAlreadyStored(walletRows: map<int, Wallets.WalletRow>, policyRows: seq<Policies.PolicyRow>,
                         paymentRows: seq<Payment>, validators: seq<Validator>, walletId: int, amount: int,
                         occurredAt: int, key: string, newId: int, now: int, raced: Option<Payment>, existing: Payment)
    requires Policies.RequiredFieldsStored(policyRows) && RaceAdmissible(paymentRows, key, raced)
    requires Payments.Constrained(paymentRows) && walletId in walletRows
    requires existing in paymentRows && existing.idempotencyKey == key
    ensures Accept(walletRows, policyRows, paymentRows, validators, walletId, amount, occurredAt, key, newId, now, raced)
         == (if SamePayload(existing, walletId, amount, occurredAt) then Success(existing, false) else Conflict, paymentRows)
  {
    var found := Payments.FindByIdempotencyKey(paymentRows, key);
    Payments.SameKeySameRow(paymentRows, found.value, existing);
  }

  /**
   * A rejection is the first rejection among the active validators, in list
   * order, and stores nothing.
   */
  lemma RejectionStoresNothing(walletRows: map<int, Wallets.WalletRow>, policyRows: seq<Policies.PolicyRow>,
                               paymentRows: seq<Payment>, validators: seq<Validator>, walletId: int, amount: int,
                               occurredAt: int, key: string, newId: int, now: int, raced: Option<Payment>)
    requires Policies.RequiredFieldsStored(policyRows) && RaceAdmissible(paymentRows, key, raced)
    ensures var (r, after) := Accept(walletRows, policyRows, paymentRows, validators, walletId, amount, occurredAt,
                                     key, newId, now, raced);
      r.PolicyViolation? ==>
        && after == paymentRows
        && walletId in walletRows
        && var wallet := Wallets.GetById(walletRows, walletId).value;
           FirstRejection(Active(validators, ActiveCategories(policyRows, wallet)), policyRows, paymentRows, wallet,
                          amount, occurredAt) == Reject(r.e)
  {
  }

  /**
   * A new payment is accepted exactly when the wallet exists, the key is not
   * stored, every active validator passes and no concurrent insert of the
   * key wins; then exactly that one APPROVED payment, carrying the request's
   * fields and createdAt == updatedAt, is appended and nothing else changes.
   */
  lemma NewPaymentAppended(walletRows: map<int, Wallets.WalletRow>, policyRows: seq<Policies.PolicyRow>,
                           paymentRows: seq<Payment>, validators: seq<Validator>, walletId: int, amount: int,
                           occurredAt: int, key: string, newId: int, now: int, raced: Option<Payment>)
    requires Policies.RequiredFieldsStored(policyRows) && RaceAdmissible(paymentRows, key, raced)
    requires Payments.Constrained(paymentRows)
    ensures var (r, after) := Accept(walletRows, policyRows, paymentRows, validators, walletId, amount, occurredAt,
                                     key, newId, now, raced);
      var p := NewPayment(newId, walletId, amount, occurredAt, key, now);
      && ((r.Success? && r.isNew) <==>
            && walletId in walletRows
            && (forall q :: q in paymentRows ==> q.idempotencyKey != key)
            && FirstRejection(Active(validators, ActiveCategories(policyRows, Wallets.GetById(walletRows, walletId).value)),
                              policyRows, paymentRows, Wallets.GetById(walletRows, walletId).value, amount, occurredAt).Pass?
            && raced.None?
            && Payments.Insertable(paymentRows, p))
      && (r.Success? && r.isNew ==> r.payment == p && p.status == Approved && p.createdAt == p.updatedAt
                                    && after == paymentRows + [p])
  {
  }

  /**
   * Apart from a new acceptance, a call stores nothing of its own: the rows
   * are unchanged, or (after a lost race) hold exactly the concurrent payment.
   */
  lemma OtherwiseUnchanged(walletRows: map<int, Wallets.WalletRow>, policyRows: seq<Policies.PolicyRow>,
                           paymentRows: seq<Payment>, validators: seq<Validator>, walletId: int, amount: int,
                           occurredAt: int, key: string, newId: int, now: int, raced: Option<Payment>)
    requires Policies.RequiredFieldsStored(policyRows) && RaceAdmissible(paymentRows, key, raced)
    ensures var (r, after) := Accept(walletRows, policyRows, paymentRows, validators, walletId, amount, occurredAt,
                                     key, newId, now, raced);
      !(r.Success? && r.isNew) ==> after == paymentRows || (raced.Some? && after == paymentRows + [raced.value])
  {
  }

  /**
   * After losing a race to a concurrent insert of the same key, the
   * concurrent payment is returned, not new, when it has the same payload,
   * and the request conflicts otherwise.
   */
  lemma LostRace(walletRows: map<int, Wallets.WalletRow>, policyRows: seq<Policies.PolicyRow>,
                 paymentRows: seq<Payment>, validators: seq<Validator>, walletId: int, amount: int,
                 occurredAt: int, key: string, newId: int, now: int, other: Payment)
    requires Policies.RequiredFieldsStored(policyRows) && RaceAdmissible(paymentRows, key, Some(other))
    requires Payments.Constrained(paymentRows)
    requires var (r, _) := Accept(walletRows, policyRows, paymentRows, validators, walletId, amount, occurredAt,
                                  key, newId, now, Some(other));
      !r.WalletNotFound? && !r.PolicyViolation?
    ensures Accept(walletRows, policyRows, paymentRows, validators, walletId, amount, occurredAt, key, newId, now, Some(other))
         == (if SamePayload(other, walletId, amount, occurredAt) then Success(other, false) else Conflict,
             paymentRows + [other])
  {
    Payments.FindInserted(paymentRows, other);
  }

  /** Every call keeps the payments table's unique id and unique key. */
  lemma AcceptKeepsConstraints(walletRows: map<int, Wallets.WalletRow>, policyRows: seq<Policies.PolicyRow>,
                               paymentRows: seq<Payment>, validators: seq<Validator>, walletId: int, amount: int,
                               occurredAt: int, key: string, newId: int, now: int, raced: Option<Payment>)
    requires Policies.RequiredFieldsStored(policyRows) && RaceAdmissible(paymentRows, key, raced)
    requires Payments.Constrained(paymentRows)
    ensures Payments.Constrained(Accept(walletRows, policyRows, paymentRows, validators, walletId, amount, occurredAt,
                                        key, newId, now, raced).1)
  {
    var p := NewPayment(newId, walletId, amount, occurredAt, key, now);
    if raced.Some? {
      Payments.InsertKeepsConstraints(paymentRows, raced.value);
    }
    if Payments.Insertable(paymentRows, p) {
      Payments.InsertKeepsConstraints(paymentRows, p);
    }
  }

  /**
   * Retrying an accepted request, with any fresh id and clock, replays the
   * same payment and stores nothing; the same key with a different payload
   * conflicts.
   */
  lemma RetryAfterAcceptance(walletRows: map<int, Wallets.WalletRow>, policyRows: seq<Policies.PolicyRow>,
                             paymentRows: seq<Payment>, validators: seq<Validator>, walletId: int, amount: int,
                             occurredAt: int, key: string, newId: int, now: int,
                             walletId2: int, amount2: int, occurredAt2: int, newId2: int, now2: int)
    requires Policies.RequiredFieldsStored(policyRows) && Payments.Constrained(paymentRows)
    requires var (r, _) := Accept(walletRows, policyRows, paymentRows, validators, walletId, amount, occurredAt,
                                  key, newId, now, None);
      r.Success? && r.isNew
    requires walletId2 in walletRows
    ensures var (r, after) := Accept(walletRows, policyRows, paymentRows, validators, walletId, amount, occurredAt,
                                     key, newId, now, None);
      && Accept(walletRows, policyRows, after, validators, walletId, amount, occurredAt, key, newId2, now2, None)
         == (Success(r.payment, false), after)
      && (!SamePayload(r.payment, walletId2, amount2, occurredAt2) ==>
            Accept(walletRows, policyRows, after, validators, walletId2, amount2, occurredAt2, key, newId2, now2, None)
            == (Conflict, after))
  {
    var p := NewPayment(newId, walletId, amount, occurredAt, key, now);
    NewPaymentAppended(walletRows, policyRows, paymentRows, validators, walletId, amount, occurredAt, key, newId, now, None);
    Payments.FindInserted(paymentRows, p);
  }

  /** A new acceptance found the wallet, passed every active validator and appended the new payment. */
  lemma AcceptedNew(walletRows: map<int, Wallets.WalletRow>, policyRows: seq<Policies.PolicyRow>,
                    paymentRows: seq<Payment>, validators: seq<Validator>, walletId: int, amount: int,
                    occurredAt: int, key: string, newId: int, now: int)
    requires Policies.RequiredFieldsStored(policyRows)
    requires var (r, _) := Accept(walletRows, policyRows, paymentRows, validators, walletId, amount, occurredAt,
                                  key, newId, now, None);
      r.Success? && r.isNew
    ensures walletId in walletRows
    ensures var wallet := Wallets.GetById(walletRows, walletId).value;
      FirstRejection(Active(validators, ActiveCategories(policyRows, wallet)), policyRows, paymentRows, wallet,
                     amount, occurredAt) == Pass
    ensures Accept(walletRows, policyRows, paymentRows, validators, walletId, amount, occurredAt, key, newId, now, None).1
         == paymentRows + [NewPayment(newId, walletId, amount, occurredAt, key, now)]
  {
  }

  /** When the active validators all pass, so does each validator that supports an active category. */
  lemma ActivePasses(validators: seq<Validator>, categories: set<PolicyCategory>, v: Validator, c: PolicyCategory,
                     policyRows: seq<Policies.PolicyRow>, paymentRows: seq<Payment>, wallet: Wallet, amount: int,
                     occurredAt: int)
    requires Policies.RequiredFieldsStored(policyRows)
    requires v in validators && c in categories && Supports(v, c)
    requires FirstRejection(Active(validators, categories), policyRows, paymentRows, wallet, amount, occurredAt) == Pass
    ensures Run(v, policyRows, paymentRows, wallet, amount, occurredAt) == Pass
  {
    var active := Active(validators, categories);
    assert v in active;
    var i :| 0 <= i < |active| && active[i] == v;
  }

  /**
   * At acceptance the value limit holds: when the value-limit validator is
   * wired in and VALUE_LIMIT is active, a newly accepted payment is within
   * the per-payment cap and its window's sum, itself included, is within its
   * period's limit. (Nighttime windows overlap weekend days, so this is a
   * statement about the moment of acceptance, not a global invariant.)
   */
  lemma AcceptedWithinValueLimits(walletRows: map<int, Wallets.WalletRow>, policyRows: seq<Policies.PolicyRow>,
                                  paymentRows: seq<Payment>, validators: seq<Validator>, walletId: int, amount: int,
                                  occurredAt: int, key: string, newId: int, now: int)
    requires Policies.RequiredFieldsStored(policyRows) && ValueLimitCheck in validators
    requires walletId in walletRows
    requires ValueLimit in ActiveCategories(policyRows, Wallets.GetById(walletRows, walletId).value)
    requires var (r, _) := Accept(walletRows, policyRows, paymentRows, validators, walletId, amount, occurredAt,
                                  key, newId, now, None);
      r.Success? && r.isNew
    ensures var wallet := Wallets.GetById(walletRows, walletId).value;
      var e := ValueLimit.ResolveEffectiveLimits(policyRows, wallet);
      var after := Accept(walletRows, policyRows, paymentRows, validators, walletId, amount, occurredAt,
                          key, newId, now, None).1;
      amount <= e.maxPerPayment && ValueLimit.SpentInWindow(after, walletId, occurredAt) <= ValueLimit.LimitFor(e, GetPeriod(occurredAt))
  {
    var wallet := Wallets.GetById(walletRows, walletId).value;
    AcceptedNew(walletRows, policyRows, paymentRows, validators, walletId, amount, occurredAt, key, newId, now);
    ActivePasses(validators, ActiveCategories(policyRows, wallet), ValueLimitCheck, ValueLimit,
                 policyRows, paymentRows, wallet, amount, occurredAt);
    ValueLimit.PassKeepsWithinLimits(policyRows, paymentRows, wallet, NewPayment(newId, walletId, amount, occurredAt, key, now));
  }

  /**
   * At acceptance the daily count holds: when the transaction-count
   * validator is wired in, TX_COUNT_LIMIT is active and a maximum applies, a
   * newly accepted payment leaves its UTC day with at most that many payments.
   */
  lemma AcceptedWithinTxCount(walletRows: map<int, Wallets.WalletRow>, policyRows: seq<Policies.PolicyRow>,
                              paymentRows: seq<Payment>, validators: seq<Validator>, walletId: int, amount: int,
                              occurredAt: int, key: string, newId: int, now: int)
    requires Policies.RequiredFieldsStored(policyRows) && TxCountLimitCheck in validators
    requires walletId in walletRows
    requires TxCountLimit in ActiveCategories(policyRows, Wallets.GetById(walletRows, walletId).value)
    requires TxCount.MaxTxPerDay(policyRows, Wallets.GetById(walletRows, walletId).value).Some?
    requires var (r, _) := Accept(walletRows, policyRows, paymentRows, validators, walletId, amount, occurredAt,
                                  key, newId, now, None);
      r.Success? && r.isNew
    ensures var wallet := Wallets.GetById(walletRows, walletId).value;
      var after := Accept(walletRows, policyRows, paymentRows, validators, walletId, amount, occurredAt,
                          key, newId, now, None).1;
      TxCount.CountOnDay(after, walletId, occurredAt) <= TxCount.MaxTxPerDay(policyRows, wallet).value
  {
    var wallet := Wallets.GetById(walletRows, walletId).value;
    AcceptedNew(walletRows, policyRows, paymentRows, validators, walletId, amount, occurredAt, key, newId, now);
    ActivePasses(validators, ActiveCategories(policyRows, wallet), TxCountLimitCheck, TxCountLimit,
                 policyRows, paymentRows, wallet, amount, occurredAt);
    TxCount.PassKeepsWithinMax(policyRows, paymentRows, wallet, NewPayment(newId, walletId, amount, occurredAt, key, now));
  }

  /** A payment of 1000.00 by wallet 1 at the given hour of Monday 2024-08-26. */
  function MondayThousand(id: int, key: string, hour: int): Payment {
    Payment(id, 1, 100000, Monday20240826 + hour * SecondsPerHour, key, Approved, 0, 0)
  }

  /** The wallets table of the daily-reset scenario: wallet 1, no policy. */
  const ResetWallets: map<int, Wallets.WalletRow> := map[1 := Wallets.WalletRow("ResetVal", None, 0)]

  /** Four payments of 1000.00 by wallet 1 on Monday 2024-08-26, at 10:00, 11:00, 12:00 and 13:00. */
  function ResetHistory(): seq<Payment> {
    [MondayThousand(1, "r1", 10), MondayThousand(2, "r2", 11), MondayThousand(3, "r3", 12), MondayThousand(4, "r4", 13)]
  }

  /** Wallet 1 has no policy, so only the value-limit validator runs, with the default limits. */
  lemma ResetWalletChecks()
    ensures ResetWallets[1] == Wallets.WalletRow("ResetVal", None, 0)
    ensures Wallets.GetById(ResetWallets, 1) == Some(Wallet(1, "ResetVal", [], 0))
    ensures Active(Registered, ActiveCategories([], Wallet(1, "ResetVal", [], 0))) == [ValueLimitCheck]
    ensures ValueLimit.ResolveEffectiveLimits([], Wallet(1, "ResetVal", [], 0)) == ValueLimit.Defaults
  {
    var wallet := Wallet(1, "ResetVal", [], 0);
    assert ActiveCategories([], wallet) == {ValueLimit};
    assert Supports(ValueLimitCheck, ValueLimit) && !Supports(TxCountLimitCheck, ValueLimit);
    assert Registered[1..] == [TxCountLimitCheck] && Registered[1..][1..] == [];
    ValueLimit.DefaultsWithoutPolicies(wallet);
  }

  /** The history is a valid table that holds neither key "r5" nor key "r6". */
  lemma ResetHistoryKeys()
    ensures Payments.Constrained(ResetHistory())
    ensures Payments.FindByIdempotencyKey(ResetHistory(), "r5") == None
    ensures Payments.FindByIdempotencyKey(ResetHistory(), "r6") == None
    ensures Payments.Insertable(ResetHistory(), NewPayment(6, 1, 50000, Monday20240826 + 34 * SecondsPerHour, "r6", 0))
  {
    var history := ResetHistory();
    ResetHistoryConstrained();
    assert history[0].idempotencyKey[1] == '1' && history[1].idempotencyKey[1] == '2';
    assert history[2].idempotencyKey[1] == '3' && history[3].idempotencyKey[1] == '4';
    assert forall q :: q in history ==> q.idempotencyKey[1] != '5' && q.idempotencyKey[1] != '6';
  }

  /** The history's ids 1..4 and keys r1..r4 are distinct. */
  lemma ResetHistoryConstrained()
    ensures Payments.Constrained(ResetHistory())
  {
    var history := ResetHistory();
    assert forall i, j :: 0 <= i < j < |history| ==> history[i].id != history[j].id;
    assert history[0].idempotencyKey[1] == '1' && history[1].idempotencyKey[1] == '2';
    assert history[2].idempotencyKey[1] == '3' && history[3].idempotencyKey[1] == '4';
  }

  /** Monday 14:00 is daytime, and Monday's daytime window already holds 4000.00 of wallet 1. */
  lemma {:induction false} ResetMondaySpent()
    ensures GetPeriod(Monday20240826 + 14 * SecondsPerHour) == Daytime
    ensures ValueLimit.SpentInWindow(ResetHistory(), 1, Monday20240826 + 14 * SecondsPerHour) == 400000
  {
    var monday := EpochDay(Monday20240826);
    AtSplits(monday, 14 * SecondsPerHour);
    WeekdayClassification(monday, 14 * SecondsPerHour);
    DaytimeWindow(monday, 14 * SecondsPerHour);
    var w := ValueLimit.WindowOf(Monday20240826 + 14 * SecondsPerHour);
    assert w == Window(Monday20240826 + 6 * SecondsPerHour, Monday20240826 + 18 * SecondsPerHour);
    var h1 := [MondayThousand(1, "r1", 10)];
    var h2 := h1 + [MondayThousand(2, "r2", 11)];
    var h3 := h2 + [MondayThousand(3, "r3", 12)];
    assert [] + h1 == h1;
    assert h3 + [MondayThousand(4, "r4", 13)] == ResetHistory();
    Payments.SumAppend([], MondayThousand(1, "r1", 10), 1, w.start, w.end);
    Payments.SumAppend(h1, MondayThousand(2, "r2", 11), 1, w.start, w.end);
    Payments.SumAppend(h2, MondayThousand(3, "r3", 12), 1, w.start, w.end);
    Payments.SumAppend(h3, MondayThousand(4, "r4", 13), 1, w.start, w.end);
  }

  /** Tuesday 10:00 is daytime, and Tuesday's daytime window holds nothing yet. */
  lemma {:induction false} ResetTuesdaySpent()
    ensures GetPeriod(Monday20240826 + 34 * SecondsPerHour) == Daytime
    ensures ValueLimit.SpentInWindow(ResetHistory(), 1, Monday20240826 + 34 * SecondsPerHour) == 0
  {
    var tuesday := EpochDay(Monday20240826) + 1;
    AtSplits(tuesday, 10 * SecondsPerHour);
    WeekdayClassification(tuesday, 10 * SecondsPerHour);
    DaytimeWindow(tuesday, 10 * SecondsPerHour);
    var w := ValueLimit.WindowOf(Monday20240826 + 34 * SecondsPerHour);
    assert w.start == Monday20240826 + 30 * SecondsPerHour;
    assert forall q :: q in ResetHistory() ==> !Payments.InPeriod(q, 1, w.start, w.end);
  }

  /**
   * The daily reset, first half: after four payments of 1000.00 on Monday, a
   * fifth of 500.00 at 14:00 breaks the 4000.00 daytime limit and stores nothing.
   */
  lemma FifthPaymentRejected()
    ensures Accept(ResetWallets, [], ResetHistory(), Registered, 1, 50000, Monday20240826 + 14 * SecondsPerHour, "r5", 5, 0,
                   None)
         == (PolicyViolation(Violation(ValueLimit, Some(Daytime))), ResetHistory())
  {
    ResetWalletChecks();
    ResetHistoryKeys();
    ResetMondaySpent();
  }

  /** The daily reset, second half: 500.00 on Tuesday at 10:00 is accepted as a new payment. */
  lemma NextDayAccepted()
    ensures Accept(ResetWallets, [], ResetHistory(), Registered, 1, 50000, Monday20240826 + 34 * SecondsPerHour, "r6", 6, 0,
                   None).0
         == Success(NewPayment(6, 1, 50000, Monday20240826 + 34 * SecondsPerHour, "r6", 0), true)
  {
    ResetWalletChecks();
    ResetHistoryKeys();
    ResetTuesdaySpent();
  }

  /** `ListPaymentsResult`. */
  datatype ListPaymentsResult = ListPaymentsResult(data: seq<Payment>, nextCursor: Option<int>, total: int)

  /**
   * `listPayments`: None for an unknown wallet; otherwise one page of the
   * wallet's payments in the inclusive date range, and the total number of
   * such payments whatever the cursor.
   */
  function ListPayments(walletRows: map<int, Wallets.WalletRow>, paymentRows: seq<Payment>, walletId: int,
                        startDate: Option<int>, endDate: Option<int>, cursor: Option<int>, limit: nat)
    : (r: Option<ListPaymentsResult>)
    requires 1 <= limit
    ensures r.None? <==> walletId !in walletRows
    ensures r.Some? ==> r.value.total == |Payments.Matching(paymentRows, walletId, startDate, endDate)|
    ensures r.Some? ==> |r.value.data| <= limit && forall q :: q in r.value.data ==>
      q in paymentRows && q.walletId == walletId && Payments.InRange(q, walletId, startDate, endDate)
    ensures r.Some? ==> && r.value.data == Payments.List(paymentRows, walletId, startDate, endDate, cursor, limit).data
                        && r.value.nextCursor == Payments.List(paymentRows, walletId, startDate, endDate, cursor, limit).nextCursor
    ensures r.Some? ==> && (forall i, j :: 0 <= i < j < |r.value.data| ==> r.value.data[i].id < r.value.data[j].id)
                        && (r.value.nextCursor.Some? ==> r.value.nextCursor.value == r.value.data[|r.value.data| - 1].id)
  {
    match Wallets.GetById(walletRows, walletId)
    case None => None
    case Some(_) =>
      var page := Payments.List(paymentRows, walletId, startDate, endDate, cursor, limit);
      Payments.ListSound(paymentRows, walletId, startDate, endDate, cursor, limit);
      Some(ListPaymentsResult(page.data, page.nextCursor, Payments.Count(paymentRows, walletId, startDate, endDate)))
  }

  /** The payment service over the three tables and its validators. */
  class PaymentService {
    const wallets: Wallets.WalletTable
    const policies: Policies.PolicyTable
    const payments: Payments.PaymentTable
    const validators: seq<Validator>

    /** The tables' constraints, and every stored policy carries its required fields. */
    ghost predicate Valid()
      reads policies, payments
    {
      payments.Valid() && policies.Valid() && Policies.RequiredFieldsStored(policies.rows)
    }

    constructor (wallets: Wallets.WalletTable, policies: Policies.PolicyTable, payments: Payments.PaymentTable,
                 validators: seq<Validator>)
      ensures this.wallets == wallets && this.policies == policies && this.payments == payments
      ensures this.validators == validators
    {
      this.wallets := wallets;
      this.policies := policies;
      this.payments := payments;
      this.validators := validators;
    }

    /**
     * `createPayment`: outcome and new payment rows as `Accept` states them;
     * the wallet and policy tables are not touched.
     */
    method CreatePayment(walletId: int, amount: int, occurredAt: int, key: string, newId: int, now: int,
                         raced: Option<Payment>) returns (r: CreatePaymentResult)
      requires Valid() && RaceAdmissible(payments.rows, key, raced)
      modifies payments
      ensures Valid()
      ensures (r, payments.rows) == Accept(wallets.rows, policies.rows, old(payments.rows), validators, walletId, amount,
                                           occurredAt, key, newId, now, raced)
    {
      var wallet := wallets.LockAndGet(walletId);
      if wallet.None? {
        return WalletNotFound;
      }
      var existing := Payments.FindByIdempotencyKey(payments.rows, key);
      if existing.Some? {
        if SamePayload(existing.value, walletId, amount, occurredAt) {
          return Success(existing.value, false);
        }
        return Conflict;
      }
      var categories := ActiveCategories(policies.rows, wallet.value);
      var verdict := RunValidators(Active(validators, categories), policies.rows, payments.rows, wallet.value, amount,
                                   occurredAt);
      if verdict.Reject? {
        return PolicyViolation(verdict.violation);
      }
      r := Save(NewPayment(newId, walletId, amount, occurredAt, key, now), raced);
    }

    /** The insert at the end of `doCreatePayment`, and the retry lookup when it clashes. */
    method Save(payment: Payment, raced: Option<Payment>) returns (r: CreatePaymentResult)
      requires payments.Valid() && RaceAdmissible(payments.rows, payment.idempotencyKey, raced)
      modifies payments
      ensures payments.Valid()
      ensures (r, payments.rows) == Commit(old(payments.rows), payment, raced)
    {
      var key := payment.idempotencyKey;
      if raced.Some? {
        var _ := payments.Insert(raced.value);
        r := HandleIdempotencyConflict(payments.rows, key, payment.walletId, payment.amount, payment.occurredAt);
        return;
      }
      var ok := payments.Insert(payment);
      if ok {
        r := Success(payment, true);
      } else {
        r := HandleIdempotencyConflict(payments.rows, key, payment.walletId, payment.amount, payment.occurredAt);
      }
    }
  }
}
