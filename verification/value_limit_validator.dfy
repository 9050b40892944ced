/**
 * ValueLimitValidator: a per-payment cap, and a cap on what the wallet may
 * spend within the period window the payment falls in. It only reads the
 * policy and payment tables, so it is a function of their rows; a thrown
 * PolicyViolationException is a Reject verdict.
 */
module ValueLimitValidator {
  import opened Wrappers
  import opened Periods
  import opened Domain
  import Payments = PaymentRepository
  import Policies = PolicyRepository

  datatype EffectiveValueLimits = EffectiveValueLimits(
    maxPerPayment: int,
    daytimeDailyLimit: int,
    nighttimeDailyLimit: int,
    weekendDailyLimit: int)

  /** The limits without an attached value-limit policy, in cents: 1000 per payment, 4000 by day, 1000 by night, 1000 per weekend day. */
  const Defaults: EffectiveValueLimits := EffectiveValueLimits(100000, 400000, 100000, 100000)

  /** `supports`. */
  predicate Supports(c: PolicyCategory) {
    c == ValueLimit
  }

  /** The limits a value-limit policy sets. */
  function LimitsOf(p: Policy): EffectiveValueLimits
    requires p.category == ValueLimit && HasRequiredFields(p)
  {
    EffectiveValueLimits(p.maxPerPayment.value, p.daytimeDailyLimit.value, p.nighttimeDailyLimit.value,
                         p.weekendDailyLimit.value)
  }

  /**
   * `resolveEffectiveLimits`: the limits of the first attached policy that
   * resolves to a value-limit policy, the defaults when there is none. The
   * `!!` on the four fields cannot fail while every stored policy carries
   * its required fields.
   */
  function ResolveEffectiveLimits(policyRows: seq<Policies.PolicyRow>, wallet: Wallet): (e: EffectiveValueLimits)
    requires Policies.RequiredFieldsStored(policyRows)
    ensures (forall id :: id in wallet.policyIds ==> Policies.CategoryById(policyRows, id) != Some(ValueLimit)) ==>
      e == Defaults
  {
    match Policies.FirstOfCategory(Policies.ResolvePolicies(policyRows, wallet.policyIds), ValueLimit)
    case None => Defaults
    case Some(p) =>
      Policies.StoredHasRequiredFields(policyRows, p.id);
      LimitsOf(p)
  }

  /** With a value-limit policy attached, the limits are those of the first one in attach order. */
  lemma EffectiveLimitsFromFirst(policyRows: seq<Policies.PolicyRow>, wallet: Wallet, i: nat)
    requires Policies.RequiredFieldsStored(policyRows)
    requires i < |wallet.policyIds| && Policies.CategoryById(policyRows, wallet.policyIds[i]) == Some(ValueLimit)
    requires forall j :: 0 <= j < i ==> Policies.CategoryById(policyRows, wallet.policyIds[j]) != Some(ValueLimit)
    ensures var p := Policies.GetById(policyRows, wallet.policyIds[i]).value;
      p.category == ValueLimit && HasRequiredFields(p) && ResolveEffectiveLimits(policyRows, wallet) == LimitsOf(p)
  {
    Policies.FirstAttached(policyRows, wallet.policyIds, ValueLimit, i);
    Policies.StoredHasRequiredFields(policyRows, wallet.policyIds[i]);
  }

  /** The period limit that applies (`when (period)`). */
  function LimitFor(e: EffectiveValueLimits, p: Period): int {
    match p
    case Daytime => e.daytimeDailyLimit
    case Nighttime => e.nighttimeDailyLimit
    case Weekend => e.weekendDailyLimit
  }

  /** The window whose payments count against a payment at t. */
  function WindowOf(t: int): (w: Window)
    ensures w.Contains(t)
  {
    CalculatePeriodRange(GetPeriod(t), t)
  }

  /** What the wallet has already spent in the window of a payment at t. */
  function SpentInWindow(paymentRows: seq<Payment>, walletId: int, t: int): int {
    var w := WindowOf(t);
    Payments.SumByWalletAndPeriod(paymentRows, walletId, w.start, w.end)
  }

  /** Without a value-limit policy the period limits are 4000.00 in daytime and 1000.00 at night and on weekends. */
  lemma DefaultLimits(p: Period)
    ensures LimitFor(Defaults, p) == if p == Daytime then 400000 else 100000
  {
  }

  /**
   * A new payment adds its amount to the sum seen at t exactly when it is the
   * wallet's and falls inside the window of t's period; otherwise the sum is unchanged.
   */
  lemma {:induction false} SpentInWindowAppend(paymentRows: seq<Payment>, p: Payment, walletId: int, t: int)
    ensures SpentInWindow(paymentRows + [p], walletId, t)
         == SpentInWindow(paymentRows, walletId, t) + if p.walletId == walletId && WindowOf(t).Contains(p.occurredAt) then p.amount else 0
  {
    var w := WindowOf(t);
    Payments.SumAppend(paymentRows, p, walletId, w.start, w.end);
  }

  /**
   * `validate`: an amount over the per-payment cap is rejected with no
   * period, whatever the history; otherwise it is rejected with the
   * payment's period exactly when the window's sum plus the amount exceeds
   * that period's limit (reaching the limit passes).
   */
  function Validate(policyRows: seq<Policies.PolicyRow>, paymentRows: seq<Payment>, wallet: Wallet, amount: int,
                    occurredAt: int): (v: Verdict)
    requires Policies.RequiredFieldsStored(policyRows)
    ensures v.Reject? ==> v.violation.policyType == ValueLimit
    ensures amount > ResolveEffectiveLimits(policyRows, wallet).maxPerPayment ==> v == Reject(Violation(ValueLimit, None))
    ensures amount <= ResolveEffectiveLimits(policyRows, wallet).maxPerPayment ==>
      (v.Pass? <==> SpentInWindow(paymentRows, wallet.id, occurredAt) + amount
                    <= LimitFor(ResolveEffectiveLimits(policyRows, wallet), GetPeriod(occurredAt)))
    ensures v.Reject? && amount <= ResolveEffectiveLimits(policyRows, wallet).maxPerPayment ==>
      v.violation.period == Some(GetPeriod(occurredAt))
  {
    var e := ResolveEffectiveLimits(policyRows, wallet);
    if amount > e.maxPerPayment then Reject(Violation(ValueLimit, None))
    else
      var period := GetPeriod(occurredAt);
      var w := CalculatePeriodRange(period, occurredAt);
      var sum := Payments.SumByWalletAndPeriod(paymentRows, wallet.id, w.start, w.end);
      if sum + amount > LimitFor(e, period) then Reject(Violation(ValueLimit, Some(period)))
      else Pass
  }

  /**
   * A payment that passes stays within both limits once stored: it is at most
   * the per-payment cap, and its window's sum including it is at most the
   * limit of its period.
   */
  lemma {:induction false} PassKeepsWithinLimits(policyRows: seq<Policies.PolicyRow>, paymentRows: seq<Payment>,
                                                wallet: Wallet, p: Payment)
    requires Policies.RequiredFieldsStored(policyRows)
    requires p.walletId == wallet.id
    requires Validate(policyRows, paymentRows, wallet, p.amount, p.occurredAt) == Pass
    ensures var e := ResolveEffectiveLimits(policyRows, wallet);
      && p.amount <= e.maxPerPayment
      && SpentInWindow(paymentRows + [p], wallet.id, p.occurredAt) <= LimitFor(e, GetPeriod(p.occurredAt))
  {
    var w := WindowOf(p.occurredAt);
    Payments.SumAppend(paymentRows, p, wallet.id, w.start, w.end);
  }

  /** Payments of other wallets never change the verdict. */
  lemma OtherWalletsIrrelevant(policyRows: seq<Policies.PolicyRow>, paymentRows: seq<Payment>, others: seq<Payment>,
                               wallet: Wallet, amount: int, occurredAt: int)
    requires Policies.RequiredFieldsStored(policyRows)
    requires forall q :: q in others ==> q.walletId != wallet.id
    ensures Validate(policyRows, paymentRows + others, wallet, amount, occurredAt)
         == Validate(policyRows, paymentRows, wallet, amount, occurredAt)
  {
    var w := WindowOf(occurredAt);
    Payments.OtherWalletsIgnored(paymentRows, others, wallet.id, w.start, w.end);
  }

  /** A wallet with no policies and an empty table gets the defaults. */
  lemma DefaultsWithoutPolicies(wallet: Wallet)
    requires wallet.policyIds == []
    ensures ResolveEffectiveLimits([], wallet) == Defaults
  {
  }

  /** 2024-08-26T10:00:00Z, a Monday morning. */
  const MondayTen: int := Monday20240826 + 10 * SecondsPerHour

  /**
   * Under the defaults, on Monday 2024-08-26 at 10:00: 1001.00 exceeds the
   * per-payment cap; 100.00 on top of 3950.00 already spent that day exceeds
   * the 4000.00 daytime limit; 500.00 with no history passes.
   */
  lemma {:induction false} ValidatorExamples(wallet: Wallet)
    requires wallet.policyIds == []
    ensures Validate([], [], wallet, 100100, MondayTen) == Reject(Violation(ValueLimit, None))
    ensures var spent := Payment(1, wallet.id, 395000, Monday20240826 + 8 * SecondsPerHour, "k", Approved, 0, 0);
      Validate([], [spent], wallet, 10000, MondayTen) == Reject(Violation(ValueLimit, Some(Daytime)))
    ensures Validate([], [], wallet, 50000, MondayTen) == Pass
  {
    DefaultsWithoutPolicies(wallet);
    WeekdayClassification(EpochDay(MondayTen), TimeOfDay(MondayTen));
    DaytimeWindow(EpochDay(MondayTen), TimeOfDay(MondayTen));
    var spent := Payment(1, wallet.id, 395000, Monday20240826 + 8 * SecondsPerHour, "k", Approved, 0, 0);
    var w := WindowOf(MondayTen);
    Payments.SumAppend([], spent, wallet.id, w.start, w.end);
    assert [] + [spent] == [spent];
  }
}
