/**
 * TxCountLimitValidator: at most maxTxPerDay payments per wallet per UTC
 * calendar day, when the wallet has a transaction-count policy. A function of
 * the policy and payment rows; a thrown PolicyViolationException is a Reject
 * verdict.
 */
module TxCountLimitValidator {
  import opened Wrappers
  import opened Periods
  import opened Domain
  import Payments = PaymentRepository
  import Policies = PolicyRepository

  /** `supports`. */
  predicate Supports(c: PolicyCategory) {
    c == TxCountLimit
  }

  /** The UTC calendar day of t, from its midnight to the next midnight. */
  function DayWindow(t: int): (w: Window)
    ensures w.Contains(t) && w.end - w.start == SecondsPerDay
    ensures TimeOfDay(w.start) == 0
  {
    AtSplits(EpochDay(t), 0);
    AtOfSplit(t);
    Window(At(EpochDay(t), 0), At(EpochDay(t) + 1, 0))
  }

  /**
   * The daily maximum that applies: that of the first attached policy that
   * resolves to a transaction-count policy; None when there is no such
   * policy or its maxTxPerDay is null.
   */
  function MaxTxPerDay(policyRows: seq<Policies.PolicyRow>, wallet: Wallet): (m: Option<int>)
    ensures (forall id :: id in wallet.policyIds ==> Policies.CategoryById(policyRows, id) != Some(TxCountLimit)) ==>
      m.None?
  {
    match Policies.FirstOfCategory(Policies.ResolvePolicies(policyRows, wallet.policyIds), TxCountLimit)
    case None => None
    case Some(p) => p.maxTxPerDay
  }

  /** With a transaction-count policy attached, the maximum is that of the first one in attach order. */
  lemma MaxFromFirst(policyRows: seq<Policies.PolicyRow>, wallet: Wallet, i: nat)
    requires i < |wallet.policyIds| && Policies.CategoryById(policyRows, wallet.policyIds[i]) == Some(TxCountLimit)
    requires forall j :: 0 <= j < i ==> Policies.CategoryById(policyRows, wallet.policyIds[j]) != Some(TxCountLimit)
    ensures MaxTxPerDay(policyRows, wallet) == Policies.GetById(policyRows, wallet.policyIds[i]).value.maxTxPerDay
  {
    Policies.FirstAttached(policyRows, wallet.policyIds, TxCountLimit, i);
  }

  /** How many payments the wallet already has on the UTC day of t. */
  function CountOnDay(paymentRows: seq<Payment>, walletId: int, t: int): nat {
    var w := DayWindow(t);
    Payments.CountByWalletAndDay(paymentRows, walletId, w.start, w.end)
  }

  /** A new payment adds one to the count at t exactly when it is the wallet's and on the same UTC day as t. */
  lemma {:induction false} CountOnDayAppend(paymentRows: seq<Payment>, p: Payment, walletId: int, t: int)
    ensures CountOnDay(paymentRows + [p], walletId, t)
         == CountOnDay(paymentRows, walletId, t) + if p.walletId == walletId && EpochDay(p.occurredAt) == EpochDay(t) then 1 else 0
  {
    var w := DayWindow(t);
    Payments.CountAppend(paymentRows, p, walletId, w.start, w.end);
    AtSplits(EpochDay(t), 0);
    AtOfSplit(p.occurredAt);
    assert w.Contains(p.occurredAt) <==> EpochDay(p.occurredAt) == EpochDay(t);
  }

  /**
   * `validate`: without an applicable maximum it passes without looking at
   * the history; with one it rejects, with no period, exactly when the day
   * already holds that many payments or more.
   */
  function Validate(policyRows: seq<Policies.PolicyRow>, paymentRows: seq<Payment>, wallet: Wallet, amount: int,
                    occurredAt: int): (v: Verdict)
    ensures v.Reject? ==> v == Reject(Violation(TxCountLimit, None))
    ensures MaxTxPerDay(policyRows, wallet).None? ==> v == Pass
    ensures MaxTxPerDay(policyRows, wallet).Some? ==>
      (v.Reject? <==> CountOnDay(paymentRows, wallet.id, occurredAt) >= MaxTxPerDay(policyRows, wallet).value)
  {
    match MaxTxPerDay(policyRows, wallet)
    case None => Pass
    case Some(maxTx) =>
      var day := DayWindow(occurredAt);
      var count := Payments.CountByWalletAndDay(paymentRows, wallet.id, day.start, day.end);
      if count >= maxTx then Reject(Violation(TxCountLimit, None)) else Pass
  }

  /** The amount never influences the verdict. */
  lemma AmountIrrelevant(policyRows: seq<Policies.PolicyRow>, paymentRows: seq<Payment>, wallet: Wallet,
                         a: int, b: int, occurredAt: int)
    ensures Validate(policyRows, paymentRows, wallet, a, occurredAt) == Validate(policyRows, paymentRows, wallet, b, occurredAt)
  {
  }

  /** A payment that passes leaves its day with at most the maximum once stored. */
  lemma {:induction false} PassKeepsWithinMax(policyRows: seq<Policies.PolicyRow>, paymentRows: seq<Payment>,
                                             wallet: Wallet, p: Payment)
    requires p.walletId == wallet.id && MaxTxPerDay(policyRows, wallet).Some?
    requires Validate(policyRows, paymentRows, wallet, p.amount, p.occurredAt) == Pass
    ensures CountOnDay(paymentRows + [p], wallet.id, p.occurredAt) <= MaxTxPerDay(policyRows, wallet).value
  {
    var w := DayWindow(p.occurredAt);
    Payments.CountAppend(paymentRows, p, wallet.id, w.start, w.end);
  }

  /**
   * Midnight starts the next day: a payment at 00:00:00 of day d+1 is
   * counted in d+1's window and never in day d's.
   */
  lemma {:induction false} MidnightStartsNextDay(paymentRows: seq<Payment>, walletId: int, p: Payment, d: int, s: int)
    requires 0 <= s < SecondsPerDay && p.occurredAt == At(d + 1, 0)
    ensures CountOnDay(paymentRows + [p], walletId, At(d, s)) == CountOnDay(paymentRows, walletId, At(d, s))
    ensures p.walletId == walletId ==>
      CountOnDay(paymentRows + [p], walletId, At(d + 1, 0)) == CountOnDay(paymentRows, walletId, At(d + 1, 0)) + 1
  {
    AtSplits(d, s);
    AtSplits(d + 1, 0);
    var w := DayWindow(At(d, s));
    var next := DayWindow(At(d + 1, 0));
    Payments.CountAppend(paymentRows, p, walletId, w.start, w.end);
    Payments.CountAppend(paymentRows, p, walletId, next.start, next.end);
  }

  /** A transaction-count policy allowing five payments a day. */
  const FivePerDay: Policy := Policy(7, "tx", TxCountLimit, None, None, None, None, Some(5), 0, 0)

  /** A payment of the wallet at the given hour of Monday 2024-08-26. */
  function MondayPayment(id: int, walletId: int, hour: int): Payment {
    Payment(id, walletId, 1000, Monday20240826 + hour * SecondsPerHour, "k", Approved, 0, 0)
  }

  /**
   * With five allowed per day, a sixth payment on Monday 2024-08-26 at 10:00
   * is rejected, while a third one passes.
   */
  lemma {:induction false} ValidatorExamples(walletId: int)
    ensures var wallet := Wallet(walletId, "x", [7], 0);
      var five := [MondayPayment(1, walletId, 1), MondayPayment(2, walletId, 2), MondayPayment(3, walletId, 3),
                   MondayPayment(4, walletId, 4), MondayPayment(5, walletId, 5)];
      Validate([Policies.ToRow(FivePerDay)], five, wallet, 1000, Monday20240826 + 10 * SecondsPerHour)
        == Reject(Violation(TxCountLimit, None))
    ensures var wallet := Wallet(walletId, "x", [7], 0);
      var two := [MondayPayment(1, walletId, 1), MondayPayment(2, walletId, 2)];
      Validate([Policies.ToRow(FivePerDay)], two, wallet, 1000, Monday20240826 + 10 * SecondsPerHour) == Pass
  {
    var rows := [Policies.ToRow(FivePerDay)];
    var wallet := Wallet(walletId, "x", [7], 0);
    Policies.InsertThenGet([], FivePerDay);
    assert [] + [Policies.ToRow(FivePerDay)] == rows;
    MaxFromFirst(rows, wallet, 0);
    var t := Monday20240826 + 10 * SecondsPerHour;
    var day := DayWindow(t);
    AtSplits(EpochDay(Monday20240826), 0);
    assert day == Window(Monday20240826, Monday20240826 + SecondsPerDay);
    var five := [MondayPayment(1, walletId, 1), MondayPayment(2, walletId, 2), MondayPayment(3, walletId, 3),
                 MondayPayment(4, walletId, 4), MondayPayment(5, walletId, 5)];
    var two := [MondayPayment(1, walletId, 1), MondayPayment(2, walletId, 2)];
    Payments.CountAllInWindow(five, walletId, day.start, day.end);
    Payments.CountAllInWindow(two, walletId, day.start, day.end);
  }
}
