# Wallet payment acceptance, in Dafny

This project models the core of a wallet payments service: wallets, spending policies and payments. A payment request names a wallet, an amount, an instant and an idempotency key. The service does four things in order:

1. It looks up the wallet.
2. It answers a key it has already seen from the store: a replay when the payload is the same, a conflict when it is not.
3. It works out which policy categories are active for the wallet and runs the matching validators in order.
4. It stores the payment as APPROVED.

There are two validators:

- **Value limit.** It enforces a per-payment cap and a limit on what the wallet spends in the window of the payment's period: a daytime window, a nighttime window that spans midnight, or a weekend calendar day.
- **Transaction count.** It caps the number of payments per UTC calendar day.

When two requests race on the same key, the loser's insert violates the unique index. It then falls back to the stored payment.

Around the payment service the project also models:

- the policy service (create a policy, attach one to a wallet, list policies);
- the wallet service (create a wallet with a trimmed owner name, read a wallet's policies);
- the three database-backed repositories.

## How the model is built

The files follow the program's own layers.

- `periods.dfy` — the period calculator.
- `domain.dfy` — the records.
- `paging.dfy` — the cursor pagination both `list` queries share.
- `payment_repository.dfy`, `policy_repository.dfy`, `wallet_repository.dfy` — one per table. Each table is a class whose `rows` field the writes update in place. The reads are functions of the rows.
- `value_limit_validator.dfy`, `tx_count_limit_validator.dfy` — the validators. They only read tables, so they are functions of the rows. A thrown `PolicyViolationException` becomes a `Reject` verdict.
- `payment_service.dfy`, `policy_service.dfy`, `wallet_service.dfy` — the services. Each is a class over the tables whose methods change them.

`PaymentService.Accept` states the outcome of one `createPayment` call, and the payment rows after it, as a function of the tables before it. The method `PaymentService.PaymentService.CreatePayment` carries out the same steps on the tables and is proved to agree with `Accept`. The lemmas about the outcomes are stated about `Accept`.

Values are represented as follows:

- **Instants** are integer seconds since 1970-01-01T00:00:00Z; the model has no instants finer than a second. The UTC day of `t` is `t / 86400` and the time of day is `t % 86400`. Day 0 was a Thursday.
- **Money** is an integer number of cents. Every amount column is `decimal(19,2)`, and the model takes every amount to have at most two decimals. The default limits 1000 / 4000 / 1000 / 1000 are 100000 / 400000 / 100000 / 100000 cents.
- **UUIDs** are integers, ordered as the database orders them.
- **The random id and the clock** (`UUID.randomUUID()`, `Instant.now()`) become the parameters `newId` and `now`.
- **A concurrent insert** of the same key, which commits between this call's lookup and its insert, becomes the parameter `raced`.

A value-limit policy's four amounts are read with `!!` when limits are resolved. The model makes that safe with a table invariant, `PolicyRepository.RequiredFieldsStored`: every stored policy carries the fields its category requires. `PolicyService.PolicyService.CreatePolicy` keeps this invariant, and the payment service requires it.

The wallets table has a single nullable policy column. So a wallet holds at most one policy: a list written to it keeps its first id only. Attaching a policy replaces any earlier one.

## Model

| member | source | states |
|---|---|---|
| Periods.GetPeriod | src/main/kotlin/com/trace/payments/domain/model/Period.kt:10-20 | The window `calculatePeriodRange` computes for the classified period always contains the instant |
| Periods.CalculatePeriodRange | src/main/kotlin/com/trace/payments/domain/model/Period.kt:22-47 | A window is never empty: a full 24 hours for WEEKEND, 12 hours for DAYTIME and NIGHTTIME |
| Periods.WeekendWholeDay | src/main/kotlin/com/trace/payments/domain/model/Period.kt:14 | Every second of a Saturday or a Sunday is WEEKEND, whatever the time of day |
| Periods.WeekdayClassification | src/main/kotlin/com/trace/payments/domain/model/Period.kt:15-19 | Monday to Friday: [06:00, 18:00) is DAYTIME, both bounds as the `isBefore` tests place them; every other time is NIGHTTIME |
| Periods.DaytimeWindow | src/main/kotlin/com/trace/payments/domain/model/Period.kt:26-30 | The DAYTIME window of any instant of day d is [d 06:00, d 18:00) |
| Periods.NighttimeWindow | src/main/kotlin/com/trace/payments/domain/model/Period.kt:31-41 | The NIGHTTIME window spans midnight: [d 18:00, d+1 06:00) from 18:00 on, [d-1 18:00, d 06:00) before it |
| Periods.WeekendWindow | src/main/kotlin/com/trace/payments/domain/model/Period.kt:42-46 | The WEEKEND window is the payment's own calendar day, not the whole weekend |
| Periods.WindowIsStable | src/main/kotlin/com/trace/payments/domain/model/Period.kt:22-47 | Windows of one period never partly overlap: every instant inside a window has that same window. So a per-window running sum is well defined |
| Periods.OneNightOneWindow | src/main/kotlin/com/trace/payments/domain/model/Period.kt:31-41 | 22:00 on day d and 02:00 on day d+1 fall in one and the same night window |
| Periods.ClassificationExamples | src/test/kotlin/com/trace/payments/domain/model/PeriodTest.kt:10-42 | The classification boundaries of 2024-08-24/25/26: 05:59:59 and midnight are night, 06:00 and 17:59:59 are day, 18:00 is night, Saturday and Sunday are weekend |
| Periods.WindowExamples | src/test/kotlin/com/trace/payments/domain/model/PeriodTest.kt:45-74 | The concrete windows for Monday 10:00, Monday 22:00, Monday 02:00 and Saturday 14:00 |
| Domain.CategoryOf | src/main/kotlin/com/trace/payments/infrastructure/adapter/persistence/ExposedPolicyRepository.kt:57 | A parsed category is the one whose name was stored |
| Domain.CategoryRoundTrip | src/main/kotlin/com/trace/payments/infrastructure/adapter/persistence/ExposedPolicyRepository.kt:24-57 | Writing a category's name and parsing it back gives the category; distinct categories have distinct names |
| Paging.Above | src/main/kotlin/com/trace/payments/infrastructure/adapter/persistence/ExposedPolicyRepository.kt:37-41 | The cursor filter keeps exactly the rows whose key is greater than the cursor, or all rows without one |
| Paging.List | src/main/kotlin/com/trace/payments/infrastructure/adapter/persistence/ExposedPolicyRepository.kt:42-47 | Fetching limit + 1 rows and keeping `limit` gives the first `limit` rows in key order. A next cursor implies a full page and is the last key on it |
| Paging.AscendingSorted | src/main/kotlin/com/trace/payments/infrastructure/adapter/persistence/ExposedPolicyRepository.kt:42 | A page holds at most n rows, each a table row past the cursor, in strictly ascending key order |
| Paging.AscendingComplete | src/main/kotlin/com/trace/payments/infrastructure/adapter/persistence/ExposedPolicyRepository.kt:42 | No row past the cursor is skipped: it is on a short page, or on any page reaching its key |
| Paging.AscendingLength | src/main/kotlin/com/trace/payments/infrastructure/adapter/persistence/ExposedPolicyRepository.kt:42 | A page is min(n, number of rows past the cursor) long |
| Paging.NextCursorIffMore | src/main/kotlin/com/trace/payments/infrastructure/adapter/persistence/ExposedPolicyRepository.kt:44-46 | A next cursor is returned exactly when more than `limit` rows lie past the cursor |
| Paging.PagesChain | src/main/kotlin/com/trace/payments/infrastructure/adapter/persistence/ExposedPolicyRepository.kt:36-48 | Following the next cursor continues where the page stopped: page + next rows = the first limit + m rows |
| PaymentRepository.InsertKeepsConstraints | src/main/kotlin/com/trace/payments/infrastructure/adapter/persistence/ExposedPaymentRepository.kt:17-29 | Appending a payment that clashes on neither id nor key keeps both unique constraints |
| PaymentRepository.FindByIdempotencyKey | src/main/kotlin/com/trace/payments/infrastructure/adapter/persistence/ExposedPaymentRepository.kt:31-35 | A found payment is stored with that key. Under the unique index, nothing is found exactly when no stored payment has the key |
| PaymentRepository.WithKeyAtMostOne | src/main/kotlin/com/trace/payments/infrastructure/adapter/persistence/ExposedPaymentRepository.kt:31-35 | Under the unique index `singleOrNull` sees at most one row |
| PaymentRepository.FindInserted | src/main/kotlin/com/trace/payments/infrastructure/adapter/persistence/ExposedPaymentRepository.kt:17-35 | After an insertable payment is appended, its key finds exactly it |
| PaymentRepository.FindOther | src/main/kotlin/com/trace/payments/infrastructure/adapter/persistence/ExposedPaymentRepository.kt:17-35 | Appending a payment leaves the lookup of every other key unchanged |
| PaymentRepository.SameKeySameRow | src/main/kotlin/com/trace/payments/infrastructure/adapter/persistence/ExposedPaymentRepository.kt:31-35 | In a constrained table a key identifies one payment |
| PaymentRepository.SumByWalletAndPeriod | src/main/kotlin/com/trace/payments/infrastructure/adapter/persistence/ExposedPaymentRepository.kt:70-80 | The sum is 0 when no row of the wallet lies in [start, end), the null-to-zero case. It is non-negative over non-negative amounts |
| PaymentRepository.CountByWalletAndDay | src/main/kotlin/com/trace/payments/infrastructure/adapter/persistence/ExposedPaymentRepository.kt:82-88 | The count is at most the number of rows, and 0 when no row of the wallet lies in [dayStart, dayEnd) |
| PaymentRepository.SumAppend | src/main/kotlin/com/trace/payments/infrastructure/adapter/persistence/ExposedPaymentRepository.kt:70-80 | A new row adds its amount to a window sum exactly when it is that wallet's and `start <= occurredAt < end` |
| PaymentRepository.CountAppend | src/main/kotlin/com/trace/payments/infrastructure/adapter/persistence/ExposedPaymentRepository.kt:82-88 | A new row adds one to a day count exactly when it is that wallet's and inside the half-open day |
| PaymentRepository.CountAllInWindow | src/main/kotlin/com/trace/payments/infrastructure/adapter/persistence/ExposedPaymentRepository.kt:82-88 | When every row is the wallet's and inside the window, the count is the number of rows |
| PaymentRepository.OtherWalletsIgnored | src/main/kotlin/com/trace/payments/infrastructure/adapter/persistence/ExposedPaymentRepository.kt:70-88 | Rows of other wallets change neither a sum nor a count |
| PaymentRepository.Matching | src/main/kotlin/com/trace/payments/infrastructure/adapter/persistence/ExposedPaymentRepository.kt:44-50 | A row matches exactly when it is the wallet's and `startDate <= occurredAt <= endDate`. Both bounds are inclusive, and an absent one does not filter |
| PaymentRepository.ListSound | src/main/kotlin/com/trace/payments/infrastructure/adapter/persistence/ExposedPaymentRepository.kt:37-59 | A page has at most `limit` rows. Each is stored, matching and past the cursor; the ids are strictly ascending; a next cursor is the last id shown |
| PaymentRepository.ListNextCursor | src/main/kotlin/com/trace/payments/infrastructure/adapter/persistence/ExposedPaymentRepository.kt:55-57 | A next cursor is returned exactly when more than `limit` matching rows lie past the cursor |
| PaymentRepository.ListComplete | src/main/kotlin/com/trace/payments/infrastructure/adapter/persistence/ExposedPaymentRepository.kt:44-54 | No matching row past the cursor is skipped by a page that reaches its id |
| PaymentRepository.List | src/main/kotlin/com/trace/payments/infrastructure/adapter/persistence/ExposedPaymentRepository.kt:37-59 | A page has at most `limit` rows, and a next cursor only comes with a full page and lies past the cursor |
| PaymentRepository.CountIsFullListing | src/main/kotlin/com/trace/payments/infrastructure/adapter/persistence/ExposedPaymentRepository.kt:37-68 | When `count` is at most `limit`, the first page lists every matching payment and has no next cursor |
| PaymentRepository.PaymentTable.Insert | src/main/kotlin/com/trace/payments/infrastructure/adapter/persistence/ExposedPaymentRepository.kt:17-29 | The row is appended exactly when neither its id nor its key is stored; otherwise nothing changes. The constraints are kept |
| PolicyRepository.ToRow | src/main/kotlin/com/trace/payments/infrastructure/adapter/persistence/ExposedPolicyRepository.kt:20-34 | The written row reads back as the same policy |
| PolicyRepository.ToPolicy | src/main/kotlin/com/trace/payments/infrastructure/adapter/persistence/ExposedPolicyRepository.kt:54-65 | A row that reads back keeps its id, and its category is the one named in the category column |
| PolicyRepository.InsertKeepsConstraints | src/main/kotlin/com/trace/payments/infrastructure/adapter/persistence/ExposedPolicyRepository.kt:20-34 | Inserting a policy with a fresh id keeps the primary key and the parseable categories |
| PolicyRepository.GetById | src/main/kotlin/com/trace/payments/infrastructure/adapter/persistence/ExposedPolicyRepository.kt:14-18 | A found policy has the id asked for and is a stored row read back. Nothing is found exactly when no row has the id |
| PolicyRepository.InsertThenGet | src/main/kotlin/com/trace/payments/infrastructure/adapter/persistence/ExposedPolicyRepository.kt:14-34 | `insert` then `getById` returns the same policy |
| PolicyRepository.InsertKeepsOthers | src/main/kotlin/com/trace/payments/infrastructure/adapter/persistence/ExposedPolicyRepository.kt:14-34 | Inserting a policy leaves every other id's lookup unchanged |
| PolicyRepository.CategoryById | src/main/kotlin/com/trace/payments/application/service/PaymentService.kt:65 | `getById(it)?.category` is present exactly when the policy resolves, and it is that policy's category |
| PolicyRepository.ResolvePolicies | src/main/kotlin/com/trace/payments/application/service/ValueLimitValidator.kt:41-42 | `mapNotNull { getById }` keeps exactly the attached policies that resolve. It never has more entries than there are ids, and drops none when all resolve |
| PolicyRepository.FirstOfCategory | src/main/kotlin/com/trace/payments/application/service/ValueLimitValidator.kt:43 | The result is a policy of the category with none of it before. None means no policy of the category |
| PolicyRepository.FirstAttached | src/main/kotlin/com/trace/payments/application/service/ValueLimitValidator.kt:41-43 | Resolve-then-first is the policy of the first attached id whose stored policy has the category |
| PolicyRepository.StoredHasRequiredFields | src/main/kotlin/com/trace/payments/application/service/ValueLimitValidator.kt:44-50 | Under the table invariant a resolved policy carries its required fields, so the `!!` reads cannot fail |
| PolicyRepository.ToPolicies | src/main/kotlin/com/trace/payments/infrastructure/adapter/persistence/ExposedPolicyRepository.kt:43 | Rows read back one for one, in order, when every category parses |
| PolicyRepository.ListSound | src/main/kotlin/com/trace/payments/infrastructure/adapter/persistence/ExposedPolicyRepository.kt:36-48 | A page has at most `limit` policies, each stored (as `getById` returns it) and past the cursor |
| PolicyRepository.ListOrdered | src/main/kotlin/com/trace/payments/infrastructure/adapter/persistence/ExposedPolicyRepository.kt:42-47 | A page is strictly ascending by id. A next cursor exists only for a non-empty page, and it is the id of the page's last policy |
| PolicyRepository.ListNextCursor | src/main/kotlin/com/trace/payments/infrastructure/adapter/persistence/ExposedPolicyRepository.kt:44-46 | A next cursor is returned exactly when more than `limit` policies lie past the cursor |
| PolicyRepository.ListComplete | src/main/kotlin/com/trace/payments/infrastructure/adapter/persistence/ExposedPolicyRepository.kt:36-48 | No stored policy past the cursor is skipped by a page that reaches its id |
| PolicyRepository.List | src/main/kotlin/com/trace/payments/infrastructure/adapter/persistence/ExposedPolicyRepository.kt:36-48 | A page has at most `limit` policies, and a next cursor lies past the cursor |
| PolicyRepository.CountIsFullListing | src/main/kotlin/com/trace/payments/infrastructure/adapter/persistence/ExposedPolicyRepository.kt:36-52 | When `count` is at most `limit`, the first page lists every stored policy and has no next cursor |
| PolicyRepository.PolicyTable.Insert | src/main/kotlin/com/trace/payments/infrastructure/adapter/persistence/ExposedPolicyRepository.kt:20-34 | The row is appended exactly when the id is fresh, and then `getById` returns the policy; otherwise nothing changes |
| WalletRepository.SlotIds | src/main/kotlin/com/trace/payments/infrastructure/adapter/persistence/ExposedWalletRepository.kt:44 | The list read back from the column has at most one id, and writing it back gives the same column value |
| WalletRepository.SlotKeepsFirst | src/main/kotlin/com/trace/payments/infrastructure/adapter/persistence/ExposedWalletRepository.kt:25-46 | Writing a policy list and reading it back keeps only its first id. A list of at most one id survives unchanged |
| WalletRepository.GetById | src/main/kotlin/com/trace/payments/infrastructure/adapter/persistence/ExposedWalletRepository.kt:12-16 | A wallet is found exactly when its id is stored, with the stored name, creation time and at most one policy id |
| WalletRepository.InsertThenGet | src/main/kotlin/com/trace/payments/infrastructure/adapter/persistence/ExposedWalletRepository.kt:25-46 | Insert then read returns the wallet with its policy list cut to its first id |
| WalletRepository.WalletTable.LockAndGet | src/main/kotlin/com/trace/payments/infrastructure/adapter/persistence/ExposedWalletRepository.kt:18-23 | Locking reads the same wallet as `getById`, present exactly when stored |
| WalletRepository.WalletTable.Insert | src/main/kotlin/com/trace/payments/infrastructure/adapter/persistence/ExposedWalletRepository.kt:25-33 | The row is written exactly when the id is fresh, and reading it back gives the wallet with its first policy id only; otherwise nothing changes |
| WalletRepository.WalletTable.UpdatePolicyIds | src/main/kotlin/com/trace/payments/infrastructure/adapter/persistence/ExposedWalletRepository.kt:35-39 | A stored wallet's policy column becomes the first id of the list and nothing else of it changes. An unknown wallet changes nothing, and other wallets are untouched |
| ValueLimitValidator.ResolveEffectiveLimits | src/main/kotlin/com/trace/payments/application/service/ValueLimitValidator.kt:40-58 | Without an attached id that resolves to a value-limit policy, the limits are 1000 / 4000 / 1000 / 1000 |
| ValueLimitValidator.EffectiveLimitsFromFirst | src/main/kotlin/com/trace/payments/application/service/ValueLimitValidator.kt:40-50 | With a value-limit policy attached, the limits are those of the first one in attach order, which carries all four amounts |
| ValueLimitValidator.DefaultsWithoutPolicies | src/main/kotlin/com/trace/payments/application/service/ValueLimitValidator.kt:51-57 | A wallet with no policies gets the defaults |
| ValueLimitValidator.DefaultLimits | src/main/kotlin/com/trace/payments/application/service/ValueLimitValidator.kt:30-57 | Under the defaults the period's limit is 4000.00 for DAYTIME and 1000.00 for NIGHTTIME and WEEKEND |
| ValueLimitValidator.WindowOf | src/main/kotlin/com/trace/payments/application/service/ValueLimitValidator.kt:27-28 | The window a payment's sum is taken over contains the payment's instant |
| ValueLimitValidator.SpentInWindowAppend | src/main/kotlin/com/trace/payments/application/service/ValueLimitValidator.kt:27-29 | A newly stored payment raises the window sum seen at instant t by its amount exactly when it is the wallet's and inside t's window |
| ValueLimitValidator.Validate | src/main/kotlin/com/trace/payments/application/service/ValueLimitValidator.kt:22-38 | Over the cap: rejected with no period, whatever the history. Within it: passes exactly when window sum + amount <= the period's limit (reaching the limit passes). Otherwise rejected with the payment's period |
| ValueLimitValidator.PassKeepsWithinLimits | src/main/kotlin/com/trace/payments/application/service/ValueLimitValidator.kt:22-38 | A payment that passes is within the cap, and its window's sum including it is within the period's limit |
| ValueLimitValidator.OtherWalletsIrrelevant | src/main/kotlin/com/trace/payments/application/service/ValueLimitValidator.kt:29 | Other wallets' payments never change the verdict |
| ValueLimitValidator.ValidatorExamples | src/test/kotlin/com/trace/payments/application/service/ValueLimitValidatorTest.kt:22-90 | Under the defaults on a Monday at 10:00: 1001.00 is over the cap; 100.00 on top of 3950.00 breaks DAYTIME; 500.00 passes |
| TxCountLimitValidator.DayWindow | src/main/kotlin/com/trace/payments/application/service/TxCountLimitValidator.kt:27-29 | The day window runs from the UTC midnight of the payment's day for exactly 24 hours and contains the payment |
| TxCountLimitValidator.CountOnDayAppend | src/main/kotlin/com/trace/payments/application/service/TxCountLimitValidator.kt:27-30 | A newly stored payment raises the day count seen at instant t by one exactly when it is the wallet's and on t's UTC day |
| TxCountLimitValidator.MaxTxPerDay | src/main/kotlin/com/trace/payments/application/service/TxCountLimitValidator.kt:21-26 | Without an attached transaction-count policy no maximum applies |
| TxCountLimitValidator.MaxFromFirst | src/main/kotlin/com/trace/payments/application/service/TxCountLimitValidator.kt:21-26 | With one attached, the maximum is that of the first in attach order |
| TxCountLimitValidator.Validate | src/main/kotlin/com/trace/payments/application/service/TxCountLimitValidator.kt:20-34 | Without a maximum it passes. With one, it rejects (TX_COUNT_LIMIT, no period) exactly when the day already holds at least that many payments |
| TxCountLimitValidator.AmountIrrelevant | src/main/kotlin/com/trace/payments/application/service/TxCountLimitValidator.kt:20-34 | The amount never affects the verdict |
| TxCountLimitValidator.PassKeepsWithinMax | src/main/kotlin/com/trace/payments/application/service/TxCountLimitValidator.kt:30-33 | A payment that passes leaves its day with at most the maximum |
| TxCountLimitValidator.MidnightStartsNextDay | src/main/kotlin/com/trace/payments/application/service/TxCountLimitValidator.kt:27-30 | A payment at 00:00:00 of day d+1 counts for day d+1 and never for day d |
| TxCountLimitValidator.ValidatorExamples | src/test/kotlin/com/trace/payments/application/service/TxCountLimitValidatorTest.kt:21-73 | With five allowed per day, a day already holding five rejects and one holding two passes |
| PaymentService.ResolvedCategories | src/main/kotlin/com/trace/payments/application/service/PaymentService.kt:127 | The set holds exactly the categories of the attached ids that resolve |
| PaymentService.ResolveActivePolicyCategories | src/main/kotlin/com/trace/payments/application/service/PaymentService.kt:123-129 | Never empty. It is {VALUE_LIMIT} when nothing resolves, and otherwise exactly the resolved categories |
| PaymentService.ResolutionExamples | src/test/kotlin/com/trace/payments/application/service/PolicyCategoryResolutionTest.kt:12-58 | The six resolution cases: empty, all unresolved, one VL, one TX, two VL, VL and TX |
| PaymentService.OnlyTxCountPolicies | src/main/kotlin/com/trace/payments/application/service/PaymentService.kt:123-129 | A wallet whose resolving policies are all TX_COUNT_LIMIT is not value-limit checked |
| PaymentService.SupportsPartition | src/main/kotlin/com/trace/payments/application/service/ValueLimitValidator.kt:20 | Each category is supported by exactly one validator: VALUE_LIMIT by the value-limit one, TX_COUNT_LIMIT by the count one |
| PaymentService.Active | src/main/kotlin/com/trace/payments/application/service/PaymentService.kt:66 | The filter keeps exactly the validators that support some active category, and never adds one |
| PaymentService.ActiveAppend | src/main/kotlin/com/trace/payments/application/service/PaymentService.kt:66 | `filter` keeps list order: filtering a concatenation gives the filtered parts in order |
| PaymentService.RegisteredActive | src/main/kotlin/com/trace/payments/application/service/PaymentService.kt:66 | With the registered validators, the value-limit check comes first when VALUE_LIMIT is active, then the count check when TX_COUNT_LIMIT is active |
| PaymentService.ValueLimitReportedFirst | src/main/kotlin/com/trace/payments/application/service/PaymentService.kt:66 | When the value-limit validator rejects, that violation is the one reported, whatever the count validator would say |
| PaymentService.FirstRejection | src/main/kotlin/com/trace/payments/application/service/PaymentService.kt:66 | Pass exactly when every validator passes. A rejection is that of a validator all earlier ones passed |
| PaymentService.RunValidators | src/main/kotlin/com/trace/payments/application/service/PaymentService.kt:66 | The `forEach` loop, stopping at the first throw, yields the first rejection |
| PaymentService.HandleIdempotencyConflict | src/main/kotlin/com/trace/payments/application/service/PaymentService.kt:82-94 | Only a replay (not new) or Conflict. A replay is a stored payment with the key and the same payload; it happens exactly when such a payment exists |
| PaymentService.WalletMissing | src/main/kotlin/com/trace/payments/application/service/PaymentService.kt:56 | An unknown wallet gives WalletNotFound and stores nothing |
| PaymentService.KeyAlreadyStored | src/main/kotlin/com/trace/payments/application/service/PaymentService.kt:57-64 | A stored key replays its payment (not new) when wallet, amount and instant agree, conflicts otherwise, and stores nothing |
| PaymentService.RejectionStoresNothing | src/main/kotlin/com/trace/payments/application/service/PaymentService.kt:37-66 | A policy violation is the first rejection among the active validators, and nothing is stored |
| PaymentService.NewPaymentAppended | src/main/kotlin/com/trace/payments/application/service/PaymentService.kt:65-79 | A payment is accepted as new exactly when the wallet exists, the key is unseen, all active validators pass and no race is lost. Then exactly that APPROVED payment, with the request's fields and createdAt == updatedAt, is appended |
| PaymentService.OtherwiseUnchanged | src/main/kotlin/com/trace/payments/application/service/PaymentService.kt:31-94 | Any other outcome stores nothing of its own: the rows are unchanged, or hold only the concurrent payment |
| PaymentService.LostRace | src/main/kotlin/com/trace/payments/application/service/PaymentService.kt:41-43 | After losing a race to a same-key insert, the winner's payment is replayed if it has the same payload, else Conflict |
| PaymentService.AcceptKeepsConstraints | src/main/kotlin/com/trace/payments/application/service/PaymentService.kt:50-80 | Every call keeps the payments table's unique id and unique key |
| PaymentService.RetryAfterAcceptance | src/main/kotlin/com/trace/payments/application/service/PaymentService.kt:57-64 | A retry of an accepted request, with any new id and clock, replays the same payment and stores nothing. The same key with another payload conflicts |
| PaymentService.AcceptedWithinValueLimits | src/main/kotlin/com/trace/payments/application/service/PaymentService.kt:50-80 | When VALUE_LIMIT is active, a newly accepted payment is within the cap, and its window's sum including it is within its period's limit |
| PaymentService.AcceptedWithinTxCount | src/main/kotlin/com/trace/payments/application/service/PaymentService.kt:50-80 | When TX_COUNT_LIMIT applies, a newly accepted payment leaves its UTC day with at most the maximum |
| PaymentService.FifthPaymentRejected | src/test/kotlin/com/trace/payments/infrastructure/IntegrationTest.kt:171-178 | After four 1000.00 payments on Monday, 500.00 at 14:00 breaks DAYTIME and stores nothing |
| PaymentService.NextDayAccepted | src/test/kotlin/com/trace/payments/infrastructure/IntegrationTest.kt:179-180 | 500.00 on Tuesday at 10:00 is accepted as new: the daily limit resets |
| PaymentService.Accept | src/main/kotlin/com/trace/payments/application/service/PaymentService.kt:50-80 | A new payment is the APPROVED payment built from the request, id and clock, and it is the only row added. Any other outcome adds nothing, or only the concurrent payment |
| PaymentService.Commit | src/main/kotlin/com/trace/payments/application/service/PaymentService.kt:37-48 | The insert ends in Success or Conflict. It is new exactly when no race was lost and neither id nor key is taken, and then the payment is appended. Otherwise a Success replays a stored payment of the same key and payload |
| PaymentService.ListPayments | src/main/kotlin/com/trace/payments/application/service/PaymentService.kt:107-120 | None exactly for an unknown wallet. Otherwise the page and next cursor are exactly those of the repository's `list` for the same filter, cursor and limit: at most `limit` stored payments in the wallet's inclusive range, in ascending id order, with a next cursor equal to the last id shown. The total counts all matching payments whatever the cursor |
| PaymentService.PaymentService.CreatePayment | src/main/kotlin/com/trace/payments/application/service/PaymentService.kt:31-48 | The outcome and the new payment rows are those of `Accept`. The table invariants are kept, and only the payments table is written |
| PaymentService.PaymentService.Save | src/main/kotlin/com/trace/payments/application/service/PaymentService.kt:41-43 | The insert stores the payment only when neither its id nor its key is taken. On a clash, or after a concurrent insert of the key, the retry lookup decides the outcome. The table constraints are kept |
| PolicyService.CheckFieldsMeansRequiredFields | src/main/kotlin/com/trace/payments/application/service/PolicyService.kt:27-33 | The field checks pass exactly when the policy carries the fields its category requires. Otherwise they fail with the category's reason |
| PolicyService.AppendKeepsRequiredFields | src/main/kotlin/com/trace/payments/application/service/PolicyService.kt:27-47 | Storing a policy that passed the checks keeps every stored policy complete |
| PolicyService.ListPolicies | src/main/kotlin/com/trace/payments/application/service/PolicyService.kt:50-54 | The page and next cursor are exactly those of the repository's `list`. The total is the number of stored policies whatever the cursor. In a constrained table the page holds at most `limit` policies, each as `getById` returns it and past the cursor, in ascending id order, and a next cursor is the last id shown |
| PolicyService.PolicyService.CreatePolicy | src/main/kotlin/com/trace/payments/application/service/PolicyService.kt:18-48 | Fails with the category's field error exactly when a required field is missing, storing nothing. A complete policy with a fresh id is stored once, returned as given, and found by `getById`; a complete policy whose id is taken gives DuplicateId and stores nothing. The table invariant is kept |
| PolicyService.PolicyService.SetWalletPolicy | src/main/kotlin/com/trace/payments/application/service/PolicyService.kt:56-61 | None, changing nothing, exactly when the wallet or the policy is unknown. Otherwise true, and the wallet's policies become exactly [policyId]; other wallets are untouched |
| WalletService.Trim | src/main/kotlin/com/trace/payments/application/service/WalletService.kt:17 | The trimmed name neither starts nor ends with whitespace |
| WalletService.TrimIsSlice | src/main/kotlin/com/trace/payments/application/service/WalletService.kt:17 | The trimmed name is the slice of the name between a blank head and a blank tail |
| WalletService.TrimBlank | src/main/kotlin/com/trace/payments/application/service/WalletService.kt:17-18 | The trimmed name is empty exactly when the name is blank |
| WalletService.BlankTrimIsEmpty | src/main/kotlin/com/trace/payments/application/service/WalletService.kt:18 | `trimmed.isNotBlank()` is the same as the trimmed name being non-empty |
| WalletService.TrimIdempotent | src/main/kotlin/com/trace/payments/application/service/WalletService.kt:17 | Trimming twice is trimming once |
| WalletService.TrimExample | src/main/kotlin/com/trace/payments/application/service/WalletService.kt:17 | "  Alice  " is stored as "Alice" |
| WalletService.WhitespaceExamples | src/main/kotlin/com/trace/payments/application/service/WalletService.kt:17 | Spaces, tabs, line ends and the no-break and ideographic spaces count as whitespace for `trim`; letters, `_`, the zero-width space and NUL do not |
| WalletService.GetWalletPolicies | src/main/kotlin/com/trace/payments/application/service/WalletService.kt:30-33 | None exactly for an unknown wallet. Otherwise at most one policy: the one in the wallet's policy column, when it resolves |
| WalletService.WalletService.CreateWallet | src/main/kotlin/com/trace/payments/application/service/WalletService.kt:16-28 | Fails with BlankOwnerName exactly for a blank name, storing nothing. Otherwise the stored wallet has the trimmed, non-blank name, no policies and the given instant, and reading it back gives it |

## Left out

- HTTP controllers, request and response DTOs, mappers and exception messages are not modelled. The controllers' coercion of `limit` into 1..100 appears only as the precondition `1 <= limit` of the list functions.
- The framework configuration and the wiring of the application are not modelled. `PaymentService.Registered` records the validator order the application uses.
- Transactions and `SELECT … FOR UPDATE` are not modelled. Each service call is one atomic step. Interleavings of concurrent calls are not modelled, apart from one concurrent insert of the same key, which the `raced` parameter stands for.
- `isUniqueConstraintViolation` inspects exception messages; message inspection is not modelled. The model takes a unique-key violation to be exactly an insert whose id or key is already stored, or a lost race. Other exceptions, which the service rethrows, do not arise in the model.
- `Instant.now()` and `UUID.randomUUID()` are parameters (`now`, `newId`). A random id that collides with a stored one is handled like any unique violation.
- `BigDecimal` amounts are integer cents, and `compareTo` equality of amounts is integer equality. The columns round an amount with more than two decimals, such as 0.005, when it is stored. The model has no such amounts.
- UUIDs are integers, and their database ordering is integer ordering.
- `PolicyViolationException.policyType` is a string in the source and the category in the model. The violation's message text is not modelled.
- A policy row whose category text names no category makes `valueOf` throw in the source. In the model it reads as None, or is dropped from a listing. The table never holds such a row (`PolicyRepository.Constrained`).
- A primary-key clash on `createPolicy` or `createWallet` throws in the source. In the model it is the `DuplicateId` error.
- PaymentService.RetryAfterAcceptance assumes a request carries at most two decimals and a whole-second instant. For a finer request the source stores a rounded amount or truncated instant, and a retry of that request then compares unequal at PaymentService.kt:59 and gets Conflict instead of a replay.
- PaymentService.AcceptedWithinValueLimits is a statement about each acceptance, not a global invariant of the table. A window sum counts every payment of the wallet inside the window, whatever that payment's own period. The NIGHTTIME window [Friday 18:00, Saturday 06:00) holds Saturday WEEKEND payments, and [Sunday 18:00, Monday 06:00) holds Sunday ones, so a later payment can push an earlier window past its limit.
- PaymentService.AcceptedWithinValueLimits is not instantiated for the ten concurrent 150.00 night payments of the integration test. That scenario needs the interleaving of ten transactions, which is not modelled. Each acceptance is covered by the lemma.
